/** The timing arithmetic of the router loop (src/router.rs, `router`). */
module Schedule {
  import opened Ints

  /** `REST_TIME`: the length, in milliseconds, of one sleep slice between two looks at the stop flag. */
  const REST_TIME: u64 := 10

  function Max(a: int, b: int): int {
    if a >= b then a else b
  }

  /**
   * `(now - start).num_milliseconds() as u64`: the cast keeps the 64 low bits,
   * so a clock that went backwards reads as a huge elapsed time.
   */
  function ElapsedMillis(ms: i64): (e: u64)
    ensures e % TWO_TO_THE_64 == ms % TWO_TO_THE_64
    ensures ms < 0 ==> e >= TWO_TO_THE_63
  {
    if ms >= 0 then ms else ms + TWO_TO_THE_64
  }

  /**
   * The pause after a routing cycle that took `elapsed` milliseconds: the rest
   * of the scan period, but never less than one rest slice. The subtraction is
   * only made when it cannot underflow.
   */
  function SleepTime(elapsed: u64, scanPeriod: u64): (t: u64)
    ensures t >= REST_TIME
    ensures t <= Max(scanPeriod, REST_TIME)
    ensures scanPeriod <= elapsed + t
    ensures elapsed + REST_TIME <= scanPeriod ==> elapsed + t == scanPeriod
    ensures scanPeriod < elapsed + REST_TIME ==> t == REST_TIME
  {
    if elapsed > scanPeriod then REST_TIME else Max(scanPeriod - elapsed, REST_TIME)
  }

  /** `sleep_time / REST_TIME`: how many rest slices are slept, and the flag polled, after a cycle. */
  function PollCount(sleepTime: u64): (n: nat)
    ensures n * REST_TIME <= sleepTime < n * REST_TIME + REST_TIME
    ensures sleepTime >= REST_TIME ==> n >= 1
  {
    sleepTime / REST_TIME
  }

  /** After every cycle the flag is polled at least once, and the slices slept never exceed the computed pause. */
  lemma PollsPerCycle(elapsed: u64, scanPeriod: u64)
    ensures PollCount(SleepTime(elapsed, scanPeriod)) >= 1
    ensures PollCount(SleepTime(elapsed, scanPeriod)) * REST_TIME <= Max(scanPeriod, REST_TIME)
  {
  }

  /** A cycle during which the clock went backwards is followed by the minimum rest only. */
  lemma BackwardClockRestsMinimum(ms: i64, scanPeriod: u64)
    requires ms < 0 && scanPeriod < TWO_TO_THE_63
    ensures SleepTime(ElapsedMillis(ms), scanPeriod) == REST_TIME
  {
  }
}
