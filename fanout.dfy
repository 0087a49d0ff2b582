/**
 * Fan-out: which metrics each sink's file receives, how the sink files are
 * named, and what the sink directory holds once an iteration has committed.
 */
module Fanout {
  import opened Wrappers
  import opened Text
  import opened Batch

  /** `config::Sink`: a name and an optional exclusion pattern, seen only through its match predicate. */
  datatype Sink = Sink(name: string, selector: Option<string -> bool>)

  predicate DistinctNames(sinks: seq<Sink>) {
    forall i, j :: 0 <= i < j < |sinks| ==> sinks[i].name != sinks[j].name
  }

  /** A sink's selector is a blacklist: it drops the lines whose second word it matches. */
  predicate Excluded(selector: Option<string -> bool>, line: string) {
    match selector
    case None => false
    case Some(matches) =>
      match SecondWord(line)
      case None => false
      case Some(w) => matches(w)
  }

  /** Empty metrics are never written; the others unless the sink excludes them. */
  predicate Forwarded(selector: Option<string -> bool>, line: string) {
    line != [] && !Excluded(selector, line)
  }

  /** The metrics a sink receives, in metrics order. */
  function Kept(selector: Option<string -> bool>, metrics: seq<string>): seq<string> {
    if metrics == [] then []
    else
      var m := metrics[|metrics| - 1];
      Kept(selector, metrics[..|metrics| - 1]) + (if Forwarded(selector, m) then [m] else [])
  }

  /** The text of a sink's file: every metric it receives, each followed by a newline. */
  function SinkContent(selector: Option<string -> bool>, metrics: seq<string>): string {
    Terminated(Kept(selector, metrics))
  }

  /** `<sink>.tmp`, the file a sink's metrics are written to. */
  function TmpPath(name: string): string {
    name + ".tmp"
  }

  /** `<sink>-<now>.metrics`, the name a sink's file is committed under. */
  function DestPath(name: string, now: int): string {
    name + ("-" + IntToDecimal(now) + ".metrics")
  }

  function TmpPaths(sinks: seq<Sink>): set<string> {
    set k | 0 <= k < |sinks| :: TmpPath(sinks[k].name)
  }

  function DestPaths(sinks: seq<Sink>, now: int): set<string> {
    set k | 0 <= k < |sinks| :: DestPath(sinks[k].name, now)
  }

  /** The maps agree on every path outside `paths`. */
  ghost predicate SameOutside(a: map<string, string>, b: map<string, string>, paths: set<string>) {
    forall p :: p !in paths ==> (p in a <==> p in b) && (p in a ==> a[p] == b[p])
  }

  /** Every path a router with these sinks ever creates, renames or replaces. */
  ghost predicate RouterOwned(sinks: seq<Sink>, p: string) {
    || (exists k :: 0 <= k < |sinks| && p == TmpPath(sinks[k].name))
    || (exists k, now :: 0 <= k < |sinks| && p == DestPath(sinks[k].name, now))
  }

  /**
   * The sink directory after a committed iteration: each sink's metrics sit in
   * its `<sink>-<now>.metrics` file, no `<sink>.tmp` file is left, and nothing
   * else changed.
   */
  ghost predicate CommittedDir(before: map<string, string>, after: map<string, string>,
                               sinks: seq<Sink>, metrics: seq<string>, now: int) {
    && (forall k :: 0 <= k < |sinks| ==>
          && DestPath(sinks[k].name, now) in after
          && after[DestPath(sinks[k].name, now)] == SinkContent(sinks[k].selector, metrics)
          && TmpPath(sinks[k].name) !in after)
    && SameOutside(before, after, TmpPaths(sinks) + DestPaths(sinks, now))
  }

  lemma {:induction false} KeptAppend(selector: Option<string -> bool>, a: seq<string>, b: seq<string>)
    ensures Kept(selector, a + b) == Kept(selector, a) + Kept(selector, b)
    decreases |b|
  {
    if b == [] {
      assert a + b == a;
    } else {
      var b' := b[..|b| - 1];
      assert (a + b)[..|a + b| - 1] == a + b';
      KeptAppend(selector, a, b');
    }
  }

  /** A sink receives exactly the forwarded metrics, each as often as it occurs, in metrics order. */
  lemma {:induction false} KeptMembers(selector: Option<string -> bool>, metrics: seq<string>)
    ensures forall m :: m in Kept(selector, metrics) <==> m in metrics && Forwarded(selector, m)
    ensures multiset(Kept(selector, metrics)) <= multiset(metrics)
  {
    if metrics != [] {
      var init := metrics[..|metrics| - 1];
      assert metrics == init + [metrics[|metrics| - 1]];
      KeptMembers(selector, init);
    }
  }

  /** A sink without selector receives every non-empty metric; with a selector, those its pattern does not match. */
  lemma ForwardedIff(selector: Option<string -> bool>, line: string)
    ensures Forwarded(selector, line) <==>
      line != [] && (selector.None? || SecondWord(line).None? || !selector.value(SecondWord(line).value))
  {
  }

  /** For a line `w0 w1 ...`, whatever whitespace surrounds its words, the exclusion tests `w1`. */
  lemma ExcludedTestsSecondWord(matches: string -> bool, line: string,
                                sp0: string, w0: string, sp1: string, w1: string, rest: string)
    requires SplitsAsSecond(line, sp0, w0, sp1, w1, rest)
    ensures Excluded(Some(matches), line) <==> matches(w1)
  {
    SecondWordOfSplit(line, sp0, w0, sp1, w1, rest);
  }

  /** A selector drops exactly the lines that have a second word it matches; lines of fewer words pass. */
  lemma ExcludedIff(matches: string -> bool, line: string)
    ensures Excluded(Some(matches), line) <==>
      exists sp0, w0, sp1, w1, rest :: SplitsAsSecond(line, sp0, w0, sp1, w1, rest) && matches(w1)
  {
    if Excluded(Some(matches), line) {
      var sp0, w0, sp1, rest := SecondWordSplits(line);
      assert SplitsAsSecond(line, sp0, w0, sp1, SecondWord(line).value, rest);
    }
    if exists sp0, w0, sp1, w1, rest :: SplitsAsSecond(line, sp0, w0, sp1, w1, rest) && matches(w1) {
      var sp0, w0, sp1, w1, rest :| SplitsAsSecond(line, sp0, w0, sp1, w1, rest) && matches(w1);
      SecondWordOfSplit(line, sp0, w0, sp1, w1, rest);
    }
  }

  lemma SinkContentAppend(selector: Option<string -> bool>, metrics: seq<string>, m: string)
    ensures SinkContent(selector, metrics + [m])
         == SinkContent(selector, metrics) + (if Forwarded(selector, m) then m + "\n" else "")
  {
    assert (metrics + [m])[..|metrics|] == metrics;
    assert Kept(selector, metrics + [m]) == Kept(selector, metrics) + (if Forwarded(selector, m) then [m] else []);
    var kept := Kept(selector, metrics);
    if Forwarded(selector, m) {
      TerminatedAppend(kept, m);
      assert Terminated(kept) + m + "\n" == Terminated(kept) + (m + "\n");
    } else {
      assert kept + [] == kept;
    }
  }

  lemma {:induction false} KeptPlain(selector: Option<string -> bool>, metrics: seq<string>)
    requires forall k :: 0 <= k < |metrics| ==> IsPlainLine(metrics[k])
    ensures forall k :: 0 <= k < |Kept(selector, metrics)| ==> IsPlainLine(Kept(selector, metrics)[k])
  {
    KeptMembers(selector, metrics);
    var kept := Kept(selector, metrics);
    forall k | 0 <= k < |kept|
      ensures IsPlainLine(kept[k])
    {
      assert kept[k] in metrics;
    }
  }

  /** A sink reader that splits the committed file into lines gets back exactly the forwarded metrics. */
  lemma SinkContentReadsBack(selector: Option<string -> bool>, metrics: seq<string>)
    requires forall k :: 0 <= k < |metrics| ==> IsPlainLine(metrics[k])
    ensures Lines(SinkContent(selector, metrics)) == Kept(selector, metrics)
  {
    KeptPlain(selector, metrics);
    LinesOfTerminated(Kept(selector, metrics));
  }

  lemma {:induction false} TerminatedConcat(a: seq<string>, b: seq<string>)
    ensures Terminated(a + b) == Terminated(a) + Terminated(b)
  {
    if a == [] {
      assert a + b == b;
    } else {
      assert (a + b)[1..] == a[1..] + b;
      TerminatedConcat(a[1..], b);
    }
  }

  /**
   * Each sink file is the concatenation, file by file in batch order, of what
   * each loaded source file forwards to that sink.
   */
  lemma SinkContentPerFile(selector: Option<string -> bool>, contents: map<string, string>, labels: string,
                           names: seq<string>, n: string)
    requires n in contents
    ensures SinkContent(selector, BatchMetrics(contents, labels, names + [n]))
         == SinkContent(selector, BatchMetrics(contents, labels, names))
          + SinkContent(selector, Labels.RelabelLines(labels, Lines(contents[n])))
  {
    assert (names + [n])[..|names|] == names;
    var a, b := BatchMetrics(contents, labels, names), Labels.RelabelLines(labels, Lines(contents[n]));
    assert BatchMetrics(contents, labels, names + [n]) == a + b;
    KeptAppend(selector, a, b);
    TerminatedConcat(Kept(selector, a), Kept(selector, b));
  }

  lemma TmpPathInjective(a: string, b: string)
    ensures TmpPath(a) == TmpPath(b) ==> a == b
  {
    if TmpPath(a) == TmpPath(b) {
      SuffixCancel(a, b, ".tmp");
    }
  }

  lemma DestPathInjective(a: string, b: string, now: int)
    ensures DestPath(a, now) == DestPath(b, now) ==> a == b
  {
    if DestPath(a, now) == DestPath(b, now) {
      SuffixCancel(a, b, "-" + IntToDecimal(now) + ".metrics");
    }
  }

  /** A sink's committed names for two different timestamps differ. */
  lemma DestPathNowInjective(a: string, t1: int, t2: int)
    ensures DestPath(a, t1) == DestPath(a, t2) ==> t1 == t2
  {
    if DestPath(a, t1) == DestPath(a, t2) {
      var d1, d2 := IntToDecimal(t1), IntToDecimal(t2);
      PrefixCancel(a, "-" + d1 + ".metrics", "-" + d2 + ".metrics");
      assert "-" + d1 + ".metrics" == "-" + (d1 + ".metrics");
      assert "-" + d2 + ".metrics" == "-" + (d2 + ".metrics");
      PrefixCancel("-", d1 + ".metrics", d2 + ".metrics");
      SuffixCancel(d1, d2, ".metrics");
      IntToDecimalInjective(t1, t2);
    }
  }

  /**
   * For timestamps from 1970 on, committed names under different timestamps
   * differ whatever the sinks' names: the timestamp is the digits after the last `-`.
   */
  lemma DestPathsApart(a: string, b: string, t1: int, t2: int)
    requires 0 <= t1 && 0 <= t2 && t1 != t2
    ensures DestPath(a, t1) != DestPath(b, t2)
  {
    var d1, d2 := IntToDecimal(t1), IntToDecimal(t2);
    if DestPath(a, t1) == DestPath(b, t2) {
      assert DestPath(a, t1) == (a + "-" + d1) + ".metrics";
      assert DestPath(b, t2) == (b + "-" + d2) + ".metrics";
      SuffixCancel(a + "-" + d1, b + "-" + d2, ".metrics");
      DashDigitsSplit(a, b, d1, d2);
      IntToDecimalInjective(t1, t2);
    }
  }

  /** Before 1970 the sign makes two sinks' names collide: `s` at -1 and `s-` at 1. */
  lemma NegativeStampsCollide()
    ensures DestPath("s", -1) == DestPath("s-", 1)
  {
    assert NatToDecimal(1) == "1";
    assert IntToDecimal(-1) == "-1";
  }

  /** A tmp file name ends in `.tmp`, a committed one in `.metrics`: they never collide. */
  lemma TmpIsNotDest(a: string, b: string, now: int)
    ensures TmpPath(a) != DestPath(b, now)
  {
    var t, d := TmpPath(a), DestPath(b, now);
    assert t[|t| - 1] == 'p';
    assert d[|d| - 1] == 's';
  }

  /** With distinct sink names, the tmp and committed names of different sinks are all different. */
  lemma SinkPathsDistinct(sinks: seq<Sink>, now: int)
    requires DistinctNames(sinks)
    ensures forall i, j :: 0 <= i < |sinks| && 0 <= j < |sinks| && i != j ==>
              TmpPath(sinks[i].name) != TmpPath(sinks[j].name)
              && DestPath(sinks[i].name, now) != DestPath(sinks[j].name, now)
    ensures forall i, j :: 0 <= i < |sinks| && 0 <= j < |sinks| ==> TmpPath(sinks[i].name) != DestPath(sinks[j].name, now)
  {
    forall i, j | 0 <= i < |sinks| && 0 <= j < |sinks|
      ensures i != j ==> TmpPath(sinks[i].name) != TmpPath(sinks[j].name)
      ensures i != j ==> DestPath(sinks[i].name, now) != DestPath(sinks[j].name, now)
      ensures TmpPath(sinks[i].name) != DestPath(sinks[j].name, now)
    {
      TmpPathInjective(sinks[i].name, sinks[j].name);
      DestPathInjective(sinks[i].name, sinks[j].name, now);
      TmpIsNotDest(sinks[i].name, sinks[j].name, now);
    }
  }

  lemma RouterOwnsSinkPaths(sinks: seq<Sink>, now: int, p: string)
    requires p in TmpPaths(sinks) + DestPaths(sinks, now)
    ensures RouterOwned(sinks, p)
  {
    if p !in TmpPaths(sinks) {
      var k :| 0 <= k < |sinks| && p == DestPath(sinks[k].name, now);
    }
  }

  /**
   * Two iterations that read the same `now` commit under the same names: the
   * second replaces the first one's files, whatever the sink reader has not
   * yet taken from them. When the two batches give a sink different content,
   * the first batch's file for that sink is gone from the directory.
   */
  lemma SameSecondCommitReplaces(d0: map<string, string>, d1: map<string, string>, d2: map<string, string>,
                                 sinks: seq<Sink>, m1: seq<string>, m2: seq<string>, now: int, k: nat)
    requires k < |sinks|
    requires CommittedDir(d0, d1, sinks, m1, now) && CommittedDir(d1, d2, sinks, m2, now)
    ensures d1[DestPath(sinks[k].name, now)] == SinkContent(sinks[k].selector, m1)
    ensures d2[DestPath(sinks[k].name, now)] == SinkContent(sinks[k].selector, m2)
    ensures SinkContent(sinks[k].selector, m1) != SinkContent(sinks[k].selector, m2) ==>
      d2[DestPath(sinks[k].name, now)] != d1[DestPath(sinks[k].name, now)]
  {
  }

  /** Commits under different timestamps from 1970 on leave the earlier commit's files in place. */
  lemma DistinctSecondsKeepCommits(d0: map<string, string>, d1: map<string, string>, d2: map<string, string>,
                                   sinks: seq<Sink>, m1: seq<string>, m2: seq<string>, now1: int, now2: int, k: nat)
    requires k < |sinks| && 0 <= now1 && 0 <= now2 && now1 != now2
    requires CommittedDir(d0, d1, sinks, m1, now1) && CommittedDir(d1, d2, sinks, m2, now2)
    ensures DestPath(sinks[k].name, now1) in d2
    ensures d2[DestPath(sinks[k].name, now1)] == SinkContent(sinks[k].selector, m1)
  {
    var p := DestPath(sinks[k].name, now1);
    forall j | 0 <= j < |sinks|
      ensures p != TmpPath(sinks[j].name) && p != DestPath(sinks[j].name, now2)
    {
      TmpIsNotDest(sinks[j].name, sinks[k].name, now1);
      DestPathsApart(sinks[k].name, sinks[j].name, now1, now2);
    }
    assert p !in TmpPaths(sinks) + DestPaths(sinks, now2);
  }

  /**
   * A commit timestamp that always moves on: the clock when it has passed the
   * previous commit's timestamp, and one second past it otherwise.
   */
  function CommitStamp(prev: int, clock: int): (r: int)
    ensures r > prev && r >= clock
    ensures clock > prev ==> r == clock
  {
    if clock > prev then clock else prev + 1
  }

  /** With timestamps taken by `CommitStamp`, a second commit never replaces the first one's files. */
  lemma CommitStampKeepsCommits(d0: map<string, string>, d1: map<string, string>, d2: map<string, string>,
                                sinks: seq<Sink>, m1: seq<string>, m2: seq<string>, now1: int, clock: int, k: nat)
    requires k < |sinks| && 0 <= now1
    requires CommittedDir(d0, d1, sinks, m1, now1) && CommittedDir(d1, d2, sinks, m2, CommitStamp(now1, clock))
    ensures DestPath(sinks[k].name, now1) in d2
    ensures d2[DestPath(sinks[k].name, now1)] == SinkContent(sinks[k].selector, m1)
  {
    DistinctSecondsKeepCommits(d0, d1, d2, sinks, m1, m2, now1, CommitStamp(now1, clock), k);
  }
}
