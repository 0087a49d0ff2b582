/**
 * Batch selection: which files of one directory listing `route` loads, and the
 * metrics it builds from them (src/router.rs, the entry loop of `route`).
 */
module Batch {
  import opened Wrappers
  import opened Text
  import opened Labels
  import opened Disk

  /** The files of one iteration, the relabelled metrics read from them and their total size in bytes. */
  datatype Batch = Batch(files: seq<string>, metrics: seq<string>, size: nat)

  /** The outcome of the entry loop: a batch, or the index of the directory entry that could not be read. */
  datatype Selection = Selected(batch: Batch) | EntryFailed(index: nat)

  /** What the entry loop sees of the source directory during one epoch. */
  datatype View = View(entries: seq<string>, contents: map<string, string>, fault: (nat, Op) -> bool, epoch: nat)

  /** The two per-iteration ceilings: `batch_count` files and `batch_size` bytes. */
  datatype Limits = Limits(batchCount: nat, batchSize: nat)

  /** The files the entry loop has loaded so far and their total size in bytes. */
  datatype Load = Load(files: seq<string>, size: nat)

  const NoLoad: Load := Load([], 0)

  predicate IsMetricsFile(name: string) {
    Extension(name) == Some("metrics")
  }

  /** `read` of this name succeeds in the view's epoch. */
  predicate Readable(v: View, name: string) {
    name in v.contents && !v.fault(v.epoch, Op.Read(name))
  }

  /** A file the entry loop takes once the ceilings let it through. */
  predicate Admissible(v: View, name: string) {
    IsMetricsFile(name) && Readable(v, name)
  }

  /**
   * The entry loop from index `i` on, with `acc` loaded so far: the files it
   * loads, or the index of the entry whose read failed. Entry indices count
   * every entry, metrics file or not; the ceilings are checked before a file
   * is added, against what is already loaded.
   */
  function Scan(v: View, lim: Limits, i: nat, acc: Load): Result<Load, nat>
    requires i <= |v.entries|
    decreases |v.entries| - i
  {
    if i == |v.entries| then Ok(acc)
    else if v.fault(v.epoch, Op.Entry(i)) then Err(i)
    else if !IsMetricsFile(v.entries[i]) then Scan(v, lim, i + 1, acc)
    else if i > lim.batchCount || acc.size > lim.batchSize then Ok(acc)
    else if !Readable(v, v.entries[i]) then Scan(v, lim, i + 1, acc)
    else
      var name := v.entries[i];
      Scan(v, lim, i + 1, Load(acc.files + [name], acc.size + ByteLen(v.contents[name])))
  }

  /** One entry the loop passes over without loading it. */
  lemma ScanSkips(v: View, lim: Limits, i: nat, acc: Load)
    requires i < |v.entries| && !v.fault(v.epoch, Op.Entry(i))
    requires !IsMetricsFile(v.entries[i])
          || (!(i > lim.batchCount || acc.size > lim.batchSize) && !Readable(v, v.entries[i]))
    ensures Scan(v, lim, i, acc) == Scan(v, lim, i + 1, acc)
  {
  }

  /** One entry the loop loads. */
  lemma ScanLoads(v: View, lim: Limits, i: nat, acc: Load, name: string, next: Load)
    requires i < |v.entries| && !v.fault(v.epoch, Op.Entry(i))
    requires name == v.entries[i] && IsMetricsFile(name) && !(i > lim.batchCount || acc.size > lim.batchSize)
    requires Readable(v, name)
    requires next == Load(acc.files + [name], acc.size + ByteLen(v.contents[name]))
    ensures Scan(v, lim, i, acc) == Scan(v, lim, i + 1, next)
  {
  }

  /** The batch of one listing: the files the entry loop loads, with their relabelled metrics in file order. */
  function Select(v: View, labels: string, lim: Limits): Selection {
    match Scan(v, lim, 0, NoLoad)
    case Err(i) => EntryFailed(i)
    case Ok(l) => Selected(Batch(l.files, BatchMetrics(v.contents, labels, l.files), l.size))
  }

  /** Total size in bytes of the named files. */
  function SizeOf(contents: map<string, string>, names: seq<string>): nat {
    if names == [] then 0
    else
      var n := names[|names| - 1];
      SizeOf(contents, names[..|names| - 1]) + (if n in contents then ByteLen(contents[n]) else 0)
  }

  /** The metrics of the named files: files in order, then lines in file order. */
  function BatchMetrics(contents: map<string, string>, labels: string, names: seq<string>): seq<string> {
    if names == [] then []
    else
      var n := names[|names| - 1];
      BatchMetrics(contents, labels, names[..|names| - 1])
      + (if n in contents then RelabelLines(labels, Lines(contents[n])) else [])
  }

  /** The admissible names of `names`, in order. */
  function AdmissibleOf(v: View, names: seq<string>): seq<string> {
    if names == [] then []
    else
      var n := names[|names| - 1];
      AdmissibleOf(v, names[..|names| - 1]) + (if Admissible(v, n) then [n] else [])
  }

  lemma {:induction false} AdmissibleOfMembers(v: View, names: seq<string>)
    ensures forall n :: n in AdmissibleOf(v, names) <==> n in names && Admissible(v, n)
  {
    if names != [] {
      var init := names[..|names| - 1];
      assert names == init + [names[|names| - 1]];
      AdmissibleOfMembers(v, init);
    }
  }

  lemma {:induction false} AdmissibleOfDistinct(v: View, names: seq<string>)
    requires Distinct(names)
    ensures Distinct(AdmissibleOf(v, names))
  {
    if names != [] {
      var init, last := names[..|names| - 1], names[|names| - 1];
      assert names == init + [last];
      assert Distinct(init);
      AdmissibleOfDistinct(v, init);
      AdmissibleOfMembers(v, init);
      assert last !in init;
    }
  }

  /**
   * What is loaded after index `i`: the admissible entries before it, with
   * their total size; no entry before it failed, and every metrics entry
   * before it passed both ceiling checks.
   */
  ghost predicate ScannedUpTo(v: View, lim: Limits, i: nat, acc: Load)
    requires i <= |v.entries|
  {
    && acc.files == AdmissibleOf(v, v.entries[..i])
    && acc.size == SizeOf(v.contents, acc.files)
    && (forall k :: 0 <= k < i ==> !v.fault(v.epoch, Op.Entry(k)))
    && (forall k :: 0 <= k < i && IsMetricsFile(v.entries[k]) ==>
          k <= lim.batchCount && SizeOf(v.contents, AdmissibleOf(v, v.entries[..k])) <= lim.batchSize)
  }

  /**
   * Where the entry loop stops: the end of the listing, or a metrics file,
   * itself read from the directory without failure, that a ceiling turns away.
   */
  ghost predicate StopsAt(v: View, lim: Limits, stop: nat, files: seq<string>) {
    stop == |v.entries|
    || (stop < |v.entries| && !v.fault(v.epoch, Op.Entry(stop)) && IsMetricsFile(v.entries[stop])
        && (stop > lim.batchCount || SizeOf(v.contents, files) > lim.batchSize))
  }

  /** Passing over an entry without loading it keeps the description of what is loaded. */
  lemma ScannedPastSkip(v: View, lim: Limits, i: nat, acc: Load)
    requires i < |v.entries| && ScannedUpTo(v, lim, i, acc) && !v.fault(v.epoch, Op.Entry(i))
    requires !IsMetricsFile(v.entries[i])
          || (!(i > lim.batchCount || acc.size > lim.batchSize) && !Readable(v, v.entries[i]))
    ensures ScannedUpTo(v, lim, i + 1, acc)
  {
    var name := v.entries[i];
    assert v.entries[..i + 1] == v.entries[..i] + [name];
    assert v.entries[..i + 1][..i] == v.entries[..i];
    assert AdmissibleOf(v, v.entries[..i + 1]) == acc.files;
    forall k | 0 <= k < i + 1 && IsMetricsFile(v.entries[k])
      ensures k <= lim.batchCount && SizeOf(v.contents, AdmissibleOf(v, v.entries[..k])) <= lim.batchSize
    {
      if k == i {
        assert v.entries[..k] == v.entries[..i];
      }
    }
  }

  /** Loading an entry extends the description by that file. */
  lemma ScannedPastLoad(v: View, lim: Limits, i: nat, acc: Load, name: string, next: Load)
    requires i < |v.entries| && ScannedUpTo(v, lim, i, acc) && !v.fault(v.epoch, Op.Entry(i))
    requires name == v.entries[i] && IsMetricsFile(name) && !(i > lim.batchCount || acc.size > lim.batchSize)
    requires Readable(v, name)
    requires next == Load(acc.files + [name], acc.size + ByteLen(v.contents[name]))
    ensures ScannedUpTo(v, lim, i + 1, next)
  {
    assert v.entries[..i + 1] == v.entries[..i] + [name];
    assert v.entries[..i + 1][..i] == v.entries[..i];
    assert AdmissibleOf(v, v.entries[..i + 1]) == next.files;
    assert next.files[..|next.files| - 1] == acc.files;
    forall k | 0 <= k < i + 1 && IsMetricsFile(v.entries[k])
      ensures k <= lim.batchCount && SizeOf(v.contents, AdmissibleOf(v, v.entries[..k])) <= lim.batchSize
    {
      if k == i {
        assert v.entries[..k] == v.entries[..i];
      }
    }
  }

  lemma {:induction false} ScanStops(v: View, lim: Limits, i: nat, acc: Load)
    requires i <= |v.entries|
    requires ScannedUpTo(v, lim, i, acc)
    ensures Scan(v, lim, i, acc).Ok? ==>
      exists stop :: i <= stop <= |v.entries| && ScannedUpTo(v, lim, stop, Scan(v, lim, i, acc).value)
                     && StopsAt(v, lim, stop, Scan(v, lim, i, acc).value.files)
    decreases |v.entries| - i
  {
    if i == |v.entries| {
      assert StopsAt(v, lim, i, acc.files);
    } else if v.fault(v.epoch, Op.Entry(i)) {
    } else {
      var name := v.entries[i];
      if !IsMetricsFile(name) || (!(i > lim.batchCount || acc.size > lim.batchSize) && !Readable(v, name)) {
        ScannedPastSkip(v, lim, i, acc);
        ScanSkips(v, lim, i, acc);
        ScanStops(v, lim, i + 1, acc);
      } else if i > lim.batchCount || acc.size > lim.batchSize {
        assert StopsAt(v, lim, i, acc.files);
      } else {
        var next := Load(acc.files + [name], acc.size + ByteLen(v.contents[name]));
        ScannedPastLoad(v, lim, i, acc, name, next);
        ScanLoads(v, lim, i, acc, name, next);
        ScanStops(v, lim, i + 1, next);
      }
    }
  }

  /**
   * The selection, completely: the loop runs up to a stop index, loads exactly
   * the admissible entries before it in listing order, every metrics entry
   * before it passed both ceiling checks, and it stops at the end of the
   * listing or at the first metrics entry whose index exceeds `batch_count` or
   * that finds more than `batch_size` bytes already loaded.
   */
  lemma SelectIsAdmissiblePrefix(v: View, labels: string, lim: Limits)
    ensures Select(v, labels, lim).Selected? ==>
      var b := Select(v, labels, lim).batch;
      exists stop :: 0 <= stop <= |v.entries| && ScannedUpTo(v, lim, stop, Load(b.files, b.size))
                     && StopsAt(v, lim, stop, b.files)
  {
    assert v.entries[..0] == [];
    ScanStops(v, lim, 0, NoLoad);
  }

  lemma {:induction false} ScanEntryFailure(v: View, lim: Limits, i: nat, acc: Load)
    requires i <= |v.entries| && ScannedUpTo(v, lim, i, acc)
    ensures Scan(v, lim, i, acc).Err? ==>
      var j := Scan(v, lim, i, acc).error;
      && i <= j < |v.entries| && v.fault(v.epoch, Op.Entry(j))
      && exists l :: ScannedUpTo(v, lim, j, l)
    decreases |v.entries| - i
  {
    if i < |v.entries| && !v.fault(v.epoch, Op.Entry(i)) {
      var name := v.entries[i];
      if !IsMetricsFile(name) || !(i > lim.batchCount || acc.size > lim.batchSize) {
        if !IsMetricsFile(name) || !Readable(v, name) {
          ScannedPastSkip(v, lim, i, acc);
          ScanEntryFailure(v, lim, i + 1, acc);
        } else {
          var next := Load(acc.files + [name], acc.size + ByteLen(v.contents[name]));
          ScannedPastLoad(v, lim, i, acc, name, next);
          ScanEntryFailure(v, lim, i + 1, next);
        }
      }
    }
  }

  /**
   * A failed entry read aborts the selection at the first entry that fails,
   * provided the loop got that far: every metrics entry before it passed both
   * ceiling checks.
   */
  lemma SelectEntryFailure(v: View, labels: string, lim: Limits)
    ensures Select(v, labels, lim).EntryFailed? ==>
      var j := Select(v, labels, lim).index;
      && j < |v.entries| && v.fault(v.epoch, Op.Entry(j))
      && (forall k :: 0 <= k < j ==> !v.fault(v.epoch, Op.Entry(k)))
      && (forall k :: 0 <= k < j && IsMetricsFile(v.entries[k]) ==>
            k <= lim.batchCount && SizeOf(v.contents, AdmissibleOf(v, v.entries[..k])) <= lim.batchSize)
  {
    assert v.entries[..0] == [];
    ScanEntryFailure(v, lim, 0, NoLoad);
  }

  /**
   * The two outcomes exclude each other: where the loop can stop with a
   * batch, no entry it could have reached with all ceiling checks passed
   * failed to be read. With `SelectIsAdmissiblePrefix` and
   * `SelectEntryFailure` this decides which outcome a listing has.
   */
  lemma StopExcludesFailure(v: View, lim: Limits, stop: nat, done: Load, j: nat, upTo: Load)
    requires stop <= |v.entries| && ScannedUpTo(v, lim, stop, done) && StopsAt(v, lim, stop, done.files)
    requires j < |v.entries| && ScannedUpTo(v, lim, j, upTo)
    ensures !v.fault(v.epoch, Op.Entry(j))
  {
  }

  lemma {:induction false} ScanCount(v: View, lim: Limits, i: nat, acc: Load)
    requires i <= |v.entries|
    requires |acc.files| <= i && |acc.files| <= lim.batchCount + 1
    ensures Scan(v, lim, i, acc).Ok? ==> |Scan(v, lim, i, acc).value.files| <= lim.batchCount + 1
    decreases |v.entries| - i
  {
    if i < |v.entries| && !v.fault(v.epoch, Op.Entry(i)) {
      var name := v.entries[i];
      if !IsMetricsFile(name) || !(i > lim.batchCount || acc.size > lim.batchSize) {
        if !IsMetricsFile(name) || !Readable(v, name) {
          ScanCount(v, lim, i + 1, acc);
        } else {
          ScanCount(v, lim, i + 1, Load(acc.files + [name], acc.size + ByteLen(v.contents[name])));
        }
      }
    }
  }

  /** The file-count ceiling is overshot by at most one file: at most `batch_count + 1` files are loaded. */
  lemma SelectCountBound(v: View, labels: string, lim: Limits)
    ensures Select(v, labels, lim).Selected? ==> |Select(v, labels, lim).batch.files| <= lim.batchCount + 1
  {
    ScanCount(v, lim, 0, NoLoad);
  }

  /**
   * The byte ceiling is overshot by at most the last file: the files before it
   * add up to at most `batch_size` bytes.
   */
  lemma SelectSizeBound(v: View, labels: string, lim: Limits)
    ensures Select(v, labels, lim).Selected? ==>
      var files := Select(v, labels, lim).batch.files;
      files != [] ==> SizeOf(v.contents, files[..|files| - 1]) <= lim.batchSize
  {
    SelectIsAdmissiblePrefix(v, labels, lim);
    if Select(v, labels, lim).Selected? {
      var b := Select(v, labels, lim).batch;
      var stop :| 0 <= stop <= |v.entries| && ScannedUpTo(v, lim, stop, Load(b.files, b.size)) && StopsAt(v, lim, stop, b.files);
      if b.files != [] {
        LastAdmissibleChecked(v, lim, stop, b.files);
      }
    }
  }

  /** The last loaded file passed the size check against the files loaded before it. */
  lemma {:induction false} LastAdmissibleChecked(v: View, lim: Limits, stop: nat, files: seq<string>)
    requires stop <= |v.entries|
    requires files == AdmissibleOf(v, v.entries[..stop]) && files != []
    requires forall k :: 0 <= k < stop && IsMetricsFile(v.entries[k]) ==>
               SizeOf(v.contents, AdmissibleOf(v, v.entries[..k])) <= lim.batchSize
    ensures SizeOf(v.contents, files[..|files| - 1]) <= lim.batchSize
    decreases stop
  {
    if stop > 0 {
      var pre := v.entries[..stop - 1];
      var last := v.entries[stop - 1];
      assert v.entries[..stop] == pre + [last];
      assert v.entries[..stop][..stop - 1] == pre;
      if Admissible(v, last) {
        assert files[..|files| - 1] == AdmissibleOf(v, pre);
      } else {
        assert files == AdmissibleOf(v, pre);
        LastAdmissibleChecked(v, lim, stop - 1, files);
      }
    }
  }

  lemma {:induction false} SizeOfPrefix(contents: map<string, string>, names: seq<string>, k: nat)
    requires k <= |names|
    ensures SizeOf(contents, names[..k]) <= SizeOf(contents, names)
    decreases |names|
  {
    if k < |names| {
      var init := names[..|names| - 1];
      assert names[..k] == init[..k];
      SizeOfPrefix(contents, init, k);
    } else {
      assert names[..k] == names;
    }
  }

  /** One more entry of a listing: its prefix grows by that entry, and so does the prefix's size. */
  lemma PrefixSnoc(contents: map<string, string>, names: seq<string>, i: nat, next: seq<string>)
    requires i < |names| && next == names[..i] + [names[i]]
    ensures names[..i + 1] == next
    ensures SizeOf(contents, next)
         == SizeOf(contents, names[..i]) + (if names[i] in contents then ByteLen(contents[names[i]]) else 0)
  {
    assert next[..i] == names[..i];
  }

  /** A metrics entry that a ceiling turns away ends the loop with what is loaded. */
  lemma ScanTurnsAway(v: View, lim: Limits, i: nat, acc: Load)
    requires i < |v.entries| && !v.fault(v.epoch, Op.Entry(i)) && IsMetricsFile(v.entries[i])
    requires i > lim.batchCount || acc.size > lim.batchSize
    ensures Scan(v, lim, i, acc) == Ok(acc)
  {
  }

  /** One step of the selection when every entry is a small readable metrics file: it is loaded. */
  lemma ScanAllStep(v: View, lim: Limits, i: nat, acc: Load) returns (next: Load)
    requires i < |v.entries| && i <= lim.batchCount
    requires Admissible(v, v.entries[i]) && !v.fault(v.epoch, Op.Entry(i))
    requires SizeOf(v.contents, v.entries) <= lim.batchSize
    requires acc.files == v.entries[..i] && acc.size == SizeOf(v.contents, v.entries[..i])
    ensures next.files == v.entries[..i + 1] && next.size == SizeOf(v.contents, v.entries[..i + 1])
    ensures Scan(v, lim, i, acc) == Scan(v, lim, i + 1, next)
  {
    SizeOfPrefix(v.contents, v.entries, i);
    var name := v.entries[i];
    next := Load(acc.files + [name], acc.size + ByteLen(v.contents[name]));
    PrefixSnoc(v.contents, v.entries, i, next.files);
    ScanLoads(v, lim, i, acc, name, next);
  }

  lemma {:induction false} ScanAllAdmissible(v: View, lim: Limits, i: nat, acc: Load)
    requires i <= |v.entries| && i <= lim.batchCount + 1
    requires forall k :: 0 <= k < |v.entries| ==> Admissible(v, v.entries[k]) && !v.fault(v.epoch, Op.Entry(k))
    requires SizeOf(v.contents, v.entries) <= lim.batchSize
    requires acc.files == v.entries[..i] && acc.size == SizeOf(v.contents, v.entries[..i])
    ensures Scan(v, lim, i, acc).Ok?
    ensures |Scan(v, lim, i, acc).value.files| == if |v.entries| <= lim.batchCount + 1 then |v.entries| else lim.batchCount + 1
    decreases |v.entries| - i
  {
    if i < |v.entries| && i <= lim.batchCount {
      var next := ScanAllStep(v, lim, i, acc);
      ScanAllAdmissible(v, lim, i + 1, next);
    } else if i < |v.entries| {
      ScanTurnsAway(v, lim, i, acc);
    }
  }

  /**
   * The count boundary: when every entry is a readable metrics file and the
   * byte ceiling is not in the way, exactly `min(entries, batch_count + 1)`
   * files are loaded.
   */
  lemma SelectExactCount(v: View, labels: string, lim: Limits)
    requires forall k :: 0 <= k < |v.entries| ==> Admissible(v, v.entries[k]) && !v.fault(v.epoch, Op.Entry(k))
    requires SizeOf(v.contents, v.entries) <= lim.batchSize
    ensures Select(v, labels, lim).Selected?
    ensures |Select(v, labels, lim).batch.files| == if |v.entries| <= lim.batchCount + 1 then |v.entries| else lim.batchCount + 1
  {
    assert v.entries[..0] == [];
    ScanAllAdmissible(v, lim, 0, NoLoad);
  }

  /** Loaded files are distinct, readable `.metrics` files of the listing, and the batch is their content. */
  lemma SelectedFiles(v: View, labels: string, lim: Limits)
    requires Distinct(v.entries)
    ensures Select(v, labels, lim).Selected? ==>
      var b := Select(v, labels, lim).batch;
      && Distinct(b.files)
      && (forall k :: 0 <= k < |b.files| ==> b.files[k] in v.entries && Admissible(v, b.files[k]))
      && b.size == SizeOf(v.contents, b.files)
      && b.metrics == BatchMetrics(v.contents, labels, b.files)
  {
    ScannedFiles(v, lim);
  }

  lemma ScannedFiles(v: View, lim: Limits)
    requires Distinct(v.entries)
    ensures Scan(v, lim, 0, NoLoad).Ok? ==>
      var l := Scan(v, lim, 0, NoLoad).value;
      && Distinct(l.files)
      && (forall k :: 0 <= k < |l.files| ==> l.files[k] in v.entries && Admissible(v, l.files[k]))
      && l.size == SizeOf(v.contents, l.files)
  {
    assert v.entries[..0] == [];
    ScanStops(v, lim, 0, NoLoad);
    if Scan(v, lim, 0, NoLoad).Ok? {
      var l := Scan(v, lim, 0, NoLoad).value;
      var stop :| 0 <= stop <= |v.entries| && ScannedUpTo(v, lim, stop, l) && StopsAt(v, lim, stop, l.files);
      var pre := v.entries[..stop];
      assert Distinct(pre);
      AdmissibleOfDistinct(v, pre);
      AdmissibleOfMembers(v, pre);
      assert forall k :: 0 <= k < |l.files| ==> l.files[k] in AdmissibleOf(v, pre);
    }
  }

  /** The metrics of one more file are appended after those already collected. */
  lemma BatchMetricsSnoc(contents: map<string, string>, labels: string, names: seq<string>, n: string,
                         next: seq<string>)
    requires n in contents && next == names + [n]
    ensures BatchMetrics(contents, labels, next)
         == BatchMetrics(contents, labels, names) + RelabelLines(labels, Lines(contents[n]))
  {
    assert next[..|names|] == names;
  }

  /**
   * The selection as written turns away every metrics file whose position in
   * the listing exceeds `batch_count`, however many files were loaded: a
   * listing whose metrics files all sit that late yields an empty batch, even
   * when they are readable.
   */
  lemma {:induction false} LateMetricsStarve(v: View, lim: Limits, i: nat)
    requires i <= |v.entries|
    requires forall k :: i <= k < |v.entries| ==> !v.fault(v.epoch, Op.Entry(k))
    requires forall k :: i <= k < |v.entries| && IsMetricsFile(v.entries[k]) ==> k > lim.batchCount
    ensures Scan(v, lim, i, NoLoad) == Ok(NoLoad)
    decreases |v.entries| - i
  {
    if i < |v.entries| && !IsMetricsFile(v.entries[i]) {
      LateMetricsStarve(v, lim, i + 1);
    }
  }

  /** Two plain entries and one readable metrics file, with `batch_count` 1: nothing is loaded. */
  lemma StarvationExample()
    ensures var v := View(["a", "b", "c.metrics"], map["a" := "", "b" := "", "c.metrics" := "m 1\n"],
                          (e: nat, op: Op) => false, 0);
            && Admissible(v, "c.metrics")
            && Select(v, "", Limits(1, 1000)) == Selected(Batch([], [], 0))
  {
    var v := View(["a", "b", "c.metrics"], map["a" := "", "b" := "", "c.metrics" := "m 1\n"],
                  (e: nat, op: Op) => false, 0);
    assert Extension("c.metrics") == Some("metrics") by {
      MetricsExtension("c.metrics");
    }
    assert !IsMetricsFile("a") && !IsMetricsFile("b") by {
      MetricsExtension("a");
      MetricsExtension("b");
    }
    LateMetricsStarve(v, Limits(1, 1000), 0);
  }

  /**
   * The entry loop with the count ceiling applied to the files loaded so far
   * rather than to the entry index: at most `batch_count + 1` files, as for
   * the loop as written when every entry is a metrics file.
   */
  function ScanByLoaded(v: View, lim: Limits, i: nat, acc: Load): Result<Load, nat>
    requires i <= |v.entries|
    decreases |v.entries| - i
  {
    if i == |v.entries| then Ok(acc)
    else if v.fault(v.epoch, Op.Entry(i)) then Err(i)
    else if !IsMetricsFile(v.entries[i]) then ScanByLoaded(v, lim, i + 1, acc)
    else if |acc.files| > lim.batchCount || acc.size > lim.batchSize then Ok(acc)
    else if !Readable(v, v.entries[i]) then ScanByLoaded(v, lim, i + 1, acc)
    else
      var name := v.entries[i];
      ScanByLoaded(v, lim, i + 1, Load(acc.files + [name], acc.size + ByteLen(v.contents[name])))
  }

  lemma {:induction false} ScanByLoadedKeeps(v: View, lim: Limits, i: nat, acc: Load)
    requires i <= |v.entries|
    ensures ScanByLoaded(v, lim, i, acc).Ok? ==> |ScanByLoaded(v, lim, i, acc).value.files| >= |acc.files|
    decreases |v.entries| - i
  {
    if i < |v.entries| && !v.fault(v.epoch, Op.Entry(i)) {
      var name := v.entries[i];
      if !IsMetricsFile(name) || (!(|acc.files| > lim.batchCount || acc.size > lim.batchSize) && !Readable(v, name)) {
        ScanByLoadedKeeps(v, lim, i + 1, acc);
      } else if !(|acc.files| > lim.batchCount || acc.size > lim.batchSize) {
        ScanByLoadedKeeps(v, lim, i + 1, Load(acc.files + [name], acc.size + ByteLen(v.contents[name])));
      }
    }
  }

  /**
   * With the count ceiling on the files loaded, an iteration finds nothing to
   * do only when no admissible file is left in the listing.
   */
  lemma {:induction false} ScanByLoadedNeverStarves(v: View, lim: Limits, i: nat)
    requires i <= |v.entries|
    ensures ScanByLoaded(v, lim, i, NoLoad).Ok? && ScanByLoaded(v, lim, i, NoLoad).value.files == [] ==>
      forall k :: i <= k < |v.entries| ==> !Admissible(v, v.entries[k])
    decreases |v.entries| - i
  {
    if i < |v.entries| && !v.fault(v.epoch, Op.Entry(i)) {
      var name := v.entries[i];
      if !Admissible(v, name) {
        ScanByLoadedNeverStarves(v, lim, i + 1);
      } else {
        var next := Load([name], ByteLen(v.contents[name]));
        assert NoLoad.files + [name] == [name];
        ScanByLoadedKeeps(v, lim, i + 1, next);
      }
    }
  }
}
