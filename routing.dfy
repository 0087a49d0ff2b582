/**
 * The routing loop itself (src/router.rs, `route` and `router`): select a
 * batch, write it to every sink's tmp file, flush, rotate the tmp files to
 * their committed names, delete the sources, and start again until a listing
 * yields nothing to do.
 */
module Routing {
  import opened Wrappers
  import opened Ints
  import opened Text
  import opened Labels
  import opened Schedule
  import opened Disk
  import opened Batch
  import opened Fanout

  /** `config::Parameters` without the two directory paths, which are the two maps of the file system. */
  datatype Parameters = Parameters(scanPeriod: u64, batchCount: u64, batchSize: u64)

  /** How one pass of `route`'s outer loop ended. */
  datatype Step =
    | Drained                              // the listing gave no file to load: `route` returns Ok
    | Committed(batch: Batch, now: int)    // the batch reached every sink and its sources are gone
    | Failed(op: Op)                       // `try!` returned this call's error

  /** Every sink's tmp file exists and holds what the sink receives of `metrics`. */
  ghost predicate TmpFilesHold(dir: map<string, string>, sinks: seq<Sink>, metrics: seq<string>) {
    forall k :: 0 <= k < |sinks| ==>
      TmpPath(sinks[k].name) in dir && dir[TmpPath(sinks[k].name)] == SinkContent(sinks[k].selector, metrics)
  }

  /** The names of a sequence, as a set. */
  function Elems(names: seq<string>): set<string> {
    set n | n in names
  }

  /** The line loop of one loaded file: the metrics pushed for its lines, in line order. */
  method RelabelFile(labels: string, lines: seq<string>) returns (metrics: seq<string>)
    ensures metrics == RelabelLines(labels, lines)
  {
    metrics := [];
    var k := 0;
    while k < |lines|
      invariant k <= |lines|
      invariant metrics == RelabelLines(labels, lines[..k])
    {
      assert lines[..k + 1][..k] == lines[..k];
      var r := Relabel(labels, lines[k]);
      if r.Some? {
        metrics := metrics + [r.value];
      }
      k := k + 1;
    }
    assert lines[..|lines|] == lines;
  }

  /** Appends the relabelled lines of one loaded file to the batch's metrics. */
  method LoadFile(labels: string, content: string, metrics: seq<string>, ghost contents: map<string, string>,
                  ghost files: seq<string>, ghost name: string, ghost next: seq<string>)
    returns (extended: seq<string>)
    requires name in contents && content == contents[name] && next == files + [name]
    requires metrics == BatchMetrics(contents, labels, files)
    ensures extended == BatchMetrics(contents, labels, next)
  {
    var loaded := RelabelFile(labels, Lines(content));
    BatchMetricsSnoc(contents, labels, files, name, next);
    extended := metrics + loaded;
  }

  /** The entry loop: relabels and collects the lines of the files it loads, as `Select` describes. */
  method SelectBatch(fs: FileSystem, entries: seq<string>, labels: string, lim: Limits) returns (sel: Selection)
    ensures sel == Select(View(entries, fs.source, fs.fault, fs.epoch), labels, lim)
    ensures sel.EntryFailed? ==> sel.index < |entries| && fs.fault(fs.epoch, Op.Entry(sel.index))
  {
    ghost var v := View(entries, fs.source, fs.fault, fs.epoch);
    var files: seq<string> := [];
    var metrics: seq<string> := [];
    var size: nat := 0;
    var i := 0;
    while i < |entries|
      invariant i <= |entries|
      invariant Scan(v, lim, i, Load(files, size)) == Scan(v, lim, 0, NoLoad)
      invariant metrics == BatchMetrics(fs.source, labels, files)
    {
      if fs.fault(fs.epoch, Op.Entry(i)) {
        return EntryFailed(i);
      }
      var name := entries[i];
      if !IsMetricsFile(name) {
        ScanSkips(v, lim, i, Load(files, size));
      } else {
        if i > lim.batchCount || size > lim.batchSize {
          break;
        }
        var content := fs.Read(name);
        if content.None? {
          ScanSkips(v, lim, i, Load(files, size));
        } else {
          var next := Load(files + [name], size + ByteLen(content.value));
          ScanLoads(v, lim, i, Load(files, size), name, next);
          metrics := LoadFile(labels, content.value, metrics, fs.source, files, name, next.files);
          files, size := next.files, next.size;
        }
      }
      i := i + 1;
    }
    return Selected(Batch(files, metrics, size));
  }

  /** Creates (or truncates) every sink's tmp file, in sink order, stopping at the first failure. */
  method OpenSinkFiles(fs: FileSystem, sinks: seq<Sink>) returns (failed: Option<Op>)
    requires DistinctNames(sinks)
    modifies fs`sink
    ensures failed.None? ==> TmpFilesHold(fs.sink, sinks, [])
    ensures failed.None? <==> forall k :: 0 <= k < |sinks| ==> !fs.fault(fs.epoch, Op.Create(TmpPath(sinks[k].name)))
    ensures failed.Some? ==> failed.value.Create? && fs.fault(fs.epoch, failed.value)
    ensures failed.Some? ==>
      exists i :: 0 <= i < |sinks| && failed.value == Op.Create(TmpPath(sinks[i].name)) && fs.fault(fs.epoch, failed.value)
        && forall k :: 0 <= k < i ==> !fs.fault(fs.epoch, Op.Create(TmpPath(sinks[k].name)))
    ensures SameOutside(old(fs.sink), fs.sink, TmpPaths(sinks))
  {
    SinkPathsDistinct(sinks, 0);
    var i := 0;
    while i < |sinks|
      invariant i <= |sinks|
      invariant forall k :: 0 <= k < i ==> !fs.fault(fs.epoch, Op.Create(TmpPath(sinks[k].name)))
      invariant forall k :: 0 <= k < i ==> TmpPath(sinks[k].name) in fs.sink && fs.sink[TmpPath(sinks[k].name)] == ""
      invariant SameOutside(old(fs.sink), fs.sink, TmpPaths(sinks))
    {
      var path := TmpPath(sinks[i].name);
      assert path in TmpPaths(sinks);
      var ok := fs.Create(path);
      if !ok {
        return Some(Op.Create(path));
      }
      i := i + 1;
    }
    return None;
  }

  /** The two writes of one metric to one tmp file: the line, then its newline. */
  method WriteLine(fs: FileSystem, path: string, line: string, j: nat) returns (failed: Option<Op>)
    requires path in fs.sink
    modifies fs`sink
    ensures failed.None? ==> fs.sink == old(fs.sink)[path := old(fs.sink)[path] + (line + "\n")]
    ensures failed.None? <==> !fs.fault(fs.epoch, Op.Write(path, j, false)) && !fs.fault(fs.epoch, Op.Write(path, j, true))
    ensures failed.Some? ==>
      failed.value.Write? && failed.value.path == path && failed.value.metric == j && fs.fault(fs.epoch, failed.value)
    ensures failed.Some? ==> fs.sink.Keys == old(fs.sink).Keys
    ensures forall p :: p != path && p in fs.sink ==> fs.sink[p] == old(fs.sink)[p]
  {
    var ok := fs.Write(path, line, j, false);
    if !ok {
      return Some(Op.Write(path, j, false));
    }
    ok := fs.Write(path, "\n", j, true);
    if !ok {
      return Some(Op.Write(path, j, true));
    }
    assert old(fs.sink)[path] + line + "\n" == old(fs.sink)[path] + (line + "\n");
    return None;
  }

  /** One metric to one sink's tmp file, unless the sink's selector excludes it; `add` is what the file gains. */
  method WriteToSink(fs: FileSystem, selector: Option<string -> bool>, path: string, line: string, j: nat,
                     ghost add: string)
    returns (failed: Option<Op>)
    requires path in fs.sink && line != []
    requires add == if Forwarded(selector, line) then line + "\n" else ""
    modifies fs`sink
    ensures failed.None? ==> fs.sink == old(fs.sink)[path := old(fs.sink)[path] + add]
    ensures failed.None? && Forwarded(selector, line) ==> forall nl: bool :: !fs.fault(fs.epoch, Op.Write(path, j, nl))
    ensures failed.Some? ==>
      && failed.value.Write? && failed.value.path == path && failed.value.metric == j && fs.fault(fs.epoch, failed.value)
      && Forwarded(selector, line)
    ensures failed.Some? ==> fs.sink.Keys == old(fs.sink).Keys
    ensures forall p :: p != path && p in fs.sink ==> fs.sink[p] == old(fs.sink)[p]
  {
    if Excluded(selector, line) {
      assert old(fs.sink)[path] + add == old(fs.sink)[path];
      return None;
    }
    failed := WriteLine(fs, path, line, j);
  }

  /** Every write of metric `j` (`line`) to one of the first `i` sinks that receives it succeeds. */
  ghost predicate LineWritten(fault: (nat, Op) -> bool, e: nat, sinks: seq<Sink>, i: nat, line: string, j: nat)
    requires i <= |sinks|
  {
    forall k, nl: bool :: 0 <= k < i && Forwarded(sinks[k].selector, line) ==>
      !fault(e, Op.Write(TmpPath(sinks[k].name), j, nl))
  }

  /** `op` is a failing write of metric `j` (`line`) to the tmp file of a sink that receives it. */
  ghost predicate LineWriteFailure(fault: (nat, Op) -> bool, e: nat, sinks: seq<Sink>, line: string, j: nat, op: Op) {
    && op.Write? && op.metric == j && fault(e, op)
    && exists k :: 0 <= k < |sinks| && op.path == TmpPath(sinks[k].name) && Forwarded(sinks[k].selector, line)
  }

  lemma LineWrittenStep(fault: (nat, Op) -> bool, e: nat, sinks: seq<Sink>, i: nat, line: string, j: nat)
    requires i < |sinks| && LineWritten(fault, e, sinks, i, line, j)
    requires Forwarded(sinks[i].selector, line) ==> forall nl: bool :: !fault(e, Op.Write(TmpPath(sinks[i].name), j, nl))
    ensures LineWritten(fault, e, sinks, i + 1, line, j)
  {
  }

  lemma LineWriteFailureAt(fault: (nat, Op) -> bool, e: nat, sinks: seq<Sink>, line: string, j: nat, i: nat, op: Op)
    requires i < |sinks| && op.Write? && op.path == TmpPath(sinks[i].name) && op.metric == j && fault(e, op)
    requires Forwarded(sinks[i].selector, line)
    ensures LineWriteFailure(fault, e, sinks, line, j, op)
  {
  }

  /** Every write of one of the first `n` metrics to a sink that receives it succeeds. */
  ghost predicate MetricsWritten(fault: (nat, Op) -> bool, e: nat, sinks: seq<Sink>, metrics: seq<string>, n: nat)
    requires n <= |metrics|
  {
    forall j, k, nl: bool :: 0 <= j < n && 0 <= k < |sinks| && Forwarded(sinks[k].selector, metrics[j]) ==>
      !fault(e, Op.Write(TmpPath(sinks[k].name), j, nl))
  }

  /** Every write of a metric line, or of its newline, to a sink that receives the metric succeeds. */
  ghost predicate WritesSucceed(fault: (nat, Op) -> bool, e: nat, sinks: seq<Sink>, metrics: seq<string>) {
    MetricsWritten(fault, e, sinks, metrics, |metrics|)
  }

  /** `op` is one of the writes that publishing `metrics` makes: metric `op.metric` to a sink that receives it. */
  ghost predicate IssuedWrite(sinks: seq<Sink>, metrics: seq<string>, op: Op) {
    && op.Write? && op.metric < |metrics|
    && exists k :: 0 <= k < |sinks| && op.path == TmpPath(sinks[k].name) && Forwarded(sinks[k].selector, metrics[op.metric])
  }

  /** A write the publish makes that fails rules out that every such write succeeds. */
  lemma IssuedWriteFails(fault: (nat, Op) -> bool, e: nat, sinks: seq<Sink>, metrics: seq<string>, op: Op)
    requires IssuedWrite(sinks, metrics, op) && fault(e, op)
    ensures !WritesSucceed(fault, e, sinks, metrics)
  {
    var k :| 0 <= k < |sinks| && op.path == TmpPath(sinks[k].name) && Forwarded(sinks[k].selector, metrics[op.metric]);
    assert op == Op.Write(TmpPath(sinks[k].name), op.metric, op.newline);
  }

  /** The tmp files of the first `i` sinks hold `after`, the others still `before`. */
  ghost predicate Staged(dir: map<string, string>, sinks: seq<Sink>, i: nat, before: seq<string>, after: seq<string>)
    requires i <= |sinks| == |before| == |after|
  {
    && (forall k :: 0 <= k < i ==> TmpPath(sinks[k].name) in dir && dir[TmpPath(sinks[k].name)] == after[k])
    && (forall k :: i <= k < |sinks| ==> TmpPath(sinks[k].name) in dir && dir[TmpPath(sinks[k].name)] == before[k])
  }

  lemma StagedStep(dir: map<string, string>, next: map<string, string>, sinks: seq<Sink>, i: nat,
                   before: seq<string>, after: seq<string>, adds: seq<string>)
    requires DistinctNames(sinks) && i < |sinks| == |before| == |after| == |adds|
    requires after[i] == before[i] + adds[i]
    requires Staged(dir, sinks, i, before, after)
    requires next == dir[TmpPath(sinks[i].name) := dir[TmpPath(sinks[i].name)] + adds[i]]
    ensures Staged(next, sinks, i + 1, before, after)
  {
    SinkPathsDistinct(sinks, 0);
  }

  /**
   * One metric to every sink that does not exclude it, in sink order: the line,
   * then a newline. Stops at the first failure. Each tmp file gains `adds[k]`,
   * turning `before` into `after`.
   */
  method WriteToSinks(fs: FileSystem, sinks: seq<Sink>, line: string, j: nat,
                      ghost before: seq<string>, ghost adds: seq<string>, ghost after: seq<string>)
    returns (failed: Option<Op>)
    requires DistinctNames(sinks) && line != [] && |sinks| == |before| == |after| == |adds|
    requires forall k :: 0 <= k < |sinks| ==> adds[k] == if Forwarded(sinks[k].selector, line) then line + "\n" else ""
    requires forall k :: 0 <= k < |sinks| ==> after[k] == before[k] + adds[k]
    requires Staged(fs.sink, sinks, 0, before, after)
    modifies fs`sink
    ensures failed.None? ==> Staged(fs.sink, sinks, |sinks|, before, after)
    ensures failed.None? ==> LineWritten(fs.fault, fs.epoch, sinks, |sinks|, line, j)
    ensures failed.Some? ==> LineWriteFailure(fs.fault, fs.epoch, sinks, line, j, failed.value)
    ensures SameOutside(old(fs.sink), fs.sink, TmpPaths(sinks))
  {
    var i := 0;
    while i < |sinks|
      invariant i <= |sinks|
      invariant Staged(fs.sink, sinks, i, before, after)
      invariant LineWritten(fs.fault, fs.epoch, sinks, i, line, j)
      invariant SameOutside(old(fs.sink), fs.sink, TmpPaths(sinks))
    {
      failed := WriteToSinkAt(fs, sinks, line, j, i, before, adds, after);
      if failed.Some? {
        return;
      }
      i := i + 1;
    }
    return None;
  }

  /** The metric to the `i`-th sink, the sinks before it done. */
  method WriteToSinkAt(fs: FileSystem, sinks: seq<Sink>, line: string, j: nat, i: nat,
                       ghost before: seq<string>, ghost adds: seq<string>, ghost after: seq<string>)
    returns (failed: Option<Op>)
    requires DistinctNames(sinks) && line != [] && i < |sinks| == |before| == |after| == |adds|
    requires adds[i] == if Forwarded(sinks[i].selector, line) then line + "\n" else ""
    requires after[i] == before[i] + adds[i]
    requires Staged(fs.sink, sinks, i, before, after) && LineWritten(fs.fault, fs.epoch, sinks, i, line, j)
    modifies fs`sink
    ensures failed.None? ==> Staged(fs.sink, sinks, i + 1, before, after)
    ensures failed.None? ==> LineWritten(fs.fault, fs.epoch, sinks, i + 1, line, j)
    ensures failed.Some? ==> LineWriteFailure(fs.fault, fs.epoch, sinks, line, j, failed.value)
    ensures SameOutside(old(fs.sink), fs.sink, TmpPaths(sinks))
  {
    var path := TmpPath(sinks[i].name);
    assert path in TmpPaths(sinks);
    ghost var dir := fs.sink;
    failed := WriteToSink(fs, sinks[i].selector, path, line, j, adds[i]);
    if failed.Some? {
      LineWriteFailureAt(fs.fault, fs.epoch, sinks, line, j, i, failed.value);
      return;
    }
    StagedStep(dir, fs.sink, sinks, i, before, after, adds);
    LineWrittenStep(fs.fault, fs.epoch, sinks, i, line, j);
  }

  /** One metric to every sink's tmp file: each then holds what that sink receives from `next`. */
  method WriteMetric(fs: FileSystem, sinks: seq<Sink>, line: string, j: nat,
                     ghost written: seq<string>, ghost next: seq<string>)
    returns (failed: Option<Op>)
    requires DistinctNames(sinks) && line != []
    requires TmpFilesHold(fs.sink, sinks, written) && next == written + [line]
    modifies fs`sink
    ensures failed.None? ==> TmpFilesHold(fs.sink, sinks, next)
    ensures failed.None? ==> LineWritten(fs.fault, fs.epoch, sinks, |sinks|, line, j)
    ensures failed.Some? ==> LineWriteFailure(fs.fault, fs.epoch, sinks, line, j, failed.value)
    ensures SameOutside(old(fs.sink), fs.sink, TmpPaths(sinks))
  {
    ghost var before := seq(|sinks|, k requires 0 <= k < |sinks| => SinkContent(sinks[k].selector, written));
    ghost var adds := seq(|sinks|, k requires 0 <= k < |sinks| =>
                            if Forwarded(sinks[k].selector, line) then line + "\n" else "");
    ghost var after := seq(|sinks|, k requires 0 <= k < |sinks| => SinkContent(sinks[k].selector, next));
    forall k | 0 <= k < |sinks|
      ensures after[k] == before[k] + adds[k]
    {
      SinkContentAppend(sinks[k].selector, written, line);
    }
    failed := WriteToSinks(fs, sinks, line, j, before, adds, after);
  }

  lemma EmptyMetricChangesNothing(dir: map<string, string>, sinks: seq<Sink>,
                                  written: seq<string>, next: seq<string>)
    requires TmpFilesHold(dir, sinks, written) && next == written + [""]
    ensures TmpFilesHold(dir, sinks, next)
  {
    forall k | 0 <= k < |sinks|
      ensures SinkContent(sinks[k].selector, next) == SinkContent(sinks[k].selector, written)
    {
      SinkContentAppend(sinks[k].selector, written, "");
    }
  }

  /** Writes the metrics, in order, to the sinks' tmp files; empty metrics are skipped. */
  method WriteSinkFiles(fs: FileSystem, sinks: seq<Sink>, metrics: seq<string>) returns (failed: Option<Op>)
    requires DistinctNames(sinks)
    requires TmpFilesHold(fs.sink, sinks, [])
    modifies fs`sink
    ensures failed.None? ==> TmpFilesHold(fs.sink, sinks, metrics)
    ensures failed.None? ==> WritesSucceed(fs.fault, fs.epoch, sinks, metrics)
    ensures failed.Some? ==> IssuedWrite(sinks, metrics, failed.value) && fs.fault(fs.epoch, failed.value)
    ensures SameOutside(old(fs.sink), fs.sink, TmpPaths(sinks))
  {
    var j := 0;
    assert metrics[..0] == [];
    while j < |metrics|
      invariant j <= |metrics|
      invariant TmpFilesHold(fs.sink, sinks, metrics[..j])
      invariant MetricsWritten(fs.fault, fs.epoch, sinks, metrics, j)
      invariant SameOutside(old(fs.sink), fs.sink, TmpPaths(sinks))
    {
      failed := WriteNth(fs, sinks, metrics, j);
      if failed.Some? {
        return;
      }
      j := j + 1;
    }
    assert metrics[..|metrics|] == metrics;
    return None;
  }

  /** Metric `j` of the batch to every sink that receives it; an empty metric is skipped. */
  method WriteNth(fs: FileSystem, sinks: seq<Sink>, metrics: seq<string>, j: nat) returns (failed: Option<Op>)
    requires DistinctNames(sinks) && j < |metrics|
    requires TmpFilesHold(fs.sink, sinks, metrics[..j]) && MetricsWritten(fs.fault, fs.epoch, sinks, metrics, j)
    modifies fs`sink
    ensures failed.None? ==>
      TmpFilesHold(fs.sink, sinks, metrics[..j + 1]) && MetricsWritten(fs.fault, fs.epoch, sinks, metrics, j + 1)
    ensures failed.Some? ==> IssuedWrite(sinks, metrics, failed.value) && fs.fault(fs.epoch, failed.value)
    ensures SameOutside(old(fs.sink), fs.sink, TmpPaths(sinks))
  {
    var line := metrics[j];
    assert metrics[..j + 1] == metrics[..j] + [line];
    if line == [] {
      EmptyMetricChangesNothing(fs.sink, sinks, metrics[..j], metrics[..j + 1]);
      failed := None;
    } else {
      failed := WriteMetric(fs, sinks, line, j, metrics[..j], metrics[..j + 1]);
      if failed.Some? {
        LineWriteIssued(fs.fault, fs.epoch, sinks, metrics, j, failed.value);
        return;
      }
    }
    MetricsWrittenStep(fs.fault, fs.epoch, sinks, metrics, j);
  }

  lemma MetricsWrittenStep(fault: (nat, Op) -> bool, e: nat, sinks: seq<Sink>, metrics: seq<string>, n: nat)
    requires n < |metrics| && MetricsWritten(fault, e, sinks, metrics, n)
    requires metrics[n] == [] || LineWritten(fault, e, sinks, |sinks|, metrics[n], n)
    ensures MetricsWritten(fault, e, sinks, metrics, n + 1)
  {
  }

  lemma LineWriteIssued(fault: (nat, Op) -> bool, e: nat, sinks: seq<Sink>, metrics: seq<string>, j: nat, op: Op)
    requires j < |metrics| && LineWriteFailure(fault, e, sinks, metrics[j], j, op)
    ensures IssuedWrite(sinks, metrics, op) && fault(e, op)
  {
  }

  /** Flushes every tmp file in sink order; fails at the first flush that fails. */
  method FlushSinkFiles(fs: FileSystem, sinks: seq<Sink>) returns (failed: Option<Op>)
    ensures failed.None? <==> forall k :: 0 <= k < |sinks| ==> !fs.fault(fs.epoch, Op.Flush(TmpPath(sinks[k].name)))
    ensures failed.Some? ==>
      exists i :: 0 <= i < |sinks| && failed.value == Op.Flush(TmpPath(sinks[i].name)) && fs.fault(fs.epoch, failed.value)
        && forall k :: 0 <= k < i ==> !fs.fault(fs.epoch, Op.Flush(TmpPath(sinks[k].name)))
  {
    var i := 0;
    while i < |sinks|
      invariant i <= |sinks|
      invariant forall k :: 0 <= k < i ==> !fs.fault(fs.epoch, Op.Flush(TmpPath(sinks[k].name)))
    {
      var ok := fs.Flush(TmpPath(sinks[i].name));
      if !ok {
        return Some(Op.Flush(TmpPath(sinks[i].name)));
      }
      i := i + 1;
    }
    return None;
  }

  /** No path occurs twice among the sources and targets of a sequence of renames. */
  predicate Unaliased(froms: seq<string>, tos: seq<string>) {
    Distinct(froms + tos)
  }

  /** Unaliased renames, pair by pair. */
  lemma UnaliasedIff(froms: seq<string>, tos: seq<string>)
    ensures Unaliased(froms, tos) <==>
      && Distinct(froms) && Distinct(tos)
      && forall i, j :: 0 <= i < |froms| && 0 <= j < |tos| ==> froms[i] != tos[j]
  {
    var all := froms + tos;
    assert forall i :: 0 <= i < |froms| ==> all[i] == froms[i];
    assert forall j :: 0 <= j < |tos| ==> all[|froms| + j] == tos[j];
    if !Unaliased(froms, tos) {
      var i, j :| 0 <= i < j < |all| && all[i] == all[j];
      if j < |froms| {
        assert froms[i] == froms[j];
      } else if i < |froms| {
        assert froms[i] == tos[j - |froms|];
      } else {
        assert tos[i - |froms|] == tos[j - |froms|];
      }
    }
  }

  /** The first `i` renames are done, the others not yet; no other path has changed. */
  ghost predicate Moved(before: map<string, string>, dir: map<string, string>,
                        froms: seq<string>, tos: seq<string>, i: nat)
    requires i <= |froms| == |tos|
  {
    Done(before, dir, froms, tos, i) && Pending(before, dir, froms, i) && Untouched(before, dir, froms, tos)
  }

  /** Each of the first `i` sources is gone and its content is at its target. */
  ghost predicate Done(before: map<string, string>, dir: map<string, string>,
                       froms: seq<string>, tos: seq<string>, i: nat)
    requires i <= |froms| == |tos|
  {
    forall k :: 0 <= k < i ==> froms[k] in before && tos[k] in dir && dir[tos[k]] == before[froms[k]] && froms[k] !in dir
  }

  /** Each source from the `i`-th on is still in place. */
  ghost predicate Pending(before: map<string, string>, dir: map<string, string>, froms: seq<string>, i: nat)
    requires i <= |froms|
  {
    forall k :: i <= k < |froms| ==> froms[k] in dir && froms[k] in before && dir[froms[k]] == before[froms[k]]
  }

  /** Every path that is neither a source nor a target of the renames is as it was. */
  ghost predicate Untouched(before: map<string, string>, dir: map<string, string>, froms: seq<string>, tos: seq<string>) {
    forall p :: p !in froms && p !in tos ==> (p in dir <==> p in before) && (p in dir ==> dir[p] == before[p])
  }

  lemma UntouchedStep(before: map<string, string>, dir: map<string, string>, next: map<string, string>,
                      froms: seq<string>, tos: seq<string>, i: nat)
    requires i < |froms| == |tos| && Untouched(before, dir, froms, tos) && froms[i] in dir
    requires next == (dir - {froms[i]})[tos[i] := dir[froms[i]]]
    ensures Untouched(before, next, froms, tos)
  {
    forall p | p !in froms && p !in tos
      ensures (p in next <==> p in before) && (p in next ==> next[p] == before[p])
    {
      assert p != froms[i] && p != tos[i];
    }
  }

  lemma DoneStep(before: map<string, string>, dir: map<string, string>, next: map<string, string>,
                 froms: seq<string>, tos: seq<string>, i: nat)
    requires i < |froms| == |tos| && Done(before, dir, froms, tos, i)
    requires froms[i] in before && froms[i] in dir && dir[froms[i]] == before[froms[i]] && froms[i] != tos[i]
    requires forall k :: 0 <= k < i ==> tos[k] != froms[i] && tos[k] != tos[i] && froms[k] != tos[i]
    requires next == (dir - {froms[i]})[tos[i] := dir[froms[i]]]
    ensures Done(before, next, froms, tos, i + 1)
  {
    forall k | 0 <= k < i + 1
      ensures froms[k] in before && tos[k] in next && next[tos[k]] == before[froms[k]] && froms[k] !in next
    {
      if k < i {
        assert tos[k] != froms[i] && tos[k] != tos[i] && froms[k] != tos[i];
      }
    }
  }

  lemma PendingStep(before: map<string, string>, dir: map<string, string>, next: map<string, string>,
                    froms: seq<string>, tos: seq<string>, i: nat)
    requires i < |froms| == |tos| && Pending(before, dir, froms, i)
    requires forall k :: i < k < |froms| ==> froms[k] != froms[i] && froms[k] != tos[i]
    requires next == (dir - {froms[i]})[tos[i] := dir[froms[i]]]
    ensures Pending(before, next, froms, i + 1)
  {
    forall k | i + 1 <= k < |froms|
      ensures froms[k] in next && froms[k] in before && next[froms[k]] == before[froms[k]]
    {
      assert froms[k] != froms[i] && froms[k] != tos[i];
    }
  }

  lemma MovedStep(before: map<string, string>, dir: map<string, string>, next: map<string, string>,
                  froms: seq<string>, tos: seq<string>, i: nat)
    requires Unaliased(froms, tos) && i < |froms| == |tos|
    requires Moved(before, dir, froms, tos, i)
    requires next == (dir - {froms[i]})[tos[i] := dir[froms[i]]]
    ensures Moved(before, next, froms, tos, i + 1)
  {
    UnaliasedIff(froms, tos);
    DoneStep(before, dir, next, froms, tos, i);
    PendingStep(before, dir, next, froms, tos, i);
    UntouchedStep(before, dir, next, froms, tos, i);
  }

  /** The directory after the first `i` renames succeeded, each replacing what its target held. */
  ghost function Renamed(before: map<string, string>, froms: seq<string>, tos: seq<string>, i: nat): map<string, string>
    requires i <= |froms| == |tos|
  {
    if i == 0 then before
    else
      var dir := Renamed(before, froms, tos, i - 1);
      if froms[i - 1] in dir then (dir - {froms[i - 1]})[tos[i - 1] := dir[froms[i - 1]]] else dir
  }

  /** After `i` unaliased renames, those `i` are done and the rest still wait at their sources. */
  lemma {:induction false} RenamedMoved(before: map<string, string>, froms: seq<string>, tos: seq<string>, i: nat)
    requires i <= |froms| == |tos| && Unaliased(froms, tos)
    requires forall k :: 0 <= k < |froms| ==> froms[k] in before
    ensures Moved(before, Renamed(before, froms, tos, i), froms, tos, i)
  {
    if i > 0 {
      RenamedMoved(before, froms, tos, i - 1);
      var dir := Renamed(before, froms, tos, i - 1);
      assert froms[i - 1] in dir;
      MovedStep(before, dir, Renamed(before, froms, tos, i), froms, tos, i - 1);
    }
  }

  lemma RenamedPending(before: map<string, string>, froms: seq<string>, tos: seq<string>, i: nat)
    requires i < |froms| == |tos| && Unaliased(froms, tos)
    requires forall k :: 0 <= k < |froms| ==> froms[k] in before
    ensures froms[i] in Renamed(before, froms, tos, i)
  {
    RenamedMoved(before, froms, tos, i);
  }

  /**
   * `froms[k]` renamed to `tos[k]`, in order, stopping at the first failure,
   * whose index it returns; the directory is left as the renames before it made it.
   */
  method RenameAll(fs: FileSystem, froms: seq<string>, tos: seq<string>) returns (failed: Option<nat>)
    requires |froms| == |tos| && Unaliased(froms, tos)
    requires forall k :: 0 <= k < |froms| ==> froms[k] in fs.sink
    modifies fs`sink
    ensures failed.None? <==> forall k :: 0 <= k < |froms| ==> !fs.fault(fs.epoch, Op.Rename(froms[k], tos[k]))
    ensures failed.Some? ==> failed.value < |froms| && fs.fault(fs.epoch, Op.Rename(froms[failed.value], tos[failed.value]))
    ensures failed.Some? ==> forall k :: 0 <= k < failed.value ==> !fs.fault(fs.epoch, Op.Rename(froms[k], tos[k]))
    ensures fs.sink == Renamed(old(fs.sink), froms, tos, if failed.None? then |froms| else failed.value)
  {
    ghost var before := fs.sink;
    var i := 0;
    while i < |froms|
      invariant i <= |froms|
      invariant forall k :: 0 <= k < i ==> !fs.fault(fs.epoch, Op.Rename(froms[k], tos[k]))
      invariant fs.sink == Renamed(before, froms, tos, i)
    {
      RenamedPending(before, froms, tos, i);
      var ok := fs.Rename(froms[i], tos[i]);
      if !ok {
        return Some(i);
      }
      i := i + 1;
    }
    return None;
  }

  /** The tmp and committed names of the sinks, as the sequences of one rename loop. */
  lemma SinkRenames(sinks: seq<Sink>, now: int, froms: seq<string>, tos: seq<string>)
    requires DistinctNames(sinks) && |froms| == |sinks| == |tos|
    requires forall k :: 0 <= k < |sinks| ==> froms[k] == TmpPath(sinks[k].name) && tos[k] == DestPath(sinks[k].name, now)
    ensures Unaliased(froms, tos)
    ensures forall p :: p in froms || p in tos ==> p in TmpPaths(sinks) + DestPaths(sinks, now)
  {
    SinkPathsDistinct(sinks, now);
    UnaliasedIff(froms, tos);
    forall p | p in froms || p in tos
      ensures p in TmpPaths(sinks) + DestPaths(sinks, now)
    {
      if p in froms {
        var k :| 0 <= k < |froms| && froms[k] == p;
        assert p in TmpPaths(sinks);
      } else {
        var k :| 0 <= k < |tos| && tos[k] == p;
        assert p in DestPaths(sinks, now);
      }
    }
  }

  /** Renames every sink's tmp file to `<sink>-<now>.metrics`, replacing a file already there. */
  method RotateSinkFiles(fs: FileSystem, sinks: seq<Sink>, now: int) returns (failed: Option<Op>)
    requires DistinctNames(sinks)
    requires forall k :: 0 <= k < |sinks| ==> TmpPath(sinks[k].name) in fs.sink
    modifies fs`sink
    ensures failed.None? ==> forall k :: 0 <= k < |sinks| ==>
      && DestPath(sinks[k].name, now) in fs.sink
      && fs.sink[DestPath(sinks[k].name, now)] == old(fs.sink)[TmpPath(sinks[k].name)]
      && TmpPath(sinks[k].name) !in fs.sink
    ensures failed.None? <==>
      forall k :: 0 <= k < |sinks| ==> !fs.fault(fs.epoch, Op.Rename(TmpPath(sinks[k].name), DestPath(sinks[k].name, now)))
    ensures failed.Some? ==> failed.value.Rename? && fs.fault(fs.epoch, failed.value)
    ensures failed.Some? ==>
      exists i :: 0 <= i < |sinks| && failed.value == Op.Rename(TmpPath(sinks[i].name), DestPath(sinks[i].name, now))
        && forall k :: 0 <= k < i ==> !fs.fault(fs.epoch, Op.Rename(TmpPath(sinks[k].name), DestPath(sinks[k].name, now)))
    ensures SameOutside(old(fs.sink), fs.sink, TmpPaths(sinks) + DestPaths(sinks, now))
  {
    var froms := seq(|sinks|, k requires 0 <= k < |sinks| => TmpPath(sinks[k].name));
    var tos := seq(|sinks|, k requires 0 <= k < |sinks| => DestPath(sinks[k].name, now));
    SinkRenames(sinks, now, froms, tos);
    ghost var before := fs.sink;
    var bad := RenameAll(fs, froms, tos);
    RenamedMoved(before, froms, tos, if bad.None? then |froms| else bad.value);
    if bad.Some? {
      return Some(Op.Rename(froms[bad.value], tos[bad.value]));
    }
    return None;
  }

  /** The names of `gone` are removed from `before`, and the rest is kept. */
  ghost predicate RemovedFrom(before: map<string, string>, after: map<string, string>, gone: seq<string>) {
    forall n :: (n in after <==> n in before && n !in gone) && (n in after ==> after[n] == before[n])
  }

  lemma RemovedFromIsMinus(before: map<string, string>, after: map<string, string>, gone: seq<string>)
    requires RemovedFrom(before, after, gone)
    ensures after == before - Elems(gone)
  {
  }

  lemma RemovedOneMore(before: map<string, string>, mid: map<string, string>, after: map<string, string>,
                       gone: seq<string>, name: string, next: seq<string>)
    requires RemovedFrom(before, mid, gone) && after == mid - {name} && next == gone + [name]
    ensures RemovedFrom(before, after, next)
  {
  }

  /** Every source file of the batch is removed without failure. */
  ghost predicate RemovesSucceed(fault: (nat, Op) -> bool, e: nat, files: seq<string>) {
    forall k :: 0 <= k < |files| ==> !fault(e, Op.Remove(files[k]))
  }

  /** `op` is the first removal of a batch file that fails. */
  ghost predicate FirstRemoveFailure(fault: (nat, Op) -> bool, e: nat, files: seq<string>, op: Op) {
    exists j :: 0 <= j < |files| && op == Op.Remove(files[j]) && fault(e, op)
      && forall k :: 0 <= k < j ==> !fault(e, Op.Remove(files[k]))
  }

  /** Removes the batch's source files in batch order, stopping at the first failure. */
  method DeleteSources(fs: FileSystem, files: seq<string>) returns (failed: Option<Op>)
    requires fs.Valid() && Distinct(files)
    requires forall k :: 0 <= k < |files| ==> files[k] in fs.source
    modifies fs`source, fs`listing
    ensures fs.Valid()
    ensures failed.None? ==> RemovedFrom(old(fs.source), fs.source, files)
    ensures failed.None? ==> |fs.listing| + |files| == |old(fs.listing)|
    ensures failed.None? <==> RemovesSucceed(fs.fault, fs.epoch, files)
    ensures failed.Some? ==> FirstRemoveFailure(fs.fault, fs.epoch, files, failed.value)
    ensures failed.Some? ==>
      exists j :: 0 <= j < |files| && failed.value == Op.Remove(files[j]) && fs.fault(fs.epoch, failed.value)
        && RemovedFrom(old(fs.source), fs.source, files[..j])
  {
    var j := 0;
    while j < |files|
      invariant j <= |files|
      invariant fs.Valid()
      invariant forall k :: 0 <= k < j ==> !fs.fault(fs.epoch, Op.Remove(files[k]))
      invariant RemovedFrom(old(fs.source), fs.source, files[..j])
      invariant |fs.listing| + j == |old(fs.listing)|
    {
      var name := files[j];
      assert files[..j + 1] == files[..j] + [name];
      assert name !in files[..j];
      ghost var mid := fs.source;
      var ok := fs.Remove(name);
      if !ok {
        return Some(Op.Remove(name));
      }
      RemovedOneMore(old(fs.source), mid, fs.source, files[..j], name, files[..j + 1]);
      j := j + 1;
    }
    assert files[..|files|] == files;
    return None;
  }

  /** The selection of this listing loads no file: `route`'s way out of its loop. */
  ghost predicate NothingToDo(v: View, labels: string, lim: Limits) {
    Select(v, labels, lim).Selected? && Select(v, labels, lim).batch.files == []
  }

  /** Every file still in the source directory was there before, with the same content. */
  ghost predicate SourcesKept(before: map<string, string>, after: map<string, string>) {
    forall n :: n in after ==> n in before && after[n] == before[n]
  }

  /** No path of the sink directory that the router does not own has changed. */
  ghost predicate ForeignKept(sinks: seq<Sink>, before: map<string, string>, after: map<string, string>) {
    forall p :: !RouterOwned(sinks, p) ==> (p in before <==> p in after) && (p in before ==> after[p] == before[p])
  }

  lemma ForeignKeptByIteration(sinks: seq<Sink>, before: map<string, string>, after: map<string, string>, now: int)
    requires SameOutside(before, after, TmpPaths(sinks) + DestPaths(sinks, now))
    ensures ForeignKept(sinks, before, after)
  {
    forall p | p in TmpPaths(sinks) + DestPaths(sinks, now)
      ensures RouterOwned(sinks, p)
    {
      RouterOwnsSinkPaths(sinks, now, p);
    }
  }

  /** No sink's tmp file fails to be created. */
  ghost predicate CreatesSucceed(fault: (nat, Op) -> bool, e: nat, sinks: seq<Sink>) {
    forall k :: 0 <= k < |sinks| ==> !fault(e, Op.Create(TmpPath(sinks[k].name)))
  }

  /** No sink's tmp file fails to be flushed. */
  ghost predicate FlushesSucceed(fault: (nat, Op) -> bool, e: nat, sinks: seq<Sink>) {
    forall k :: 0 <= k < |sinks| ==> !fault(e, Op.Flush(TmpPath(sinks[k].name)))
  }

  /** No sink's tmp file fails to be renamed to its committed name. */
  ghost predicate RenamesSucceed(fault: (nat, Op) -> bool, e: nat, sinks: seq<Sink>, now: int) {
    forall k :: 0 <= k < |sinks| ==> !fault(e, Op.Rename(TmpPath(sinks[k].name), DestPath(sinks[k].name, now)))
  }

  /** Every call of publishing `metrics` at `now` succeeds. */
  ghost predicate PublishSucceeds(fault: (nat, Op) -> bool, e: nat, sinks: seq<Sink>, metrics: seq<string>, now: int) {
    && CreatesSucceed(fault, e, sinks) && WritesSucceed(fault, e, sinks, metrics)
    && FlushesSucceed(fault, e, sinks) && RenamesSucceed(fault, e, sinks, now)
  }

  /**
   * The call a failing publish stops at: the first create that fails; once
   * every create succeeded, a write of a metric to a sink that receives it;
   * once every write succeeded too, the first flush that fails; once every
   * flush succeeded too, the first rename that fails.
   */
  ghost predicate PublishFailure(fault: (nat, Op) -> bool, e: nat, sinks: seq<Sink>, metrics: seq<string>, now: int, op: Op) {
    && fault(e, op)
    && (|| (exists i :: 0 <= i < |sinks| && op == Op.Create(TmpPath(sinks[i].name))
                       && forall k :: 0 <= k < i ==> !fault(e, Op.Create(TmpPath(sinks[k].name))))
        || (CreatesSucceed(fault, e, sinks) && IssuedWrite(sinks, metrics, op))
        || (&& CreatesSucceed(fault, e, sinks) && WritesSucceed(fault, e, sinks, metrics)
            && exists i :: 0 <= i < |sinks| && op == Op.Flush(TmpPath(sinks[i].name))
                            && forall k :: 0 <= k < i ==> !fault(e, Op.Flush(TmpPath(sinks[k].name))))
        || (&& CreatesSucceed(fault, e, sinks) && WritesSucceed(fault, e, sinks, metrics) && FlushesSucceed(fault, e, sinks)
            && exists i :: 0 <= i < |sinks| && op == Op.Rename(TmpPath(sinks[i].name), DestPath(sinks[i].name, now))
                            && forall k :: 0 <= k < i ==>
                                 !fault(e, Op.Rename(TmpPath(sinks[k].name), DestPath(sinks[k].name, now)))))
  }

  /**
   * The sink half of one iteration: create the tmp files, write the batch's
   * metrics, flush, then rename every tmp file to its committed name.
   */
  method Publish(fs: FileSystem, sinks: seq<Sink>, metrics: seq<string>, now: int) returns (failed: Option<Op>)
    requires DistinctNames(sinks)
    modifies fs`sink
    ensures failed.None? ==> CommittedDir(old(fs.sink), fs.sink, sinks, metrics, now)
    ensures failed.None? <==> PublishSucceeds(fs.fault, fs.epoch, sinks, metrics, now)
    ensures failed.Some? ==> PublishFailure(fs.fault, fs.epoch, sinks, metrics, now, failed.value)
    ensures failed.Some? ==> fs.fault(fs.epoch, failed.value) && !failed.value.Remove? && !failed.value.Read?
    ensures SameOutside(old(fs.sink), fs.sink, TmpPaths(sinks) + DestPaths(sinks, now))
  {
    failed := OpenSinkFiles(fs, sinks);
    if failed.Some? {
      return;
    }
    ghost var created := fs.sink;
    failed := WriteSinkFiles(fs, sinks, metrics);
    if failed.Some? {
      IssuedWriteFails(fs.fault, fs.epoch, sinks, metrics, failed.value);
      return;
    }
    failed := FlushSinkFiles(fs, sinks);
    if failed.Some? {
      return;
    }
    ghost var written := fs.sink;
    failed := RotateSinkFiles(fs, sinks, now);
    if failed.Some? {
      return;
    }
    CommittedFromRotation(old(fs.sink), created, written, fs.sink, sinks, metrics, now);
  }

  lemma CommittedFromRotation(d0: map<string, string>, d1: map<string, string>, d2: map<string, string>,
                              d3: map<string, string>, sinks: seq<Sink>, metrics: seq<string>, now: int)
    requires SameOutside(d0, d1, TmpPaths(sinks)) && SameOutside(d1, d2, TmpPaths(sinks))
    requires TmpFilesHold(d2, sinks, metrics)
    requires forall k :: 0 <= k < |sinks| ==>
      && DestPath(sinks[k].name, now) in d3
      && d3[DestPath(sinks[k].name, now)] == d2[TmpPath(sinks[k].name)]
      && TmpPath(sinks[k].name) !in d3
    requires SameOutside(d2, d3, TmpPaths(sinks) + DestPaths(sinks, now))
    ensures CommittedDir(d0, d3, sinks, metrics, now)
  {
  }

  /**
   * One pass of `route`'s outer loop: list the source directory, select a
   * batch, and, when there is one, publish it to every sink and delete its
   * source files. Any failing call ends the pass with that call.
   */
  method Iterate(fs: FileSystem, sinks: seq<Sink>, labels: string, lim: Limits) returns (step: Step)
    requires fs.Valid() && DistinctNames(sinks)
    modifies fs
    ensures fs.Valid() && fs.epoch == old(fs.epoch) + 1
    ensures SourcesKept(old(fs.source), fs.source)
    ensures SameOutside(old(fs.sink), fs.sink, TmpPaths(sinks) + DestPaths(sinks, fs.clock(fs.epoch)))
    ensures step.Drained? ==>
      && NothingToDo(View(fs.listing, fs.source, fs.fault, fs.epoch), labels, lim)
      && fs.listing == old(fs.listing) && fs.source == old(fs.source) && fs.sink == old(fs.sink)
    ensures step.Committed? ==>
      && Select(View(old(fs.listing), old(fs.source), fs.fault, fs.epoch), labels, lim) == Selected(step.batch)
      && step.batch.files != []
      && step.now == fs.clock(fs.epoch)
      && CommittedDir(old(fs.sink), fs.sink, sinks, step.batch.metrics, step.now)
      && RemovedFrom(old(fs.source), fs.source, step.batch.files)
      && |fs.listing| + |step.batch.files| == |old(fs.listing)|
    ensures step.Failed? ==> fs.fault(fs.epoch, step.op) && !step.op.Read?
    ensures step.Failed? ==>
      PassFailure(fs.fault, fs.epoch, sinks, Select(View(old(fs.listing), old(fs.source), fs.fault, fs.epoch), labels, lim),
                  fs.clock(fs.epoch), step.op)
    ensures fs.fault(fs.epoch, Op.ListDir) ==> step == Failed(Op.ListDir)
    ensures !fs.fault(fs.epoch, Op.ListDir) ==>
      var sel := Select(View(old(fs.listing), old(fs.source), fs.fault, fs.epoch), labels, lim);
      && (sel.EntryFailed? ==> step == Failed(Op.Entry(sel.index)))
      && (sel.Selected? && sel.batch.files == [] ==> step.Drained?)
      && (sel.Selected? && sel.batch.files != [] ==>
            (step.Committed? <==> && PublishSucceeds(fs.fault, fs.epoch, sinks, sel.batch.metrics, fs.clock(fs.epoch))
                                  && RemovesSucceed(fs.fault, fs.epoch, sel.batch.files)))
    ensures step.Failed? && !step.op.Remove? ==> fs.listing == old(fs.listing) && fs.source == old(fs.source)
    ensures step.Failed? && step.op.Remove? ==>
      var sel := Select(View(old(fs.listing), old(fs.source), fs.fault, fs.epoch), labels, lim);
      && sel.Selected?
      && CommittedDir(old(fs.sink), fs.sink, sinks, sel.batch.metrics, fs.clock(fs.epoch))
      && step.op.name in sel.batch.files
  {
    var listing := fs.ReadDir();
    if listing.None? {
      return Failed(Op.ListDir);
    }
    var sel := SelectBatch(fs, listing.value, labels, lim);
    if sel.EntryFailed? {
      return Failed(Op.Entry(sel.index));
    }
    var batch := sel.batch;
    if batch.files == [] {
      return Drained;
    }
    var now: int := fs.clock(fs.epoch);
    SelectedFiles(View(old(fs.listing), old(fs.source), fs.fault, fs.epoch), labels, lim);
    var failed := Commit(fs, sinks, batch, now);
    if failed.Some? {
      return Failed(failed.value);
    }
    return Committed(batch, now);
  }

  /** The call a failing commit stops at: one of the publish, or else the first removal that fails. */
  ghost predicate CommitFailure(fault: (nat, Op) -> bool, e: nat, sinks: seq<Sink>, batch: Batch, now: int, op: Op) {
    || PublishFailure(fault, e, sinks, batch.metrics, now, op)
    || (PublishSucceeds(fault, e, sinks, batch.metrics, now) && FirstRemoveFailure(fault, e, batch.files, op))
  }

  /**
   * The call a failing pass over the listing `sel` was selected from stops
   * at: the listing itself; else the entry the selection failed at; else,
   * for a non-empty batch, the call its commit stops at.
   */
  ghost predicate PassFailure(fault: (nat, Op) -> bool, e: nat, sinks: seq<Sink>, sel: Selection, now: int, op: Op) {
    || (op == Op.ListDir && fault(e, op))
    || (!fault(e, Op.ListDir) && sel.EntryFailed? && op == Op.Entry(sel.index))
    || (&& !fault(e, Op.ListDir) && sel.Selected? && sel.batch.files != []
        && CommitFailure(fault, e, sinks, sel.batch, now, op))
  }

  /** The second half of a pass that loaded a batch: publish its metrics, then delete its source files. */
  method Commit(fs: FileSystem, sinks: seq<Sink>, batch: Batch, now: int) returns (failed: Option<Op>)
    requires fs.Valid() && DistinctNames(sinks) && Distinct(batch.files)
    requires forall k :: 0 <= k < |batch.files| ==> batch.files[k] in fs.source
    modifies fs`sink, fs`source, fs`listing
    ensures fs.Valid()
    ensures SourcesKept(old(fs.source), fs.source)
    ensures SameOutside(old(fs.sink), fs.sink, TmpPaths(sinks) + DestPaths(sinks, now))
    ensures failed.None? ==>
      && CommittedDir(old(fs.sink), fs.sink, sinks, batch.metrics, now)
      && RemovedFrom(old(fs.source), fs.source, batch.files)
      && |fs.listing| + |batch.files| == |old(fs.listing)|
    ensures failed.None? <==>
      PublishSucceeds(fs.fault, fs.epoch, sinks, batch.metrics, now) && RemovesSucceed(fs.fault, fs.epoch, batch.files)
    ensures failed.Some? ==> CommitFailure(fs.fault, fs.epoch, sinks, batch, now, failed.value)
    ensures failed.Some? ==> fs.fault(fs.epoch, failed.value) && !failed.value.Read?
    ensures failed.Some? && !failed.value.Remove? ==> fs.listing == old(fs.listing) && fs.source == old(fs.source)
    ensures failed.Some? && failed.value.Remove? ==>
      CommittedDir(old(fs.sink), fs.sink, sinks, batch.metrics, now) && failed.value.name in batch.files
  {
    failed := Publish(fs, sinks, batch.metrics, now);
    if failed.Some? {
      return;
    }
    failed := DeleteSources(fs, batch.files);
  }

  /**
   * `route`: passes of the outer loop until a listing gives nothing to load
   * (Ok) or a call fails (its error). Every pass but the last deletes at least
   * one source file, which bounds the loop.
   */
  method Route(fs: FileSystem, sinks: seq<Sink>, labels: string, lim: Limits) returns (r: Result<(), Op>)
    requires fs.Valid() && DistinctNames(sinks)
    modifies fs
    ensures fs.Valid() && fs.epoch > old(fs.epoch)
    ensures r.Ok? ==> NothingToDo(View(fs.listing, fs.source, fs.fault, fs.epoch), labels, lim)
    ensures r.Err? ==> fs.fault(fs.epoch, r.error) && !r.error.Read?
    ensures r.Err? ==>
      exists listing, source :: SourcesKept(old(fs.source), source) &&
        PassFailure(fs.fault, fs.epoch, sinks, Select(View(listing, source, fs.fault, fs.epoch), labels, lim),
                    fs.clock(fs.epoch), r.error)
    ensures SourcesKept(old(fs.source), fs.source)
    ensures ForeignKept(sinks, old(fs.sink), fs.sink)
  {
    while true
      invariant fs.Valid() && fs.epoch >= old(fs.epoch)
      invariant SourcesKept(old(fs.source), fs.source)
      invariant ForeignKept(sinks, old(fs.sink), fs.sink)
      decreases |fs.listing|
    {
      ghost var before, listing, source := fs.sink, fs.listing, fs.source;
      var step := Iterate(fs, sinks, labels, lim);
      ForeignKeptByIteration(sinks, before, fs.sink, fs.clock(fs.epoch));
      match step
      case Drained => return Ok(());
      case Failed(op) =>
        assert PassFailure(fs.fault, fs.epoch, sinks, Select(View(listing, source, fs.fault, fs.epoch), labels, lim),
                           fs.clock(fs.epoch), op);
        return Err(op);
      case Committed(_, _) =>
    }
  }

  /** The pause after cycle `c`, whose routing took `elapsed(c)` milliseconds by the wall clock. */
  function CycleSleep(elapsed: nat -> i64, scanPeriod: u64, c: nat): u64 {
    SleepTime(ElapsedMillis(elapsed(c)), scanPeriod)
  }

  /** How many times the stop flag has been looked at once `cycles` cycles have slept in full. */
  function PollsAfter(elapsed: nat -> i64, scanPeriod: u64, cycles: nat): (n: nat)
    ensures n >= cycles
  {
    if cycles == 0 then 0
    else PollsAfter(elapsed, scanPeriod, cycles - 1) + PollCount(CycleSleep(elapsed, scanPeriod, cycles - 1))
  }

  /** Every cycle's sleep looks at the flag at least once. */
  lemma PollsAfterGrows(elapsed: nat -> i64, scanPeriod: u64, cycles: nat)
    ensures PollsAfter(elapsed, scanPeriod, cycles) < PollsAfter(elapsed, scanPeriod, cycles + 1)
  {
  }

  /**
   * The sleep after one cycle: `slices` rest slices, the flag looked at after
   * each (looks are numbered from `polls` on), leaving at the first raised one.
   */
  method SleepSlices(sigint: nat -> bool, polls: nat, slices: nat) returns (raised: bool, looks: nat)
    ensures polls <= looks <= polls + slices
    ensures raised ==> polls < looks && sigint(looks - 1)
    ensures raised ==> forall k :: polls <= k < looks - 1 ==> !sigint(k)
    ensures !raised ==> looks == polls + slices && forall k :: polls <= k < looks ==> !sigint(k)
  {
    looks := polls;
    var p := 0;
    while p < slices
      invariant p <= slices && looks == polls + p
      invariant forall k :: polls <= k < looks ==> !sigint(k)
    {
      raised := sigint(looks);
      looks := looks + 1;
      if raised {
        return;
      }
      p := p + 1;
    }
    raised := false;
  }

  /** The sleep after cycle `cycles`: its slices, looking at the flag after each. */
  method SleepCycle(elapsed: nat -> i64, scanPeriod: u64, cycles: nat, sigint: nat -> bool, polls: nat)
    returns (raised: bool, looks: nat)
    requires polls == PollsAfter(elapsed, scanPeriod, cycles)
    ensures raised ==> polls < looks <= PollsAfter(elapsed, scanPeriod, cycles + 1) && sigint(looks - 1)
    ensures raised ==> forall k :: polls <= k < looks - 1 ==> !sigint(k)
    ensures !raised ==> looks == PollsAfter(elapsed, scanPeriod, cycles + 1)
    ensures !raised ==> forall k :: polls <= k < looks ==> !sigint(k)
  {
    var slices := PollCount(CycleSleep(elapsed, scanPeriod, cycles));
    raised, looks := SleepSlices(sigint, polls, slices);
  }

  /**
   * The looks before a cycle's sleep found the flag down; those of the sleep
   * continue the run, up to the one that finds it raised.
   */
  lemma NoneRaisedJoin(sigint: nat -> bool, polls: nat, looks: nat, raised: bool)
    requires polls <= looks && forall k :: 0 <= k < polls ==> !sigint(k)
    requires raised ==> polls < looks && sigint(looks - 1) && forall k :: polls <= k < looks - 1 ==> !sigint(k)
    requires !raised ==> forall k :: polls <= k < looks ==> !sigint(k)
    ensures raised ==> FirstRaised(sigint, looks)
    ensures !raised ==> forall k :: 0 <= k < looks ==> !sigint(k)
  {
  }

  /** Look `polls - 1` is the first to find the flag raised. */
  ghost predicate FirstRaised(sigint: nat -> bool, polls: nat) {
    0 < polls && sigint(polls - 1) && forall k :: 0 <= k < polls - 1 ==> !sigint(k)
  }

  /** Look `polls - 1` falls within the sleep of cycle `cycles - 1`, the last cycle begun. */
  ghost predicate StopsInCycle(elapsed: nat -> i64, scanPeriod: u64, cycles: nat, polls: nat) {
    0 < cycles && PollsAfter(elapsed, scanPeriod, cycles - 1) < polls <= PollsAfter(elapsed, scanPeriod, cycles)
  }

  /** The look that finds the flag raised during the sleep of cycle `done` lies within that cycle's looks. */
  lemma LastCycle(elapsed: nat -> i64, scanPeriod: u64, done: nat, cycles: nat, polls: nat)
    requires cycles == done + 1
    requires PollsAfter(elapsed, scanPeriod, done) < polls <= PollsAfter(elapsed, scanPeriod, done + 1)
    ensures StopsInCycle(elapsed, scanPeriod, cycles, polls)
  {
  }

  /**
   * One call of `route` in the router loop, which ignores its outcome: the
   * sources stay a subset of the first listing's, and foreign sink paths stay
   * as they were before the router started.
   */
  method RouteKeeping(fs: FileSystem, sinks: seq<Sink>, labels: string, lim: Limits,
                      ghost source0: map<string, string>, ghost sink0: map<string, string>)
    requires fs.Valid() && DistinctNames(sinks)
    requires SourcesKept(source0, fs.source) && ForeignKept(sinks, sink0, fs.sink)
    modifies fs
    ensures fs.Valid()
    ensures SourcesKept(source0, fs.source) && ForeignKept(sinks, sink0, fs.sink)
  {
    ghost var source, sink := fs.source, fs.sink;
    var _ := Route(fs, sinks, labels, lim);
    SourcesKeptTrans(source0, source, fs.source);
    ForeignKeptTrans(sinks, sink0, sink, fs.sink);
  }

  lemma SourcesKeptTrans(a: map<string, string>, b: map<string, string>, c: map<string, string>)
    requires SourcesKept(a, b) && SourcesKept(b, c)
    ensures SourcesKept(a, c)
  {
  }

  lemma ForeignKeptTrans(sinks: seq<Sink>, a: map<string, string>, b: map<string, string>, c: map<string, string>)
    requires ForeignKept(sinks, a, b) && ForeignKept(sinks, b, c)
    ensures ForeignKept(sinks, a, c)
  {
  }

  /**
   * `router`: flatten the labels once, then route, sleep the rest of the scan
   * period in slices of `REST_TIME`, and look at the stop flag after each
   * slice. `elapsed(c)` is the duration of cycle `c`'s routing and `sigint(k)`
   * the flag at its `k`-th look. The loop ends at the first look that finds
   * the flag raised, which is why one must exist.
   */
  method Router(fs: FileSystem, sinks: seq<Sink>, labels: seq<LabelPair>, params: Parameters,
                elapsed: nat -> i64, sigint: nat -> bool) returns (cycles: nat, polls: nat)
    requires fs.Valid() && DistinctNames(sinks)
    requires exists k :: sigint(k)
    modifies fs
    ensures fs.Valid()
    ensures FirstRaised(sigint, polls)
    ensures StopsInCycle(elapsed, params.scanPeriod, cycles, polls)
    ensures SourcesKept(old(fs.source), fs.source)
    ensures ForeignKept(sinks, old(fs.sink), fs.sink)
  {
    var flat := FlattenLabels(labels);
    var lim := Limits(params.batchCount, params.batchSize);
    ghost var stop: nat :| sigint(stop);
    ghost var source0, sink0 := fs.source, fs.sink;
    cycles, polls := 0, 0;
    while true
      invariant fs.Valid()
      invariant polls == PollsAfter(elapsed, params.scanPeriod, cycles) && polls <= stop
      invariant forall k :: 0 <= k < polls ==> !sigint(k)
      invariant SourcesKept(source0, fs.source) && ForeignKept(sinks, sink0, fs.sink)
      decreases stop - polls
    {
      RouteKeeping(fs, sinks, flat, lim, source0, sink0);
      var raised, looks;
      ghost var done := cycles;
      raised, looks := SleepCycle(elapsed, params.scanPeriod, cycles, sigint, polls);
      NoneRaisedJoin(sigint, polls, looks, raised);
      cycles, polls := cycles + 1, looks;
      if raised {
        LastCycle(elapsed, params.scanPeriod, done, cycles, polls);
        return;
      }
      PollsAfterGrows(elapsed, params.scanPeriod, done);
    }
  }
}
