# Beamium router, modelled in Dafny

Beamium collects Prometheus-style metrics with "source" workers that scrape
them into `*.metrics` files in a *source* staging directory. The **router**
turns those files into batches for the "sink" workers:

- it lists the source directory and picks a bounded batch of `*.metrics` files;
- it rewrites every line to carry a global label string, flattened once from a label map;
- it writes the lines to one `<sink>.tmp` file per sink, leaving out the lines a sink's selector excludes;
- it renames every tmp file to `<sink>-<now>.metrics` with one shared `now`;
- only after all renames succeed does it delete the source files it consumed;
- it repeats until a listing gives nothing to load;
- around this runs the scheduler loop. It sleeps the rest of the scan period in 10 ms slices and looks at a stop flag after each slice.

This project models `src/router.rs` (`router`, `route` and `read`).

- `Disk.FileSystem` is a class that holds the environment:
  - the source listing and the source file contents, as a sequence and a map;
  - the sink directory, as a map from path to content;
  - a listing epoch;
  - a fault oracle `fault(epoch, op)` that decides which filesystem calls fail;
  - a clock oracle that gives `now`.

  Each of `read_dir`, `read`, `File::create`, `write`, `flush`, `fs::rename`
  and `fs::remove_file` is a method of this class. It changes only the maps
  that call touches.
- The imperative loops of `route` are methods with loop invariants:
  - the entry loop and the line loop;
  - the tmp-file, write, flush, rename and delete loops;
  - the outer loop.

  Each method is proved against a pure specification. For example, `Batch.Select` says what the entry loop computes, and `Fanout.SinkContent` says what a sink file holds.
- The label fold, the relabelling of one line and the sleep arithmetic are functions, with lemmas about them.

Modules, one per file:

- `Ints`, `Wrappers`: machine integers and `Option` / `Result`.
- `Text`: the Rust string behaviour the router relies on: `str::lines`, `trim`, `split_whitespace().nth(1)`, `splitn(2, "{")`, UTF-8 byte length, `Path::extension` and decimal formatting.
- `Labels`: label flattening and relabelling.
- `Schedule`: sleep time and poll count.
- `Batch`: the selection specification.
- `Fanout`: sink selectors, sink file names and committed contents.
- `Disk`: the file system.
- `Routing`: the methods that mirror `route` and `router`.

## Model

| member | source | states |
|---|---|---|
| Labels.FlattenIsJoin | src/router.rs:29-33 | the folded label string is the `k=v` texts joined by single commas, with no comma before the first or after the last |
| Labels.FlattenEmptyIff | src/router.rs:29-33 | the label string is empty exactly when the label map is |
| Labels.FlattenTwoPairs | src/router.rs:29-33 | two pairs flatten to `k1=v1,k2=v2` |
| Labels.FoldFrom | src/router.rs:30-33 | folding from a non-empty accumulator appends `,` and the joined pairs |
| Labels.FlattenLabels | src/router.rs:29-33 | the fold over the label map from `""`; `Labels.FlattenIsJoin` and `Labels.FlattenEmptyIff` state its value |
| Labels.Relabel | src/router.rs:93-123 | with no labels a line is kept unchanged; with labels it is dropped exactly when it holds no `{` |
| Labels.RelabelAtFirstBrace | src/router.rs:97-123 | the output is head, `{`, labels, separator, rest, split at the first `{`, with head and rest verbatim |
| Labels.SeparatorIff | src/router.rs:116-121 | the separator is empty exactly when the text after `{`, once trimmed, starts with `}` |
| Labels.RelabelRoundTrip | src/router.rs:116-123 | the labels appear right after the first `{`, and removing them with `Unlabel` gives back the original line |
| Labels.UnlabelSplice | src/router.rs:116-123 | removing the labels and the separator from a spliced line restores it |
| Labels.SeparatorNeverComma | src/router.rs:117-121 | an empty separator is only chosen for a rest that does not start with a comma, so removing the labels is unambiguous |
| Labels.RelabelEmptySetExample | src/router.rs:116-123 | `foo{} 5` becomes `foo{env=prod} 5`, with no comma |
| Labels.RelabelNonEmptySetExample | src/router.rs:116-123 | `foo{bar=1} 5` becomes `foo{env=prod,bar=1} 5` |
| Labels.RelabelLinesAppend | src/router.rs:92-124 | the metrics of two runs of lines are the concatenation of their metrics |
| Labels.RelabelLinesNoLabels | src/router.rs:93-96 | with no labels every line is pushed unchanged, the empty ones too |
| Labels.RelabelLinesMembers | src/router.rs:92-124 | with labels there are no more metrics than lines; each metric is the relabelling of some line; every line holding `{` yields its metric |
| Routing.RelabelFile | src/router.rs:92-124 | the line loop pushes exactly `RelabelLines` of the file's lines |
| Schedule.ElapsedMillis | src/router.rs:43 | the `as u64` cast keeps the value modulo 2^64, and a negative duration becomes at least 2^63 |
| Schedule.SleepTime | src/router.rs:44-48 | the sleep is at least `REST_TIME` and at most max(scan period, `REST_TIME`); it completes the scan period when there is room, and otherwise is `REST_TIME`; there is no underflow |
| Schedule.PollCount | src/router.rs:49 | `sleep_time / REST_TIME` slices, which cover the sleep to within one slice; at least one for any sleep of at least `REST_TIME` |
| Schedule.PollsPerCycle | src/router.rs:43-54 | after every cycle the flag is polled at least once, and the slices slept never exceed the computed sleep |
| Schedule.BackwardClockRestsMinimum | src/router.rs:43-48 | for any scan period below 2^63 ms, a cycle whose measured time is negative is followed by exactly `REST_TIME` |
| Routing.CycleSleep | src/router.rs:43-48 | the pause after one cycle, `SleepTime` of the cast elapsed time; `Schedule.SleepTime` and `Schedule.PollsPerCycle` state its bounds |
| Routing.PollsAfter | src/router.rs:49-54 | every completed cycle adds at least one look at the flag |
| Routing.PollsAfterGrows | src/router.rs:49-54 | the number of looks strictly grows with every cycle |
| Routing.SleepSlices | src/router.rs:49-54 | the slice loop returns at the first of its looks that finds the flag raised, and otherwise makes all its looks, each finding the flag down |
| Routing.SleepCycle | src/router.rs:43-54 | one cycle's sleep ends at the first of its looks that finds the flag raised, or after exactly its computed number of looks, each finding the flag down |
| Routing.NoneRaisedJoin | src/router.rs:38-54 | the looks of earlier cycles, all down, and those of this sleep together end at the first look that finds the flag raised |
| Routing.RouteKeeping | src/router.rs:38-41 | one `route` call of the loop, whose outcome is only logged: every source file left was there before with the same content, and no sink file the router does not own has changed |
| Routing.Router | src/router.rs:24-56 | the router returns at the first look that finds the flag raised, during the sleep of its last cycle; every source file left was there before with the same content, and no sink file the router does not own has changed |
| Text.Lines | src/router.rs:92 | no line holds a newline |
| Text.LinesOfTerminated | src/router.rs:92 | reading back newline-terminated plain lines gives those lines |
| Text.LinesOfCrlfTerminated | src/router.rs:92 | reading back `\r\n`-terminated lines gives those lines: one carriage return is stripped before each newline, even from a line that itself ends in one |
| Text.StripCR | src/router.rs:92 | a line loses at most one trailing carriage return |
| Text.ByteLen | src/router.rs:127 | the UTF-8 length is between one and four bytes per character |
| Text.ByteLenAppend | src/router.rs:127 | the byte length of a concatenation is the sum of the byte lengths |
| Text.MetricsExtension | src/router.rs:74 | a name has extension `metrics` exactly when it ends in `.metrics` after a non-empty stem |
| Text.Extension | src/router.rs:74 | `Path::extension` of a file name; `Text.MetricsExtension` states when it is `metrics` |
| Text.IndexOf | src/router.rs:97 | the first occurrence of the character, or the length when there is none |
| Text.IndexOfSplit | src/router.rs:97 | the first `{` of `head + "{" + rest` is right after `head` when `head` holds none |
| Text.TrimStart | src/router.rs:117 | the result is a suffix of the text; what is cut from the front is whitespace, and the result does not start with whitespace |
| Text.TrimEnd | src/router.rs:117 | the result is a prefix of the text; what is cut from the end is whitespace, and the result does not end with whitespace |
| Text.TrimStartsWith | src/router.rs:117 | the trimmed text starts with a non-whitespace character `c` exactly when the first non-whitespace character of the text is `c` |
| Text.Words | src/router.rs:156 | `split_whitespace` of a line; `Text.WordsAreWords`, `Text.WordsAfterBlank`, `Text.WordsAfterWord` and `Text.WordsSplit` state its value |
| Text.SecondWord | src/router.rs:156-157 | `nth(1)` of those words, or none for a line of fewer than two words; `Text.SecondWordIff` states its value |
| Text.WordsAreWords | src/router.rs:156 | `split_whitespace` yields non-empty pieces free of whitespace |
| Text.WordsOfJoin | src/router.rs:156 | splitting words joined by single spaces gives back those words |
| Text.TrimStartOfBlank | src/router.rs:156 | leading whitespace of any length is trimmed away |
| Text.WordsAfterBlank | src/router.rs:156 | leading whitespace of any length does not change the words |
| Text.WordsAfterWord | src/router.rs:156 | a word followed by any non-empty run of whitespace is the first word, and the words of the rest follow it |
| Text.WordsSplit | src/router.rs:156 | conversely, text with a word is leading whitespace, its first word, and a rest that is empty or starts with whitespace and holds the other words |
| Text.SecondWordOfSplit | src/router.rs:156-157 | a line made of whitespace, a word, a non-empty run of whitespace, `w1`, and then nothing or text that starts with whitespace has `w1` as its second word |
| Text.SecondWordSplits | src/router.rs:156-157 | conversely, a line with a second word is laid out that way around it |
| Text.SecondWordIff | src/router.rs:156-157 | `nth(1)` of the words is `w1` exactly when the line is laid out that way around `w1` |
| Text.IntToDecimal | src/router.rs:176 | the `{}` text of a signed timestamp; `Text.IntToDecimalValue` and `Text.IntToDecimalInjective` state its value |
| Text.NatToDecimal | src/router.rs:176 | the decimal text of the timestamp is non-empty and made of digits |
| Text.NatToDecimalValue | src/router.rs:176 | the digits denote the number they were made from |
| Text.IntToDecimalValue | src/router.rs:176 | reading back the text of a signed timestamp gives the timestamp |
| Text.IntToDecimalInjective | src/router.rs:176 | different timestamps have different texts |
| Text.DashDigitsSplit | src/router.rs:176 | a text ending in `-` and digits splits there in one way only |
| Batch.Scan | src/router.rs:71-128 | the entry loop from one index with what is loaded so far: the loaded files, or the index of a failing entry; `Batch.SelectIsAdmissiblePrefix` and `Batch.SelectEntryFailure` state its value |
| Batch.Select | src/router.rs:65-128 | the batch of one listing with its relabelled metrics; `Batch.SelectedFiles`, `Batch.SelectCountBound` and `Batch.SelectSizeBound` state its properties |
| Batch.ScanSkips | src/router.rs:73-76 | an entry with another extension is passed over, and so is a metrics file whose `read` fails |
| Batch.ScanLoads | src/router.rs:84-127 | an admitted, readable metrics file is added and its byte length is counted |
| Batch.SelectIsAdmissiblePrefix | src/router.rs:71-128 | the batch is the readable metrics files of a prefix of the listing, every entry of which was read without error and every metrics entry of which passed both ceilings; the loop stops at the end of the listing or at a metrics entry, read without error, that a ceiling turns away |
| Batch.SelectedFiles | src/router.rs:71-127 | the batch holds distinct listed, readable `.metrics` files; its size is their total byte length; its metrics are their relabelled lines, files in listing order |
| Batch.ScannedFiles | src/router.rs:71-127 | the files the entry loop loads are distinct, listed, admissible, and their sizes add up |
| Batch.SelectCountBound | src/router.rs:79 | at most `batch_count + 1` files are selected |
| Batch.SelectSizeBound | src/router.rs:79 | the size loaded before the last selected file is at most `batch_size` |
| Batch.SelectExactCount | src/router.rs:79 | with every entry a readable metrics file and the total small enough, exactly min(entries, `batch_count + 1`) files are selected |
| Batch.SelectEntryFailure | src/router.rs:71-79 | an entry error is reported for the first entry that fails, and only when every metrics entry before it passed both ceiling checks |
| Batch.StopExcludesFailure | src/router.rs:71-79 | where the loop can stop with a batch, no entry it reaches with both ceilings passed fails; with the two lemmas above this decides between a batch and an entry error |
| Batch.LateMetricsStarve | src/router.rs:71-79 | when every metrics entry sits past index `batch_count`, the loop loads nothing, because `i` counts every entry, readable metrics files included |
| Batch.StarvationExample | src/router.rs:71-79 | entries `a`, `b`, `c.metrics`, all readable, with `batch_count` 1: `c.metrics` is admissible and the batch is empty |
| Batch.ScanByLoaded | src/router.rs:71-128 | the entry loop with the count ceiling on the files loaded; `Batch.ScanByLoadedNeverStarves` states its property |
| Batch.ScanByLoadedNeverStarves | src/router.rs:71-79 | with the count ceiling on the files loaded, an empty batch means no admissible file is listed |
| Batch.AdmissibleOfMembers | src/router.rs:74-90 | the admissible files of a listing are exactly its readable `.metrics` entries |
| Batch.BatchMetricsSnoc | src/router.rs:92-126 | loading one more file appends its relabelled lines to the metrics |
| Routing.LoadFile | src/router.rs:92-126 | loading a file extends the metrics to those of the longer file list |
| Routing.SelectBatch | src/router.rs:65-128 | the entry loop computes exactly `Select` of the listing, and an entry error names a failing entry |
| Disk.Without | src/router.rs:184 | removing a name from the listing keeps every other name and shortens a distinct listing by one |
| Disk.FileSystem.ReadDir | src/router.rs:65 | listing the source directory starts a new epoch and yields the listing unless it fails |
| Disk.FileSystem.Read | src/router.rs:192-199 | `read` gives the file's whole content, or nothing when the file is absent or the read fails |
| Disk.FileSystem.Create | src/router.rs:143 | `File::create` leaves an empty sink file unless it fails |
| Disk.FileSystem.Write | src/router.rs:162-163 | a write appends its data to an existing sink file unless it fails |
| Disk.FileSystem.Flush | src/router.rs:169 | a flush changes nothing and may fail |
| Disk.FileSystem.Rename | src/router.rs:178 | a rename moves the content to the target and replaces what was there, unless it fails |
| Disk.FileSystem.Remove | src/router.rs:184 | removing a source file drops it from the contents and from the listing unless it fails |
| Fanout.Excluded | src/router.rs:154-160 | a sink's selector drops a line when it matches the line's second word; `Fanout.ExcludedIff` and `Fanout.ExcludedTestsSecondWord` state it |
| Fanout.Forwarded | src/router.rs:149-161 | a line a sink receives; `Fanout.ForwardedIff` states when |
| Fanout.Kept | src/router.rs:148-165 | the metrics a sink receives, in order; `Fanout.KeptMembers` and `Fanout.KeptAppend` state its value |
| Fanout.SinkContent | src/router.rs:148-165 | a sink file's content; `Fanout.SinkContentReadsBack`, `Fanout.SinkContentAppend` and `Fanout.SinkContentPerFile` state its value |
| Fanout.TmpPath | src/router.rs:141 | the name `<sink>.tmp`; `Fanout.TmpIsNotDest` and `Fanout.SinkPathsDistinct` state it names no other sink path |
| Fanout.DestPath | src/router.rs:176 | the name `<sink>-<now>.metrics`; `Fanout.DestPathNowInjective` and `Fanout.DestPathsApart` state when two such names differ |
| Fanout.ForwardedIff | src/router.rs:149-161 | a sink receives a line exactly when the line is non-empty and either the sink has no selector, the line has no second word, or the selector does not match that word |
| Fanout.ExcludedTestsSecondWord | src/router.rs:154-158 | for a line of words with any whitespace before and between them, the exclusion tests exactly the second word |
| Fanout.ExcludedIff | src/router.rs:154-160 | a selector drops a line exactly when the line has a second whitespace-delimited word and the selector matches it; a line of fewer than two words always passes |
| Fanout.KeptMembers | src/router.rs:148-165 | a sink receives exactly the metrics it forwards, each no more often than it was produced |
| Fanout.KeptAppend | src/router.rs:148-165 | what a sink receives from two runs of metrics is the concatenation |
| Fanout.SinkContentAppend | src/router.rs:153-164 | writing one more metric appends it and a newline when the sink forwards it, and nothing otherwise |
| Fanout.SinkContentPerFile | src/router.rs:92-165 | a sink file holds what it receives of each source file in listing order |
| Fanout.SinkContentReadsBack | src/router.rs:148-165 | reading a sink file line by line gives back exactly the metrics it received, in order |
| Fanout.TmpIsNotDest | src/router.rs:141-176 | no `<sink>.tmp` name is a `<sink>-<now>.metrics` name |
| Fanout.SinkPathsDistinct | src/router.rs:141-176 | distinct sink names give distinct tmp and committed paths |
| Fanout.DestPathNowInjective | src/router.rs:174-176 | one sink's committed names under different timestamps differ |
| Fanout.DestPathsApart | src/router.rs:174-176 | for timestamps from 1970 on, committed names under different timestamps differ whatever the sink names |
| Fanout.NegativeStampsCollide | src/router.rs:176 | before 1970 two sinks' committed names can coincide: `s` at -1 and `s-` at 1 |
| Fanout.SameSecondCommitReplaces | src/router.rs:174-178 | two commits within the same second leave only the second batch in `<sink>-<now>.metrics`; when the batches differ for a sink, the first batch's content is no longer there |
| Fanout.DistinctSecondsKeepCommits | src/router.rs:174-178 | a commit under a different timestamp leaves the earlier commit's files, with their content, in place |
| Fanout.CommitStamp | src/router.rs:174 | the corrected commit timestamp is past the previous one and not before the clock, and is the clock whenever the clock has moved on |
| Fanout.CommitStampKeepsCommits | src/router.rs:174-178 | with timestamps taken by `CommitStamp`, a later commit never replaces an earlier commit's files |
| Routing.OpenSinkFiles | src/router.rs:140-144 | all tmp files are created empty, or the create of the first sink whose create fails is reported, every earlier create having succeeded; nothing outside the tmp paths changes |
| Routing.WriteLine | src/router.rs:162-163 | the line and then a newline are appended to the tmp file exactly when neither write fails; a failure is one of these two writes of this metric to this file |
| Routing.WriteToSink | src/router.rs:153-163 | a tmp file is unchanged for an excluded line and gains the line and a newline otherwise; a failure is a write of this metric to this file, whose sink receives the line; without one, both writes of a received line succeeded |
| Routing.WriteToSinks | src/router.rs:153-164 | for one non-empty line, every tmp file gains the line and a newline exactly when its sink forwards the line, and every such write succeeded; or a failing write of this metric to a sink that receives it is reported; only tmp paths change |
| Routing.WriteToSinkAt | src/router.rs:153-163 | one sink's step of that loop, extending what is written and what is known to have succeeded by that sink |
| Routing.WriteMetric | src/router.rs:153-164 | after one metric every tmp file holds what its sink receives of the metrics so far, and every write of it to a sink that receives it succeeded; or a failing such write is reported |
| Routing.EmptyMetricChangesNothing | src/router.rs:149-151 | an empty metric is skipped and changes no sink file |
| Routing.WriteSinkFiles | src/router.rs:148-165 | after the write loop every tmp file holds `SinkContent` of the metrics for its sink and every write of a metric to a sink that receives it succeeded; otherwise a failing write of some metric to a sink that receives it is reported |
| Routing.WriteNth | src/router.rs:149-164 | one metric of the write loop: skipped when empty, otherwise written to every sink that receives it |
| Routing.FlushSinkFiles | src/router.rs:168-170 | every tmp file is flushed, or the flush of the first sink whose flush fails is reported, every earlier flush having succeeded |
| Routing.RenameAll | src/router.rs:175-179 | the renames run in order; the directory is what the successful renames made it; the first failure is reported |
| Routing.RenamedMoved | src/router.rs:175-179 | after unaliased renames the moved contents are at their targets, the sources are gone, and every path not involved is unchanged |
| Routing.RotateSinkFiles | src/router.rs:174-179 | every tmp file is renamed to its committed name with the one shared `now`; only sink paths change; otherwise the rename of the first sink whose rename fails is reported, every earlier rename having succeeded |
| Routing.Publish | src/router.rs:135-179 | the sink half of an iteration succeeds exactly when every create, every write of a metric to a sink that receives it, every flush and every rename succeeds, and then leaves each sink's committed file holding its metrics and no tmp file; a failure is the first failing create, else a failing write, else the first failing flush, else the first failing rename |
| Routing.CommittedFromRotation | src/router.rs:140-179 | create, write and rename together give the committed sink directory |
| Routing.DeleteSources | src/router.rs:182-185 | the batch files are removed in order and nothing else; the loop succeeds exactly when no remove of a batch file fails; a failure reports the first failing remove and the prefix already removed |
| Routing.RemovedFromIsMinus | src/router.rs:182-185 | after the delete loop the source directory is the old one minus the batch |
| Routing.Commit | src/router.rs:135-185 | the commit succeeds exactly when the publish and every remove succeed; a failure is the call the publish stops at, or, once the publish succeeded, the first failing remove; sources are deleted only after every sink file is committed, and a failure before the deletes leaves every source in place |
| Routing.Iterate | src/router.rs:64-185 | a failing listing ends the pass with that error; otherwise an entry error of the selection ends it with that entry, an empty selection ends `route` and changes nothing, and a non-empty batch is committed exactly when its publish and removes succeed, and otherwise fails with the call the commit stops at; a committed iteration publishes the batch and removes exactly its file list; a failure is never a `read`, and a failed create, write, flush or rename leaves all sources in place |
| Routing.ForeignKeptByIteration | src/router.rs:140-179 | an iteration touches only sink paths the router owns |
| Routing.Route | src/router.rs:59-189 | `route` ends with `Ok` only at a listing with nothing to load, or with the error of the call its last pass stopped at, which is never a `read`; it never alters a source file it keeps, nor a sink file it does not own |

## Findings

| source | as written | input that shows it | evidently intended | confidence | as-written member | corrected member |
|---|---|---|---|---|---|---|
| src/router.rs:174-185 | the committed name `<sink>-<now>.metrics` has one-second resolution, and `fs::rename` replaces an existing target; the replaced batch's sources are already deleted | two iterations of `route` within the same second, the second with a non-empty batch: its rename replaces the first batch's committed file, and that batch is lost unless a sink worker took the file in between | every committed batch stays in the sink directory until a sink worker takes it; each commit gets a name no earlier commit used | not executed | Fanout.SameSecondCommitReplaces | Fanout.CommitStampKeepsCommits |
| src/router.rs:71-79 | the count ceiling `i > batch_count` uses the index of the directory entry, and `enumerate` counts every entry, not only `.metrics` files | a listing `a`, `b`, `c.metrics`, every entry readable, with `batch_count` 1: `c.metrics` has index 2, so it is turned away and the batch is empty; `route` then returns `Ok` with `c.metrics` still waiting, and with the same listing order it is never routed | the count ceiling counts the files already loaded, so an iteration finds nothing to do only when no readable `.metrics` file is listed | not executed | Batch.StarvationExample | Batch.ScanByLoadedNeverStarves |

## Left out

- I/O is the `Disk.FileSystem` maps and the fault and clock oracles. Directory listing order is given, and partial writes, UTF-8 decoding failures and rename atomicity are not modelled.
- The regex behind `selector.is_match` is an abstract predicate on the second word.
- Threads, the source and sink workers, and concurrent writers to either directory are not modelled. Each `route` call sees only its own changes.
- Wall-clock time and `thread::sleep` are not modelled. Each cycle's elapsed milliseconds and the iteration's `now` are inputs, and the stop flag is a given sequence of looks.
- Logging (`debug!`, `warn!`, `error!`, `info!`) is not modelled. `route`'s error is reported as the failing call.
- `src/main.rs` and the `config`, `source` and `sink` modules are not part of this model. `config::Sink` is a name and an optional selector, and `config::Parameters` keeps only the scan period and the two ceilings.
- The source and sink directories are two separate maps, not paths joined onto directories.
- `usize` overflow of `batch_size` and of the entry index is not modelled. Sizes and indices are unbounded, which matches any listing that fits in memory.
- Sinks are required to have distinct names. Two sinks with one name would hold two handles on the same tmp file.
- `str::lines` follows the definition of the era of this code: split at `'\n'`, drop a final empty piece, and strip one trailing `'\r'` per line.
- The label map's iteration order is an arbitrary sequence of pairs.
- Routing.Router: modelled only for a stop flag that is eventually raised. Without that premise the source loops forever, and Dafny requires a termination measure.
- Fanout.DistinctSecondsKeepCommits: only for timestamps from 1970 on, because before 1970 the sign lets the names of two sinks coincide (`Fanout.NegativeStampsCollide`).
- Fanout.CommitStamp: the corrected timestamp is not used by the routing methods, which keep the source's `now`.
- Batch.ScanByLoaded: the corrected entry loop is not used by the routing methods, which keep the source's `i > batch_count`.
- Routing.WriteSinkFiles: a failing write is pinned to a write the loop makes, of a metric to a sink that receives it, but not to the first one that fails in write order.
- Routing.Publish: the same holds for the writes inside its failure description.
- Routing.Route: the error is tied to the listing and the source directory at the start of the last pass, which the contract names only as existing.
- Routing.RotateSinkFiles: the rename loop runs over the precomputed sequences of tmp and committed paths, not over the sinks directly.
- With empty global labels the code pushes every line unchanged, including lines without `{`, and the model follows the code there. Only with non-empty labels is a line without `{` dropped.
- The batch rules follow the code, which can overshoot each ceiling by one file: the count check `i > batch_count` and the size check run before a file is added, and `i` counts every directory entry (see "## Findings").
