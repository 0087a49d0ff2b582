/**
 * The part of the operating system the router touches: the source staging
 * directory (its listing and file contents), the sink staging directory, the
 * clock, and the possibility that any call fails.
 */
module Disk {
  import opened Wrappers
  import opened Ints

  /** Every filesystem call `route` makes; the fault oracle decides which of them fail. */
  datatype Op =
    | ListDir                                       // fs::read_dir(source_dir)
    | Entry(index: nat)                             // the index-th item of that directory iterator
    | Read(name: string)                            // File::open + read_to_string of a source file
    | Create(path: string)                          // File::create of a sink tmp file
    | Write(path: string, metric: nat, newline: bool) // one write of a metric line, or of its "\n"
    | Flush(path: string)
    | Rename(from: string, to: string)
    | Remove(name: string)                          // fs::remove_file of a source file

  predicate Distinct(names: seq<string>) {
    forall i, j :: 0 <= i < j < |names| ==> names[i] != names[j]
  }

  /** `names` with `n` taken out, the others kept in order. */
  function Without(names: seq<string>, n: string): (r: seq<string>)
    ensures forall x :: x in r <==> x in names && x != n
    ensures Distinct(names) ==> Distinct(r)
    ensures Distinct(names) && n in names ==> |r| == |names| - 1
    ensures n !in names ==> r == names
  {
    if names == [] then []
    else
      assert Distinct(names) ==> Distinct(names[1..]) && names[0] !in names[1..];
      assert names == [names[0]] + names[1..];
      if names[0] == n then Without(names[1..], n)
      else [names[0]] + Without(names[1..], n)
  }

  class FileSystem {
    /** The entries of the source directory, in the order the OS lists them. */
    var listing: seq<string>
    /** File name to text content, for the source directory. */
    var source: map<string, string>
    /** File name to text content, for the sink directory. */
    var sink: map<string, string>
    /** How many times the source directory has been listed: the environment's notion of time. */
    var epoch: nat
    /** Whether an operation attempted during the given listing epoch fails. */
    const fault: (nat, Op) -> bool
    /** Unix seconds read during the given listing epoch. */
    const clock: nat -> i64

    ghost predicate Valid()
      reads this
    {
      Distinct(listing) && (forall n :: n in source <==> n in listing)
    }

    constructor (listing: seq<string>, source: map<string, string>, sink: map<string, string>,
                 fault: (nat, Op) -> bool, clock: nat -> i64)
      requires Distinct(listing) && (forall n :: n in source <==> n in listing)
      ensures Valid()
      ensures this.listing == listing && this.source == source && this.sink == sink && epoch == 0
      ensures this.fault == fault && this.clock == clock
    {
      this.listing, this.source, this.sink, this.epoch := listing, source, sink, 0;
      this.fault, this.clock := fault, clock;
    }

    /** `fs::read_dir`: starts a new epoch and yields the listing. */
    method ReadDir() returns (entries: Option<seq<string>>)
      modifies this`epoch
      ensures epoch == old(epoch) + 1
      ensures entries == if fault(epoch, Op.ListDir) then None else Some(listing)
    {
      epoch := epoch + 1;
      entries := if fault(epoch, Op.ListDir) then None else Some(listing);
    }

    /** `read`: the whole content of a source file, or nothing when it is absent or unreadable. */
    method Read(name: string) returns (content: Option<string>)
      ensures content == if name in source && !fault(epoch, Op.Read(name)) then Some(source[name]) else None
    {
      content := if name in source && !fault(epoch, Op.Read(name)) then Some(source[name]) else None;
    }

    /** `File::create`: the sink file exists and is empty afterwards. */
    method Create(path: string) returns (ok: bool)
      modifies this`sink
      ensures ok == !fault(epoch, Op.Create(path))
      ensures sink == if ok then old(sink)[path := ""] else old(sink)
    {
      ok := !fault(epoch, Op.Create(path));
      if ok {
        sink := sink[path := ""];
      }
    }

    /** `Write::write` on the handle of a sink file: appends `data`. */
    method Write(path: string, data: string, metric: nat, newline: bool) returns (ok: bool)
      modifies this`sink
      ensures ok == (path in old(sink) && !fault(epoch, Op.Write(path, metric, newline)))
      ensures sink == if ok then old(sink)[path := old(sink)[path] + data] else old(sink)
    {
      ok := path in sink && !fault(epoch, Op.Write(path, metric, newline));
      if ok {
        sink := sink[path := sink[path] + data];
      }
    }

    /** `Write::flush`: unbuffered files have nothing to flush, but the call may still fail. */
    method Flush(path: string) returns (ok: bool)
      ensures ok == !fault(epoch, Op.Flush(path))
    {
      ok := !fault(epoch, Op.Flush(path));
    }

    /** `fs::rename` within the sink directory; an existing destination is replaced. */
    method Rename(from: string, to: string) returns (ok: bool)
      modifies this`sink
      ensures ok == (from in old(sink) && !fault(epoch, Op.Rename(from, to)))
      ensures sink == if ok then (old(sink) - {from})[to := old(sink)[from]] else old(sink)
    {
      ok := from in sink && !fault(epoch, Op.Rename(from, to));
      if ok {
        sink := (sink - {from})[to := sink[from]];
      }
    }

    /** `fs::remove_file` in the source directory. */
    method Remove(name: string) returns (ok: bool)
      requires Valid()
      modifies this`source, this`listing
      ensures Valid()
      ensures ok == (name in old(source) && !fault(epoch, Op.Remove(name)))
      ensures source == if ok then old(source) - {name} else old(source)
      ensures listing == if ok then Without(old(listing), name) else old(listing)
    {
      ok := name in source && !fault(epoch, Op.Remove(name));
      if ok {
        source := source - {name};
        listing := Without(listing, name);
      }
    }
  }
}
