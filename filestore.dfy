/** The part of the operating system the ledger touches: a directory of named
    files, with the failures each call can report fixed in advance. */
module Files {

  /** Which calls fail, per file name. A read of `name` fails once
      `readLimit[name]` bytes have been delivered (when the file is at least
      that long, so the read that would have reported io.EOF fails too); a
      write to `name` stores at most `writeLimit[name]` bytes and then fails. */
  datatype FaultPlan = FaultPlan(
    createFails: set<string>,     // os.Create
    openFails: set<string>,       // os.Open
    openWriteFails: set<string>,  // os.OpenFile(O_WRONLY|O_TRUNC)
    readLimit: map<string, nat>,
    writeLimit: map<string, nat>,
    removeFails: set<string>,     // os.Remove
    renameFails: set<string>)     // os.Rename from this name

  /** No call on `name` fails. */
  predicate Reliable(plan: FaultPlan, name: string)
  {
    && name !in plan.createFails && name !in plan.openFails && name !in plan.openWriteFails
    && name !in plan.readLimit && name !in plan.writeLimit
    && name !in plan.removeFails && name !in plan.renameFails
  }

  /** What reading an opened file delivers: its bytes up to where reading
      stops, and whether it stops with an error instead of io.EOF. */
  datatype Stream = Stream(bytes: string, broken: bool)

  function StreamOf(content: string, plan: FaultPlan, name: string): (s: Stream)
    ensures s.bytes <= content
    ensures !s.broken ==> s.bytes == content
  {
    if name in plan.readLimit && plan.readLimit[name] <= |content|
    then Stream(content[..plan.readLimit[name]], true)
    else Stream(content, false)
  }

  /** How many of `size` bytes one write to `name` stores. */
  function Accepted(plan: FaultPlan, name: string, size: nat): (n: nat)
    ensures n <= size
    ensures n < size <==> name in plan.writeLimit && plan.writeLimit[name] < size
  {
    if name in plan.writeLimit && plan.writeLimit[name] < size then plan.writeLimit[name] else size
  }

  class FileStore {
    var files: map<string, string>
    const plan: FaultPlan

    constructor (files: map<string, string>, plan: FaultPlan)
      ensures this.files == files && this.plan == plan
    {
      this.files := files;
      this.plan := plan;
    }

    /** utils.PathExists; a stat error other than "not exist" is folded into "absent". */
    method Exists(name: string) returns (b: bool)
      ensures b <==> name in files
    {
      b := name in files;
    }

    /** os.Create: makes `name` an empty file, truncating what was there. */
    method Create(name: string) returns (ok: bool)
      modifies this
      ensures ok <==> name !in plan.createFails
      ensures files == if ok then old(files)[name := ""] else old(files)
    {
      ok := name !in plan.createFails;
      if ok { files := files[name := ""]; }
    }

    /** os.Open followed by reading through the handle. */
    method Open(name: string) returns (ok: bool, s: Stream)
      ensures ok <==> name in files && name !in plan.openFails
      ensures ok ==> s == StreamOf(files[name], plan, name)
    {
      ok := name in files && name !in plan.openFails;
      s := if ok then StreamOf(files[name], plan, name) else Stream("", true);
    }

    /** os.OpenFile(name, O_WRONLY|O_TRUNC): the file must exist; it is emptied. */
    method OpenForWrite(name: string) returns (ok: bool)
      modifies this
      ensures ok <==> name in old(files) && name !in plan.openWriteFails
      ensures files == if ok then old(files)[name := ""] else old(files)
    {
      ok := name in files && name !in plan.openWriteFails;
      if ok { files := files[name := ""]; }
    }

    /** One write of `data` at the end of the open file `name`; it reports
      how many bytes it stored, and an error when that is fewer than all. */
    method Write(name: string, data: string) returns (written: nat)
      requires name in files
      modifies this
      ensures written == Accepted(plan, name, |data|)
      ensures files == old(files)[name := old(files)[name] + data[..written]]
    {
      written := Accepted(plan, name, |data|);
      files := files[name := files[name] + data[..written]];
    }

    /** os.Remove. */
    method Remove(name: string) returns (ok: bool)
      modifies this
      ensures ok <==> name in old(files) && name !in plan.removeFails
      ensures files == if ok then old(files) - {name} else old(files)
    {
      ok := name in files && name !in plan.removeFails;
      if ok { files := files - {name}; }
    }

    /** os.Rename: `to` takes the contents of `from`, which disappears. */
    method Rename(from: string, to: string) returns (ok: bool)
      modifies this
      ensures ok <==> from in old(files) && from !in plan.renameFails
      ensures files == if ok then (old(files) - {from})[to := old(files)[from]] else old(files)
    {
      ok := from in files && from !in plan.renameFails;
      if ok { files := (files - {from})[to := files[from]]; }
    }
  }
}
