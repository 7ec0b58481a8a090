/** The resume directory: one flag file per command that was started and has not finished. */
module ResumeFiles {
  import opened Domain
  import opened Deduplication

  const DAY: int := 24 * 3600 * 1000000000

  /** A file name: the one made from a clock reading and a sequence number, or any other. */
  datatype Name = Flag(nanos: int, number: nat) | Foreign(name: string)
  {
    predicate HasFlagSuffix() {
      Flag? || EndsWith(name, ".cronn")
    }
  }

  datatype Entry = Folder | File(content: string, modTime: Time)

  type Directory = map<Name, Entry>

  datatype Cmd = Cmd(command: string, file: Name)

  /** How an attempt to write a file ends; a failed one may leave part of the content behind. */
  datatype Write = Written | Refused | Partial(content: string)

  predicate IsOld(e: Entry, now: Time) {
    e.File? && e.modTime + DAY < now
  }

  /** A file the listing offers for resuming. */
  predicate Resumable(dir: Directory, n: Name, now: Time) {
    n in dir && dir[n].File? && n.HasFlagSuffix() && !IsOld(dir[n], now)
  }

  /** A file the listing deletes. */
  predicate Expires(dir: Directory, n: Name, now: Time) {
    n in dir && n.HasFlagSuffix() && IsOld(dir[n], now)
  }

  class Resumer {
    const enabled: bool
    var number: nat
    var dir: Directory

    constructor (enabled: bool, dir: Directory)
      ensures this.enabled == enabled && this.dir == dir && number == 0
    {
      this.enabled, this.dir, number := enabled, dir, 0;
    }

    /** Registers a command; the name it gets is never one handed out before by this resumer. */
    method OnStart(cmd: string, nanos: int, modTime: Time, write: Write) returns (ok: bool, fname: Option<Name>)
      modifies this`number, this`dir
      ensures !enabled ==> ok && fname == None && number == old(number) && dir == old(dir)
      ensures enabled ==> number == old(number) + 1 && ok == write.Written?
      ensures enabled && ok ==> fname == Some(Flag(nanos, number)) && dir == old(dir)[fname.value := File(cmd, modTime)]
      ensures enabled && !ok ==> fname == None
      ensures enabled && !ok ==> dir == if write.Partial?
                                        then old(dir)[Flag(nanos, number) := File(write.content, modTime)]
                                        else old(dir)
    {
      if !enabled { return true, None; }
      number := number + 1;
      var name := Flag(nanos, number);
      match write
      case Refused => return false, None;
      case Partial(content) =>
        dir := dir[name := File(content, modTime)];
        return false, None;
      case Written =>
        dir := dir[name := File(cmd, modTime)];
        return true, Some(name);
    }

    /** Takes the file away; an error if it is not there or the delete is refused. */
    method OnFinish(fname: Option<Name>, io: bool) returns (ok: bool)
      requires enabled ==> fname.Some?
      modifies this`dir
      ensures ok <==> !enabled || (io && fname.value in old(dir))
      ensures dir == if enabled && ok then old(dir) - {fname.value} else old(dir)
    {
      if !enabled { return true; }
      if !io || fname.value !in dir { return false; }
      dir := dir - {fname.value};
      return true;
    }

    /** The commands to resume, given the names in the directory in the order they are read, those whose content
        cannot be read, and those that cannot be deleted. None stands for a directory that cannot be read. */
    method List(entries: Option<seq<Name>>, now: Time, unreadable: set<Name>, undeletable: set<Name>)
      returns (res: seq<Cmd>)
      requires entries.Some? ==>
                 && (forall n :: n in entries.value <==> n in dir)
                 && forall i, j :: 0 <= i < j < |entries.value| ==> entries.value[i] != entries.value[j]
      modifies this`dir
      ensures !enabled || entries.None? ==> res == [] && dir == old(dir)
      ensures enabled && entries.Some? ==>
                && (forall n :: n in dir ==> n in old(dir) && dir[n] == old(dir)[n])
                && (forall n :: n in old(dir) ==>
                      (n !in dir <==>
                        && old(dir)[n].File? && (n.Flag? || EndsWith(n.name, ".cronn"))
                        && now > old(dir)[n].modTime + 24 * 3600 * 1000000000 && n !in undeletable))
                && (forall c :: c in res <==>
                      && c.file in old(dir) && old(dir)[c.file].File?
                      && (c.file.Flag? || EndsWith(c.file.name, ".cronn"))
                      && now <= old(dir)[c.file].modTime + 24 * 3600 * 1000000000
                      && c.file !in unreadable && c.command == old(dir)[c.file].content)
                && (forall i, j :: 0 <= i < j < |res| ==> res[i].file != res[j].file)
    {
      if !enabled || entries.None? { return []; }
      var names := entries.value;
      res := [];
      for i := 0 to |names|
        invariant forall n :: n in dir <==>
                    n in old(dir) && (n in names[..i] && Expires(old(dir), n, now) ==> n in undeletable)
        invariant forall n :: n in dir ==> dir[n] == old(dir)[n]
        invariant forall c :: c in res <==> c.file in names[..i] && Resumable(old(dir), c.file, now)
                                            && c.file !in unreadable && c.command == old(dir)[c.file].content
        invariant forall x, y :: 0 <= x < y < |res| ==> res[x].file != res[y].file
      {
        var n := names[i];
        assert names[..i + 1] == names[..i] + [n];
        assert n !in names[..i];
        if dir[n].Folder? || !n.HasFlagSuffix() { continue; }
        if dir[n].modTime + DAY < now {
          if n !in undeletable { dir := dir - {n}; }
          continue;
        }
        if n in unreadable { continue; }
        res := res + [Cmd(dir[n].content, n)];
      }
      assert names[..|names|] == names;
    }
  }
}
