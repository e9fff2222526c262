/** One copy, start to finish, as the service makes it on a directory nobody else
    is writing to. */
module BackupCopyService {
  import opened Basics
  import opened Backups
  import opened BackupCopy

  datatype CopyRefusal = AnotherInstallation | AlreadyThere | DoesNotMatch | NotDurable

  class CopyDirectory {
    const dir: SnapshotDirectory

    constructor (dir: SnapshotDirectory)
      ensures this.dir == dir
    {
      this.dir := dir;
    }

    /** Finds whose directory it is from its newest readable copy, the
        installation's own kind of backups before those a restore set aside. */
    method EnsureSameInstallation(r: Reader, content: Bytes, ghost list: seq<string>) returns (same: bool)
      requires Lists(list, SnapshotNames(dir.files))
      ensures same == SameInstallation(r, dir.files, list, content)
    {
      var all := dir.Snapshots();
      OneOrder(all, list, SnapshotNames(dir.files));
      var candidates := Candidates(all);
      var theirs: Option<Installation> := None;
      var i := 0;
      while i < |candidates| && theirs.None?
        invariant 0 <= i <= |candidates|
        invariant theirs.None? ==>
          FirstReadable(r, dir.files, candidates[i..]) == FirstReadable(r, dir.files, candidates)
        invariant theirs.Some? ==> theirs == FirstReadable(r, dir.files, candidates)
      {
        assert candidates[i..][1..] == candidates[i + 1..];
        if candidates[i] in dir.files {
          theirs := r.owner(dir.files[candidates[i]]);
        }
        i := i + 1;
      }
      same := theirs.None? || theirs == r.owner(content);
    }

    /** Writes under a temporary name, reads it back, renames it into place and
        applies retention. `written` is what reads back; a rename that is not
        durable takes the name away again. */
    method CopySnapshot(r: Reader, name: string, content: Bytes, keep: nat, written: Bytes, durable: bool)
        returns (result: Outcome<seq<string>, CopyRefusal>)
      requires IsSnapshot(name)
      modifies dir
      ensures var before := old(dir.files);
        match result
        case Done(pruned) =>
          && name !in before && r.sha(written) == r.sha(content)
          && dir.files == Pruned((before - {Partial(name)})[name := written], keep)
        case Refused(refusal) =>
          && dir.files - {Partial(name)} == before - {Partial(name)}
          && (refusal.AlreadyThere? ==> name in before)
          && (refusal.DoesNotMatch? ==> r.sha(written) != r.sha(content))
          && (refusal.NotDurable? ==> !durable && name !in before)
      ensures result.Refused? && result.refusal.AnotherInstallation? <==>
        !exists list :: Lists(list, SnapshotNames(old(dir.files))) && SameInstallation(r, old(dir.files), list, content)
    {
      ghost var before := dir.files;
      var list := dir.Snapshots();
      var same := EnsureSameInstallation(r, content, list);
      if !same {
        forall other | Lists(other, SnapshotNames(before))
          ensures !SameInstallation(r, before, other, content)
        {
          OneOrder(other, list, SnapshotNames(before));
        }
        return Refused(AnotherInstallation);
      }
      assert Lists(list, SnapshotNames(before)) && SameInstallation(r, before, list, content);
      if name in dir.files {
        return Refused(AlreadyThere);
      }
      var partial := Partial(name);
      PartialIsNoSnapshot(name, name);
      dir.files := dir.files - {partial};
      dir.files := dir.files[partial := written];
      if r.sha(dir.files[partial]) != r.sha(content) {
        dir.files := dir.files - {partial};
        return Refused(DoesNotMatch);
      }
      dir.files := (dir.files - {partial})[name := dir.files[partial]];
      if !durable {
        dir.files := dir.files - {name};
        assert dir.files - {partial} == before - {partial};
        return Refused(NotDurable);
      }
      assert dir.files == (before - {partial})[name := written];
      var pruned := dir.PruneIn(keep);
      return Done(pruned);
    }
  }
}
