/** One job alone in a copy directory, operation by operation: what its retention
    leaves, which reads no file, so whose backups they are plays no part; and what
    its whole copy leaves, wherever it stops. */
module BackupRetention {
  import opened Basics
  import opened Backups
  import opened BackupCopy

  /** Only this job changes files; others may begin, look, fail and crash. */
  ghost predicate RunAlone(r: Reader, w: World, id: nat, events: seq<Event>, w': World)
    decreases |events|
  {
    if events == [] then w == w'
    else
      var e := events[0];
      && Enabled(w, e) && e != Crash(id)
      && (e.id != id ==> Next(r, w, e).files == w.files)
      && RunAlone(r, Next(r, w, e), id, events[1..], w')
  }

  ghost predicate Remaining(files: Files, j: Job, list: seq<string>) {
    Lists(list, SnapshotNames(files)) && j.pc.Pruning? && j.pc.victims == list[..Excess(list, j.keep)]
  }

  /** What is left to delete is what a fresh listing would have deleted. */
  ghost predicate Pruner(before: Files, files: Files, j: Job) {
    match j.pc
    case Retaining => files == before
    case Pruning(_) => Pruned(files, j.keep) == Pruned(before, j.keep) && exists list :: Remaining(files, j, list)
    case Finished => files == Pruned(before, j.keep)
    case _ => false
  }

  lemma PrunerMoves(r: Reader, before: Files, files: Files, j: Job, c: Choice)
    requires Pruner(before, files, j) && (Looks(j.pc) ==> Lists(c.list, SnapshotNames(files)))
    ensures var moved := Move(r, files, j, c); Pruner(before, moved.0, j.(pc := moved.1))
  {
    if j.pc.Retaining? {
      assert Remaining(files, j.(pc := Pruning(c.list[..Excess(c.list, j.keep)])), c.list);
    } else if j.pc.Pruning? {
      var list :| Remaining(files, j, list);
      if j.pc.victims == [] {
        NothingLeft(files, j, list);
      } else {
        assert list[0] == j.pc.victims[0] && list[0] in list;
        DroppingTheOldest(files, list, j.keep);
        assert Remaining(files - {list[0]}, j.(pc := Pruning(j.pc.victims[1..])), list[1..]);
      }
    }
  }

  lemma NothingLeft(files: Files, j: Job, list: seq<string>)
    requires Remaining(files, j, list) && j.pc.victims == []
    ensures files == Pruned(files, j.keep)
  {
    DroppingIsPruning(files, list, j.keep);
    assert list[..Excess(list, j.keep)] == [];
    assert Without(files, []) == files;
  }

  lemma {:induction false} RunKeepsPruner(r: Reader, before: Files, w: World, id: nat, events: seq<Event>, w': World)
    requires id in w.jobs && Pruner(before, w.files, w.jobs[id]) && RunAlone(r, w, id, events, w')
    ensures id in w'.jobs && w'.jobs[id].keep == w.jobs[id].keep && Pruner(before, w'.files, w'.jobs[id])
    decreases |events|
  {
    if events != [] {
      var e := events[0];
      if e.id == id {
        PrunerMoves(r, before, w.files, w.jobs[id], e.choice);
      }
      RunKeepsPruner(r, before, Next(r, w, e), id, events[1..], w');
    }
  }

  /** Whatever is in a directory and whosever it is: from its listing on, a
      retention run nobody else's changes cross leaves at every point what a
      later one would finish, and when it is over exactly the newest
      `max(keep, 1)` snapshots and every other file. */
  lemma CompletedPruneLeavesNewest(r: Reader, w: World, id: nat, events: seq<Event>, w': World)
    requires id in w.jobs && w.jobs[id].pc.Retaining? && RunAlone(r, w, id, events, w')
    ensures id in w'.jobs
    ensures var keep := w.jobs[id].keep;
      && Pruned(w'.files, keep) == Pruned(w.files, keep)
      && (w'.jobs[id].pc.Finished? || w'.jobs[id].pc == Pruning([]) ==> w'.files == Pruned(w.files, keep))
  {
    var keep := w.jobs[id].keep;
    RunKeepsPruner(r, w.files, w, id, events, w');
    PrunedIsPruned(w.files, keep);
    var j := w'.jobs[id];
    if j.pc == Pruning([]) {
      var list :| Remaining(w'.files, j, list);
      NothingLeft(w'.files, j, list);
    }
  }

  lemma PrunedIsPruned(files: Files, keep: nat)
    ensures Pruned(Pruned(files, keep), keep) == Pruned(files, keep)
  {
    var list := ListingOf(SnapshotNames(files));
    PruningKeepsNewest(files, list, keep);
    var rest, kept := list[Excess(list, keep)..], Pruned(files, keep);
    DroppingIsPruning(kept, rest, keep);
    assert rest[..0] == [];
    assert Without(kept, []) == kept;
  }

  // ---------------------------------------------------------- a copy, alone

  /** Nothing but the partial file differs. */
  predicate OnlyPartial(before: Files, files: Files, name: string) {
    files - {Partial(name)} == before - {Partial(name)}
  }

  /** The directory with the copy in it, whole, and no partial file. */
  function Landed(before: Files, j: Job): Files {
    (before - {Partial(j.name)})[j.name := j.content]
  }

  /** How far a copy has come. */
  ghost predicate Copying(before: Files, files: Files, j: Job) {
    && WellNamed(j)
    && match j.pc
       case Arrived => files == before
       case Claimed => files == before
       case Clearing => files == before && j.name !in before
       case Writing(_) => OnlyPartial(before, files, j.name) && j.name !in before
       case Synced => OnlyPartial(before, files, j.name) && j.name !in before && Stored(files, j)
       case Verified => OnlyPartial(before, files, j.name) && j.name !in before && Stored(files, j)
       case Placed => files == Landed(before, j) && j.name !in before
       case Retaining => files == Landed(before, j) && j.name !in before
       case Pruning(_) => j.name !in before && Pruner(Landed(before, j), files, j)
       case Finished =>
         || OnlyPartial(before, files, j.name)
         || (j.name !in before && files == Pruned(Landed(before, j), j.keep))
       case _ => false
  }

  predicate Stored(files: Files, j: Job) {
    Partial(j.name) in files && files[Partial(j.name)] == j.content
  }

  lemma LandedGone(before: Files, j: Job)
    requires IsSnapshot(j.name) && j.name !in before
    ensures Landed(before, j) - {j.name} == before - {Partial(j.name)}
    ensures OnlyPartial(before, Landed(before, j) - {j.name}, j.name)
  {
    PartialIsNoSnapshot(j.name, j.name);
  }

  lemma LandsFrom(before: Files, files: Files, j: Job)
    requires OnlyPartial(before, files, j.name) && Stored(files, j)
    ensures (files - {Partial(j.name)})[j.name := files[Partial(j.name)]] == Landed(before, j)
  {
  }

  lemma BuildingMoves(r: Reader, before: Files, files: Files, j: Job, c: Choice)
    requires Copying(before, files, j) && (j.pc.Clearing? || j.pc.Writing? || j.pc.Synced?)
    requires WellNamed(j.(pc := Move(r, files, j, c).1))
    ensures var moved := Move(r, files, j, c); Copying(before, moved.0, j.(pc := moved.1))
  {
    assert j.content[..|j.content|] == j.content;
    var p := Partial(j.name);
    assert (files - {p}) - {p} == files - {p};
    if j.pc.Writing? {
      assert files[p := j.content[..Reach(j.pc.written, c.upto, j.content)]] - {p} == files - {p};
    }
  }

  lemma CopyMoves(r: Reader, before: Files, files: Files, j: Job, c: Choice)
    requires Copying(before, files, j) && (Looks(j.pc) ==> Lists(c.list, SnapshotNames(files)))
    requires WellNamed(j.(pc := Move(r, files, j, c).1))
    ensures var moved := Move(r, files, j, c); Copying(before, moved.0, j.(pc := moved.1))
  {
    match j.pc
    case Clearing => BuildingMoves(r, before, files, j, c);
    case Writing(_) => BuildingMoves(r, before, files, j, c);
    case Synced => BuildingMoves(r, before, files, j, c);
    case Verified => LandsFrom(before, files, j);
    case Placed => LandedGone(before, j);
    case Retaining => PrunerMoves(r, Landed(before, j), files, j, c);
    case Pruning(_) => PrunerMoves(r, Landed(before, j), files, j, c);
    case _ =>
  }

  lemma {:induction false} RunKeepsCopying(r: Reader, before: Files, w: World, id: nat, events: seq<Event>, w': World)
    requires id in w.jobs && Copying(before, w.files, w.jobs[id]) && RunAlone(r, w, id, events, w')
    requires AllWellNamed(w)
    ensures id in w'.jobs && w'.jobs[id] == w.jobs[id].(pc := w'.jobs[id].pc) && Copying(before, w'.files, w'.jobs[id])
    decreases |events|
  {
    if events != [] {
      var e := events[0];
      EventKeepsNames(r, w, e);
      if e.id == id {
        assert WellNamed(Next(r, w, e).jobs[id]);
        CopyMoves(r, before, w.files, w.jobs[id], e.choice);
      }
      RunKeepsCopying(r, before, Next(r, w, e), id, events[1..], w');
    }
  }

  /** A copy nobody else's changes cross, from its first look on and wherever it may
      stop or crash: either nothing but its partial file differs from what was there,
      or the copy is in place, whole, under a name that was free, and a later
      retention would leave what this one was to leave. When it is over it has left
      every other file alone or landed with retention applied. */
  lemma CopyLandsOrLeaves(r: Reader, w: World, id: nat, events: seq<Event>, w': World)
    requires AllWellNamed(w) && id in w.jobs && w.jobs[id].pc.Arrived? && RunAlone(r, w, id, events, w')
    ensures id in w'.jobs
    ensures var j := w.jobs[id];
      && (OnlyPartial(w.files, w'.files, j.name)
          || (j.name !in w.files && Pruned(w'.files, j.keep) == Pruned(Landed(w.files, j), j.keep)))
      && (w'.jobs[id].pc.Finished? ==>
            || OnlyPartial(w.files, w'.files, j.name)
            || (j.name !in w.files && w'.files == Pruned(Landed(w.files, j), j.keep)))
  {
    var j := w.jobs[id];
    RunKeepsCopying(r, w.files, w, id, events, w');
    PrunedIsPruned(Landed(w.files, j), j.keep);
    assert Landed(w.files, w'.jobs[id]) == Landed(w.files, j);
  }
}
