/** Which copy directories stay one installation's. Retention deletes by age
    alone and the check ranks by kind first, so what decides is whose backup is
    the chief one both now and among the newest that retention keeps. */
module BackupSurvival {
  import opened Basics
  import opened Backups
  import opened BackupCopy
  import opened BackupOwnership
  import opened BackupRetention
  import BackupNames

  /** Retention to `keep` would leave the directory the installation's, as it is
      now. */
  ghost predicate Secure(r: Reader, files: Files, keep: nat, x: Installation) {
    Heads(r, files, x) && Heads(r, Pruned(files, keep), x)
  }

  /** A job works for the installation its snapshot belongs to. */
  predicate WorksFor(r: Reader, j: Job, x: Installation) {
    r.owner(j.content) == Some(x)
  }

  /** The owner's service runs one job at a time and keeps at least `keep`; others
      run any number and keep what they like. */
  ghost predicate OwnerSettled(r: Reader, w: World, x: Installation, keep: nat) {
    && (forall a: nat, b: nat | Live(w, a) && Live(w, b) && WorksFor(r, w.jobs[a], x) && WorksFor(r, w.jobs[b], x) :: a == b)
    && (forall a: nat | Live(w, a) && WorksFor(r, w.jobs[a], x) :: w.jobs[a].keep >= keep)
  }

  ghost predicate RunOwned(r: Reader, w: World, x: Installation, keep: nat, events: seq<Event>, w': World)
    decreases |events|
  {
    OwnerSettled(r, w, x, keep) && if events == [] then w == w'
      else Enabled(w, events[0]) && RunOwned(r, Next(r, w, events[0]), x, keep, events[1..], w')
  }

  /** A job of another installation changes a file. */
  ghost predicate Intrudes(r: Reader, w: World, x: Installation, e: Event) {
    Enabled(w, e) && e.Step? && !WorksFor(r, w.jobs[e.id], x) && Next(r, w, e).files != w.files
  }

  /** No run from the directory at rest has another installation's job change a
      file in it. */
  ghost predicate Survives(r: Reader, files: Files, keep: nat, x: Installation) {
    forall events, w, e | RunOwned(r, World(files, map[]), x, keep, events, w) :: !Intrudes(r, w, x, e)
  }

  // ------------------------------------------------- the chief of the newest

  /** `top` holds some newest snapshots of `files`, unchanged. */
  ghost predicate Top(top: Files, files: Files) {
    && (forall name <- SnapshotNames(top) :: name in files && files[name] == top[name])
    && (forall name <- SnapshotNames(top), other <- SnapshotNames(files) :: Older(name, other) ==> other in top)
  }

  lemma Fewer(a: set<string>, b: set<string>)
    requires a <= b
    ensures |a| <= |b|
  {
    assert b == a + (b - a);
  }

  lemma PrunedIsTop(files: Files, keep: nat)
    ensures Top(Pruned(files, keep), files)
  {
    var names := SnapshotNames(files);
    forall name, other | name in SnapshotNames(Pruned(files, keep)) && other in names && Older(name, other)
      ensures other in Pruned(files, keep)
    {
      forall newer | newer in Newer(names, other)
        ensures newer in Newer(names, name)
      {
        OlderIsTransitive(name, other, newer);
      }
      Fewer(Newer(names, other), Newer(names, name));
    }
  }

  /** Between the newest ones kept and the whole there is no other chief. */
  lemma BetweenHeads(r: Reader, files: Files, middle: Files, kept: Files, x: Installation)
    requires Heads(r, files, x) && Heads(r, kept, x)
    requires Top(middle, files) && Top(kept, files) && SnapshotNames(kept) <= SnapshotNames(middle)
    ensures Heads(r, middle, x)
  {
    var c :| IsChief(r, files, c) && r.owner(files[c]) == Some(x);
    var k :| IsChief(r, kept, k) && r.owner(kept[k]) == Some(x);
    assert k in SnapshotNames(kept) && k in SnapshotNames(middle);
    if c in middle {
      assert c in SnapshotNames(middle);
      assert IsChief(r, middle, c);
    } else {
      forall other | Readable(r, middle, other) && other != k
        ensures Outranks(k, other)
      {
        assert other in SnapshotNames(middle) && Readable(r, files, other);
        OlderIsTotal(k, other);
        if Older(k, other) {
          assert other in SnapshotNames(kept) && Readable(r, kept, other);
        }
        OlderIsTotal(other, c);
        assert !Older(other, c);
        OlderIsStrict(c, other);
        assert Readable(r, files, k) && k != c;
        OlderIsTotal(k, c);
        assert !Older(k, c);
        OlderIsStrict(c, k);
      }
      assert IsChief(r, middle, k);
    }
  }

  /** `more` is the directory with one backup of the installation's own added. */
  ghost predicate Adds(r: Reader, files: Files, more: Files, name: string, x: Installation) {
    && IsOwnBackup(name) && name !in files && SnapshotNames(more) == SnapshotNames(files) + {name}
    && r.owner(more[name]) == Some(x)
    && forall other <- SnapshotNames(files) :: more[other] == files[other]
  }

  lemma AddedHeads(r: Reader, files: Files, more: Files, top: Files, name: string, x: Installation)
    requires Heads(r, files, x) && Adds(r, files, more, name, x)
    requires Top(top, more) && name in top
    ensures Heads(r, top, x)
  {
    var c :| IsChief(r, files, c) && r.owner(files[c]) == Some(x);
    assert name in SnapshotNames(top) && c in SnapshotNames(files) && c in SnapshotNames(more);
    var chief := if c in top && Outranks(c, name) then c else name;
    forall other | Readable(r, top, other) && other != chief
      ensures Outranks(chief, other)
    {
      assert other in SnapshotNames(top) && other in SnapshotNames(more);
      assert other != name ==> Readable(r, files, other);
      if chief == name && !IsSetAside(other) && other != c {
        assert Older(other, c);
        assert c in top;
        OlderIsTotal(c, name);
        OlderIsTransitive(other, c, name);
      } else if chief == name && other == c {
        OlderIsTotal(c, name);
      }
    }
    assert IsChief(r, top, chief);
  }

  lemma NewerGrow(names: set<string>, name: string, other: string)
    ensures Newer(names + {name}, other) == Newer(names, other) + (if Older(other, name) then {name} else {})
  {
  }

  /** A name too old to be kept changes nothing of what is. */
  lemma TooOldChangesNothing(files: Files, more: Files, keep: nat, name: string)
    requires IsSnapshot(name) && name !in files && name in more && SnapshotNames(more) == SnapshotNames(files) + {name}
    requires name !in Pruned(more, keep)
    ensures SnapshotNames(Pruned(files, keep)) <= SnapshotNames(Pruned(more, keep))
  {
    var names := SnapshotNames(files);
    NewerGrow(names, name, name);
    OlderIsIrreflexive(name);
    assert |Newer(names, name)| >= Max(keep, 1);
    forall other | other in SnapshotNames(Pruned(files, keep))
      ensures other in SnapshotNames(Pruned(more, keep))
    {
      NewerGrow(names, name, other);
      if Older(other, name) {
        forall newer | newer in Newer(names, name)
          ensures newer in Newer(names, other)
        {
          OlderIsTransitive(other, name, newer);
        }
        Fewer(Newer(names, name), Newer(names, other));
      }
      assert other in SnapshotNames(more);
    }
  }

  lemma TopWithout(files: Files, more: Files, top: Files, name: string)
    requires IsSnapshot(name) && name !in files && SnapshotNames(more) == SnapshotNames(files) + {name}
    requires forall other <- SnapshotNames(files) :: more[other] == files[other]
    requires Top(top, more) && name !in top
    ensures Top(top, files)
  {
    forall other | other in SnapshotNames(top)
      ensures other in files && files[other] == top[other]
    {
      assert other in SnapshotNames(more) && other != name;
    }
  }

  lemma AddingKeepsSecure(r: Reader, files: Files, more: Files, keep: nat, name: string, x: Installation)
    requires Secure(r, files, keep, x) && Adds(r, files, more, name, x)
    ensures Secure(r, more, keep, x)
  {
    assert name in SnapshotNames(more);
    AddedHeads(r, files, more, more, name, x);
    PrunedIsTop(files, keep);
    PrunedIsTop(more, keep);
    if name in Pruned(more, keep) {
      AddedHeads(r, files, more, Pruned(more, keep), name, x);
    } else {
      TooOldChangesNothing(files, more, keep, name);
      TopWithout(files, more, Pruned(more, keep), name);
      BetweenHeads(r, files, Pruned(more, keep), Pruned(files, keep), x);
    }
  }

  lemma OlderIsIrreflexive(name: string)
    ensures !Older(name, name)
  {
    if Older(name, name) {
      OlderIsStrict(name, name);
    }
  }

  /** Deleting the oldest of too many keeps it secure. */
  lemma DroppingKeepsSecure(r: Reader, files: Files, list: seq<string>, keep: nat, more: nat, x: Installation)
    requires Secure(r, files, keep, x) && Lists(list, SnapshotNames(files))
    requires more >= keep && |list| > Max(more, 1)
    ensures Secure(r, files - {list[0]}, keep, x)
  {
    var oldest, rest := list[0], files - {list[0]};
    DroppingTheOldest(files, list, keep);
    forall name, other | name in SnapshotNames(rest) && other in SnapshotNames(files) && Older(name, other)
      ensures other in rest
    {
      if other == oldest {
        assert name in list;
        var i :| 0 <= i < |list| && list[i] == name;
        OlderIsStrict(oldest, list[i]);
      }
    }
    PrunedIsTop(files, keep);
    assert SnapshotNames(Pruned(files, keep)) <= SnapshotNames(rest) by {
      assert Pruned(rest, keep) == Pruned(files, keep);
    }
    BetweenHeads(r, files, rest, Pruned(files, keep), x);
  }

  /** Security is a matter of the snapshots alone. */
  predicate SameSnapshots(files: Files, others: Files) {
    && SnapshotNames(files) == SnapshotNames(others)
    && forall name <- SnapshotNames(files) :: files[name] == others[name]
  }

  lemma SameHeads(r: Reader, files: Files, others: Files, x: Installation)
    requires SameSnapshots(files, others) && Heads(r, files, x)
    ensures Heads(r, others, x)
  {
    var c :| IsChief(r, files, c) && r.owner(files[c]) == Some(x);
    assert c in SnapshotNames(files);
    forall name | Readable(r, others, name)
      ensures Readable(r, files, name)
    {
      assert name in SnapshotNames(others);
    }
    assert IsChief(r, others, c);
  }

  lemma SamePruned(files: Files, others: Files, keep: nat)
    requires SameSnapshots(files, others)
    ensures SameSnapshots(Pruned(files, keep), Pruned(others, keep))
  {
    forall name
      ensures name in SnapshotNames(Pruned(files, keep)) <==> name in SnapshotNames(Pruned(others, keep))
      ensures name in SnapshotNames(Pruned(files, keep)) ==> Pruned(files, keep)[name] == Pruned(others, keep)[name]
    {
      assert name in SnapshotNames(files) <==> name in SnapshotNames(others);
    }
  }

  lemma SameSecure(r: Reader, files: Files, others: Files, keep: nat, x: Installation)
    requires SameSnapshots(files, others) && Secure(r, files, keep, x)
    ensures Secure(r, others, keep, x)
  {
    SameHeads(r, files, others, x);
    SamePruned(files, others, keep);
    SameHeads(r, Pruned(files, keep), Pruned(others, keep), x);
  }

  lemma PartialsDoNotCount(files: Files, name: string, data: Bytes)
    ensures SameSnapshots(files, files - {Partial(name)})
    ensures SameSnapshots(files, files[Partial(name) := data])
  {
    forall other | IsSnapshot(other)
      ensures Partial(name) != other
    {
      PartialIsNoSnapshot(name, other);
    }
  }

  // --------------------------------------------------- a secure directory stays

  predicate Waiting(pc: Pc) {
    pc.Arrived? || pc.CatchingUp? || pc.Rechecking? || pc.Finished?
  }

  /** The owner's job, at work alone: what it has written is its snapshot's, what
      it has placed can go again, and what it has still to delete is what a fresh
      listing would have it delete. */
  ghost predicate OwnersJob(r: Reader, files: Files, j: Job, keep: nat, x: Installation) {
    && WellNamed(j) && j.keep >= keep
    && (BackupNames.Building(j.pc) ==> j.name !in files)
    && (j.pc.Synced? || j.pc.Verified? ==> Partial(j.name) in files && files[Partial(j.name)] == j.content)
    && (j.pc.Placed? ==> Secure(r, files - {j.name}, keep, x))
    && (j.pc.Pruning? ==> exists list :: Remaining(files, j, list))
  }


  ghost predicate Owned(r: Reader, w: World, x: Installation, keep: nat) {
    && Secure(r, w.files, keep, x)
    && forall id <- w.jobs ::
      if WorksFor(r, w.jobs[id], x) && !w.jobs[id].pc.Finished? then OwnersJob(r, w.files, w.jobs[id], keep, x)
      else WellNamed(w.jobs[id]) && Waiting(w.jobs[id].pc)
  }

  /** Another installation's jobs come no further than the check. */
  lemma OthersOnlyWait(r: Reader, w: World, x: Installation, keep: nat, id: nat, c: Choice)
    requires Owned(r, w, x, keep) && Enabled(w, Step(id, c)) && !WorksFor(r, w.jobs[id], x)
    ensures Move(r, w.files, w.jobs[id], c).0 == w.files && Waiting(Move(r, w.files, w.jobs[id], c).1)
  {
    var j := w.jobs[id];
    if Looks(j.pc) {
      OnlyTheOwnerPasses(r, w.files, c.list, j.content, x);
    }
  }

  lemma PlacingAdds(r: Reader, files: Files, keep: nat, x: Installation, j: Job)
    requires Secure(r, files, keep, x) && WorksFor(r, j, x) && OwnersJob(r, files, j, keep, x) && j.pc.Verified?
    ensures var files' := (files - {Partial(j.name)})[j.name := j.content];
      Secure(r, files', keep, x) && Secure(r, files' - {j.name}, keep, x)
  {
    var cleared := files - {Partial(j.name)};
    var files' := cleared[j.name := j.content];
    PartialIsNoSnapshot(j.name, j.name);
    PartialsDoNotCount(files, j.name, []);
    assert SnapshotNames(files') == SnapshotNames(files) + {j.name} by {
      assert SnapshotNames(cleared) == SnapshotNames(files);
    }
    assert Adds(r, files, files', j.name, x);
    AddingKeepsSecure(r, files, files', keep, j.name, x);
    SameSecure(r, files, cleared, keep, x);
    assert files' - {j.name} == cleared;
  }

  lemma DeletionKeeps(r: Reader, files: Files, keep: nat, x: Installation, j: Job)
    requires Secure(r, files, keep, x) && OwnersJob(r, files, j, keep, x) && j.pc.Pruning? && j.pc.victims != []
    ensures var name := j.pc.victims[0];
      && name in files
      && Secure(r, files - {name}, keep, x)
      && OwnersJob(r, files - {name}, j.(pc := Pruning(j.pc.victims[1..])), keep, x)
  {
    var list :| Remaining(files, j, list);
    var j' := j.(pc := Pruning(j.pc.victims[1..]));
    assert list[0] == j.pc.victims[0] && list[0] in list;
    DroppingKeepsSecure(r, files, list, keep, j.keep, x);
    DroppingTheOldest(files, list, j.keep);
    assert Remaining(files - {list[0]}, j', list[1..]);
  }

  ghost predicate MoveKeeps(r: Reader, files: Files, keep: nat, x: Installation, j: Job, c: Choice) {
    var moved := Move(r, files, j, c);
    Secure(r, moved.0, keep, x) && (moved.1.Finished? || OwnersJob(r, moved.0, j.(pc := moved.1), keep, x))
  }

  lemma OwnerClears(r: Reader, files: Files, keep: nat, x: Installation, j: Job, c: Choice)
    requires Secure(r, files, keep, x) && OwnersJob(r, files, j, keep, x)
    requires j.pc.Clearing? || j.pc.Synced?
    ensures MoveKeeps(r, files, keep, x, j, c)
  {
    OwnerWrites(r, files, keep, x, j.name, []);
  }

  lemma OwnerStores(r: Reader, files: Files, keep: nat, x: Installation, j: Job, c: Choice)
    requires Secure(r, files, keep, x) && OwnersJob(r, files, j, keep, x) && j.pc.Writing?
    ensures MoveKeeps(r, files, keep, x, j, c)
  {
    var n := Reach(j.pc.written, c.upto, j.content);
    var stored := files[Partial(j.name) := j.content[..n]];
    assert Move(r, files, j, c).0 == stored;
    PartialIsNoSnapshot(j.name, j.name);
    OwnerWrites(r, files, keep, x, j.name, j.content[..n]);
    assert j.content[..|j.content|] == j.content;
  }

  lemma OwnerLooks(r: Reader, files: Files, keep: nat, x: Installation, j: Job, c: Choice)
    requires Secure(r, files, keep, x) && OwnersJob(r, files, j, keep, x)
    requires Waiting(j.pc) || j.pc.Claimed? || j.pc.Placed? || j.pc.Retaining?
    requires Looks(j.pc) ==> Lists(c.list, SnapshotNames(files))
    requires WellNamed(j.(pc := Move(r, files, j, c).1))
    ensures MoveKeeps(r, files, keep, x, j, c)
  {
    if j.pc.Retaining? {
      assert Remaining(files, j.(pc := Pruning(c.list[..Excess(c.list, j.keep)])), c.list);
    }
  }

  lemma OwnerNames(r: Reader, files: Files, keep: nat, x: Installation, j: Job, c: Choice)
    requires Secure(r, files, keep, x) && WorksFor(r, j, x) && OwnersJob(r, files, j, keep, x) && j.pc.Verified?
    ensures MoveKeeps(r, files, keep, x, j, c)
  {
    var placed := (files - {Partial(j.name)})[j.name := j.content];
    assert Move(r, files, j, c) == (placed, Placed);
    PlacingAdds(r, files, keep, x, j);
    assert OwnersJob(r, placed, j.(pc := Placed), keep, x);
  }

  lemma OwnerDeletes(r: Reader, files: Files, keep: nat, x: Installation, j: Job, c: Choice)
    requires Secure(r, files, keep, x) && OwnersJob(r, files, j, keep, x) && j.pc.Pruning?
    ensures MoveKeeps(r, files, keep, x, j, c)
  {
    if j.pc.victims != [] {
      DeletionKeeps(r, files, keep, x, j);
    }
  }

  lemma OwnerMoves(r: Reader, files: Files, keep: nat, x: Installation, j: Job, c: Choice)
    requires Secure(r, files, keep, x) && WorksFor(r, j, x) && OwnersJob(r, files, j, keep, x)
    requires Looks(j.pc) ==> Lists(c.list, SnapshotNames(files))
    requires WellNamed(j.(pc := Move(r, files, j, c).1))
    ensures MoveKeeps(r, files, keep, x, j, c)
  {
    if j.pc.Clearing? || j.pc.Synced? {
      OwnerClears(r, files, keep, x, j, c);
    } else if j.pc.Writing? {
      OwnerStores(r, files, keep, x, j, c);
    } else if j.pc.Verified? {
      OwnerNames(r, files, keep, x, j, c);
    } else if j.pc.Pruning? {
      OwnerDeletes(r, files, keep, x, j, c);
    } else {
      OwnerLooks(r, files, keep, x, j, c);
    }
  }

  lemma OwnerWrites(r: Reader, files: Files, keep: nat, x: Installation, name: string, data: Bytes)
    requires Secure(r, files, keep, x)
    ensures Secure(r, files - {Partial(name)}, keep, x) && Secure(r, files[Partial(name) := data], keep, x)
  {
    PartialsDoNotCount(files, name, data);
    SameSecure(r, files, files - {Partial(name)}, keep, x);
    SameSecure(r, files, files[Partial(name) := data], keep, x);
  }

  lemma EventKeepsOwned(r: Reader, w: World, x: Installation, keep: nat, e: Event)
    requires Owned(r, w, x, keep) && Enabled(w, e)
    requires OwnerSettled(r, w, x, keep) && OwnerSettled(r, Next(r, w, e), x, keep)
    ensures Owned(r, Next(r, w, e), x, keep)
    ensures !Intrudes(r, w, x, e)
  {
    EventKeepsNames(r, w, e);
    if e.Step? {
      var j := w.jobs[e.id];
      if WorksFor(r, j, x) {
        if !j.pc.Finished? {
          assert Live(w, e.id);
          assert WellNamed(Next(r, w, e).jobs[e.id]);
          OwnerMoves(r, w.files, keep, x, j, e.choice);
          forall id | Live(w, id) && WorksFor(r, w.jobs[id], x)
            ensures id == e.id
          {
          }
        }
      } else {
        OthersOnlyWait(r, w, x, keep, e.id, e.choice);
      }
    } else if e.Begin? {
      assert WorksFor(r, e.job, x) ==> Live(Next(r, w, e), e.id);
    }
  }

  lemma {:induction false} RunKeepsOwned(r: Reader, w: World, x: Installation, keep: nat, events: seq<Event>, w': World)
    requires Owned(r, w, x, keep) && RunOwned(r, w, x, keep, events, w')
    ensures Owned(r, w', x, keep)
    decreases |events|
  {
    if events != [] {
      EventKeepsOwned(r, w, x, keep, events[0]);
      RunKeepsOwned(r, Next(r, w, events[0]), x, keep, events[1..], w');
    }
  }

  /** A secure directory stays secure through every run: however jobs interleave
      and crash, and however many others run, the check goes on letting in its
      owner alone, and no operation of another's job changes a single file. */
  lemma OthersNeverTouchIt(r: Reader, files: Files, x: Installation, keep: nat, events: seq<Event>, w: World, e: Event)
    requires Secure(r, files, keep, x) && RunOwned(r, World(files, map[]), x, keep, events, w)
    ensures Secure(r, w.files, keep, x) && !Intrudes(r, w, x, e)
  {
    RunKeepsOwned(r, World(files, map[]), x, keep, events, w);
    if Intrudes(r, w, x, e) {
      OthersOnlyWait(r, w, x, keep, e.id, e.choice);
    }
  }

  // ------------------------------------------------ any other does not survive

  lemma {:induction false} NoneLonger(names: set<string>) returns (n: nat)
    ensures forall name <- names :: |name| <= n
  {
    if names == {} {
      n := 0;
    } else {
      var some := SomeMember(names);
      n := NoneLonger(names - {some});
      n := Max(|some|, n);
    }
  }

  function Dashes(n: nat): (s: string)
    ensures |s| == n
  {
    if n == 0 then "" else "-" + Dashes(n - 1)
  }

  lemma OwnKindByThirteenth(name: string)
    requires |name| > 12 && name[12] != 'p'
    ensures !IsSetAside(name)
  {
    var prefix := "consolebook-prerestore-";
    assert prefix[12] == 'p';
    assert |prefix| <= |name| ==> name[..|prefix|][12] == name[12];
  }

  /** There is always a name for another backup. */
  lemma FreeName(files: Files) returns (name: string)
    ensures IsOwnBackup(name) && name !in files
  {
    var n := NoneLonger(files.Keys);
    name := "consolebook-" + Dashes(n) + ".db";
    assert name[..12] == "consolebook-" && name[|name| - 3..] == ".db";
    assert name[12] == '-' || name[12] == '.';
    OwnKindByThirteenth(name);
  }

  lemma {:induction false} OwnedMore(r: Reader, w: World, x: Installation, keep: nat, events: seq<Event>, middle: World, e: Event)
    requires RunOwned(r, w, x, keep, events, middle) && Enabled(middle, e) && OwnerSettled(r, Next(r, middle, e), x, keep)
    ensures RunOwned(r, w, x, keep, events + [e], Next(r, middle, e))
    decreases |events|
  {
    if events == [] {
      var rest := [e][1..];
      assert rest == [] && events + [e] == [e];
      assert RunOwned(r, Next(r, w, e), x, keep, rest, Next(r, w, e));
    } else {
      assert (events + [e])[1..] == events[1..] + [e];
      OwnedMore(r, Next(r, w, events[0]), x, keep, events[1..], middle, e);
    }
  }

  /** At rest but for a job of the owner's that is over. */
  ghost predicate AtRest(w: World) {
    forall id <- w.jobs :: id == 0 && w.jobs[id].pc.Finished?
  }

  lemma OthersSettle(r: Reader, w: World, x: Installation, keep: nat)
    requires forall id <- w.jobs :: w.jobs[id].pc.Finished? || !WorksFor(r, w.jobs[id], x)
    ensures OwnerSettled(r, w, x, keep)
  {
  }

  lemma OneSettles(r: Reader, w: World, x: Installation, keep: nat)
    requires forall id <- w.jobs :: id == 0 && w.jobs[id].keep == keep
    ensures OwnerSettled(r, w, x, keep)
  {
  }

  /** The next move of a world, in which another installation's job is numbered 1. */
  lemma OtherMoves(r: Reader, w0: World, x: Installation, keep: nat, events: seq<Event>, w: World, c: Choice, pc: Pc, files: Files)
      returns (more: seq<Event>)
    requires RunOwned(r, w0, x, keep, events, w) && Enabled(w, Step(1, c)) && !WorksFor(r, w.jobs[1], x)
    requires forall id <- w.jobs :: w.jobs[id].pc.Finished? || !WorksFor(r, w.jobs[id], x)
    requires Move(r, w.files, w.jobs[1], c) == (files, pc)
    ensures RunOwned(r, w0, x, keep, more, World(files, w.jobs[1 := w.jobs[1].(pc := pc)]))
  {
    var w' := World(files, w.jobs[1 := w.jobs[1].(pc := pc)]);
    assert Next(r, w, Step(1, c)) == w';
    OthersSettle(r, w', x, keep);
    OwnedMore(r, w0, x, keep, events, w, Step(1, c));
    more := events + [Step(1, c)];
  }

  /** Where the chief backup is not the installation's another's can pass. */
  lemma SomeOtherPasses(r: Reader, files: Files, list: seq<string>, x: Installation, theirs: Bytes) returns (content: Bytes)
    requires Lists(list, SnapshotNames(files)) && !Heads(r, files, x) && r.owner(theirs) != Some(x)
    ensures SameInstallation(r, files, list, content) && r.owner(content) != Some(x)
  {
    ScanFindsTheChief(r, files, list);
    var first := FirstReadable(r, files, Candidates(list));
    content := theirs;
    if first.Some? {
      assert Heads(r, files, first.value);
      var c :| IsChief(r, files, c) && r.owner(files[c]) == first;
      content := files[c];
    }
  }

  /** Its job then finds a free name and writes. */
  lemma WhereOthersPass(r: Reader, w0: World, x: Installation, keep: nat, events: seq<Event>, w: World, theirs: Bytes)
    requires RunOwned(r, w0, x, keep, events, w) && AtRest(w)
    requires !Heads(r, w.files, x) && r.owner(theirs) != Some(x)
    ensures exists more, w', e :: RunOwned(r, w0, x, keep, more, w') && Intrudes(r, w', x, e)
  {
    var list := ListingOf(SnapshotNames(w.files));
    var content := SomeOtherPasses(r, w.files, list, x, theirs);
    var name := FreeName(w.files);
    var j := Job(name, content, keep, Arrived);
    var w1 := World(w.files, w.jobs[1 := j]);
    assert Next(r, w, Begin(1, j)) == w1;
    OthersSettle(r, w1, x, keep);
    OwnedMore(r, w0, x, keep, events, w, Begin(1, j));
    var claims := PassedJobClaims(r, w0, x, keep, events + [Begin(1, j)], w1, list);
    var more, w', e := ClaimedJobWrites(r, w0, x, keep, claims, World(w.files, w1.jobs[1 := j.(pc := Claimed)]));
  }

  lemma PassedJobClaims(r: Reader, w0: World, x: Installation, keep: nat, events: seq<Event>, w: World, list: seq<string>)
      returns (more: seq<Event>)
    requires RunOwned(r, w0, x, keep, events, w) && 1 in w.jobs && w.jobs[1].pc.Arrived?
    requires forall id <- w.jobs :: id != 1 ==> w.jobs[id].pc.Finished?
    requires !WorksFor(r, w.jobs[1], x)
    requires Lists(list, SnapshotNames(w.files)) && SameInstallation(r, w.files, list, w.jobs[1].content)
    ensures RunOwned(r, w0, x, keep, more, World(w.files, w.jobs[1 := w.jobs[1].(pc := Claimed)]))
  {
    more := OtherMoves(r, w0, x, keep, events, w, Choice(list, 0, true), Claimed, w.files);
  }

  lemma ClaimedJobWrites(r: Reader, w0: World, x: Installation, keep: nat, events: seq<Event>, w: World)
      returns (more: seq<Event>, w': World, e: Event)
    requires RunOwned(r, w0, x, keep, events, w) && 1 in w.jobs && w.jobs[1].pc.Claimed?
    requires forall id <- w.jobs :: id != 1 ==> w.jobs[id].pc.Finished?
    requires !WorksFor(r, w.jobs[1], x) && w.jobs[1].name !in w.files
    ensures RunOwned(r, w0, x, keep, more, w') && Intrudes(r, w', x, e)
  {
    var clearing := World(w.files, w.jobs[1 := w.jobs[1].(pc := Clearing)]);
    more := OtherMoves(r, w0, x, keep, events, w, Go, Clearing, w.files);
    more, w', e := ClearingJobWrites(r, w0, x, keep, more, clearing);
  }

  lemma ClearingJobWrites(r: Reader, w0: World, x: Installation, keep: nat, events: seq<Event>, w: World)
      returns (more: seq<Event>, w': World, e: Event)
    requires RunOwned(r, w0, x, keep, events, w) && 1 in w.jobs && w.jobs[1].pc.Clearing?
    requires forall id <- w.jobs :: id != 1 ==> w.jobs[id].pc.Finished?
    requires !WorksFor(r, w.jobs[1], x)
    ensures RunOwned(r, w0, x, keep, more, w') && Intrudes(r, w', x, e)
  {
    var j := w.jobs[1];
    var cleared := w.files - {Partial(j.name)};
    more := OtherMoves(r, w0, x, keep, events, w, Go, Writing(0), cleared);
    w', e := World(cleared, w.jobs[1 := j.(pc := Writing(0))]), Step(1, Go);
    assert Partial(j.name) in Next(r, w', e).files;
  }

  /** The owner's one job, numbered 0, moves. */
  lemma OwnerGoes(r: Reader, w0: World, x: Installation, keep: nat, events: seq<Event>, w: World, c: Choice, pc: Pc, files: Files)
      returns (more: seq<Event>)
    requires RunOwned(r, w0, x, keep, events, w) && Enabled(w, Step(0, c)) && w.jobs.Keys == {0} && w.jobs[0].keep == keep
    requires Move(r, w.files, w.jobs[0], c) == (files, pc)
    ensures RunOwned(r, w0, x, keep, more, World(files, map[0 := w.jobs[0].(pc := pc)]))
  {
    var w' := World(files, map[0 := w.jobs[0].(pc := pc)]);
    assert Next(r, w, Step(0, c)) == w' by {
      assert w.jobs[0 := w.jobs[0].(pc := pc)] == map[0 := w.jobs[0].(pc := pc)];
    }
    OneSettles(r, w', x, keep);
    OwnedMore(r, w0, x, keep, events, w, Step(0, c));
    more := events + [Step(0, c)];
  }

  /** Retention alone, from its listing to its end. */
  lemma {:induction false} OwnerPrunes(r: Reader, w0: World, x: Installation, events: seq<Event>, files: Files, list: seq<string>, j: Job)
      returns (more: seq<Event>)
    requires Lists(list, SnapshotNames(files)) && j.pc == Pruning(list[..Excess(list, j.keep)])
    requires RunOwned(r, w0, x, j.keep, events, World(files, map[0 := j]))
    ensures RunOwned(r, w0, x, j.keep, more, World(Pruned(files, j.keep), map[0 := j.(pc := Finished)]))
    decreases |list|
  {
    if |list| <= Max(j.keep, 1) {
      DroppingIsPruning(files, list, j.keep);
      assert Without(files, list[..0]) == files;
      more := OwnerGoes(r, w0, x, j.keep, events, World(files, map[0 := j]), Go, Finished, files);
    } else {
      var files', rest := files - {list[0]}, list[1..];
      var j' := j.(pc := Pruning(rest[..Excess(rest, j.keep)]));
      assert list[0] in list;
      DroppingTheOldest(files, list, j.keep);
      more := OwnerGoes(r, w0, x, j.keep, events, World(files, map[0 := j]), Go, j'.pc, files');
      more := OwnerPrunes(r, w0, x, more, files', rest, j');
    }
  }

  lemma OwnerBegins(r: Reader, files: Files, x: Installation, j: Job) returns (events: seq<Event>)
    requires IsOwnBackup(j.name) && (j.pc.Arrived? || j.pc.CatchingUp?)
    ensures RunOwned(r, World(files, map[]), x, j.keep, events, World(files, map[0 := j]))
  {
    var w0, w := World(files, map[]), World(files, map[0 := j]);
    assert Next(r, w0, Begin(0, j)) == w;
    OneSettles(r, w0, x, j.keep);
    OneSettles(r, w, x, j.keep);
    assert RunOwned(r, w0, x, j.keep, [], w0);
    OwnedMore(r, w0, x, j.keep, [], w0, Begin(0, j));
    events := [] + [Begin(0, j)];
  }

  /** Its retention follows. */
  lemma OwnerRetains(r: Reader, w0: World, x: Installation, events: seq<Event>, files: Files, list: seq<string>, j: Job)
      returns (more: seq<Event>)
    requires Lists(list, SnapshotNames(files)) && j.pc.Retaining?
    requires RunOwned(r, w0, x, j.keep, events, World(files, map[0 := j]))
    ensures RunOwned(r, w0, x, j.keep, more, World(Pruned(files, j.keep), map[0 := j.(pc := Finished)]))
  {
    var pruning := Pruning(list[..Excess(list, j.keep)]);
    more := OwnerGoes(r, w0, x, j.keep, events, World(files, map[0 := j]), Choice(list, 0, true), pruning, files);
    more := OwnerPrunes(r, w0, x, more, files, list, j.(pc := pruning));
  }

  /** Where there is a backup of its own kind to find, the owner's catching up
      applies retention and adds nothing. */
  lemma CatchingUpPrunes(r: Reader, files: Files, list: seq<string>, x: Installation, keep: nat, name: string, ours: Bytes)
      returns (events: seq<Event>)
    requires Lists(list, SnapshotNames(files)) && |list| > Max(keep, 1)
    requires name in files && IsOwnBackup(name) && Heads(r, files, x) && r.owner(ours) == Some(x)
    ensures RunOwned(r, World(files, map[]), x, keep, events,
      World(Pruned(files, keep), map[0 := Job(name, ours, keep, Finished)]))
  {
    var w0, j := World(files, map[]), Job(name, ours, keep, CatchingUp);
    OnlyTheOwnerPasses(r, files, list, ours, x);
    DistinctCount(list);
    assert (set n | n in list) == SnapshotNames(files);
    events := OwnerBegins(r, files, x, j);
    events := OwnerGoes(r, w0, x, keep, events, World(files, map[0 := j]), Go, Rechecking, files);
    var j1 := j.(pc := Rechecking);
    events := OwnerGoes(r, w0, x, keep, events, World(files, map[0 := j1]), Choice(list, 0, true), Retaining, files);
    events := OwnerRetains(r, w0, x, events, files, list, j1.(pc := Retaining));
  }

  /** Otherwise the owner's next copy adds one; when its stamp is the oldest,
      retention deletes it first. */
  lemma OwnerClaims(r: Reader, files: Files, list: seq<string>, x: Installation, j: Job) returns (events: seq<Event>)
    requires Lists(list, SnapshotNames(files)) && Heads(r, files, x) && r.owner(j.content) == Some(x)
    requires IsOwnBackup(j.name) && j.name !in files && j.pc.Arrived?
    ensures RunOwned(r, World(files, map[]), x, j.keep, events,
      World(files - {Partial(j.name)}, map[0 := j.(pc := Writing(0))]))
  {
    var w0, keep, go := World(files, map[]), j.keep, Choice(list, 0, true);
    OnlyTheOwnerPasses(r, files, list, j.content, x);
    events := OwnerBegins(r, files, x, j);
    events := OwnerGoes(r, w0, x, keep, events, World(files, map[0 := j]), go, Claimed, files);
    events := OwnerGoes(r, w0, x, keep, events, World(files, map[0 := j.(pc := Claimed)]), go, Clearing, files);
    events := OwnerGoes(r, w0, x, keep, events, World(files, map[0 := j.(pc := Clearing)]), go, Writing(0), files - {Partial(j.name)});
  }

  lemma OwnerWritesAll(r: Reader, w0: World, x: Installation, events: seq<Event>, files: Files, j: Job) returns (more: seq<Event>)
    requires j.pc == Writing(0)
    requires RunOwned(r, w0, x, j.keep, events, World(files, map[0 := j]))
    ensures RunOwned(r, w0, x, j.keep, more, World(files[Partial(j.name) := j.content], map[0 := j.(pc := Verified)]))
  {
    var written := files[Partial(j.name) := j.content];
    assert j.content[..|j.content|] == j.content;
    more := OwnerGoes(r, w0, x, j.keep, events, World(files, map[0 := j]), Choice([], |j.content|, true), Synced, written);
    more := OwnerGoes(r, w0, x, j.keep, more, World(written, map[0 := j.(pc := Synced)]), Go, Verified, written);
  }

  lemma OwnerPlaces(r: Reader, w0: World, x: Installation, events: seq<Event>, files: Files, j: Job) returns (more: seq<Event>)
    requires j.pc == Writing(0) && Partial(j.name) !in files
    requires RunOwned(r, w0, x, j.keep, events, World(files, map[0 := j]))
    ensures RunOwned(r, w0, x, j.keep, more, World(files[j.name := j.content], map[0 := j.(pc := Retaining)]))
  {
    var written := files[Partial(j.name) := j.content];
    var placed := files[j.name := j.content];
    more := OwnerWritesAll(r, w0, x, events, files, j);
    assert (written - {Partial(j.name)})[j.name := j.content] == placed;
    var verified := j.(pc := Verified);
    assert Move(r, written, verified, Go) == (placed, Placed);
    more := OwnerGoes(r, w0, x, j.keep, more, World(written, map[0 := verified]), Go, Placed, placed);
    more := OwnerGoes(r, w0, x, j.keep, more, World(placed, map[0 := j.(pc := Placed)]), Go, Retaining, placed);
  }

  const OldestName := "consolebook-.db"

  lemma OldestIsOlder(name: string)
    requires IsSetAside(name)
    ensures Older(OldestName, name) && IsOwnBackup(OldestName)
  {
    var prefix := "consolebook-prerestore-";
    assert OldestName[..12] == "consolebook-" == prefix[..12];
    assert prefix[12] == 'p' && OldestName[12] == '.';
    assert name[..12] == name[..|prefix|][..12] && name[12] == name[..|prefix|][12];
    LessFrom(OldestName, name, 12);
    OwnKindByThirteenth(OldestName);
    assert OldestName[|OldestName| - 3..] == ".db";
    assert OldestName[..|OldestName| - 3] == "consolebook-";
    assert Stamp(OldestName) == "";
  }

  lemma ListedFirst(names: set<string>, list: seq<string>, oldest: string)
    requires Lists(list, names) && forall name <- names :: Older(oldest, name)
    ensures Lists([oldest] + list, names + {oldest})
  {
    var longer := [oldest] + list;
    forall i, j | 0 <= i < j < |longer|
      ensures Older(longer[i], longer[j])
    {
      assert longer[j] == list[j - 1] && list[j - 1] in list;
    }
  }

  /** With nothing but set-aside databases there, the oldest name is free, and a
      backup put there is the first retention deletes. */
  lemma OldestGoesFirst(files: Files, list: seq<string>, keep: nat, ours: Bytes)
    requires Lists(list, SnapshotNames(files)) && |list| > Max(keep, 1)
    requires forall name <- SnapshotNames(files) :: IsSetAside(name)
    ensures IsOwnBackup(OldestName) && OldestName !in files
    ensures var more := (files - {Partial(OldestName)})[OldestName := ours];
      Lists([OldestName] + list, SnapshotNames(more)) && SameSnapshots(Pruned(more, keep), Pruned(files, keep))
  {
    assert list[0] in list;
    OldestIsOlder(list[0]);
    forall name | name in SnapshotNames(files)
      ensures Older(OldestName, name)
    {
      OldestIsOlder(name);
    }
    assert OldestName !in SnapshotNames(files);
    var cleared := files - {Partial(OldestName)};
    var more := cleared[OldestName := ours];
    PartialsDoNotCount(files, OldestName, []);
    ListedFirst(SnapshotNames(files), list, OldestName);
    assert SnapshotNames(more) == SnapshotNames(cleared) + {OldestName};
    DroppingTheOldest(more, [OldestName] + list, keep);
    assert more - {OldestName} == cleared;
    SamePruned(cleared, files, keep);
  }

  lemma CopyingPrunes(r: Reader, files: Files, list: seq<string>, x: Installation, keep: nat, ours: Bytes)
      returns (events: seq<Event>, left: Files)
    requires Lists(list, SnapshotNames(files)) && |list| > Max(keep, 1)
    requires forall name <- SnapshotNames(files) :: IsSetAside(name)
    requires Heads(r, files, x) && r.owner(ours) == Some(x)
    ensures SameSnapshots(left, Pruned(files, keep))
    ensures RunOwned(r, World(files, map[]), x, keep, events, World(left, map[0 := Job(OldestName, ours, keep, Finished)]))
  {
    var j, w0 := Job(OldestName, ours, keep, Arrived), World(files, map[]);
    var cleared := files - {Partial(OldestName)};
    var more := cleared[OldestName := ours];
    OldestGoesFirst(files, list, keep, ours);
    events := OwnerClaims(r, files, list, x, j);
    events := OwnerPlaces(r, w0, x, events, cleared, j.(pc := Writing(0)));
    events := OwnerRetains(r, w0, x, events, more, [OldestName] + list, j.(pc := Retaining));
    left := Pruned(more, keep);
  }

  lemma WhereRetentionLoses(r: Reader, files: Files, x: Installation, keep: nat) returns (events: seq<Event>, w: World)
    requires Heads(r, files, x) && !Heads(r, Pruned(files, keep), x)
    ensures RunOwned(r, World(files, map[]), x, keep, events, w) && AtRest(w) && !Heads(r, w.files, x)
  {
    var list := ListingOf(SnapshotNames(files));
    DroppingIsPruning(files, list, keep);
    assert Without(files, list[..0]) == files;
    assert |list| > Max(keep, 1);
    var c :| IsChief(r, files, c) && r.owner(files[c]) == Some(x);
    if name :| name in SnapshotNames(files) && !IsSetAside(name) {
      events := CatchingUpPrunes(r, files, list, x, keep, name, files[c]);
      w := World(Pruned(files, keep), map[0 := Job(name, files[c], keep, Finished)]);
    } else {
      var left;
      events, left := CopyingPrunes(r, files, list, x, keep, files[c]);
      w := World(left, map[0 := Job(OldestName, files[c], keep, Finished)]);
      if Heads(r, left, x) {
        SameHeads(r, left, Pruned(files, keep), x);
      }
    }
  }

  /** Where there is a snapshot of another's at all, the directories no run lets
      another's job change are exactly the secure ones: those whose chief backup
      is the installation's, and still would be after retention. */
  lemma SurvivesExactly(r: Reader, files: Files, keep: nat, x: Installation, theirs: Bytes)
    requires r.owner(theirs) != Some(x)
    ensures Survives(r, files, keep, x) <==> Secure(r, files, keep, x)
  {
    var w0 := World(files, map[]);
    if Secure(r, files, keep, x) {
      forall events, w, e | RunOwned(r, w0, x, keep, events, w)
        ensures !Intrudes(r, w, x, e)
      {
        OthersNeverTouchIt(r, files, x, keep, events, w, e);
      }
    } else if !Heads(r, files, x) {
      assert RunOwned(r, w0, x, keep, [], w0);
      WhereOthersPass(r, w0, x, keep, [], w0, theirs);
    } else {
      var events, w := WhereRetentionLoses(r, files, x, keep);
      WhereOthersPass(r, w0, x, keep, events, w, theirs);
    }
  }

  // ------------------------------------------- two directories that do not survive

  /** Of two files the newer is a database another installation set aside; one is
      kept. The check lets in the owner of the older backup, whose own catching up
      then deletes it, and the directory is the other's. */
  lemma RetentionCanLoseTheDirectory(r: Reader, one: string, mine: Bytes, two: string, theirs: Bytes, x: Installation, y: Installation)
    requires IsOwnBackup(one) && IsSnapshot(two) && IsSetAside(two) && Older(one, two)
    requires r.owner(mine) == Some(x) && r.owner(theirs) == Some(y) && x != y
    ensures var files := map[one := mine, two := theirs];
      && Heads(r, files, x)
      && exists events, w :: RunOwned(r, World(files, map[]), x, 1, events, w)
           && w.files == map[two := theirs] && Heads(r, w.files, y)
  {
    var files, left, list := map[one := mine, two := theirs], map[two := theirs], [one, two];
    assert SnapshotNames(files) == {one, two};
    assert Lists(list, SnapshotNames(files));
    assert IsChief(r, files, one);
    KeepsTheNewer(files, list);
    assert Without(files, [one]) == left;
    assert IsChief(r, left, two);
    var events := CatchingUpPrunes(r, files, list, x, 1, one, mine);
  }

  lemma KeepsTheNewer(files: Files, list: seq<string>)
    requires |list| == 2 && Lists(list, SnapshotNames(files))
    ensures Pruned(files, 1) == Without(files, [list[0]])
  {
    DroppingIsPruning(files, list, 1);
    assert list[..1] == [list[0]];
  }

  /** Two such names. */
  lemma StampsOfTheTwo()
    ensures IsOwnBackup("consolebook-1.db") && IsSnapshot("consolebook-prerestore-2.db")
    ensures IsSetAside("consolebook-prerestore-2.db") && Older("consolebook-1.db", "consolebook-prerestore-2.db")
  {
    var one, two := "consolebook-1.db", "consolebook-prerestore-2.db";
    assert one[..12] == two[..12] == "consolebook-" && two[..23] == "consolebook-prerestore-";
    assert one[13..] == ".db" && two[24..] == ".db";
    OwnKindByThirteenth(one);
    var a, b := one[..13], two[..24];
    assert a[12] == '1' && a[11] == '-' && b[23] == '2' && b[22] == '-';
    assert AfterLastDash(a[..12]) == "" && AfterLastDash(b[..23]) == "";
    assert Stamp(one) == "1" && Stamp(two) == "2";
  }
}
