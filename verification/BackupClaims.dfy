/** When two installations can claim one copy directory: the check and the copy are
    not one step, so both may look before either has added anything. */
module BackupClaims {
  import opened Basics
  import opened Backups
  import opened BackupCopy
  import opened BackupOwnership
  import BackupNames

  /** A run in which nobody has changed a file yet. */
  ghost predicate RunStill(r: Reader, w: World, events: seq<Event>, w': World)
    decreases |events|
  {
    if events == [] then w == w'
    else
      && Enabled(w, events[0]) && Next(r, w, events[0]).files == w.files
      && RunStill(r, Next(r, w, events[0]), events[1..], w')
  }

  ghost predicate Passes(r: Reader, files: Files, content: Bytes) {
    NothingReadable(r, files) || exists x :: Heads(r, files, x) && r.owner(content) == Some(x)
  }

  lemma PassingIsPassing(r: Reader, files: Files, list: seq<string>, content: Bytes)
    requires Lists(list, SnapshotNames(files))
    ensures SameInstallation(r, files, list, content) <==> Passes(r, files, content)
  {
    ScanFindsTheChief(r, files, list);
    var first := FirstReadable(r, files, Candidates(list));
    assert first.Some? ==> Heads(r, files, first.value);
  }

  ghost predicate ClaimsPassed(r: Reader, w: World) {
    forall id <- w.jobs :: w.jobs[id].pc.Claimed? ==> Passes(r, w.files, w.jobs[id].content)
  }

  lemma {:induction false} StillClaimsPassed(r: Reader, w: World, events: seq<Event>, w': World)
    requires ClaimsPassed(r, w) && RunStill(r, w, events, w')
    ensures ClaimsPassed(r, w') && w'.files == w.files
    decreases |events|
  {
    if events != [] {
      var e := events[0];
      if e.Step? && w.jobs[e.id].pc.Arrived? {
        PassingIsPassing(r, w.files, e.choice.list, w.jobs[e.id].content);
      }
      StillClaimsPassed(r, Next(r, w, e), events[1..], w');
    }
  }

  lemma {:induction false} StillMore(r: Reader, w: World, events: seq<Event>, middle: World, e: Event)
    requires RunStill(r, w, events, middle) && Enabled(middle, e) && Next(r, middle, e).files == middle.files
    ensures RunStill(r, w, events + [e], Next(r, middle, e))
    decreases |events|
  {
    if events == [] {
      var rest := [e][1..];
      assert rest == [] && events + [e] == [e];
      assert RunStill(r, Next(r, w, e), rest, Next(r, w, e));
    } else {
      assert (events + [e])[1..] == events[1..] + [e];
      StillMore(r, Next(r, w, events[0]), events[1..], middle, e);
    }
  }

  lemma BothComeToClaim(r: Reader, files: Files, list: seq<string>, a: Job, b: Job) returns (events: seq<Event>)
    requires IsOwnBackup(a.name) && IsOwnBackup(b.name) && a.pc.Arrived? && b.pc.Arrived?
    requires Lists(list, SnapshotNames(files))
    requires SameInstallation(r, files, list, a.content) && SameInstallation(r, files, list, b.content)
    ensures RunStill(r, World(files, map[]), events, World(files, Two(a.(pc := Claimed), b.(pc := Claimed))))
  {
    var go, w0 := Choice(list, 0, true), World(files, map[]);
    var w1 := World(files, map[0 := a]);
    var w2 := World(files, Two(a, b));
    var w3 := World(files, Two(a.(pc := Claimed), b));
    assert RunStill(r, w0, [], w0);
    assert Next(r, w0, Begin(0, a)) == w1;
    StillMore(r, w0, [], w0, Begin(0, a));
    assert Next(r, w1, Begin(1, b)).jobs == w2.jobs;
    StillMore(r, w0, [] + [Begin(0, a)], w1, Begin(1, b));
    assert Next(r, w2, Step(0, go)).jobs == w3.jobs;
    StillMore(r, w0, [] + [Begin(0, a)] + [Begin(1, b)], w2, Step(0, go));
    assert Next(r, w3, Step(1, go)).jobs == Two(a.(pc := Claimed), b.(pc := Claimed));
    StillMore(r, w0, [] + [Begin(0, a)] + [Begin(1, b)] + [Step(0, go)], w3, Step(1, go));
    events := [] + [Begin(0, a)] + [Begin(1, b)] + [Step(0, go)] + [Step(1, go)];
  }

  ghost predicate BothCanClaim(r: Reader, files: Files, a: Job, b: Job) {
    exists events :: RunStill(r, World(files, map[]), events, World(files, Two(a.(pc := Claimed), b.(pc := Claimed))))
  }

  /** Before anything has changed, jobs of two installations can both have claimed
      a directory if and only if nothing in it is readable. */
  lemma BothClaimExactly(r: Reader, files: Files, a: Job, b: Job)
    requires IsOwnBackup(a.name) && IsOwnBackup(b.name) && a.pc.Arrived? && b.pc.Arrived?
    requires r.owner(a.content) != r.owner(b.content)
    ensures BothCanClaim(r, files, a, b) <==> NothingReadable(r, files)
  {
    var w := World(files, Two(a.(pc := Claimed), b.(pc := Claimed)));
    if BothCanClaim(r, files, a, b) {
      var events :| RunStill(r, World(files, map[]), events, w);
      StillClaimsPassed(r, World(files, map[]), events, w);
      OnlyOnePasses(r, files, w.jobs[0].content, w.jobs[1].content);
    }
    if NothingReadable(r, files) {
      var list := ListingOf(SnapshotNames(files));
      ScanFindsTheChief(r, files, list);
      var events := BothComeToClaim(r, files, list, a, b);
    }
  }

  lemma OnlyOnePasses(r: Reader, files: Files, a: Bytes, b: Bytes)
    requires Passes(r, files, a) && Passes(r, files, b) && r.owner(a) != r.owner(b)
    ensures NothingReadable(r, files)
  {
    var list := ListingOf(SnapshotNames(files));
    PassingIsPassing(r, files, list, a);
    PassingIsPassing(r, files, list, b);
    BothPassExactly(r, files, list, a, b);
  }

  /** A job past every check, undisturbed, adds its copy. */
  lemma Adding(r: Reader, w: World, id: nat) returns (events: seq<Event>)
    requires id in w.jobs && w.jobs[id].pc.Clearing? && IsSnapshot(w.jobs[id].name)
    ensures var j := w.jobs[id];
      Run(r, w, events, World((w.files - {Partial(j.name)})[j.name := j.content], w.jobs[id := j.(pc := Placed)]))
  {
    var j, partial := w.jobs[id], Partial(w.jobs[id].name);
    var built := World(w.files[partial := j.content], w.jobs[id := j.(pc := Verified)]);
    events := BackupNames.Verifies(r, w, id);
    BackupNames.ContinuingIsRunning(r, w, events, built);
    assert built.files - {partial} == w.files - {partial};
    assert built.jobs[id := j.(pc := Placed)] == w.jobs[id := j.(pc := Placed)];
    RunMore(r, w, events, built, Step(id, Go));
    events := events + [Step(id, Go)];
  }

  /** In a directory with nothing readable, whatever it holds, any two
      installations can both pass the check and both add their backups: the check
      and the copy are not one step. */
  lemma UnreadableDirectoryCanBeShared(r: Reader, files: Files, a: Job, b: Job)
    requires NothingReadable(r, files)
    requires IsOwnBackup(a.name) && IsOwnBackup(b.name) && a.name != b.name && a.pc.Arrived? && b.pc.Arrived?
    requires a.name !in files && b.name !in files
    ensures exists events, w ::
      && Run(r, World(files, map[]), events, w)
      && a.name in w.files && w.files[a.name] == a.content
      && b.name in w.files && w.files[b.name] == b.content
  {
    var list := ListingOf(SnapshotNames(files));
    ScanFindsTheChief(r, files, list);
    var w0, w1 := World(files, map[]), World(files, Two(a.(pc := Clearing), b.(pc := Clearing)));
    var before := BothClear(r, files, list, a, b);
    var first := Adding(r, w1, 0);
    var w2 := World((files - {Partial(a.name)})[a.name := a.content], w1.jobs[0 := a.(pc := Placed)]);
    RunOn(r, w0, before, w1, first, w2);
    var second := Adding(r, w2, 1);
    var w3 := World((w2.files - {Partial(b.name)})[b.name := b.content], w2.jobs[1 := b.(pc := Placed)]);
    RunOn(r, w0, before + first, w2, second, w3);
    PartialIsNoSnapshot(b.name, a.name);
  }
}
