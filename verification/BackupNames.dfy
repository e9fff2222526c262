/** What a snapshot name in a copy directory carries. While no two jobs work on
    one name it carries its snapshot's digest; two that do share one partial
    file, and it is shown exactly when that can put wrong bytes, or a second
    copy, under the name. */
module BackupNames {
  import opened Basics
  import opened Backups
  import opened BackupCopy
  import Canonical

  predicate Building(pc: Pc) {
    pc.Clearing? || pc.Writing? || pc.Synced? || pc.Verified?
  }

  // ----------------------------------------------- one job a name: always true

  /** No two jobs work on one name at once. */
  ghost predicate ApartNames(w: World) {
    forall a: nat, b: nat | Live(w, a) && Live(w, b) && a != b :: w.jobs[a].name != w.jobs[b].name
  }

  ghost predicate RunApart(r: Reader, w: World, events: seq<Event>, w': World)
    decreases |events|
  {
    ApartNames(w) && if events == [] then w == w'
      else Enabled(w, events[0]) && RunApart(r, Next(r, w, events[0]), events[1..], w')
  }

  ghost predicate JobHolds(r: Reader, files: Files, j: Job) {
    && WellNamed(j)
    && (Building(j.pc) ==> j.name !in files)
    && (j.pc.Verified? ==> Holds(r, files, j))
  }

  ghost predicate Inv(r: Reader, w: World) {
    forall id <- w.jobs :: JobHolds(r, w.files, w.jobs[id])
  }

  /** What one job's operation does to another's name and partial file. */
  lemma OthersKeep(r: Reader, files: Files, j: Job, c: Choice, other: Job)
    requires JobHolds(r, files, j) && JobHolds(r, files, other)
    requires other.pc.Finished? || j.pc.Finished? || j.name != other.name
    ensures JobHolds(r, Move(r, files, j, c).0, other)
  {
    PartialIsNoSnapshot(j.name, other.name);
    PartialIsNoSnapshot(other.name, j.name);
    PartialsDiffer(j.name, other.name);
    if j.pc.Pruning? && j.pc.victims != [] {
      PartialIsNoSnapshot(other.name, j.pc.victims[0]);
    }
  }

  lemma OwnKeeps(r: Reader, files: Files, j: Job, c: Choice)
    requires JobHolds(r, files, j)
    ensures var moved := Move(r, files, j, c);
      && (Building(moved.1) ==> j.name !in moved.0)
      && (moved.1.Verified? ==> Holds(r, moved.0, j))
  {
    PartialIsNoSnapshot(j.name, j.name);
  }

  lemma EventKeeps(r: Reader, w: World, e: Event)
    requires Inv(r, w) && ApartNames(w) && Enabled(w, e)
    ensures Inv(r, Next(r, w, e))
  {
    var w' := Next(r, w, e);
    EventKeepsNames(r, w, e);
    if e.Step? {
      forall id <- w'.jobs
        ensures JobHolds(r, w'.files, w'.jobs[id])
      {
        assert WellNamed(w'.jobs[id]);
        if id == e.id {
          OwnKeeps(r, w.files, w.jobs[id], e.choice);
        } else {
          assert Live(w, id) && Live(w, e.id) ==> w.jobs[id].name != w.jobs[e.id].name;
          OthersKeep(r, w.files, w.jobs[e.id], e.choice, w.jobs[id]);
        }
      }
    }
  }

  /** A snapshot name new in the directory was put there by the job this event
      moves and carries its snapshot's digest, and a name already there keeps its
      bytes. */
  ghost predicate NamesAreTrue(r: Reader, w: World, e: Event) {
    var w' := Next(r, w, e);
    forall name | name in w'.files && IsSnapshot(name) ::
      || (name in w.files && w'.files[name] == w.files[name])
      || (name !in w.files && e.Step? && e.id in w.jobs
          && w.jobs[e.id].name == name && r.sha(w'.files[name]) == r.sha(w.jobs[e.id].content))
  }

  lemma EventIsTrue(r: Reader, w: World, e: Event)
    requires Inv(r, w) && Enabled(w, e)
    ensures NamesAreTrue(r, w, e)
  {
    if e.Step? {
      forall name | IsSnapshot(name)
        ensures Partial(w.jobs[e.id].name) != name
      {
        PartialIsNoSnapshot(w.jobs[e.id].name, name);
      }
    }
  }

  /** Whatever the interleaving and wherever a crash falls, while no two jobs
      work on one name at once, a snapshot name appears in the copy directory
      only with the digest of its snapshot, and no copy is overwritten. */
  lemma {:induction false} CopiesCarryTheirDigest(r: Reader, files: Files, events: seq<Event>, w: World, e: Event)
    requires RunApart(r, World(files, map[]), events, w) && Enabled(w, e)
    ensures NamesAreTrue(r, w, e)
  {
    RunHolds(r, World(files, map[]), events, w);
    EventIsTrue(r, w, e);
  }

  lemma {:induction false} RunHolds(r: Reader, w: World, events: seq<Event>, w': World)
    requires Inv(r, w) && RunApart(r, w, events, w')
    ensures Inv(r, w')
    decreases |events|
  {
    if events != [] {
      EventKeeps(r, w, events[0]);
      RunHolds(r, Next(r, w, events[0]), events[1..], w');
    }
  }

  // ------------------------------------------------ shared names: exactly when

  /** The partial file has the digest of the job's snapshot. */
  predicate Holds(r: Reader, files: Files, j: Job) {
    Partial(j.name) in files && r.sha(files[Partial(j.name)]) == r.sha(j.content)
  }

  /** The job has still to write some or all of its snapshot. */
  predicate Writes(j: Job) {
    j.pc.Clearing? || (j.pc.Writing? && j.pc.written <= |j.content|)
  }

  /** The job can still leave the first `n` bytes of its snapshot in the partial
      file. */
  predicate CanLeave(j: Job, n: nat) {
    Writes(j) && n <= |j.content| && (j.pc.Writing? ==> j.pc.written <= n)
  }

  /** The job can leave bytes of another digest than `a`'s. */
  ghost predicate Spoils(r: Reader, b: Job, a: Job) {
    exists n: nat :: CanLeave(b, n) && r.sha(b.content[..n]) != r.sha(a.content)
  }

  /** The job can leave bytes of `a`'s digest. */
  ghost predicate Supplies(r: Reader, b: Job, a: Job) {
    exists n: nat :: CanLeave(b, n) && r.sha(b.content[..n]) == r.sha(a.content)
  }

  /** The job can leave bytes of `a`'s digest, and then others. */
  ghost predicate SuppliesThenSpoils(r: Reader, b: Job, a: Job) {
    exists n: nat, m: nat :: CanLeave(b, n) && CanLeave(b, m) && n <= m
      && r.sha(b.content[..n]) == r.sha(a.content) != r.sha(b.content[..m])
  }

  /** `b`'s writing can replace what `a` has verified, or will. */
  ghost predicate Endangers(r: Reader, files: Files, b: Job, a: Job) {
    && a.name == b.name
    && if Writes(a) || a.pc.Verified? || (a.pc.Synced? && Holds(r, files, a)) then Spoils(r, b, a)
       else a.pc.Synced? && SuppliesThenSpoils(r, b, a)
  }

  /** Verified over bytes that are no longer the ones that were read. */
  predicate Wrong(r: Reader, files: Files, a: Job) {
    a.pc.Verified? && Partial(a.name) in files && !Holds(r, files, a)
  }

  ghost predicate EndangeredBy(r: Reader, w: World, a: nat, b: nat) {
    a in w.jobs && b in w.jobs && a != b && Endangers(r, w.files, w.jobs[b], w.jobs[a])
  }

  /** A job is verified over the wrong bytes, or two jobs on one name stand where
      one can still write over what the other has verified or will. */
  ghost predicate Danger(r: Reader, w: World) {
    || (exists a <- w.jobs :: Wrong(r, w.files, w.jobs[a]))
    || (exists a: nat, b: nat :: EndangeredBy(r, w, a, b))
  }

  /** No job newly finds its name free. */
  ghost predicate Joins(w: World, e: Event) {
    e.Step? && e.id in w.jobs && w.jobs[e.id].pc.Claimed?
  }

  ghost predicate Continues(r: Reader, w: World, events: seq<Event>, w': World)
    decreases |events|
  {
    if events == [] then w == w'
    else Enabled(w, events[0]) && !Joins(w, events[0]) && Continues(r, Next(r, w, events[0]), events[1..], w')
  }

  /** A job gives its name to bytes that have not its snapshot's digest. */
  ghost predicate PutsWrong(r: Reader, w: World, e: Event) {
    && Enabled(w, e) && e.Step? && w.jobs[e.id].pc.Verified?
    && var j := w.jobs[e.id];
       var files := Next(r, w, e).files;
       Partial(j.name) in w.files && j.name in files && r.sha(files[j.name]) != r.sha(j.content)
  }

  ghost predicate CanGoWrong(r: Reader, w: World) {
    exists events, w', e :: Continues(r, w, events, w') && PutsWrong(r, w', e)
  }

  // ---- if it goes wrong, it was in danger

  lemma OfTwoOneSpoils(r: Reader, c: Job, b: Job, a: Job)
    requires Writes(b) && Writes(c) && Supplies(r, c, a) && Spoils(r, b, a)
    ensures Spoils(r, b, c) || Spoils(r, c, b)
  {
    var n: nat :| CanLeave(c, n) && r.sha(c.content[..n]) == r.sha(a.content);
    var m: nat :| CanLeave(b, m) && r.sha(b.content[..m]) != r.sha(a.content);
    assert CanLeave(b, |b.content|) && b.content[..|b.content|] == b.content;
    if r.sha(b.content) == r.sha(a.content) {
      assert CanLeave(c, |c.content|) && c.content[..|c.content|] == c.content;
    }
  }

  /** A job's own operation never widens what it can still leave. */
  lemma LeavesNoMore(r: Reader, files: Files, j: Job, c: Choice, n: nat)
    requires WellNamed(j) && !j.pc.Claimed? && CanLeave(j.(pc := Move(r, files, j, c).1), n)
    ensures CanLeave(j, n)
  {
  }

  /** Where a job's partial file changes, some job of the name wrote, took or
      removed it. */
  lemma PartialsChangeByName(r: Reader, files: Files, j: Job, c: Choice, name: string)
    requires WellNamed(j) && IsSnapshot(name)
    ensures var files' := Move(r, files, j, c).0;
      var p := Partial(name);
      || (p !in files && p !in files')
      || (p in files && p in files' && files'[p] == files[p])
      || (j.name == name && p !in files')
      || (j.name == name && j.pc.Writing? && p in files'
          && var n := Reach(j.pc.written, c.upto, j.content); files'[p] == j.content[..n])
  {
    PartialIsNoSnapshot(name, j.name);
    PartialsDiffer(name, j.name);
    if j.pc.Pruning? && j.pc.victims != [] {
      PartialIsNoSnapshot(name, j.pc.victims[0]);
    }
  }

  lemma WrongCameFromDanger(r: Reader, w: World, e: Event, a: nat)
    requires AllWellNamed(w) && Enabled(w, e) && e.Step?
    requires a in w.jobs && Wrong(r, Next(r, w, e).files, Next(r, w, e).jobs[a])
    ensures Danger(r, w)
  {
    var j, it := w.jobs[e.id], w.jobs[a];
    PartialsChangeByName(r, w.files, j, e.choice, it.name);
    if e.id != a && !Wrong(r, w.files, it) {
      var n := Reach(j.pc.written, e.choice.upto, j.content);
      assert CanLeave(j, n);
      assert EndangeredBy(r, w, a, e.id);
    }
  }

  /** The job that moves is the one endangered. */
  lemma VictimMoved(r: Reader, w: World, e: Event, b: nat)
    requires AllWellNamed(w) && Enabled(w, e) && e.Step? && !Joins(w, e)
    requires EndangeredBy(r, Next(r, w, e), e.id, b)
    ensures Danger(r, w)
  {
    var j, writer := w.jobs[e.id], w.jobs[b];
    if Writes(j) {
      assert Spoils(r, writer, j);
      assert EndangeredBy(r, w, e.id, b);
    } else {
      assert j.pc.Synced? && Holds(r, w.files, j);
      assert EndangeredBy(r, w, e.id, b);
    }
  }

  /** The job that moves is the one that endangers. */
  lemma WriterMoved(r: Reader, w: World, e: Event, a: nat)
    requires AllWellNamed(w) && Enabled(w, e) && e.Step? && !Joins(w, e)
    requires EndangeredBy(r, Next(r, w, e), a, e.id)
    ensures Danger(r, w)
  {
    var j, it, w' := w.jobs[e.id], w.jobs[a], Next(r, w, e);
    var j' := w'.jobs[e.id];
    PartialsChangeByName(r, w.files, j, e.choice, it.name);
    if SuppliesThenSpoils(r, j', it) {
      var n: nat, m: nat :| CanLeave(j', n) && CanLeave(j', m) && n <= m
        && r.sha(j'.content[..n]) == r.sha(it.content) != r.sha(j'.content[..m]);
      LeavesNoMore(r, w.files, j, e.choice, n);
      LeavesNoMore(r, w.files, j, e.choice, m);
      assert Spoils(r, j, it) && SuppliesThenSpoils(r, j, it);
    } else {
      var m: nat :| CanLeave(j', m) && r.sha(j'.content[..m]) != r.sha(it.content);
      LeavesNoMore(r, w.files, j, e.choice, m);
      assert Spoils(r, j, it);
    }
    assert EndangeredBy(r, w, a, e.id);
  }

  lemma ThirdMoved(r: Reader, w: World, e: Event, a: nat, b: nat)
    requires AllWellNamed(w) && Enabled(w, e) && e.Step? && e.id != a && e.id != b
    requires EndangeredBy(r, Next(r, w, e), a, b)
    ensures Danger(r, w)
  {
    var j, it, writer := w.jobs[e.id], w.jobs[a], w.jobs[b];
    PartialsChangeByName(r, w.files, j, e.choice, it.name);
    assert SuppliesThenSpoils(r, writer, it) ==> Spoils(r, writer, it);
    if !EndangeredBy(r, w, a, b) {
      var n := Reach(j.pc.written, e.choice.upto, j.content);
      assert CanLeave(j, n);
      OfTwoOneSpoils(r, j, writer, it);
      assert EndangeredBy(r, w, e.id, b) || EndangeredBy(r, w, b, e.id);
    }
  }

  lemma DangerWasThere(r: Reader, w: World, e: Event)
    requires AllWellNamed(w) && Enabled(w, e) && !Joins(w, e) && Danger(r, Next(r, w, e))
    ensures Danger(r, w)
  {
    var w' := Next(r, w, e);
    if a: nat :| a in w'.jobs && Wrong(r, w'.files, w'.jobs[a]) {
      if e.Step? {
        WrongCameFromDanger(r, w, e, a);
      }
    } else {
      var a: nat, b: nat :| EndangeredBy(r, w', a, b);
      if !e.Step? {
        assert EndangeredBy(r, w, a, b);
      } else if e.id == a {
        VictimMoved(r, w, e, b);
      } else if e.id == b {
        WriterMoved(r, w, e, a);
      } else {
        ThirdMoved(r, w, e, a, b);
      }
    }
  }

  lemma {:induction false} WrongNeedsDanger(r: Reader, w: World, events: seq<Event>, w': World, e: Event)
    requires AllWellNamed(w) && Continues(r, w, events, w') && PutsWrong(r, w', e)
    ensures Danger(r, w)
    decreases |events|
  {
    if events == [] {
      assert Wrong(r, w.files, w.jobs[e.id]);
    } else {
      EventKeepsNames(r, w, events[0]);
      WrongNeedsDanger(r, Next(r, w, events[0]), events[1..], w', e);
      DangerWasThere(r, w, events[0]);
    }
  }

  // ---- and from danger it can go wrong

  lemma {:induction false} ContinuesOn(r: Reader, w: World, first: seq<Event>, middle: World, second: seq<Event>, w': World)
    requires Continues(r, w, first, middle) && Continues(r, middle, second, w')
    ensures Continues(r, w, first + second, w')
    decreases |first|
  {
    if first == [] {
      assert first + second == second;
    } else {
      assert (first + second)[1..] == first[1..] + second;
      ContinuesOn(r, Next(r, w, first[0]), first[1..], middle, second, w');
    }
  }

  lemma ContinuesOne(r: Reader, w: World, e: Event)
    requires Enabled(w, e) && !Joins(w, e)
    ensures Continues(r, w, [e], Next(r, w, e))
  {
    var rest := [e][1..];
    assert rest == [];
    assert Continues(r, Next(r, w, e), rest, Next(r, w, e));
  }

  /** A writing job leaves the first `n` bytes, and stays at its writing. */
  lemma Leaves(r: Reader, w: World, id: nat, n: nat) returns (events: seq<Event>)
    requires id in w.jobs && CanLeave(w.jobs[id], n)
    ensures var j := w.jobs[id];
      Continues(r, w, events,
        World(w.files[Partial(j.name) := j.content[..n]], w.jobs[id := j.(pc := Writing(n))]))
  {
    var j := w.jobs[id];
    var write := Step(id, Choice([], n, false));
    if j.pc.Writing? {
      ContinuesOne(r, w, write);
      events := [write];
    } else {
      var cleared := World(w.files - {Partial(j.name)}, w.jobs[id := j.(pc := Writing(0))]);
      assert Next(r, w, Step(id, Go)) == cleared;
      ContinuesOne(r, w, Step(id, Go));
      ContinuesOne(r, cleared, write);
      assert Next(r, cleared, write) ==
        World(w.files[Partial(j.name) := j.content[..n]], w.jobs[id := j.(pc := Writing(n))]) by
      {
        assert (w.files - {Partial(j.name)})[Partial(j.name) := j.content[..n]] == w.files[Partial(j.name) := j.content[..n]];
        assert cleared.jobs[id := j.(pc := Writing(n))] == w.jobs[id := j.(pc := Writing(n))];
      }
      ContinuesOn(r, w, [Step(id, Go)], cleared, [write], Next(r, cleared, write));
      events := [Step(id, Go)] + [write];
    }
  }

  lemma VerifiesHeld(r: Reader, w: World, id: nat)
    requires id in w.jobs && w.jobs[id].pc.Synced? && Holds(r, w.files, w.jobs[id])
    ensures Continues(r, w, [Step(id, Go)], World(w.files, w.jobs[id := w.jobs[id].(pc := Verified)]))
  {
    assert Next(r, w, Step(id, Go)) == World(w.files, w.jobs[id := w.jobs[id].(pc := Verified)]);
    ContinuesOne(r, w, Step(id, Go));
  }

  /** A writing job, undisturbed, verifies its copy. */
  lemma Verifies(r: Reader, w: World, id: nat) returns (events: seq<Event>)
    requires id in w.jobs && Writes(w.jobs[id])
    ensures var j := w.jobs[id];
      Continues(r, w, events, World(w.files[Partial(j.name) := j.content], w.jobs[id := j.(pc := Verified)]))
  {
    var j := w.jobs[id];
    var n := |j.content|;
    var write := Step(id, Choice([], n, true));
    assert j.content[..n] == j.content;
    var left := Leaves(r, w, id, n);
    var all := w.files[Partial(j.name) := j.content];
    var full := World(all, w.jobs[id := j.(pc := Writing(n))]);
    var synced := World(all, w.jobs[id := j.(pc := Synced)]);
    assert all[Partial(j.name) := j.content] == all;
    assert full.jobs[id := j.(pc := Synced)] == synced.jobs;
    assert Next(r, full, write) == synced;
    ContinuesOne(r, full, write);
    ContinuesOn(r, w, left, full, [write], synced);
    VerifiesHeld(r, synced, id);
    assert synced.jobs[id := j.(pc := Verified)] == w.jobs[id := j.(pc := Verified)];
    ContinuesOn(r, w, left + [write], synced, [Step(id, Go)], World(all, w.jobs[id := j.(pc := Verified)]));
    events := left + [write] + [Step(id, Go)];
  }

  lemma WrongIsPut(r: Reader, w: World, a: nat)
    requires a in w.jobs && Wrong(r, w.files, w.jobs[a])
    ensures PutsWrong(r, w, Step(a, Go))
  {
  }

  lemma EndsWrong(r: Reader, w: World, events: seq<Event>, w': World, a: nat)
    requires Continues(r, w, events, w') && a in w'.jobs && Wrong(r, w'.files, w'.jobs[a])
    ensures CanGoWrong(r, w)
  {
    WrongIsPut(r, w', a);
  }

  /** The endangered job is brought to the point of naming its copy; then the
      other writes. */
  lemma DangerGoesWrong(r: Reader, w: World, a: nat, b: nat)
    requires EndangeredBy(r, w, a, b)
    ensures CanGoWrong(r, w)
  {
    var ja, jb, p := w.jobs[a], w.jobs[b], Partial(w.jobs[a].name);
    var ready: seq<Event> := [];
    var w1: World, m: nat := w, 0;
    if ja.pc.Synced? && !Holds(r, w.files, ja) {
      var n: nat, k: nat :| CanLeave(jb, n) && CanLeave(jb, k) && n <= k
        && r.sha(jb.content[..n]) == r.sha(ja.content) != r.sha(jb.content[..k]);
      var left := Leaves(r, w, b, n);
      var w0 := World(w.files[p := jb.content[..n]], w.jobs[b := jb.(pc := Writing(n))]);
      VerifiesHeld(r, w0, a);
      w1 := World(w0.files, w0.jobs[a := ja.(pc := Verified)]);
      ContinuesOn(r, w, left, w0, [Step(a, Go)], w1);
      ready, m := left + [Step(a, Go)], k;
    } else {
      m :| CanLeave(jb, m) && r.sha(jb.content[..m]) != r.sha(ja.content);
      if Writes(ja) {
        ready := Verifies(r, w, a);
        w1 := World(w.files[p := ja.content], w.jobs[a := ja.(pc := Verified)]);
      } else if ja.pc.Synced? {
        VerifiesHeld(r, w, a);
        ready, w1 := [Step(a, Go)], World(w.files, w.jobs[a := ja.(pc := Verified)]);
      }
    }
    var rest := Leaves(r, w1, b, m);
    var jb' := w1.jobs[b];
    var w2 := World(w1.files[p := jb.content[..m]], w1.jobs[b := jb'.(pc := Writing(m))]);
    ContinuesOn(r, w, ready, w1, rest, w2);
    EndsWrong(r, w, ready + rest, w2, a);
  }

  /** In every state any run reaches: with the jobs then at work, a name can come
      to carry bytes that have not its snapshot's digest if and only if a job is
      verified over such bytes or two jobs on one name stand where one can still
      write over what the other has verified or will verify. */
  lemma WrongExactlyInDanger(r: Reader, files: Files, before: seq<Event>, w: World)
    requires Run(r, World(files, map[]), before, w)
    ensures CanGoWrong(r, w) <==> Danger(r, w)
  {
    RunKeepsNames(r, World(files, map[]), before, w);
    if CanGoWrong(r, w) {
      var events, w', e :| Continues(r, w, events, w') && PutsWrong(r, w', e);
      WrongNeedsDanger(r, w, events, w', e);
    }
    if a: nat :| a in w.jobs && Wrong(r, w.files, w.jobs[a]) {
      assert Continues(r, w, [], w);
      EndsWrong(r, w, [], w, a);
    } else if Danger(r, w) {
      var a: nat, b: nat :| EndangeredBy(r, w, a, b);
      DangerGoesWrong(r, w, a, b);
    }
  }

  // ------------------------------------------- a copy put over another: exactly when

  /** A job gives its copy a name that is already taken. */
  ghost predicate PutsOver(r: Reader, w: World, e: Event) {
    && Enabled(w, e) && e.Step? && w.jobs[e.id].pc.Verified?
    && Partial(w.jobs[e.id].name) in w.files && w.jobs[e.id].name in w.files
  }

  ghost predicate CanPutOver(r: Reader, w: World) {
    exists events, w', e :: Continues(r, w, events, w') && PutsOver(r, w', e)
  }

  /** The job can still name its copy, left alone. */
  predicate Able(r: Reader, files: Files, j: Job) {
    || Writes(j)
    || (j.pc.Verified? && Partial(j.name) in files)
    || (j.pc.Synced? && Holds(r, files, j))
  }

  /** `a` can name its copy, with `b`'s help if need be, and `b` then its own. */
  ghost predicate BothAble(r: Reader, w: World, a: nat, b: nat) {
    && a in w.jobs && b in w.jobs && a != b && w.jobs[a].name == w.jobs[b].name
    && Writes(w.jobs[b])
    && var j := w.jobs[a];
       || Able(r, w.files, j) || j.pc.Verified?
       || (j.pc.Synced? && Supplies(r, w.jobs[b], j))
  }

  ghost predicate OverDanger(r: Reader, w: World) {
    || (exists a <- w.jobs :: w.jobs[a].name in w.files && Able(r, w.files, w.jobs[a]))
    || (exists a: nat, b: nat :: BothAble(r, w, a, b))
  }

  lemma TakenWasDanger(r: Reader, w: World, e: Event, a: nat)
    requires AllWellNamed(w) && Enabled(w, e) && e.Step? && !Joins(w, e) && a in w.jobs
    requires var w' := Next(r, w, e); w'.jobs[a].name in w'.files && Able(r, w'.files, w'.jobs[a])
    ensures OverDanger(r, w)
  {
    var j, it := w.jobs[e.id], w.jobs[a];
    PartialIsNoSnapshot(j.name, it.name);
    PartialsChangeByName(r, w.files, j, e.choice, it.name);
    if it.name !in w.files {
      assert BothAble(r, w, e.id, a);
    } else if !Able(r, w.files, it) {
      assert Able(r, w.files, j) && j.name == it.name;
    }
  }

  lemma BothWereAble(r: Reader, w: World, e: Event, a: nat, b: nat)
    requires AllWellNamed(w) && Enabled(w, e) && e.Step? && !Joins(w, e)
    requires BothAble(r, Next(r, w, e), a, b)
    ensures OverDanger(r, w)
  {
    var j, it, w' := w.jobs[e.id], w.jobs[a], Next(r, w, e);
    PartialsChangeByName(r, w.files, j, e.choice, it.name);
    if e.id == b {
      if Supplies(r, w'.jobs[b], it) {
        var k: nat :| CanLeave(w'.jobs[b], k) && r.sha(w'.jobs[b].content[..k]) == r.sha(it.content);
        LeavesNoMore(r, w.files, j, e.choice, k);
        assert Supplies(r, j, it);
      }
      assert j.pc.Writing? ==> CanLeave(j, Reach(j.pc.written, e.choice.upto, j.content));
      assert BothAble(r, w, a, b);
    } else if e.id == a {
      assert BothAble(r, w, a, b);
    } else if !BothAble(r, w, a, b) {
      assert BothAble(r, w, e.id, b);
    }
  }

  lemma OverDangerWasThere(r: Reader, w: World, e: Event)
    requires AllWellNamed(w) && Enabled(w, e) && !Joins(w, e) && OverDanger(r, Next(r, w, e))
    ensures OverDanger(r, w)
  {
    var w' := Next(r, w, e);
    if a: nat :| a in w'.jobs && w'.jobs[a].name in w'.files && Able(r, w'.files, w'.jobs[a]) {
      if e.Step? {
        TakenWasDanger(r, w, e, a);
      }
    } else {
      var a: nat, b: nat :| BothAble(r, w', a, b);
      if e.Step? {
        BothWereAble(r, w, e, a, b);
      } else {
        assert BothAble(r, w, a, b);
      }
    }
  }

  lemma {:induction false} OverNeedsDanger(r: Reader, w: World, events: seq<Event>, w': World, e: Event)
    requires AllWellNamed(w) && Continues(r, w, events, w') && PutsOver(r, w', e)
    ensures OverDanger(r, w)
    decreases |events|
  {
    if events == [] {
      assert Able(r, w.files, w.jobs[e.id]);
    } else {
      EventKeepsNames(r, w, events[0]);
      OverNeedsDanger(r, Next(r, w, events[0]), events[1..], w', e);
      OverDangerWasThere(r, w, events[0]);
    }
  }

  /** A job able to name its copy is brought to the point of doing so. */
  lemma ComesToNaming(r: Reader, w: World, a: nat) returns (events: seq<Event>, files: Files)
    requires a in w.jobs && Able(r, w.files, w.jobs[a])
    ensures Continues(r, w, events, World(files, w.jobs[a := w.jobs[a].(pc := Verified)]))
    ensures Partial(w.jobs[a].name) in files
    ensures forall name :: name in w.files ==> name in files
  {
    var j := w.jobs[a];
    files := w.files;
    if Writes(j) {
      events := Verifies(r, w, a);
      files := w.files[Partial(j.name) := j.content];
    } else if j.pc.Synced? {
      VerifiesHeld(r, w, a);
      events := [Step(a, Go)];
    } else {
      events := [];
      assert w.jobs[a := j.(pc := Verified)] == w.jobs;
    }
  }

  lemma TakenGoesOver(r: Reader, w: World, a: nat)
    requires a in w.jobs && w.jobs[a].name in w.files && Able(r, w.files, w.jobs[a])
    ensures CanPutOver(r, w)
  {
    var events, files := ComesToNaming(r, w, a);
    assert PutsOver(r, World(files, w.jobs[a := w.jobs[a].(pc := Verified)]), Step(a, Go));
  }

  /** With both able, the first names its copy and the second puts its own there. */
  lemma BothGoOver(r: Reader, w: World, a: nat, b: nat)
    requires BothAble(r, w, a, b)
    ensures CanPutOver(r, w)
  {
    var ja, jb := w.jobs[a], w.jobs[b];
    var helped: seq<Event> := [];
    var w1 := w;
    assert Continues(r, w, helped, w1);
    if !Able(r, w.files, ja) {
      var n: nat := if jb.pc.Writing? then jb.pc.written else 0;
      if ja.pc.Synced? {
        n :| CanLeave(jb, n) && r.sha(jb.content[..n]) == r.sha(ja.content);
      }
      helped := Leaves(r, w, b, n);
      w1 := World(w.files[Partial(jb.name) := jb.content[..n]], w.jobs[b := jb.(pc := Writing(n))]);
    }
    var ready, files := ComesToNaming(r, w1, a);
    var w2 := World(files, w1.jobs[a := ja.(pc := Verified)]);
    ContinuesOn(r, w, helped, w1, ready, w2);
    var w3 := Next(r, w2, Step(a, Go));
    ContinuesOne(r, w2, Step(a, Go));
    ContinuesOn(r, w, helped + ready, w2, [Step(a, Go)], w3);
    TakenGoesOver(r, w3, b);
    var rest, w4, e :| Continues(r, w3, rest, w4) && PutsOver(r, w4, e);
    ContinuesOn(r, w, helped + ready + [Step(a, Go)], w3, rest, w4);
  }

  /** And with the jobs then at work a copy can be put over one already there if
      and only if a job can still name its copy while its name is taken, or two
      jobs on one name can both still name theirs. */
  lemma OverExactlyInDanger(r: Reader, files: Files, before: seq<Event>, w: World)
    requires Run(r, World(files, map[]), before, w)
    ensures CanPutOver(r, w) <==> OverDanger(r, w)
  {
    RunKeepsNames(r, World(files, map[]), before, w);
    if CanPutOver(r, w) {
      var events, w', e :| Continues(r, w, events, w') && PutsOver(r, w', e);
      OverNeedsDanger(r, w, events, w', e);
    }
    if a: nat :| a in w.jobs && w.jobs[a].name in w.files && Able(r, w.files, w.jobs[a]) {
      TakenGoesOver(r, w, a);
    } else if OverDanger(r, w) {
      var a: nat, b: nat :| BothAble(r, w, a, b);
      BothGoOver(r, w, a, b);
    }
  }

  // -------------------------------------------------- a run that goes wrong

  lemma {:induction false} ContinuingIsRunning(r: Reader, w: World, events: seq<Event>, w': World)
    requires Continues(r, w, events, w')
    ensures Run(r, w, events, w')
    decreases |events|
  {
    if events != [] {
      ContinuingIsRunning(r, Next(r, w, events[0]), events[1..], w');
    }
  }

  /** The first verifies its copy; then the second starts its own. */
  lemma SecondSpoilsFirst(r: Reader, files: Files, a: Job, b: Job, n: nat) returns (events: seq<Event>, w: World)
    requires b.name == a.name && n <= |b.content| && r.sha(b.content[..n]) != r.sha(a.content)
    ensures Continues(r, World(files, Two(a.(pc := Clearing), b.(pc := Clearing))), events, w)
    ensures 0 in w.jobs && w.jobs[0] == a.(pc := Verified)
    ensures Partial(a.name) in w.files && w.files[Partial(a.name)] == b.content[..n]
  {
    var jobs := Two(a.(pc := Clearing), b.(pc := Clearing));
    var builds := Verifies(r, World(files, jobs), 0);
    var built := World(files[Partial(a.name) := a.content], jobs[0 := a.(pc := Verified)]);
    var spoils := Leaves(r, built, 1, n);
    w := World(built.files[Partial(a.name) := b.content[..n]], built.jobs[1 := b.(pc := Writing(n))]);
    ContinuesOn(r, World(files, jobs), builds, built, spoils, w);
    events := builds + spoils;
  }

  /** So the name comes to carry however much of the second snapshot was then
      written. */
  lemma SharedNameCarriesAPrefix(r: Reader, files: Files, list: seq<string>, a: Job, b: Job, n: nat)
    requires IsOwnBackup(a.name) && b.name == a.name && a.name !in files && a.pc.Arrived? && b.pc.Arrived?
    requires Lists(list, SnapshotNames(files))
    requires SameInstallation(r, files, list, a.content) && SameInstallation(r, files, list, b.content)
    requires n <= |b.content| && r.sha(b.content[..n]) != r.sha(a.content)
    ensures exists events, w ::
      && Run(r, World(files, map[]), events, w) && PutsWrong(r, w, Step(0, Go))
      && w.jobs[0].name == a.name && w.jobs[0].content == a.content
      && Next(r, w, Step(0, Go)).files[a.name] == b.content[..n]
  {
    var before := BothClear(r, files, list, a, b);
    var rest, w := SecondSpoilsFirst(r, files, a, b, n);
    var middle := World(files, Two(a.(pc := Clearing), b.(pc := Clearing)));
    ContinuingIsRunning(r, middle, rest, w);
    RunOn(r, World(files, map[]), before, middle, rest, w);
    WrongIsPut(r, w, 0);
  }
}
