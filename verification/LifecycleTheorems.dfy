/** What holds of an enrollment in every reachable state. */
module LifecycleTheorems {
  import opened Basics
  import opened Lifecycle
  import opened LifecycleInvariant

  /** The version changes chain: each leaves the version pinned before it and
      reaches a different one, ending at the current pin, all published versions
      of one program. */
  lemma PinsFormAChain(s: State, k: nat)
    requires Reachable(s) && k < |Changes(s.e.events)|
    ensures var changes := Changes(s.e.events);
      && changes[k].from.Some? && changes[k].to.Some? && changes[k].from != changes[k].to
      && changes[k].to == (if k + 1 < |changes| then changes[k + 1].from else Some(s.e.pin))
      && changes[k].from.value in s.catalog && s.catalog[changes[k].from.value].published
      && s.e.pin in s.catalog && s.catalog[s.e.pin].published
      && s.catalog[changes[k].from.value].program == s.catalog[s.e.pin].program
      && (k + 1 < |changes| ==> changes[k].at <= changes[k + 1].at)
  {
    ReachableHolds(s);
    var changes := Changes(s.e.events);
    ChangesAscend(s.e.events);
    assert ChangeHolds(s.e, k) && PinHolds(s, k) && PinHolds(s, |changes|);
    if k + 1 < |changes| {
      assert ChangeHolds(s.e, k + 1);
    }
  }

  /** Phase history is a legal walk: effective instants never decrease in
      recording order, and every event leaves from the place its epoch had
      reached and follows an edge of the version that epoch pinned, within the
      epoch's bounds. */
  lemma PhaseHistoryIsALegalWalk(s: State, i: nat)
    requires Reachable(s) && i < |s.e.phaseEvents|
    ensures RowsAscend(s.e.phaseEvents)
    ensures exists k: nat :: PhaseOk(s, i, k)
  {
    ReachableHolds(s);
    assert PhaseFits(s, i);
  }

  /** The current phase and the pause state, which the service queries in order
      of effective instant, are what a fold over the events in recording order
      gives. */
  lemma PlaceIsTheFold(s: State)
    requires Reachable(s)
    ensures Place(CurrentPhase(s.e), IsPaused(s.e)) == Walk(s.e.phaseEvents, EpochOf(s.e.events))
  {
    ReachableHolds(s);
    QueriesAreTheFold(s.e);
  }

  /** The row a phase call would record now. */
  function RowFor(s: State, actor: int, kind: PhaseKind, target: Option<int>, effective: int, reason: string): PhaseEvent {
    PhaseEvent(s.next.phase, kind, Walk(s.e.phaseEvents, EpochOf(s.e.events)).phase,
               if IsMove(kind) then target else None, effective, s.next.now, actor, Trim(reason), EpochOf(s.e.events))
  }

  /** The row lands after everything recorded, and not in the future. */
  ghost predicate Timely(s: State, effective: int) {
    && effective <= s.next.now
    && (forall x <- s.e.phaseEvents :: x.effective <= effective)
    && (forall change <- Changes(s.e.events) :: change.at <= effective)
  }

  lemma {:induction false} LatestIsARow(rows: seq<PhaseEvent>)
    ensures LatestEffective(rows).Some? ==> exists x :: x in rows && x.effective == LatestEffective(rows).value
  {
    if rows != [] {
      var front, last := rows[..|rows| - 1], rows[|rows| - 1];
      LatestIsARow(front);
      assert last in rows && rows == front + [last];
      if LatestEffective(front).Some? {
        var x :| x in front && x.effective == LatestEffective(front).value;
        assert x in rows;
      }
    }
  }

  lemma TimelyIsTheQueries(s: State, effective: int)
    requires Inv(s)
    ensures var latest, opening := LatestEffective(s.e.phaseEvents), LatestChange(s.e.events);
      Timely(s, effective) <==>
      && effective <= s.next.now
      && (latest.Some? ==> latest.value <= effective)
      && (opening.Some? ==> opening.value.at <= effective)
  {
    LatestBounds(s.e.phaseEvents);
    LatestIsARow(s.e.phaseEvents);
    LatestIsLast(s.e.events);
    ChangesAscend(s.e.events);
    var changes := Changes(s.e.events);
    forall change <- changes
      ensures change.at <= Last(changes).at
    {
      var k :| 0 <= k < |changes| && changes[k] == change;
      assert k < |changes| - 1 ==> changes[k].at <= changes[|changes| - 1].at;
    }
    if changes != [] {
      assert Last(changes) in changes;
    }
  }

  lemma LegalIsNotRefused(s: State, actor: int, kind: PhaseKind, target: Option<int>, effective: int, reason: string)
    requires Inv(s) && s.e.pin in s.catalog
    ensures PhaseRefusal(s, kind, target) == None <==>
      Legal(s.catalog[s.e.pin], Walk(s.e.phaseEvents, EpochOf(s.e.events)), RowFor(s, actor, kind, target, effective, reason))
  {
    QueriesAreTheFold(s.e);
    CurrentEpoch(s);
    WalkStaysInside(s, |s.e.phaseEvents|, |Changes(s.e.events)|, EpochOf(s.e.events));
    assert s.e.phaseEvents[..|s.e.phaseEvents|] == s.e.phaseEvents;
  }

  /** What a phase call refuses, exactly: it is accepted if and only if a
      coordinator asks, of an active enrollment, with the reason a return or
      restart needs, for an instant after everything recorded and not in the
      future, and the step is a legal one from the place the walk has reached; it
      then appends exactly that step's row. */
  lemma PhaseAcceptedExactly(s: State, actor: int, coordinator: bool, kind: PhaseKind, target: Option<int>,
                             effectiveAt: Option<int>, reason: string)
    requires Reachable(s)
    ensures var effective := if effectiveAt.Some? then effectiveAt.value else s.next.now;
      var row := RowFor(s, actor, kind, target, effective, reason);
      var o := RecordPhase(s, actor, coordinator, kind, target, effectiveAt, reason);
      && s.e.pin in s.catalog
      && (o.Done? <==>
            && coordinator && StatusOf(s.e.events).Active?
            && (kind.Return? || kind.Restart? ==> !Blank(reason))
            && Timely(s, effective)
            && Legal(s.catalog[s.e.pin], Walk(s.e.phaseEvents, EpochOf(s.e.events)), row))
      && (o.Done? ==>
            o.value == s.(next := s.next.(phase := s.next.phase + 1), e := s.e.(phaseEvents := s.e.phaseEvents + [row])))
  {
    ReachableHolds(s);
    assert PinHolds(s, |Changes(s.e.events)|);
    var effective := if effectiveAt.Some? then effectiveAt.value else s.next.now;
    TimelyIsTheQueries(s, effective);
    LegalIsNotRefused(s, actor, kind, target, effective, reason);
    PlaceIsTheFold(s);
  }

  ghost predicate NoPauseBetween(rows: seq<PhaseEvent>, i: int, j: int, epoch: Option<int>)
    requires j <= |rows|
  {
    forall m | 0 <= m < |rows| && i < m < j :: rows[m].epoch == epoch ==> !IsPause(rows[m].kind)
  }

  /** `i` is -1 when the epoch has no pause or resume before `j`. */
  lemma {:induction false} PausedSince(rows: seq<PhaseEvent>, i: int, j: nat, epoch: Option<int>)
    requires -1 <= i < j <= |rows| && NoPauseBetween(rows, i, j, epoch)
    requires i >= 0 ==> rows[i].epoch == epoch && IsPause(rows[i].kind)
    ensures Walk(rows[..j], epoch).paused == (i >= 0 && rows[i].kind.Pause?)
    decreases j
  {
    if j > 0 {
      assert rows[..j][..j - 1] == rows[..j - 1];
    }
    if i < j - 1 {
      PausedSince(rows, i, j - 1, epoch);
    }
  }

  /** Within an epoch pauses and resumes alternate, and the first is a pause: an
      epoch starts unpaused. */
  lemma PausesAlternate(s: State, i: int, j: nat)
    requires Reachable(s) && -1 <= i < j < |s.e.phaseEvents|
    requires IsPause(s.e.phaseEvents[j].kind)
    requires i >= 0 ==> IsPause(s.e.phaseEvents[i].kind) && s.e.phaseEvents[i].epoch == s.e.phaseEvents[j].epoch
    requires NoPauseBetween(s.e.phaseEvents, i, j, s.e.phaseEvents[j].epoch)
    ensures s.e.phaseEvents[j].kind.Pause? <==> i == -1 || s.e.phaseEvents[i].kind.Resume?
  {
    var rows := s.e.phaseEvents;
    PhaseHistoryIsALegalWalk(s, j);
    var k: nat :| PhaseOk(s, j, k);
    if j == 0 {
      assert rows[..0] == [];
    }
    PausedSince(rows, i, j, rows[j].epoch);
  }

  /** A version change always starts outside the graph and unpaused, even one
      back to a version pinned before. */
  lemma VersionChangeStartsAfresh(s: State, actor: int, coordinator: bool, reason: string, to: Option<int>, elsewhere: set<int>)
    requires Reachable(s)
    requires RecordEvent(s, actor, coordinator, VersionChange, reason, to, elsewhere).Done?
    ensures var e := RecordEvent(s, actor, coordinator, VersionChange, reason, to, elsewhere).value.e;
      CurrentPhase(e) == None && !IsPaused(e) && to == Some(e.pin) && e.pin != s.e.pin
  {
    ReachableHolds(s);
    var s' := RecordEvent(s, actor, coordinator, VersionChange, reason, to, elsewhere).value;
    EventKeeps(s, actor, coordinator, VersionChange, reason, to, elsewhere);
    QueriesAreTheFold(s'.e);
    assert s'.e.events[..|s.e.events|] == s.e.events;
    forall x <- s.e.phaseEvents
      ensures x.epoch != Some(s.next.event)
    {
      var i :| 0 <= i < |s.e.phaseEvents| && s.e.phaseEvents[i] == x;
      assert PhaseFits(s, i);
      var k: nat :| PhaseOk(s, i, k);
      CurrentEpoch(s);
      if k > 0 {
        assert Changes(s.e.events)[k - 1] in Changes(s.e.events);
      }
    }
    NoRowsNoWalk(s.e.phaseEvents, Some(s.next.event));
  }

  /** Only a reinstatement lands on an enrollment that is withdrawn or complete,
      and it lands on no other. */
  lemma OnlyReinstatementRevives(s: State, i: nat)
    requires Reachable(s) && i < |s.e.events|
    ensures s.e.events[i].kind.Reinstate? <==> !StatusOf(s.e.events[..i]).Active?
  {
    ReachableHolds(s);
  }

  ghost predicate Extends(s: State, s': State) {
    && s.e.events <= s'.e.events && s.e.phaseEvents <= s'.e.phaseEvents && s.e.signoffs <= s'.e.signoffs
    && s.e.id == s'.e.id && s.e.trainee == s'.e.trainee
    && KeepsPublished(s.catalog, s'.catalog)
  }

  lemma StepExtends(s: State, step: Step)
    ensures Extends(s, After(s, step))
  {
  }

  /** The streams are append-only and publishing is final. */
  lemma {:induction false} StreamsOnlyGrow(s: State, steps: seq<Step>, s': State)
    requires Run(s, steps, s')
    ensures Extends(s, s')
    decreases |steps|
  {
    if steps != [] {
      var next := After(s, steps[0]);
      StepExtends(s, steps[0]);
      StreamsOnlyGrow(next, steps[1..], s');
      forall v <- s.catalog | s.catalog[v].published
        ensures v in s'.catalog && s'.catalog[v] == s.catalog[v]
      {
        assert v in next.catalog && next.catalog[v] == s.catalog[v];
      }
    }
  }

  // ------------------------------------------------- events, status, signoffs

  /** Event `i` is the newest but for version changes. */
  predicate NewestSets(events: seq<Event>, i: nat) {
    && i < |events| && !events[i].kind.VersionChange?
    && forall j | i < j < |events| :: events[j].kind.VersionChange?
  }

  /** The status an event gives. */
  function Gives(kind: EventKind): Status
    requires !kind.VersionChange?
  {
    if kind == Withdraw then Withdrawn else if kind == Complete then Completed else Active
  }

  /** An enrollment is withdrawn, completed or active as its newest event but for
      version changes says, and active when there is none. */
  lemma {:induction false} StatusIsTheNewest(events: seq<Event>)
    ensures forall i: nat | NewestSets(events, i) :: StatusOf(events) == Gives(events[i].kind)
    ensures (forall i | 0 <= i < |events| :: events[i].kind.VersionChange?) ==> StatusOf(events) == Active
  {
    if events != [] {
      var front := events[..|events| - 1];
      StatusIsTheNewest(front);
      if Last(events).kind.VersionChange? {
        forall i: nat | NewestSets(events, i)
          ensures StatusOf(events) == Gives(events[i].kind)
        {
          assert NewestSets(front, i);
        }
      } else {
        forall i: nat | NewestSets(events, i)
          ensures i == |events| - 1
        {
        }
      }
    }
  }

  /** A version an enrollment can be moved to: another published one of the same
      program, which no other enrollment of the trainee's pins. */
  predicate CanMoveTo(s: State, elsewhere: set<int>, to: Option<int>) {
    && to.Some? && to.value != s.e.pin && to.value in s.catalog && s.catalog[to.value].published
    && s.e.pin in s.catalog && s.catalog[s.e.pin].program == s.catalog[to.value].program
    && to.value !in elsewhere
  }

  /** The row a lifecycle call records: a version change from the pin to the version
      asked for, anything else without versions. */
  predicate RecordsEvent(s: State, actor: int, kind: EventKind, reason: string, to: Option<int>, x: Event) {
    && x.id == s.next.event && x.kind == kind && x.at == s.next.now && x.actor == actor && x.reason == Trim(reason)
    && (if kind.VersionChange? then x.from == Some(s.e.pin) && x.to == to else x.from == None && x.to == None)
  }

  /** A lifecycle call is accepted exactly from a coordinator, with a reason unless it
      completes, of an enrollment that is active, or not active for a reinstatement,
      and for a version change to a version it can move to. It appends its row, moves
      the pin only for a version change, and leaves the status its kind gives. */
  lemma EventAcceptedExactly(s: State, actor: int, coordinator: bool, kind: EventKind, reason: string, to: Option<int>,
                             elsewhere: set<int>)
    ensures var o := RecordEvent(s, actor, coordinator, kind, reason, to, elsewhere);
      && (o.Done? <==>
            && coordinator && (kind != Complete ==> !Blank(reason))
            && (if kind == Reinstate then StatusOf(s.e.events) != Active else StatusOf(s.e.events) == Active)
            && (kind == VersionChange ==> CanMoveTo(s, elsewhere, to)))
      && (o.Done? ==>
            && o.value.e.events == s.e.events + [Last(o.value.e.events)]
            && RecordsEvent(s, actor, kind, reason, to, Last(o.value.e.events))
            && o.value.e.pin == (if kind == VersionChange then to.value else s.e.pin)
            && o.value == s.(next := s.next.(event := s.next.event + 1),
                             e := s.e.(pin := o.value.e.pin, events := o.value.e.events))
            && StatusOf(o.value.e.events) == if kind == VersionChange then StatusOf(s.e.events) else Gives(kind))
  {
    var o := RecordEvent(s, actor, coordinator, kind, reason, to, elsewhere);
    if o.Done? {
      var events := o.value.e.events;
      assert events[..|events| - 1] == s.e.events;
      assert kind != VersionChange ==> NewestSets(events, |events| - 1);
      StatusIsTheNewest(events);
    }
  }

  /** A signoff is accepted exactly of a task of the pinned version: a first one from a
      coordinator or an author in scope, not a revocation; a later one from a
      reviewer who says why. It appends its row and nothing else. */
  lemma SignoffAcceptedExactly(s: State, actor: int, name: string, coordinator: bool, authorInScope: bool, reviewer: bool,
                               task: int, kind: SignoffKind, reason: string)
    ensures var o := RecordSignoff(s, actor, name, coordinator, authorInScope, reviewer, task, kind, reason);
      var signed := exists i :: 0 <= i < |s.e.signoffs| && s.e.signoffs[i].task == task;
      && (o.Done? <==>
            && s.e.pin in s.catalog && task in s.catalog[s.e.pin].tasks
            && if signed then reviewer && !Blank(reason) else (coordinator || authorInScope) && kind != Revoked)
      && (o.Done? ==>
            o.value == s.(next := s.next.(signoff := s.next.signoff + 1),
                          e := s.e.(signoffs := s.e.signoffs
                            + [Signoff(s.next.signoff, task, kind, Trim(reason), actor, name, s.next.now)])))
  {
    assert SignedBefore(s.e.signoffs, task) <==> exists i :: 0 <= i < |s.e.signoffs| && s.e.signoffs[i].task == task;
  }
}
