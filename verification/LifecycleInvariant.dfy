/** What every call keeps about an enrollment's histories. */
module LifecycleInvariant {
  import opened Basics
  import opened Lifecycle

  // ------------------------------------------------------------- pin epochs

  /** The version pinned during epoch `k`: the one the next change left, or the
      current pin. */
  function PinAt(e: Enrollment, k: nat): int
    requires k <= |Changes(e.events)|
  {
    var changes := Changes(e.events);
    if k < |changes| && changes[k].from.Some? then changes[k].from.value else e.pin
  }

  /** Epoch `k` carries the id of the change that opened it. */
  ghost predicate EpochIs(changes: seq<Event>, k: nat, epoch: Option<int>) {
    k <= |changes| && epoch == if k == 0 then None else Some(changes[k - 1].id)
  }

  /** An act fits an epoch when it takes effect no earlier than the epoch opened
      and was recorded no later than it closed. */
  ghost predicate Within(changes: seq<Event>, k: nat, effective: int, recorded: int) {
    && k <= |changes|
    && (k > 0 ==> changes[k - 1].at <= effective)
    && (k < |changes| ==> recorded <= changes[k].at)
  }

  ghost predicate EventsAscend(events: seq<Event>) {
    forall i, j | 0 <= i < j < |events| :: events[i].id < events[j].id && events[i].at <= events[j].at
  }

  ghost predicate EventsHold(s: State) {
    var events := s.e.events;
    && EventsAscend(events)
    && (forall i | 0 <= i < |events| ::
          && events[i].id < s.next.event
          && events[i].at <= s.next.now
          && (!events[i].kind.VersionChange? ==> events[i].from.None? && events[i].to.None?)
          && (events[i].kind.Reinstate? <==> !StatusOf(events[..i]).Active?))
  }

  /** Change `k` leaves the version pinned in epoch `k` for another, pinned in
      epoch `k + 1`, and says why. */
  ghost predicate ChangeHolds(e: Enrollment, k: nat)
    requires k < |Changes(e.events)|
  {
    var change := Changes(e.events)[k];
    && change.from == Some(PinAt(e, k))
    && change.to == Some(PinAt(e, k + 1))
    && PinAt(e, k) != PinAt(e, k + 1)
    && change.reason != ""
  }

  ghost predicate PinHolds(s: State, k: nat)
    requires k <= |Changes(s.e.events)|
  {
    var v := PinAt(s.e, k);
    && v in s.catalog && s.catalog[v].published
    && ProgramOf(s.catalog, s.e.pin) == Some(s.catalog[v].program)
  }

  ghost predicate PinsHold(s: State) {
    && (forall k | 0 <= k < |Changes(s.e.events)| :: ChangeHolds(s.e, k))
    && (forall k | 0 <= k <= |Changes(s.e.events)| :: PinHolds(s, k))
  }

  // --------------------------------------------------------- the phase walk

  /** Where the trainee stands in an epoch. */
  datatype Place = Place(phase: Option<int>, paused: bool)

  /** The place an epoch's events lead to, read in the order they were recorded. */
  function Walk(rows: seq<PhaseEvent>, epoch: Option<int>): Place {
    if rows == [] then Place(None, false)
    else
      var before := Walk(rows[..|rows| - 1], epoch);
      var x := Last(rows);
      if x.epoch != epoch then before
      else match x.kind
        case Pause => before.(paused := true)
        case Resume => before.(paused := false)
        case CompletePhase => before
        case _ => before.(phase := x.to)
  }

  /** An event leaves from the place reached and moves along the graph: entry may
      take any phase, an advance follows an advance or skip edge, a return a
      remediation edge, a restart a restart edge; nothing moves while paused. */
  ghost predicate Legal(v: ProgramVersion, before: Place, x: PhaseEvent) {
    && x.from == before.phase
    && (x.from.Some? ==> x.from.value in v.phases)
    && (x.kind.Resume? <==> before.paused)
    && if IsMove(x.kind) then
         && x.to.Some? && x.to.value in v.phases
         && (x.from.None? ==> x.kind.Advance?)
         && (x.from.Some? ==>
               var edge := Edge(v, x.from.value, x.to.value);
               match x.kind
               case Advance => edge in {Some(AdvanceEdge), Some(SkipEdge)}
               case Return => edge == Some(RemediationEdge)
               case _ => edge == Some(RestartEdge))
       else x.to.None? && x.from.Some?
  }

  ghost predicate PhaseOk(s: State, i: nat, k: nat)
    requires i < |s.e.phaseEvents|
  {
    var x := s.e.phaseEvents[i];
    && EpochIs(Changes(s.e.events), k, x.epoch)
    && Within(Changes(s.e.events), k, x.effective, x.recorded)
    && PinAt(s.e, k) in s.catalog
    && Legal(s.catalog[PinAt(s.e, k)], Walk(s.e.phaseEvents[..i], x.epoch), x)
  }

  ghost predicate PhaseFits(s: State, i: nat)
    requires i < |s.e.phaseEvents|
  {
    exists k: nat :: PhaseOk(s, i, k)
  }

  ghost predicate RowsAscend(rows: seq<PhaseEvent>) {
    forall i, j | 0 <= i < j < |rows| :: rows[i].id < rows[j].id && rows[i].effective <= rows[j].effective
  }

  ghost predicate PhasesHold(s: State) {
    var rows := s.e.phaseEvents;
    && RowsAscend(rows)
    && (forall i | 0 <= i < |rows| ::
          && rows[i].id < s.next.phase
          && rows[i].effective <= rows[i].recorded <= s.next.now)
    && (forall i | 0 <= i < |rows| :: PhaseFits(s, i))
  }

  // --------------------------------------------------------------- signoffs

  ghost predicate SignoffOk(s: State, i: nat, k: nat)
    requires i < |s.e.signoffs|
  {
    var x := s.e.signoffs[i];
    && Within(Changes(s.e.events), k, x.at, x.at)
    && HasTask(s.catalog, PinAt(s.e, k), x.task)
  }

  ghost predicate SignoffFits(s: State, i: nat)
    requires i < |s.e.signoffs|
  {
    exists k: nat :: SignoffOk(s, i, k)
  }

  /** A first signoff is not a revocation, and any later one says why. */
  ghost predicate Overrides(signoffs: seq<Signoff>, i: nat)
    requires i < |signoffs|
  {
    if SignedBefore(signoffs[..i], signoffs[i].task) then !Blank(signoffs[i].reason)
    else !signoffs[i].kind.Revoked?
  }

  ghost predicate SignoffsHold(s: State) {
    var rows := s.e.signoffs;
    && (forall i, j | 0 <= i < j < |rows| :: rows[i].id < rows[j].id)
    && (forall i | 0 <= i < |rows| ::
          && rows[i].id < s.next.signoff && rows[i].at <= s.next.now
          && rows[i].signerName != "" && Overrides(rows, i))
    && (forall i | 0 <= i < |rows| :: SignoffFits(s, i))
  }

  ghost predicate Inv(s: State) {
    && WellFormed(s.catalog)
    && s.e.id >= 1 && s.e.trainee >= 1
    && EventsHold(s) && PinsHold(s) && PhasesHold(s) && SignoffsHold(s)
  }

  // ----------------------------------------------------- facts about queries

  lemma {:induction false} ChangesAreEvents(events: seq<Event>)
    ensures forall c <- Changes(events) :: c in events && c.kind.VersionChange?
    ensures |Changes(events)| <= |events|
  {
    if events != [] {
      var front := events[..|events| - 1];
      ChangesAreEvents(front);
      assert events == front + [Last(events)];
      assert Last(events) in events;
      forall c | c in Changes(events)
        ensures c in events && c.kind.VersionChange?
      {
        assert c in Changes(front) || c == Last(events);
      }
    }
  }

  lemma {:induction false} LatestIsLast(events: seq<Event>)
    ensures LatestChange(events) == if Changes(events) == [] then None else Some(Last(Changes(events)))
  {
    if events != [] {
      LatestIsLast(events[..|events| - 1]);
      if !Last(events).kind.VersionChange? {
        assert Changes(events) == Changes(events[..|events| - 1]);
      }
    }
  }

  /** The changes keep the order of the events they are taken from. */
  lemma {:induction false} ChangesAscend(events: seq<Event>)
    requires EventsAscend(events)
    ensures EventsAscend(Changes(events))
  {
    if events != [] {
      var n := |events| - 1;
      var front := events[..n];
      ChangesAscend(front);
      ChangesAreEvents(front);
      var earlier, all := Changes(front), Changes(events);
      forall i | 0 <= i < |earlier|
        ensures earlier[i].id < events[n].id && earlier[i].at <= events[n].at
      {
        assert earlier[i] in front;
      }
      assert all == earlier || all == earlier + [events[n]];
    }
  }

  lemma {:induction false} LatestBounds(rows: seq<PhaseEvent>)
    ensures rows != [] ==> LatestEffective(rows).Some?
    ensures forall x <- rows :: LatestEffective(rows).Some? && x.effective <= LatestEffective(rows).value
  {
    if rows != [] {
      var front := rows[..|rows| - 1];
      LatestBounds(front);
      assert rows == front + [Last(rows)];
      assert forall x :: x in rows <==> x in front || x == Last(rows);
    }
  }

  /** Among rows recorded in effective order the query's first row is the last
      recorded. */
  lemma {:induction false} TopIsLast(rows: seq<PhaseEvent>)
    requires RowsAscend(rows)
    ensures TopRow(rows) == if rows == [] then None else Some(Last(rows))
  {
    if rows != [] {
      var front := rows[..|rows| - 1];
      TopIsLast(front);
      if front != [] {
        assert !Later(Last(front), Last(rows)) by {
          assert rows[|rows| - 2] == Last(front);
        }
      }
    }
  }

  lemma {:induction false} EpochRowsAscend(rows: seq<PhaseEvent>, epoch: Option<int>, moves: bool)
    requires RowsAscend(rows)
    ensures RowsAscend(InEpoch(rows, epoch, moves))
    ensures forall x <- InEpoch(rows, epoch, moves) :: x in rows && x.epoch == epoch
  {
    if rows != [] {
      var n := |rows| - 1;
      var front := rows[..n];
      EpochRowsAscend(front, epoch, moves);
      var earlier, all := InEpoch(front, epoch, moves), InEpoch(rows, epoch, moves);
      forall i | 0 <= i < |earlier|
        ensures earlier[i].id < rows[n].id && earlier[i].effective <= rows[n].effective
      {
        assert earlier[i] in front;
      }
      assert rows == front + [rows[n]];
      assert all == earlier || all == earlier + [rows[n]];
    }
  }

  lemma {:induction false} WalkIsLastRows(rows: seq<PhaseEvent>, epoch: Option<int>)
    ensures var moves, pauses := InEpoch(rows, epoch, true), InEpoch(rows, epoch, false);
      Walk(rows, epoch) ==
      Place(if moves == [] then None else Last(moves).to, pauses != [] && Last(pauses).kind.Pause?)
  {
    if rows != [] {
      var front, x := rows[..|rows| - 1], Last(rows);
      WalkIsLastRows(front, epoch);
      assert InEpoch(rows, epoch, true) ==
        if x.epoch == epoch && IsMove(x.kind) then InEpoch(front, epoch, true) + [x] else InEpoch(front, epoch, true);
      assert InEpoch(rows, epoch, false) ==
        if x.epoch == epoch && IsPause(x.kind) then InEpoch(front, epoch, false) + [x] else InEpoch(front, epoch, false);
    }
  }

  /** The queries that order by effective instant read what a simple fold over
      the recorded events reads. */
  lemma QueriesAreTheFold(e: Enrollment)
    requires RowsAscend(e.phaseEvents)
    ensures Place(CurrentPhase(e), IsPaused(e)) == Walk(e.phaseEvents, EpochOf(e.events))
  {
    var epoch := EpochOf(e.events);
    EpochRowsAscend(e.phaseEvents, epoch, true);
    EpochRowsAscend(e.phaseEvents, epoch, false);
    TopIsLast(InEpoch(e.phaseEvents, epoch, true));
    TopIsLast(InEpoch(e.phaseEvents, epoch, false));
    WalkIsLastRows(e.phaseEvents, epoch);
  }

  lemma {:induction false} NoRowsNoWalk(rows: seq<PhaseEvent>, epoch: Option<int>)
    requires forall x <- rows :: x.epoch != epoch
    ensures Walk(rows, epoch) == Place(None, false)
  {
    if rows != [] {
      assert Last(rows) in rows;
      NoRowsNoWalk(rows[..|rows| - 1], epoch);
    }
  }

  lemma EpochIsUnique(s: State, k: nat, k': nat, epoch: Option<int>)
    requires EventsHold(s)
    requires EpochIs(Changes(s.e.events), k, epoch) && EpochIs(Changes(s.e.events), k', epoch)
    ensures k == k'
  {
    ChangesAscend(s.e.events);
  }

  lemma CurrentEpoch(s: State)
    requires EventsHold(s)
    ensures EpochIs(Changes(s.e.events), |Changes(s.e.events)|, EpochOf(s.e.events))
    ensures forall c <- Changes(s.e.events) :: c.at <= s.next.now && c.id < s.next.event
  {
    LatestIsLast(s.e.events);
    ChangesAreEvents(s.e.events);
    forall c <- Changes(s.e.events)
      ensures c.at <= s.next.now && c.id < s.next.event
    {
      var i :| 0 <= i < |s.e.events| && s.e.events[i] == c;
    }
  }

  /** A place reached in an epoch is a phase of the version it pinned. */
  lemma {:induction false} WalkStaysInside(s: State, n: nat, k: nat, epoch: Option<int>)
    requires EventsHold(s) && PinsHold(s) && PhasesHold(s)
    requires n <= |s.e.phaseEvents| && EpochIs(Changes(s.e.events), k, epoch)
    ensures PinAt(s.e, k) in s.catalog
    ensures var place := Walk(s.e.phaseEvents[..n], epoch);
      place.phase.Some? ==> place.phase.value in s.catalog[PinAt(s.e, k)].phases
  {
    assert PinHolds(s, k);
    if n > 0 {
      WalkStaysInside(s, n - 1, k, epoch);
      var rows := s.e.phaseEvents[..n];
      assert rows[..|rows| - 1] == s.e.phaseEvents[..n - 1];
      var x := Last(rows);
      assert x == s.e.phaseEvents[n - 1];
      if x.epoch == epoch && IsMove(x.kind) {
        assert PhaseFits(s, n - 1);
        var k': nat :| PhaseOk(s, n - 1, k');
        EpochIsUnique(s, k, k', epoch);
      }
    }
  }

  // ------------------------------------------------------------ preservation

  lemma WaitKeeps(s: State, gap: Gap)
    requires Inv(s)
    ensures Inv(Wait(s, gap))
  {
    var s' := Wait(s, gap);
    SameStreams(s, s');
  }

  /** A state that differs only by time, spent ids or unpublished configuration. */
  lemma SameStreams(s: State, s': State)
    requires Inv(s) && s'.e == s.e && WellFormed(s'.catalog) && KeepsPublished(s.catalog, s'.catalog)
    requires s'.next.event >= s.next.event && s'.next.phase >= s.next.phase
    requires s'.next.signoff >= s.next.signoff && s'.next.now >= s.next.now
    ensures Inv(s')
  {
    forall k | 0 <= k <= |Changes(s.e.events)|
      ensures PinHolds(s', k)
    {
      assert PinHolds(s, k) && PinHolds(s, |Changes(s.e.events)|);
    }
    forall i | 0 <= i < |s.e.phaseEvents|
      ensures PhaseFits(s', i)
    {
      assert PhaseFits(s, i);
      var k: nat :| PhaseOk(s, i, k);
      assert PinHolds(s, k);
      assert PhaseOk(s', i, k);
    }
    forall i | 0 <= i < |s.e.signoffs|
      ensures SignoffFits(s', i)
    {
      assert SignoffFits(s, i);
      var k: nat :| SignoffOk(s, i, k);
      assert PinHolds(s, k);
      assert SignoffOk(s', i, k);
    }
  }

  // A recorded lifecycle event.

  lemma ChangesGrow(events: seq<Event>, row: Event)
    ensures Changes(events + [row]) == if row.kind.VersionChange? then Changes(events) + [row] else Changes(events)
  {
    assert (events + [row])[..|events|] == events;
  }

  lemma EventKeepsPins(s: State, s': State, row: Event)
    requires Inv(s) && s'.catalog == s.catalog
    requires s'.e.events == s.e.events + [row]
    requires if row.kind.VersionChange? then
        && row.from == Some(s.e.pin) && row.to == Some(s'.e.pin) && s.e.pin != s'.e.pin && row.reason != ""
        && s'.e.pin in s.catalog && s.catalog[s'.e.pin].published
        && ProgramOf(s.catalog, s.e.pin) == Some(s.catalog[s'.e.pin].program)
      else s'.e.pin == s.e.pin
    ensures PinsHold(s')
    ensures forall k: nat | k <= |Changes(s.e.events)| :: k <= |Changes(s'.e.events)| && PinAt(s'.e, k) == PinAt(s.e, k)
  {
    ChangesGrow(s.e.events, row);
    var before, after := Changes(s.e.events), Changes(s'.e.events);
    var n := |before|;
    forall k: nat | k <= n
      ensures k <= |after| && PinAt(s'.e, k) == PinAt(s.e, k)
    {
      if k < n {
        assert after[k] == before[k] && ChangeHolds(s.e, k);
      }
    }
    forall k | 0 <= k < |after|
      ensures ChangeHolds(s'.e, k)
    {
      if k < n {
        assert ChangeHolds(s.e, k);
      }
    }
    forall k | 0 <= k <= |after|
      ensures PinHolds(s', k)
    {
      assert PinHolds(s, n);
      if k <= n {
        assert PinHolds(s, k);
      }
    }
  }

  lemma EventKeepsFits(s: State, s': State, row: Event)
    requires Inv(s) && s'.catalog == s.catalog
    requires s'.e.events == s.e.events + [row] && row.at == s.next.now
    requires s'.e.phaseEvents == s.e.phaseEvents && s'.e.signoffs == s.e.signoffs
    requires forall k: nat | k <= |Changes(s.e.events)| :: k <= |Changes(s'.e.events)| && PinAt(s'.e, k) == PinAt(s.e, k)
    ensures forall i | 0 <= i < |s.e.phaseEvents| :: PhaseFits(s', i)
    ensures forall i | 0 <= i < |s.e.signoffs| :: SignoffFits(s', i)
  {
    ChangesGrow(s.e.events, row);
    forall i | 0 <= i < |s.e.phaseEvents|
      ensures PhaseFits(s', i)
    {
      assert PhaseFits(s, i);
      var k: nat :| PhaseOk(s, i, k);
      assert PhaseOk(s', i, k);
    }
    forall i | 0 <= i < |s.e.signoffs|
      ensures SignoffFits(s', i)
    {
      assert SignoffFits(s, i);
      var k: nat :| SignoffOk(s, i, k);
      assert SignoffOk(s', i, k);
    }
  }

  lemma EventKeeps(s: State, actor: int, coordinator: bool, kind: EventKind, reason: string, to: Option<int>,
                   elsewhere: set<int>)
    requires Inv(s) && RecordEvent(s, actor, coordinator, kind, reason, to, elsewhere).Done?
    ensures Inv(RecordEvent(s, actor, coordinator, kind, reason, to, elsewhere).value)
  {
    var s' := RecordEvent(s, actor, coordinator, kind, reason, to, elsewhere).value;
    var row := Last(s'.e.events);
    assert PinHolds(s, |Changes(s.e.events)|);
    EventKeepsPins(s, s', row);
    EventKeepsFits(s, s', row);
    forall i | 0 <= i < |s'.e.events|
      ensures s'.e.events[i].kind.Reinstate? <==> !StatusOf(s'.e.events[..i]).Active?
    {
      assert s'.e.events[..i] == s.e.events[..i];
      assert s.e.events[..|s.e.events|] == s.e.events;
    }
  }

  /** Recording a phase event or a signoff moves no pin and unsettles no row. */
  lemma PinsStay(s: State, s': State)
    requires Inv(s) && s'.catalog == s.catalog && s'.e.events == s.e.events && s'.e.pin == s.e.pin
    requires s.e.phaseEvents <= s'.e.phaseEvents && s.e.signoffs <= s'.e.signoffs
    ensures PinsHold(s')
    ensures forall i | 0 <= i < |s.e.phaseEvents| :: PhaseFits(s', i)
    ensures forall i | 0 <= i < |s.e.signoffs| :: SignoffFits(s', i)
  {
    assert forall k: nat | k <= |Changes(s.e.events)| :: PinAt(s'.e, k) == PinAt(s.e, k);
    forall k | 0 <= k <= |Changes(s.e.events)|
      ensures PinHolds(s', k)
    {
      assert PinHolds(s, k);
    }
    forall k | 0 <= k < |Changes(s.e.events)|
      ensures ChangeHolds(s'.e, k)
    {
      assert ChangeHolds(s.e, k);
    }
    forall i | 0 <= i < |s.e.phaseEvents|
      ensures PhaseFits(s', i)
    {
      assert PhaseFits(s, i);
      var k: nat :| PhaseOk(s, i, k);
      assert s'.e.phaseEvents[..i] == s.e.phaseEvents[..i];
      assert PhaseOk(s', i, k);
    }
    forall i | 0 <= i < |s.e.signoffs|
      ensures SignoffFits(s', i)
    {
      assert SignoffFits(s, i);
      var k: nat :| SignoffOk(s, i, k);
      assert SignoffOk(s', i, k);
    }
  }

  // A recorded phase event.

  lemma PhaseIsLegal(s: State, actor: int, coordinator: bool, kind: PhaseKind, target: Option<int>,
                     effectiveAt: Option<int>, reason: string)
    requires Inv(s) && RecordPhase(s, actor, coordinator, kind, target, effectiveAt, reason).Done?
    ensures var row := Last(RecordPhase(s, actor, coordinator, kind, target, effectiveAt, reason).value.e.phaseEvents);
      && s.e.pin in s.catalog
      && Legal(s.catalog[s.e.pin], Walk(s.e.phaseEvents, EpochOf(s.e.events)), row)
  {
    QueriesAreTheFold(s.e);
    CurrentEpoch(s);
    var n, k := |s.e.phaseEvents|, |Changes(s.e.events)|;
    WalkStaysInside(s, n, k, EpochOf(s.e.events));
    assert s.e.phaseEvents[..n] == s.e.phaseEvents;
    assert PinAt(s.e, k) == s.e.pin;
  }

  /** The row a call appends: timely, in effective order, legal from here. */
  ghost predicate PhaseRow(s: State, row: PhaseEvent) {
    var k := |Changes(s.e.events)|;
    && row.id == s.next.phase && row.effective <= row.recorded == s.next.now
    && (forall x <- s.e.phaseEvents :: x.effective <= row.effective)
    && EpochIs(Changes(s.e.events), k, row.epoch)
    && Within(Changes(s.e.events), k, row.effective, row.recorded)
    && s.e.pin in s.catalog
    && Legal(s.catalog[s.e.pin], Walk(s.e.phaseEvents, row.epoch), row)
  }

  lemma PhaseRowRecorded(s: State, actor: int, coordinator: bool, kind: PhaseKind, target: Option<int>,
                         effectiveAt: Option<int>, reason: string)
    requires Inv(s) && RecordPhase(s, actor, coordinator, kind, target, effectiveAt, reason).Done?
    ensures PhaseRow(s, Last(RecordPhase(s, actor, coordinator, kind, target, effectiveAt, reason).value.e.phaseEvents))
  {
    PhaseIsLegal(s, actor, coordinator, kind, target, effectiveAt, reason);
    LatestBounds(s.e.phaseEvents);
    CurrentEpoch(s);
    LatestIsLast(s.e.events);
  }

  function WithPhase(s: State, row: PhaseEvent): State {
    s.(next := s.next.(phase := s.next.phase + 1), e := s.e.(phaseEvents := s.e.phaseEvents + [row]))
  }

  lemma PhaseRowFits(s: State, row: PhaseEvent)
    requires Inv(s) && PhaseRow(s, row)
    ensures PhaseFits(WithPhase(s, row), |s.e.phaseEvents|)
  {
    var s' := WithPhase(s, row);
    var rows, k := s.e.phaseEvents, |Changes(s.e.events)|;
    assert s'.e.phaseEvents[..|rows|] == rows;
    assert PinAt(s'.e, k) == s.e.pin;
    assert PhaseOk(s', |rows|, k);
  }

  lemma PhaseRowAscends(s: State, row: PhaseEvent)
    requires Inv(s) && PhaseRow(s, row)
    ensures RowsAscend(s.e.phaseEvents + [row])
  {
    var rows := s.e.phaseEvents;
    forall i | 0 <= i < |rows|
      ensures rows[i].id < row.id && rows[i].effective <= row.effective
    {
      assert rows[i] in rows;
    }
  }

  lemma PhaseRowKeeps(s: State, row: PhaseEvent)
    requires Inv(s) && PhaseRow(s, row)
    ensures Inv(WithPhase(s, row))
  {
    var s' := WithPhase(s, row);
    PinsStay(s, s');
    PhaseRowFits(s, row);
    PhaseRowAscends(s, row);
    assert PhasesHold(s');
  }

  lemma PhaseKeeps(s: State, actor: int, coordinator: bool, kind: PhaseKind, target: Option<int>,
                   effectiveAt: Option<int>, reason: string)
    requires Inv(s) && RecordPhase(s, actor, coordinator, kind, target, effectiveAt, reason).Done?
    ensures Inv(RecordPhase(s, actor, coordinator, kind, target, effectiveAt, reason).value)
  {
    PhaseRowRecorded(s, actor, coordinator, kind, target, effectiveAt, reason);
    PhaseRowKeeps(s, Last(RecordPhase(s, actor, coordinator, kind, target, effectiveAt, reason).value.e.phaseEvents));
  }

  // A recorded signoff.

  /** The row a call appends: signed now, of the pinned version, explained when
      it overrides. */
  ghost predicate SignoffRow(s: State, row: Signoff) {
    && row.id == s.next.signoff && row.at == s.next.now && row.signerName != ""
    && HasTask(s.catalog, s.e.pin, row.task)
    && (if SignedBefore(s.e.signoffs, row.task) then !Blank(row.reason) else !row.kind.Revoked?)
  }

  function WithSignoff(s: State, row: Signoff): State {
    s.(next := s.next.(signoff := s.next.signoff + 1), e := s.e.(signoffs := s.e.signoffs + [row]))
  }

  lemma SignoffRowRecorded(s: State, actor: int, name: string, coordinator: bool, author: bool, reviewer: bool,
                           task: int, kind: SignoffKind, reason: string) returns (row: Signoff)
    requires name != "" && RecordSignoff(s, actor, name, coordinator, author, reviewer, task, kind, reason).Done?
    ensures SignoffRow(s, row)
    ensures RecordSignoff(s, actor, name, coordinator, author, reviewer, task, kind, reason).value == WithSignoff(s, row)
  {
    TrimIdempotent(reason);
    row := Signoff(s.next.signoff, task, kind, Trim(reason), actor, name, s.next.now);
  }

  lemma OverridesStay(rows: seq<Signoff>, row: Signoff)
    requires forall i | 0 <= i < |rows| :: Overrides(rows, i)
    requires if SignedBefore(rows, row.task) then !Blank(row.reason) else !row.kind.Revoked?
    ensures forall i | 0 <= i <= |rows| :: Overrides(rows + [row], i)
  {
    var more, n := rows + [row], |rows|;
    forall i | 0 <= i <= n
      ensures Overrides(more, i)
    {
      assert more[..i] == rows[..i];
      if i < n {
        assert Overrides(rows, i);
      } else {
        assert rows[..n] == rows;
      }
    }
  }

  lemma SignoffRowFits(s: State, row: Signoff)
    requires Inv(s) && SignoffRow(s, row)
    ensures SignoffFits(WithSignoff(s, row), |s.e.signoffs|)
  {
    var s', k := WithSignoff(s, row), |Changes(s.e.events)|;
    CurrentEpoch(s);
    assert PinAt(s'.e, k) == s.e.pin;
    assert SignoffOk(s', |s.e.signoffs|, k);
  }

  lemma SignoffRowKeeps(s: State, row: Signoff)
    requires Inv(s) && SignoffRow(s, row)
    ensures Inv(WithSignoff(s, row))
  {
    var s' := WithSignoff(s, row);
    PinsStay(s, s');
    OverridesStay(s.e.signoffs, row);
    SignoffRowFits(s, row);
    assert SignoffsHold(s');
  }

  lemma SignoffKeeps(s: State, actor: int, name: string, coordinator: bool, author: bool, reviewer: bool,
                     task: int, kind: SignoffKind, reason: string)
    requires Inv(s) && name != ""
    requires RecordSignoff(s, actor, name, coordinator, author, reviewer, task, kind, reason).Done?
    ensures Inv(RecordSignoff(s, actor, name, coordinator, author, reviewer, task, kind, reason).value)
  {
    var row := SignoffRowRecorded(s, actor, name, coordinator, author, reviewer, task, kind, reason);
    SignoffRowKeeps(s, row);
  }

  lemma StepKeeps(s: State, step: Step)
    requires Inv(s) && Named(step)
    ensures Inv(After(s, step))
  {
    WaitKeeps(s, step.gap);
    var w := Wait(s, step.gap);
    if Perform(w, step.op).Done? {
      match step.op
      case Configure(catalog) => SameStreams(w, w.(catalog := catalog));
      case OpEvent(actor, coordinator, kind, reason, version, elsewhere) =>
        EventKeeps(w, actor, coordinator, kind, reason, version, elsewhere);
      case OpPhase(actor, coordinator, kind, phase, effectiveAt, reason) =>
        PhaseKeeps(w, actor, coordinator, kind, phase, effectiveAt, reason);
      case OpSignoff(actor, name, coordinator, author, reviewer, task, kind, reason) =>
        SignoffKeeps(w, actor, name, coordinator, author, reviewer, task, kind, reason);
    }
  }

  lemma {:induction false} RunKeeps(s: State, steps: seq<Step>, s': State)
    requires Inv(s) && Run(s, steps, s')
    ensures Inv(s')
    decreases |steps|
  {
    if steps != [] {
      StepKeeps(s, steps[0]);
      RunKeeps(After(s, steps[0]), steps[1..], s');
    }
  }

  lemma ReachableHolds(s: State)
    requires Reachable(s)
    ensures Inv(s)
  {
    var s0, steps :| IsNew(s0) && Run(s0, steps, s);
    RunKeeps(s0, steps, s);
  }
}
