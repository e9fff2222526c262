/** Training sessions: what creating, editing and closing one may do to the
    intervals of a trainee's training, across every enrollment of theirs.

    Timezone rules are a parameter. Capability answers, the phase check, the
    trainer check and whether a session is documented are read by the call and
    are parameters too. */
module Sessions {
  import opened Basics
  import Life = Lifecycle

  /** The timezone database: which dates and names are real, and the instant a
      local time means, when it means one. */
  datatype Zones = Zones(date: string -> bool, known: string -> bool, local: (string, string) -> Option<int>)

  const NO_END: int := 0x7FFF_FFFF_FFFF_FFFF

  /** Every instant of the calendar is well below the largest stored integer. */
  ghost predicate InRange(z: Zones) {
    forall zone, text :: z.local(zone, text).Some? ==> z.local(zone, text).value < NO_END
  }

  datatype Disposition = Completed | Interrupted | Cancelled

  datatype Session = Session(
    enrollment: int, timezone: string, start: int, end: Option<int>, disposition: Option<Disposition>)

  /** Who each enrollment trains, which never changes, and the sessions by id. */
  datatype State = State(trainees: map<int, int>, sessions: map<int, Session>)

  datatype Refusal =
    | CapabilityRequired | NoSuchEnrollment | EnrollmentInactive | NoSuchSession | SessionClosed
    | InvalidBusinessDate | UnknownTimezone | InvalidLocalTime | EndBeforeStart
    | EndRequired | EndNotAllowed | DispositionRequired | InvalidDisposition
    | Overlap | NoSuchPhase | TrainersRefused | SessionDocumented

  // ---------------------------------------------------------------- resolving

  /** A blank end is no end. */
  function GivenEnd(text: Option<string>): Option<string> {
    if text.Some? && Trim(text.value) != "" then Some(Trim(text.value)) else None
  }

  datatype Times = Times(timezone: string, start: int, end: Option<int>)

  function ResolveEnd(z: Zones, timezone: string, text: string, start: int): Outcome<int, Refusal> {
    if !z.known(timezone) then Refused(UnknownTimezone)
    else
      var instant := z.local(timezone, text);
      if instant.None? then Refused(InvalidLocalTime)
      else if instant.value < start then Refused(EndBeforeStart)
      else Done(instant.value)
  }

  function Resolve(z: Zones, date: string, timezone: string, start: string, end: Option<string>): Outcome<Times, Refusal> {
    var zone := Trim(timezone);
    var from := z.local(zone, Trim(start));
    if !z.date(Trim(date)) then Refused(InvalidBusinessDate)
    else if !z.known(zone) then Refused(UnknownTimezone)
    else if from.None? then Refused(InvalidLocalTime)
    else match GivenEnd(end)
      case None => Done(Times(zone, from.value, None))
      case Some(text) =>
        match ResolveEnd(z, zone, text, from.value)
        case Refused(refusal) => Refused(refusal)
        case Done(instant) => Done(Times(zone, from.value, Some(instant)))
  }

  // ------------------------------------------------------------------ overlap

  function EndOf(end: Option<int>): int {
    if end.Some? then end.value else NO_END
  }

  /** A cancelled session never happened and holds no interval. */
  predicate Holds(s: Session) {
    s.disposition != Some(Cancelled)
  }

  /** Interval ends are exclusive: touching is no overlap. */
  predicate Clash(s: Session, start: int, end: Option<int>) {
    s.start < EndOf(end) && start < EndOf(s.end)
  }

  predicate SameTrainee(st: State, a: int, b: int) {
    a in st.trainees && b in st.trainees && st.trainees[a] == st.trainees[b]
  }

  /** Session `id` stands in the way of an interval of an enrollment's trainee. */
  predicate Blocks(st: State, id: int, enrollment: int, start: int, end: Option<int>, exclude: int)
    requires id in st.sessions
  {
    && id != exclude
    && SameTrainee(st, st.sessions[id].enrollment, enrollment)
    && Holds(st.sessions[id])
    && Clash(st.sessions[id], start, end)
  }

  predicate Overlaps(st: State, enrollment: int, start: int, end: Option<int>, exclude: int) {
    exists id <- st.sessions :: Blocks(st, id, enrollment, start, end, exclude)
  }

  // ----------------------------------------------------------------- services

  datatype Entered = Entered(
    date: string, timezone: string, start: string, end: Option<string>, disposition: Option<Disposition>)

  function EntryRefusal(input: Entered): Option<Refusal> {
    var end := GivenEnd(input.end);
    if input.disposition.None? then if end.Some? then Some(DispositionRequired) else None
    else if input.disposition.value.Cancelled? then Some(InvalidDisposition)
    else if end.None? then Some(EndRequired)
    else None
  }

  /** `id` is the row the table hands out; 0 is no session's id. */
  function Create(st: State, z: Zones, id: int, enrollment: int, may: bool, input: Entered,
                  status: Life.Status, phaseFits: bool, trainersFit: bool): Outcome<State, Refusal> {
    var entry := EntryRefusal(input);
    var times := Resolve(z, input.date, input.timezone, input.start, input.end);
    if !may then Refused(CapabilityRequired)
    else if entry.Some? then Refused(entry.value)
    else if times.Refused? then Refused(times.refusal)
    else if enrollment !in st.trainees then Refused(NoSuchEnrollment)
    else if !status.Active? then Refused(EnrollmentInactive)
    else if !phaseFits then Refused(NoSuchPhase)
    else if !trainersFit then Refused(TrainersRefused)
    else if Overlaps(st, enrollment, times.value.start, times.value.end, 0) then Refused(Overlap)
    else
      var row := Session(enrollment, times.value.timezone, times.value.start, times.value.end, input.disposition);
      Done(st.(sessions := st.sessions[id := row]))
  }

  function UpdateOpen(st: State, z: Zones, id: int, may: bool, date: string, timezone: string, start: string,
                      phaseFits: bool): Outcome<State, Refusal> {
    var times := Resolve(z, date, timezone, start, None);
    if !may then Refused(CapabilityRequired)
    else if times.Refused? then Refused(times.refusal)
    else if id !in st.sessions then Refused(NoSuchSession)
    else if st.sessions[id].disposition.Some? then Refused(SessionClosed)
    else if !phaseFits then Refused(NoSuchPhase)
    else if Overlaps(st, st.sessions[id].enrollment, times.value.start, None, id) then Refused(Overlap)
    else
      var row := st.sessions[id].(timezone := times.value.timezone, start := times.value.start);
      Done(st.(sessions := st.sessions[id := row]))
  }

  /** Closing checks no overlap: an end can only shorten what was open. */
  function Close(st: State, z: Zones, id: int, may: bool, disposition: Disposition, end: Option<string>,
                 documented: bool): Outcome<State, Refusal> {
    var given := GivenEnd(end);
    if !may then Refused(CapabilityRequired)
    else if id !in st.sessions then Refused(NoSuchSession)
    else if st.sessions[id].disposition.Some? then Refused(SessionClosed)
    else if disposition.Cancelled? then
      if documented then Refused(SessionDocumented)
      else if given.Some? then Refused(EndNotAllowed)
      else Done(st.(sessions := st.sessions[id := st.sessions[id].(end := None, disposition := Some(Cancelled))]))
    else if given.None? then Refused(EndRequired)
    else match ResolveEnd(z, st.sessions[id].timezone, given.value, st.sessions[id].start)
      case Refused(refusal) => Refused(refusal)
      case Done(instant) =>
        Done(st.(sessions := st.sessions[id := st.sessions[id].(end := Some(instant), disposition := Some(disposition))]))
  }

  // --------------------------------------------------------------------- runs

  datatype Op =
    | OpCreate(id: int, enrollment: int, may: bool, input: Entered, status: Life.Status, phaseFits: bool, trainersFit: bool)
    | OpUpdate(id: int, may: bool, date: string, timezone: string, start: string, phaseFits: bool)
    | OpClose(id: int, may: bool, disposition: Disposition, end: Option<string>, documented: bool)
    | OpEnroll(enrollment: int, trainee: int)

  function Perform(st: State, z: Zones, op: Op): Outcome<State, Refusal> {
    match op
    case OpCreate(id, enrollment, may, input, status, phaseFits, trainersFit) =>
      Create(st, z, id, enrollment, may, input, status, phaseFits, trainersFit)
    case OpUpdate(id, may, date, timezone, start, phaseFits) =>
      UpdateOpen(st, z, id, may, date, timezone, start, phaseFits)
    case OpClose(id, may, disposition, end, documented) => Close(st, z, id, may, disposition, end, documented)
    case OpEnroll(enrollment, trainee) => Done(st.(trainees := st.trainees[enrollment := trainee]))
  }

  function After(st: State, z: Zones, op: Op): State {
    var o := Perform(st, z, op);
    if o.Done? then o.value else st
  }

  /** Row ids are new and positive, and an enrollment keeps its trainee. */
  predicate Possible(st: State, op: Op) {
    && (op.OpCreate? ==> op.id >= 1 && op.id !in st.sessions)
    && (op.OpEnroll? ==> op.enrollment !in st.trainees)
  }

  ghost predicate Run(st: State, z: Zones, ops: seq<Op>, st': State)
    decreases |ops|
  {
    if ops == [] then st == st'
    else Possible(st, ops[0]) && Run(After(st, z, ops[0]), z, ops[1..], st')
  }

  ghost predicate Reachable(st: State, z: Zones) {
    exists ops :: Run(State(map[], map[]), z, ops, st)
  }

  // ------------------------------------------------------------ main results

  ghost predicate Apart(st: State, a: int, b: int)
    requires a in st.sessions && b in st.sessions
  {
    Holds(st.sessions[a]) && Holds(st.sessions[b])
    && SameTrainee(st, st.sessions[a].enrollment, st.sessions[b].enrollment)
    ==> !Clash(st.sessions[a], st.sessions[b].start, st.sessions[b].end)
  }

  /** A session's end never precedes its start, closed ones but the cancelled
      have one, and no two active sessions of one trainee clash. */
  ghost predicate Inv(st: State) {
    && 0 !in st.sessions
    && (forall id <- st.sessions :: Sound(st, st.sessions[id]))
    && (forall a, b | a in st.sessions && b in st.sessions && a != b :: Apart(st, a, b))
  }

  ghost predicate Sound(st: State, s: Session) {
    && s.enrollment in st.trainees
    && s.start < NO_END
    && (s.end.Some? ==> s.start <= s.end.value < NO_END)
    && (s.end.Some? <==> s.disposition == Some(Completed) || s.disposition == Some(Interrupted))
  }

  /** Replacing or adding one row keeps the rest apart. */
  lemma RowKeeps(st: State, id: int, row: Session)
    requires Inv(st) && id != 0 && Sound(st, row)
    requires Holds(row) ==> forall other <- st.sessions :: !Blocks(st, other, row.enrollment, row.start, row.end, id)
    ensures Inv(st.(sessions := st.sessions[id := row]))
  {
    var st' := st.(sessions := st.sessions[id := row]);
    forall a, b | a in st'.sessions && b in st'.sessions && a != b
      ensures Apart(st', a, b)
    {
      if a != id && b != id {
        assert Apart(st, a, b);
      }
    }
  }

  lemma CloseKeeps(st: State, z: Zones, id: int, may: bool, disposition: Disposition, end: Option<string>, documented: bool)
    requires Inv(st) && InRange(z) && Close(st, z, id, may, disposition, end, documented).Done?
    ensures Inv(Close(st, z, id, may, disposition, end, documented).value)
  {
    var row := Close(st, z, id, may, disposition, end, documented).value.sessions[id];
    forall other | other in st.sessions && Holds(row)
      ensures !Blocks(st, other, row.enrollment, row.start, row.end, id)
    {
      assert other != id ==> Apart(st, other, id);
    }
    RowKeeps(st, id, row);
  }

  lemma EnrollKeeps(st: State, enrollment: int, trainee: int)
    requires Inv(st) && enrollment !in st.trainees
    ensures Inv(st.(trainees := st.trainees[enrollment := trainee]))
  {
    var st' := st.(trainees := st.trainees[enrollment := trainee]);
    forall a, b | a in st'.sessions && b in st'.sessions && a != b
      ensures Apart(st', a, b)
    {
      assert Apart(st, a, b) && Sound(st, st.sessions[a]) && Sound(st, st.sessions[b]);
    }
  }

  lemma StepKeeps(st: State, z: Zones, op: Op)
    requires Inv(st) && InRange(z) && Possible(st, op)
    ensures Inv(After(st, z, op))
  {
    if Perform(st, z, op).Done? {
      match op
      case OpCreate(id, _, _, _, _, _, _) => RowKeeps(st, id, After(st, z, op).sessions[id]);
      case OpUpdate(id, _, _, _, _, _) =>
        assert Sound(st, st.sessions[id]);
        RowKeeps(st, id, After(st, z, op).sessions[id]);
      case OpClose(id, may, disposition, end, documented) => CloseKeeps(st, z, id, may, disposition, end, documented);
      case OpEnroll(enrollment, trainee) => EnrollKeeps(st, enrollment, trainee);
    }
  }

  lemma {:induction false} RunKeeps(st: State, z: Zones, ops: seq<Op>, st': State)
    requires Inv(st) && InRange(z) && Run(st, z, ops, st')
    ensures Inv(st')
    decreases |ops|
  {
    if ops != [] {
      StepKeeps(st, z, ops[0]);
      RunKeeps(After(st, z, ops[0]), z, ops[1..], st');
    }
  }

  /** A session is under way at an instant: from its start, up to its end when it
      has one. */
  predicate UnderWay(s: Session, t: int) {
    Holds(s) && s.start <= t && (s.end.Some? ==> t < s.end.value)
  }

  /** No double-booked trainee: after any sequence of creations, edits, closes and
      cancellations over all of a trainee's enrollments, no instant belongs to
      two of their sessions. */
  lemma NobodyIsDoubleBooked(st: State, z: Zones, a: int, b: int, t: int)
    requires Reachable(st, z) && InRange(z)
    requires a in st.sessions && b in st.sessions
    requires SameTrainee(st, st.sessions[a].enrollment, st.sessions[b].enrollment)
    requires UnderWay(st.sessions[a], t) && UnderWay(st.sessions[b], t)
    ensures a == b
  {
    var ops :| Run(State(map[], map[]), z, ops, st);
    RunKeeps(State(map[], map[]), z, ops, st);
    assert Sound(st, st.sessions[a]) && Sound(st, st.sessions[b]);
    assert a != b ==> Apart(st, a, b);
  }

  predicate Covers(start: int, end: Option<int>, t: int) {
    start <= t < EndOf(end)
  }

  /** The overlap test is exact: two intervals clash if and only if they share an
      instant, so one may begin at the very instant another ends; an interval of
      no length, stored or new, clashes if and only if it falls strictly inside the
      other, and two of no length never do. */
  lemma ClashIsExact(s: Session, start: int, end: Option<int>)
    requires s.start <= EndOf(s.end) && start <= EndOf(end)
    ensures s.start < EndOf(s.end) && start < EndOf(end) ==>
      (Clash(s, start, end) <==> exists t :: Covers(s.start, s.end, t) && Covers(start, end, t))
    ensures start == EndOf(end) ==> (Clash(s, start, end) <==> s.start < start < EndOf(s.end))
    ensures s.start == EndOf(s.end) ==> (Clash(s, start, end) <==> start < s.start < EndOf(end))
    ensures s.start == EndOf(s.end) && start == EndOf(end) ==> !Clash(s, start, end)
  {
    var t := Max(s.start, start);
    if Clash(s, start, end) && s.start < EndOf(s.end) && start < EndOf(end) {
      assert Covers(s.start, s.end, t) && Covers(start, end, t);
    }
  }

  /** An open session leaves room only before its start. */
  lemma OpenSessionsBlockTheFuture(st: State, z: Zones, id: int, enrollment: int, may: bool, input: Entered,
                                   status: Life.Status, phaseFits: bool, trainersFit: bool, other: int)
    requires Reachable(st, z) && InRange(z) && Possible(st, OpCreate(id, enrollment, may, input, status, phaseFits, trainersFit))
    requires other in st.sessions && st.sessions[other].disposition.None?
    requires SameTrainee(st, st.sessions[other].enrollment, enrollment)
    requires Create(st, z, id, enrollment, may, input, status, phaseFits, trainersFit).Done?
    ensures var row := Create(st, z, id, enrollment, may, input, status, phaseFits, trainersFit).value.sessions[id];
      row.end.Some? && row.end.value <= st.sessions[other].start
  {
    var ops :| Run(State(map[], map[]), z, ops, st);
    RunKeeps(State(map[], map[]), z, ops, st);
    assert Sound(st, st.sessions[other]);
    var row := Create(st, z, id, enrollment, may, input, status, phaseFits, trainersFit).value.sessions[id];
    assert !Blocks(st, other, enrollment, row.start, row.end, 0);
  }

  // ------------------------------------------------ accepted exactly, and stored

  /** The local time this text gives in this zone. */
  predicate TimeIs(z: Zones, zone: string, text: string, instant: int) {
    z.known(zone) && z.local(zone, Trim(text)) == Some(instant)
  }

  /** This row is what was entered: the zone, the instant the start names in it, and
      either no end and no outcome or both, the end no earlier than the start. */
  predicate IsEntered(z: Zones, enrollment: int, input: Entered, row: Session) {
    && row.enrollment == enrollment && row.timezone == Trim(input.timezone)
    && z.date(Trim(input.date)) && TimeIs(z, row.timezone, input.start, row.start)
    && row.disposition == input.disposition
    && (if input.end.None? || Blank(input.end.value) then row.end.None? && row.disposition.None?
        else
          && row.end.Some? && TimeIs(z, row.timezone, input.end.value, row.end.value) && row.start <= row.end.value
          && (row.disposition == Some(Completed) || row.disposition == Some(Interrupted)))
  }

  /** No session of the trainee's stands in this row's way. */
  ghost predicate Clear(st: State, row: Session, exclude: int) {
    forall id <- st.sessions :: !Blocks(st, id, row.enrollment, row.start, row.end, exclude)
  }

  ghost predicate CanCreate(st: State, z: Zones, enrollment: int, may: bool, input: Entered, status: Life.Status,
                            phaseFits: bool, trainersFit: bool, row: Session) {
    && may && enrollment in st.trainees && status == Life.Active && phaseFits && trainersFit
    && IsEntered(z, enrollment, input, row) && Clear(st, row, 0)
  }

  lemma TrimAgain(text: string)
    ensures Trim(Trim(text)) == Trim(text) && (Blank(text) <==> Trim(text) == "")
  {
    TrimIdempotent(text);
  }

  /** A session is created exactly when there is a row that is what was entered, on an
      active enrollment, with nothing in its way; then that row is stored under the
      new id and nothing else changes. */
  lemma CreateAcceptedExactly(st: State, z: Zones, id: int, enrollment: int, may: bool, input: Entered,
                              status: Life.Status, phaseFits: bool, trainersFit: bool)
    ensures var o := Create(st, z, id, enrollment, may, input, status, phaseFits, trainersFit);
      && (o.Done? ==>
            && id in o.value.sessions && o.value == st.(sessions := st.sessions[id := o.value.sessions[id]])
            && CanCreate(st, z, enrollment, may, input, status, phaseFits, trainersFit, o.value.sessions[id]))
      && (!o.Done? ==>
            forall row :: !CanCreate(st, z, enrollment, may, input, status, phaseFits, trainersFit, row))
  {
    if input.end.Some? {
      TrimAgain(input.end.value);
    }
  }

  ghost predicate CanUpdate(st: State, z: Zones, id: int, may: bool, date: string, timezone: string, start: string,
                            phaseFits: bool, row: Session) {
    && may && id in st.sessions && st.sessions[id].disposition.None? && phaseFits
    && z.date(Trim(date)) && TimeIs(z, Trim(timezone), start, row.start)
    && row == st.sessions[id].(timezone := Trim(timezone), start := row.start)
    && Clear(st, row.(end := None), id)
  }

  /** An edit of an open session stores the zone and the start entered and leaves all
      else, exactly when they are real and leave it clear of every other session. */
  lemma UpdateAcceptedExactly(st: State, z: Zones, id: int, may: bool, date: string, timezone: string, start: string,
                              phaseFits: bool)
    ensures var o := UpdateOpen(st, z, id, may, date, timezone, start, phaseFits);
      && (o.Done? ==>
            && id in o.value.sessions && o.value == st.(sessions := st.sessions[id := o.value.sessions[id]])
            && CanUpdate(st, z, id, may, date, timezone, start, phaseFits, o.value.sessions[id]))
      && (!o.Done? ==> forall row :: !CanUpdate(st, z, id, may, date, timezone, start, phaseFits, row))
  {
  }

  predicate CanClose(st: State, z: Zones, id: int, may: bool, disposition: Disposition, end: Option<string>,
                     documented: bool, row: Session) {
    && may && id in st.sessions && st.sessions[id].disposition.None?
    && row == st.sessions[id].(end := row.end, disposition := Some(disposition))
    && if disposition == Cancelled then !documented && (end.None? || Blank(end.value)) && row.end.None?
       else
         && end.Some? && !Blank(end.value) && row.end.Some?
         && TimeIs(z, row.timezone, end.value, row.end.value) && row.start <= row.end.value
  }

  /** Closing stores the outcome asked for, with the end entered, no earlier than the
      start, or for a cancellation with none, exactly when that is what was entered
      for an open session; one that is documented is not cancelled. */
  lemma CloseAcceptedExactly(st: State, z: Zones, id: int, may: bool, disposition: Disposition, end: Option<string>,
                             documented: bool)
    ensures var o := Close(st, z, id, may, disposition, end, documented);
      && (o.Done? ==>
            && id in o.value.sessions && o.value == st.(sessions := st.sessions[id := o.value.sessions[id]])
            && CanClose(st, z, id, may, disposition, end, documented, o.value.sessions[id]))
      && (!o.Done? ==> forall row :: !CanClose(st, z, id, may, disposition, end, documented, row))
  {
    if end.Some? {
      TrimAgain(end.value);
    }
  }
}
