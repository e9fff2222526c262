/** An enrollment's append-only histories: lifecycle events that may repoint the
    pinned program version, phase events that walk the pinned version's graph,
    and task signoffs. Status, current phase and pause are read from the streams
    and never stored.

    Each call is one function from the committed state to its answer. Time and
    row ids only move forward: a step says how much time has passed and how many
    rows other enrollments have taken since. Capabilities, and the versions the
    trainee's other enrollments pin, are read outside and are parameters. */
module Lifecycle {
  import opened Basics

  // ---------------------------------------------------------- configuration

  datatype EdgeKind = AdvanceEdge | RemediationEdge | SkipEdge | RestartEdge

  datatype Task = Task(category: string, competency: string, prompt: string)

  datatype ProgramVersion = ProgramVersion(
    program: int, number: int, labelText: string, published: bool,
    phases: map<int, string>, edges: map<(int, int), EdgeKind>, tasks: map<int, Task>)

  type Catalog = map<int, ProgramVersion>

  ghost predicate WellFormedVersion(v: ProgramVersion) {
    && v.number >= 1
    && (forall p <- v.phases :: v.phases[p] != "")
    && (forall t <- v.tasks :: v.tasks[t].competency != "" && v.tasks[t].prompt != "")
  }

  /** A program numbers its versions apart, and a phase or task belongs to one
      version. */
  ghost predicate WellFormed(c: Catalog) {
    && (forall v <- c :: WellFormedVersion(c[v]))
    && (forall v, w | v in c && w in c && v != w :: Apart(c[v], c[w]))
  }

  ghost predicate Apart(v: ProgramVersion, w: ProgramVersion) {
    && (v.program == w.program ==> v.number != w.number)
    && v.phases.Keys !! w.phases.Keys
    && v.tasks.Keys !! w.tasks.Keys
  }

  /** Publishing freezes a version. */
  ghost predicate KeepsPublished(c: Catalog, c': Catalog) {
    forall v <- c :: c[v].published ==> v in c' && c'[v] == c[v]
  }

  function ProgramOf(c: Catalog, v: int): Option<int> {
    if v in c then Some(c[v].program) else None
  }

  // ---------------------------------------------------------------- streams

  datatype EventKind = VersionChange | Withdraw | Complete | Reinstate

  datatype Event = Event(id: int, kind: EventKind, at: int, actor: int, reason: string, from: Option<int>, to: Option<int>)

  datatype PhaseKind = Advance | Return | Restart | Pause | Resume | CompletePhase

  datatype PhaseEvent = PhaseEvent(
    id: int, kind: PhaseKind, from: Option<int>, to: Option<int>,
    effective: int, recorded: int, actor: int, reason: string, epoch: Option<int>)

  datatype SignoffKind = Observed | Demonstrated | Revoked

  datatype Signoff = Signoff(
    id: int, task: int, kind: SignoffKind, reason: string, signer: int, signerName: string, at: int)

  datatype Enrollment = Enrollment(
    id: nat, trainee: int, pin: int,
    events: seq<Event>, phaseEvents: seq<PhaseEvent>, signoffs: seq<Signoff>)

  /** The next id of each table, and the clock. */
  datatype Counters = Counters(event: int, phase: int, signoff: int, now: int)

  datatype State = State(catalog: Catalog, next: Counters, e: Enrollment)

  datatype Refusal =
    | CapabilityRequired | NotActive | AlreadyActive | ReasonRequired
    | NoSuchVersion | NotPublished | SameVersion | DifferentProgram | TargetAlreadyEnrolled
    | NoSuchPhase | TransitionNotAllowed | NoCurrentPhase
    | AlreadyPaused | NotPaused | Paused | OutOfOrder | EffectiveInFuture
    | NoSuchTask | NothingToRevoke
    | PublishedIsFrozen

  // ---------------------------------------------------------------- queries

  function Last<T>(s: seq<T>): T
    requires s != []
  {
    s[|s| - 1]
  }

  datatype Status = Active | Withdrawn | Completed

  /** The newest row that sets the status; rows are kept in id order. */
  function StatusOf(events: seq<Event>): Status {
    if events == [] then Active
    else match Last(events).kind
      case VersionChange => StatusOf(events[..|events| - 1])
      case Withdraw => Withdrawn
      case Complete => Completed
      case Reinstate => Active
  }

  /** The version changes, oldest first. */
  function Changes(events: seq<Event>): seq<Event> {
    if events == [] then []
    else Changes(events[..|events| - 1]) + (if Last(events).kind.VersionChange? then [Last(events)] else [])
  }

  function LatestChange(events: seq<Event>): Option<Event> {
    if events == [] then None
    else if Last(events).kind.VersionChange? then Some(Last(events))
    else LatestChange(events[..|events| - 1])
  }

  /** The pin epoch: the version change that opened it, or none under the
      original pin. */
  function EpochOf(events: seq<Event>): Option<int> {
    var latest := LatestChange(events);
    if latest.Some? then Some(latest.value.id) else None
  }

  predicate IsMove(k: PhaseKind) {
    k.Advance? || k.Return? || k.Restart?
  }

  predicate IsPause(k: PhaseKind) {
    k.Pause? || k.Resume?
  }

  function InEpoch(rows: seq<PhaseEvent>, epoch: Option<int>, moves: bool): seq<PhaseEvent> {
    if rows == [] then []
    else
      InEpoch(rows[..|rows| - 1], epoch, moves)
      + (if Last(rows).epoch == epoch && (if moves then IsMove(Last(rows).kind) else IsPause(Last(rows).kind))
         then [Last(rows)] else [])
  }

  predicate Later(a: PhaseEvent, b: PhaseEvent) {
    a.effective > b.effective || (a.effective == b.effective && a.id > b.id)
  }

  /** The first row in descending order of effective instant, then id. */
  function TopRow(rows: seq<PhaseEvent>): Option<PhaseEvent> {
    if rows == [] then None
    else
      var top := TopRow(rows[..|rows| - 1]);
      if top.Some? && Later(top.value, Last(rows)) then top else Some(Last(rows))
  }

  function CurrentPhase(e: Enrollment): Option<int> {
    var top := TopRow(InEpoch(e.phaseEvents, EpochOf(e.events), true));
    if top.Some? then top.value.to else None
  }

  predicate IsPaused(e: Enrollment) {
    var top := TopRow(InEpoch(e.phaseEvents, EpochOf(e.events), false));
    top.Some? && top.value.kind.Pause?
  }

  function LatestEffective(rows: seq<PhaseEvent>): Option<int> {
    if rows == [] then None
    else
      var earlier := LatestEffective(rows[..|rows| - 1]);
      if earlier.Some? && earlier.value > Last(rows).effective then earlier else Some(Last(rows).effective)
  }

  // --------------------------------------------------------------- services

  function VersionChangeRefusal(s: State, elsewhere: set<int>, to: Option<int>): Option<Refusal> {
    if to.None? then Some(NoSuchVersion)
    else if to.value == s.e.pin then Some(SameVersion)
    else if to.value !in s.catalog then Some(NoSuchVersion)
    else if !s.catalog[to.value].published then Some(NotPublished)
    else if ProgramOf(s.catalog, s.e.pin) != Some(s.catalog[to.value].program) then Some(DifferentProgram)
    else if to.value in elsewhere then Some(TargetAlreadyEnrolled)
    else None
  }

  function RecordEvent(s: State, actor: int, coordinator: bool, kind: EventKind, reason: string, to: Option<int>,
                       elsewhere: set<int>): Outcome<State, Refusal> {
    var text := Trim(reason);
    var status := StatusOf(s.e.events);
    var change := VersionChangeRefusal(s, elsewhere, to);
    if !coordinator then Refused(CapabilityRequired)
    else if !kind.Complete? && text == "" then Refused(ReasonRequired)
    else if kind.Reinstate? && status.Active? then Refused(AlreadyActive)
    else if !kind.Reinstate? && !status.Active? then Refused(NotActive)
    else if kind.VersionChange? && change.Some? then Refused(change.value)
    else
      var row := Event(s.next.event, kind, s.next.now, actor, text,
                       if kind.VersionChange? then Some(s.e.pin) else None,
                       if kind.VersionChange? then to else None);
      var pin := if kind.VersionChange? then to.value else s.e.pin;
      Done(s.(next := s.next.(event := s.next.event + 1), e := s.e.(pin := pin, events := s.e.events + [row])))
  }

  predicate EdgeAllows(kind: PhaseKind, edge: Option<EdgeKind>) {
    match kind
    case Advance => edge == Some(AdvanceEdge) || edge == Some(SkipEdge)
    case Return => edge == Some(RemediationEdge)
    case _ => edge == Some(RestartEdge)
  }

  function Edge(v: ProgramVersion, from: int, to: int): Option<EdgeKind> {
    if (from, to) in v.edges then Some(v.edges[(from, to)]) else None
  }

  predicate HasPhase(c: Catalog, v: int, phase: int) {
    v in c && phase in c[v].phases
  }

  function PhaseRefusal(s: State, kind: PhaseKind, target: Option<int>): Option<Refusal> {
    var current := CurrentPhase(s.e);
    var paused := IsPaused(s.e);
    if IsMove(kind) then
      if paused then Some(Paused)
      else if target.None? || !HasPhase(s.catalog, s.e.pin, target.value) then Some(NoSuchPhase)
      else if current.None? then
        if kind.Advance? then None else Some(NoCurrentPhase)
      else if !EdgeAllows(kind, Edge(s.catalog[s.e.pin], current.value, target.value)) then Some(TransitionNotAllowed)
      else None
    else if current.None? then Some(NoCurrentPhase)
    else if kind.Pause? && paused then Some(AlreadyPaused)
    else if kind.Resume? && !paused then Some(NotPaused)
    else if kind.CompletePhase? && paused then Some(Paused)
    else None
  }

  function RecordPhase(s: State, actor: int, coordinator: bool, kind: PhaseKind, target: Option<int>,
                       effectiveAt: Option<int>, reason: string): Outcome<State, Refusal> {
    var text := Trim(reason);
    var now := s.next.now;
    var effective := if effectiveAt.Some? then effectiveAt.value else now;
    var latest := LatestEffective(s.e.phaseEvents);
    var opening := LatestChange(s.e.events);
    var refusal := PhaseRefusal(s, kind, target);
    if !coordinator then Refused(CapabilityRequired)
    else if (kind.Return? || kind.Restart?) && text == "" then Refused(ReasonRequired)
    else if effective > now then Refused(EffectiveInFuture)
    else if !StatusOf(s.e.events).Active? then Refused(NotActive)
    else if latest.Some? && effective < latest.value then Refused(OutOfOrder)
    else if opening.Some? && effective < opening.value.at then Refused(OutOfOrder)
    else if refusal.Some? then Refused(refusal.value)
    else
      var row := PhaseEvent(s.next.phase, kind, CurrentPhase(s.e), if IsMove(kind) then target else None,
                            effective, now, actor, text, EpochOf(s.e.events));
      Done(s.(next := s.next.(phase := s.next.phase + 1), e := s.e.(phaseEvents := s.e.phaseEvents + [row])))
  }

  predicate HasTask(c: Catalog, v: int, task: int) {
    v in c && task in c[v].tasks
  }

  predicate SignedBefore(signoffs: seq<Signoff>, task: int) {
    exists s <- signoffs :: s.task == task
  }

  /** The pin is read with the insert: the table refuses a task of any
      other version. */
  function RecordSignoff(s: State, actor: int, name: string, coordinator: bool, authorInScope: bool, reviewer: bool,
                         task: int, kind: SignoffKind, reason: string): Outcome<State, Refusal> {
    var text := Trim(reason);
    var prior := SignedBefore(s.e.signoffs, task);
    if !HasTask(s.catalog, s.e.pin, task) then Refused(NoSuchTask)
    else if prior && !reviewer then Refused(CapabilityRequired)
    else if prior && text == "" then Refused(ReasonRequired)
    else if !prior && !coordinator && !authorInScope then Refused(CapabilityRequired)
    else if !prior && kind.Revoked? then Refused(NothingToRevoke)
    else
      var row := Signoff(s.next.signoff, task, kind, text, actor, name, s.next.now);
      Done(s.(next := s.next.(signoff := s.next.signoff + 1), e := s.e.(signoffs := s.e.signoffs + [row])))
  }

  /** A new enrollment pins a published version. */
  ghost predicate IsNew(s: State) {
    && WellFormed(s.catalog)
    && s.e.id >= 1 && s.e.trainee >= 1
    && s.e.pin in s.catalog && s.catalog[s.e.pin].published
    && s.e.events == [] && s.e.phaseEvents == [] && s.e.signoffs == []
  }

  // ------------------------------------------------------------------- runs

  datatype Op =
    | Configure(catalog: Catalog)
    | OpEvent(actor: int, coordinator: bool, eventKind: EventKind, reason: string, version: Option<int>, elsewhere: set<int>)
    | OpPhase(actor: int, coordinator: bool, phaseKind: PhaseKind, phase: Option<int>, effectiveAt: Option<int>, reason: string)
    | OpSignoff(actor: int, name: string, coordinator: bool, authorInScope: bool, reviewer: bool,
                task: int, signoffKind: SignoffKind, reason: string)

  /** What else happened since the last step: time, and rows of other
      enrollments. */
  datatype Gap = Gap(time: nat, events: nat, phases: nat, signoffs: nat)

  datatype Step = Step(gap: Gap, op: Op)

  function Wait(s: State, gap: Gap): State {
    s.(next := Counters(s.next.event + gap.events, s.next.phase + gap.phases,
                        s.next.signoff + gap.signoffs, s.next.now + gap.time))
  }

  ghost function Perform(s: State, op: Op): Outcome<State, Refusal> {
    match op
    case Configure(catalog) =>
      if KeepsPublished(s.catalog, catalog) && WellFormed(catalog) then Done(s.(catalog := catalog))
      else Refused(PublishedIsFrozen)
    case OpEvent(actor, coordinator, kind, reason, version, elsewhere) =>
      RecordEvent(s, actor, coordinator, kind, reason, version, elsewhere)
    case OpPhase(actor, coordinator, kind, phase, effectiveAt, reason) =>
      RecordPhase(s, actor, coordinator, kind, phase, effectiveAt, reason)
    case OpSignoff(actor, name, coordinator, author, reviewer, task, kind, reason) =>
      RecordSignoff(s, actor, name, coordinator, author, reviewer, task, kind, reason)
  }

  ghost function After(s: State, step: Step): State {
    var waited := Wait(s, step.gap);
    var outcome := Perform(waited, step.op);
    if outcome.Done? then outcome.value else waited
  }

  /** A user's stored name is never empty. */
  predicate Named(step: Step) {
    step.op.OpSignoff? ==> step.op.name != ""
  }

  ghost predicate Run(s: State, steps: seq<Step>, s': State)
    decreases |steps|
  {
    if steps == [] then s == s'
    else Named(steps[0]) && Run(After(s, steps[0]), steps[1..], s')
  }

  ghost predicate Reachable(s: State) {
    exists s0, steps :: IsNew(s0) && Run(s0, steps, s)
  }
}
