/** An enrollment's rows as the services change them, one write transaction a
    call. Every method is proved to leave the rows exactly as its function in
    `Lifecycle` says, refusals included. */
module LifecycleService {
  import opened Basics
  import opened Lifecycle

  class EnrollmentTables {
    const id: nat
    const trainee: int
    var pin: int
    var events: seq<Event>
    var phaseEvents: seq<PhaseEvent>
    var signoffs: seq<Signoff>

    function Rows(): Enrollment
      reads this
    {
      Enrollment(id, trainee, pin, events, phaseEvents, signoffs)
    }

    constructor (id: nat, trainee: int, pin: int)
      ensures Rows() == Enrollment(id, trainee, pin, [], [], [])
    {
      this.id, this.trainee, this.pin := id, trainee, pin;
      events, phaseEvents, signoffs := [], [], [];
    }

    method Status() returns (status: Status)
      ensures status == StatusOf(events)
    {
      var i := |events|;
      assert events[..i] == events;
      while i > 0
        invariant 0 <= i <= |events|
        invariant StatusOf(events) == StatusOf(events[..i])
      {
        assert events[..i][..i - 1] == events[..i - 1];
        i := i - 1;
        match events[i].kind
        case Withdraw => return Withdrawn;
        case Complete => return Completed;
        case Reinstate => return Active;
        case VersionChange =>
      }
      return Active;
    }

    /** Records one lifecycle event; a version change also repoints the pin. */
    method RecordEvent(catalog: Catalog, next: Counters, actor: int, coordinator: bool, kind: EventKind, reason: string,
                       to: Option<int>, elsewhere: set<int>) returns (r: Outcome<int, Refusal>)
      modifies `events, `pin
      ensures var o := Lifecycle.RecordEvent(
          State(catalog, next, old(Rows())), actor, coordinator, kind, reason, to, elsewhere);
        && Rows() == (if o.Done? then o.value.e else old(Rows()))
        && r == (if o.Done? then Done(next.event) else Refused(o.refusal))
    {
      if !coordinator {
        return Refused(CapabilityRequired);
      }
      var text := Trim(reason);
      if !kind.Complete? && text == "" {
        return Refused(ReasonRequired);
      }
      var status := Status();
      if kind.Reinstate? {
        if status.Active? {
          return Refused(AlreadyActive);
        }
      } else if !status.Active? {
        return Refused(NotActive);
      }
      var from: Option<int>, target: Option<int> := None, None;
      if kind.VersionChange? {
        from := Some(pin);
        if to.None? {
          return Refused(NoSuchVersion);
        }
        var refusal := VersionChangeRefusal(State(catalog, next, Rows()), elsewhere, to);
        if refusal.Some? {
          return Refused(refusal.value);
        }
        target := to;
      }
      events := events + [Event(next.event, kind, next.now, actor, text, from, target)];
      if target.Some? {
        pin := target.value;
      }
      return Done(next.event);
    }

    /** The pause state machine and the pinned version's graph. */
    method CheckPhase(catalog: Catalog, next: Counters, kind: PhaseKind, target: Option<int>)
        returns (refusal: Option<Refusal>)
      ensures refusal == PhaseRefusal(State(catalog, next, Rows()), kind, target)
    {
      var current, paused := CurrentPhase(Rows()), IsPaused(Rows());
      if IsMove(kind) {
        if paused {
          return Some(Paused);
        }
        if target.None? || !HasPhase(catalog, pin, target.value) {
          return Some(NoSuchPhase);
        }
        if current.None? {
          return if kind.Advance? then None else Some(NoCurrentPhase);
        }
        if !EdgeAllows(kind, Edge(catalog[pin], current.value, target.value)) {
          return Some(TransitionNotAllowed);
        }
        return None;
      }
      if current.None? {
        return Some(NoCurrentPhase);
      }
      match kind
      case Pause => return if paused then Some(AlreadyPaused) else None;
      case Resume => return if !paused then Some(NotPaused) else None;
      case _ => return if paused then Some(Paused) else None;
    }

    /** Records one phase event against the graph of the pinned version. */
    method RecordPhase(catalog: Catalog, next: Counters, actor: int, coordinator: bool, kind: PhaseKind,
                       target: Option<int>, effectiveAt: Option<int>, reason: string) returns (r: Outcome<int, Refusal>)
      modifies `phaseEvents
      ensures var o := Lifecycle.RecordPhase(
          State(catalog, next, old(Rows())), actor, coordinator, kind, target, effectiveAt, reason);
        && Rows() == (if o.Done? then o.value.e else old(Rows()))
        && r == (if o.Done? then Done(next.phase) else Refused(o.refusal))
    {
      if !coordinator {
        return Refused(CapabilityRequired);
      }
      var text := Trim(reason);
      if (kind.Return? || kind.Restart?) && text == "" {
        return Refused(ReasonRequired);
      }
      var effective := if effectiveAt.Some? then effectiveAt.value else next.now;
      if effective > next.now {
        return Refused(EffectiveInFuture);
      }
      var status := Status();
      if !status.Active? {
        return Refused(NotActive);
      }
      var latest := LatestEffective(phaseEvents);
      if latest.Some? && effective < latest.value {
        return Refused(OutOfOrder);
      }
      var opening := LatestChange(events);
      if opening.Some? && effective < opening.value.at {
        return Refused(OutOfOrder);
      }
      var refusal := CheckPhase(catalog, next, kind, target);
      if refusal.Some? {
        return Refused(refusal.value);
      }
      var to: Option<int> := if IsMove(kind) then target else None;
      phaseEvents := phaseEvents
        + [PhaseEvent(next.phase, kind, CurrentPhase(Rows()), to, effective, next.now, actor, text, EpochOf(events))];
      return Done(next.phase);
    }

    method HasPrior(task: int) returns (prior: bool)
      ensures prior == SignedBefore(signoffs, task)
    {
      var i := 0;
      while i < |signoffs|
        invariant 0 <= i <= |signoffs|
        invariant forall k | 0 <= k < i :: signoffs[k].task != task
      {
        if signoffs[i].task == task {
          assert signoffs[i] in signoffs;
          return true;
        }
        i := i + 1;
      }
      return false;
    }

    /** Records one signoff; any after the first for a task is an override. */
    method RecordSignoff(catalog: Catalog, next: Counters, actor: int, name: string, coordinator: bool, authorInScope: bool,
                         reviewer: bool, task: int, kind: SignoffKind, reason: string) returns (r: Outcome<int, Refusal>)
      modifies `signoffs
      ensures var o := Lifecycle.RecordSignoff(State(catalog, next, old(Rows())), actor, name, coordinator,
                                               authorInScope, reviewer, task, kind, reason);
        && Rows() == (if o.Done? then o.value.e else old(Rows()))
        && r == (if o.Done? then Done(next.signoff) else Refused(o.refusal))
    {
      if !HasTask(catalog, pin, task) {
        return Refused(NoSuchTask);
      }
      var text := Trim(reason);
      var prior := HasPrior(task);
      if prior {
        if !reviewer {
          return Refused(CapabilityRequired);
        }
        if text == "" {
          return Refused(ReasonRequired);
        }
      } else {
        if !coordinator && !authorInScope {
          return Refused(CapabilityRequired);
        }
        if kind.Revoked? {
          return Refused(NothingToRevoke);
        }
      }
      signoffs := signoffs + [Signoff(next.signoff, task, kind, text, actor, name, next.now)];
      return Done(next.signoff);
    }
  }
}
