/** The session table as the services change it, one write transaction a call.
    Every method is proved to leave the rows exactly as its function in
    `Sessions` says, refusals included. */
module SessionService {
  import opened Basics
  import opened Sessions
  import Life = Lifecycle

  class SessionTable {
    const trainees: map<int, int>
    var sessions: map<int, Session>

    function Rows(): State
      reads this
    {
      State(trainees, sessions)
    }

    constructor (trainees: map<int, int>)
      ensures Rows() == State(trainees, map[])
    {
      this.trainees, sessions := trainees, map[];
    }

    method FindOverlap(enrollment: int, start: int, end: Option<int>, exclude: int) returns (hit: bool)
      ensures hit == Overlaps(Rows(), enrollment, start, end, exclude)
    {
      var rest: set<int> := sessions.Keys;
      while rest != {}
        invariant rest <= sessions.Keys
        invariant forall id | id in sessions && id !in rest ::
          !Blocks(Rows(), id, enrollment, start, end, exclude)
        decreases rest
      {
        ghost var some := SomeMember(rest);
        var id :| id in rest;
        if Blocks(Rows(), id, enrollment, start, end, exclude) {
          return true;
        }
        rest := rest - {id};
      }
      return false;
    }

    method Create(z: Zones, id: int, enrollment: int, may: bool, input: Entered, status: Life.Status,
                  phaseFits: bool, trainersFit: bool) returns (r: Outcome<int, Refusal>)
      modifies `sessions
      ensures var o := Sessions.Create(old(Rows()), z, id, enrollment, may, input, status, phaseFits, trainersFit);
        && Rows() == (if o.Done? then o.value else old(Rows()))
        && r == (if o.Done? then Done(id) else Refused(o.refusal))
    {
      if !may {
        return Refused(CapabilityRequired);
      }
      var entry := EntryRefusal(input);
      if entry.Some? {
        return Refused(entry.value);
      }
      var times := Resolve(z, input.date, input.timezone, input.start, input.end);
      if times.Refused? {
        return Refused(times.refusal);
      }
      if enrollment !in trainees {
        return Refused(NoSuchEnrollment);
      }
      if !status.Active? {
        return Refused(EnrollmentInactive);
      }
      if !phaseFits {
        return Refused(NoSuchPhase);
      }
      if !trainersFit {
        return Refused(TrainersRefused);
      }
      var hit := FindOverlap(enrollment, times.value.start, times.value.end, 0);
      if hit {
        return Refused(Overlap);
      }
      sessions := sessions[id :=
        Session(enrollment, times.value.timezone, times.value.start, times.value.end, input.disposition)];
      return Done(id);
    }

    method UpdateOpen(z: Zones, id: int, may: bool, date: string, timezone: string, start: string, phaseFits: bool)
        returns (r: Outcome<int, Refusal>)
      modifies `sessions
      ensures var o := Sessions.UpdateOpen(old(Rows()), z, id, may, date, timezone, start, phaseFits);
        && Rows() == (if o.Done? then o.value else old(Rows()))
        && r == (if o.Done? then Done(id) else Refused(o.refusal))
    {
      if !may {
        return Refused(CapabilityRequired);
      }
      var times := Resolve(z, date, timezone, start, None);
      if times.Refused? {
        return Refused(times.refusal);
      }
      if id !in sessions {
        return Refused(NoSuchSession);
      }
      if sessions[id].disposition.Some? {
        return Refused(SessionClosed);
      }
      if !phaseFits {
        return Refused(NoSuchPhase);
      }
      var hit := FindOverlap(sessions[id].enrollment, times.value.start, None, id);
      if hit {
        return Refused(Overlap);
      }
      sessions := sessions[id := sessions[id].(timezone := times.value.timezone, start := times.value.start)];
      return Done(id);
    }

    method Close(z: Zones, id: int, may: bool, disposition: Disposition, end: Option<string>, documented: bool)
        returns (r: Outcome<int, Refusal>)
      modifies `sessions
      ensures var o := Sessions.Close(old(Rows()), z, id, may, disposition, end, documented);
        && Rows() == (if o.Done? then o.value else old(Rows()))
        && r == (if o.Done? then Done(id) else Refused(o.refusal))
    {
      if !may {
        return Refused(CapabilityRequired);
      }
      if id !in sessions {
        return Refused(NoSuchSession);
      }
      if sessions[id].disposition.Some? {
        return Refused(SessionClosed);
      }
      var given, instant: Option<int> := GivenEnd(end), None;
      if disposition.Cancelled? {
        if documented {
          return Refused(SessionDocumented);
        }
        if given.Some? {
          return Refused(EndNotAllowed);
        }
      } else {
        if given.None? {
          return Refused(EndRequired);
        }
        var resolved := ResolveEnd(z, sessions[id].timezone, given.value, sessions[id].start);
        if resolved.Refused? {
          return Refused(resolved.refusal);
        }
        instant := Some(resolved.value);
      }
      sessions := sessions[id := sessions[id].(end := instant, disposition := Some(disposition))];
      return Done(id);
    }
  }
}
