/** The record's tables as the services update them: one object per evaluation
    record whose fields are its rows, changed in place by each call's write
    transaction. Every method is proved to leave the tables exactly as the
    call's function in `RecordWorkflow` says, refusals included. */
module RecordService {
  import opened Basics
  import opened RecordWorkflow

  class RecordTables {
    const id: Id
    const enrollment: Id
    const form: Form
    const policy: Policy
    var owner: Id
    var revision: nat
    var ratings: map<Id, Rating>
    var narratives: map<Id, string>
    var links: set<Id>
    var events: seq<Event>
    var decisions: seq<Decision>
    var snapshots: seq<Snapshot>
    var versions: seq<Version>
    var amendments: seq<Amendment>

    function View(): Record
      reads this
    {
      Record(id, enrollment, form, policy, owner, revision, Copy(ratings, narratives), links,
             events, decisions, snapshots, versions, amendments)
    }

    /** Stamps the pinned form, makes the actor the owner, and opens the
        attribution stream. */
    constructor (id: Id, enrollment: Id, form: Form, policy: Policy, actor: Id, event: Id)
      ensures View() == Create(id, enrollment, form, policy, actor, event)
    {
      this.id, this.enrollment, this.form, this.policy := id, enrollment, form, policy;
      owner, revision, ratings, narratives, links := actor, 0, map[], map[], {};
      events := [Event(event, Created, actor, None)];
      decisions, snapshots, versions, amendments := [], [], [], [];
    }

    method Append(ids: Ids, kind: EventKind, actor: Id, to: Option<Id>)
      modifies `events
      ensures View() == AppendEvent(old(View()), ids, kind, actor, to)
    {
      events := events + [Event(ids.event, kind, actor, to)];
    }

    method AttributeContribution(ids: Ids, actor: Id)
      modifies `events
      ensures View() == Attribute(old(View()), ids, actor)
    {
      var open := OpenAmendment(View());
      var latest := LatestEvent(events, if open.Some? then open.value.eventMark else 0);
      var coalesce := latest.Some? && latest.value.kind == Contributed && latest.value.actor == actor;
      if !coalesce {
        Append(ids, Contributed, actor, None);
      }
    }

    /** Validates every rating against the pinned vocabulary, one by one. */
    method CheckRatings(entries: seq<RatingEntry>) returns (refusal: Option<Refusal>)
      ensures refusal == RatingsRefusal(form, entries, [])
    {
      var seen: seq<Id> := [];
      var i := 0;
      while i < |entries|
        invariant 0 <= i <= |entries|
        invariant RatingsRefusal(form, entries[i..], seen) == RatingsRefusal(form, entries, [])
      {
        var entry := entries[i];
        assert entries[i..][1..] == entries[i + 1..];
        if entry.competency in seen {
          return Some(DuplicateEntry);
        }
        if entry.competency !in form.competencies {
          return Some(NoSuchFormCompetency);
        }
        var value := ValueRefusal(form.competencies[entry.competency], entry);
        if value.Some? {
          return value;
        }
        var unknown := UnknownModifier(entry.modifiers);
        if unknown {
          return Some(NoSuchModifier);
        }
        seen := seen + [entry.competency];
        i := i + 1;
      }
      return None;
    }

    method UnknownModifier(modifiers: seq<Id>) returns (unknown: bool)
      ensures unknown == exists m <- modifiers :: m !in form.modifiers
    {
      var i := 0;
      while i < |modifiers|
        invariant 0 <= i <= |modifiers|
        invariant forall k | 0 <= k < i :: modifiers[k] in form.modifiers
      {
        if modifiers[i] !in form.modifiers {
          return true;
        }
        i := i + 1;
      }
      return false;
    }

    method CheckNarratives(entries: seq<NarrativeEntry>) returns (refusal: Option<Refusal>)
      ensures refusal == NarrativesRefusal(form, entries, [])
    {
      var seen: seq<Id> := [];
      var i := 0;
      while i < |entries|
        invariant 0 <= i <= |entries|
        invariant NarrativesRefusal(form, entries[i..], seen) == NarrativesRefusal(form, entries, [])
      {
        assert entries[i..][1..] == entries[i + 1..];
        if entries[i].narrative in seen {
          return Some(DuplicateEntry);
        }
        if entries[i].narrative !in form.narratives {
          return Some(NoSuchFormNarrative);
        }
        seen := seen + [entries[i].narrative];
        i := i + 1;
      }
      return None;
    }

    /** Full replacement: the old rows are deleted and the input's inserted. */
    method ReplaceCopy(input: DraftContent)
      modifies `ratings, `narratives
      ensures Copy(ratings, narratives) == Stored(input)
    {
      ratings, narratives := map[], map[];
      var i := 0;
      while i < |input.ratings|
        invariant 0 <= i <= |input.ratings|
        invariant ratings == StoredRatings(input.ratings[..i]) && narratives == map[]
      {
        var e := input.ratings[i];
        StoredSnoc(input.ratings[..i], e);
        assert input.ratings[..i + 1] == input.ratings[..i] + [e];
        var applied := ApplyModifiers(e.modifiers);
        assert Rating(e.value, e.notObserved, applied) == RatingOf(e);
        ratings := ratings[e.competency := Rating(e.value, e.notObserved, applied)];
        i := i + 1;
      }
      assert input.ratings[..i] == input.ratings;
      var j := 0;
      while j < |input.narratives|
        invariant 0 <= j <= |input.narratives|
        invariant ratings == StoredRatings(input.ratings) && narratives == StoredNarratives(input.narratives[..j])
      {
        assert input.narratives[..j + 1][..j] == input.narratives[..j];
        narratives := narratives[input.narratives[j].narrative := input.narratives[j].text];
        j := j + 1;
      }
      assert input.narratives[..j] == input.narratives;
    }

    /** A modifier named twice is applied once. */
    method ApplyModifiers(modifiers: seq<Id>) returns (applied: set<Id>)
      ensures applied == set m <- modifiers
    {
      applied := {};
      var i := 0;
      while i < |modifiers|
        invariant 0 <= i <= |modifiers|
        invariant applied == set m <- modifiers[..i]
      {
        assert modifiers[..i + 1] == modifiers[..i] + [modifiers[i]];
        if modifiers[i] !in applied {
          applied := applied + {modifiers[i]};
        }
        i := i + 1;
      }
      assert modifiers[..i] == modifiers;
    }

    method Save(actor: Id, may: bool, expected: nat, input: DraftContent, ids: Ids) returns (r: Outcome<nat, Refusal>)
      modifies `ratings, `narratives, `revision, `events
      ensures View() == After'(old(View()), RecordWorkflow.Save(old(View()), actor, may, expected, input, ids))
      ensures r == Answer(RecordWorkflow.Save(old(View()), actor, may, expected, input, ids), revision)
    {
      if !may {
        return Refused(CapabilityRequired);
      }
      var frozen := FrozenRefusal(StatusOf(View()));
      if frozen.Some? {
        return Refused(frozen.value);
      }
      if expected != revision {
        return Refused(StaleSave);
      }
      var refusal := CheckRatings(input.ratings);
      if refusal.None? {
        refusal := CheckNarratives(input.narratives);
      }
      if refusal.Some? {
        return Refused(refusal.value);
      }
      ReplaceCopy(input);
      revision := revision + 1;
      AttributeContribution(ids, actor);
      return Done(revision);
    }

    method EditLinks(actor: Id, may: bool, expected: nat, version: Id, target: Option<LinkTarget>, add: bool, ids: Ids)
        returns (r: Outcome<nat, Refusal>)
      modifies `links, `revision, `events
      ensures var o := RecordWorkflow.EditLinks(old(View()), actor, may, expected, version, target, add, ids);
        View() == After'(old(View()), o) && r == Answer(o, revision)
    {
      if !may {
        return Refused(CapabilityRequired);
      }
      var frozen := FrozenRefusal(StatusOf(View()));
      if frozen.Some? {
        return Refused(frozen.value);
      }
      if !form.summary {
        return Refused(NotASummary);
      }
      if expected != revision {
        return Refused(StaleSave);
      }
      if add {
        if target.None? {
          return Refused(NoSuchVersion);
        }
        if target.value.enrollment != enrollment {
          return Refused(WrongEnrollment);
        }
        if !target.value.daily {
          return Refused(NotADaily);
        }
        if version in links {
          return Refused(DuplicateLink);
        }
        links := links + {version};
      } else {
        if version !in links {
          return Refused(NoSuchLink);
        }
        links := links - {version};
      }
      revision := revision + 1;
      AttributeContribution(ids, actor);
      return Done(revision);
    }

    method Transfer(actor: Id, coordinator: bool, ownerSeen: Id, to: Id, exists_: bool, eligible: bool, ids: Ids)
        returns (r: Outcome<nat, Refusal>)
      modifies `owner, `events
      ensures var o := RecordWorkflow.Transfer(old(View()), actor, coordinator, ownerSeen, to, exists_, eligible, ids);
        View() == After'(old(View()), o) && r == Answer(o, revision)
    {
      if actor != ownerSeen && !coordinator {
        return Refused(CapabilityRequired);
      }
      if to == ownerSeen {
        return Refused(AlreadyOwner);
      }
      if !exists_ {
        return Refused(NoSuchUser);
      }
      if !eligible {
        return Refused(NotEligible);
      }
      var frozen := FrozenRefusal(StatusOf(View()));
      if frozen.Some? {
        return Refused(frozen.value);
      }
      if actor != owner && !coordinator {
        return Refused(CapabilityRequired);
      }
      if to == owner {
        return Refused(AlreadyOwner);
      }
      Append(ids, OwnershipTransferred, actor, Some(to));
      owner := to;
      return Done(revision);
    }

    method Submit(actor: Id, coordinator: bool, ownerSeen: Id, expected: nat, ids: Ids) returns (r: Outcome<nat, Refusal>)
      modifies `snapshots, `events
      ensures var o := RecordWorkflow.Submit(old(View()), actor, coordinator, ownerSeen, expected, ids);
        View() == After'(old(View()), o) && r == Answer(o, revision)
    {
      if actor != ownerSeen && !coordinator {
        return Refused(CapabilityRequired);
      }
      var frozen := FrozenRefusal(StatusOf(View()));
      if frozen.Some? {
        return Refused(frozen.value);
      }
      if actor != owner && !coordinator {
        return Refused(CapabilityRequired);
      }
      if expected != revision {
        return Refused(StaleSave);
      }
      if policy.requiredNarratives && NarrativesMissing(form, Copy(ratings, narratives)) {
        return Refused(NarrativesIncomplete);
      }
      if policy.ratingsComplete && RatingsMissing(form, Copy(ratings, narratives)) {
        return Refused(RatingsIncomplete);
      }
      snapshots := snapshots + [Snapshot(Submission, Copy(ratings, narratives), actor, ids.event)];
      Append(ids, SubmittedForReview, actor, None);
      return Done(revision);
    }

    method Decide(actor: Id, reviewer: bool, verdict: Verdict, comment: string, ids: Ids) returns (r: Outcome<nat, Refusal>)
      modifies `snapshots, `decisions, `events
      ensures var o := RecordWorkflow.Decide(old(View()), actor, reviewer, verdict, comment, ids);
        View() == After'(old(View()), o) && r == Answer(o, revision)
    {
      if !reviewer {
        return Refused(CapabilityRequired);
      }
      if verdict == ChangesRequested && Blank(comment) {
        return Refused(CommentRequired);
      }
      if StatusOf(View()) != Submitted {
        return Refused(NotSubmitted);
      }
      if IsContributor(View(), actor) {
        return Refused(SelfReview);
      }
      if verdict == ChangesRequested {
        snapshots := snapshots + [Snapshot(ChangeRequestReturn, Copy(ratings, narratives), actor, ids.event)];
      }
      decisions := decisions + [Decision(ids.decision, actor, verdict, Trim(comment))];
      Append(ids, ReviewDecided, actor, None);
      return Done(revision);
    }

    method Finalize(c: Codec, actor: Id, reviewer: bool, expected: nat, now: int, ids: Ids) returns (r: Outcome<nat, Refusal>)
      modifies `versions
      ensures var o := RecordWorkflow.Finalize(c, old(View()), actor, reviewer, expected, now, ids);
        View() == After'(old(View()), o) && r == Answer(o, revision)
    {
      if !reviewer {
        return Refused(CapabilityRequired);
      }
      if versions != [] && OpenAmendment(View()).None? {
        return Refused(AlreadyFinalized);
      }
      if expected != revision {
        return Refused(StaleSave);
      }
      if policy.reviewApproved && StatusOf(View()) != ApprovedDraft {
        return Refused(NotApproved);
      }
      if policy.requiredNarratives && NarrativesMissing(form, Copy(ratings, narratives)) {
        return Refused(NarrativesIncomplete);
      }
      if policy.ratingsComplete && RatingsMissing(form, Copy(ratings, narratives)) {
        return Refused(RatingsIncomplete);
      }
      var version := Seal(c, View(), actor, now, ids.version);
      if version.None? {
        return Refused(Corrupt);
      }
      versions := versions + [version.value];
      return Done(revision);
    }

    method Amend(actor: Id, reviewer: bool, reason: string, name: string, now: int) returns (r: Outcome<nat, Refusal>)
      modifies `amendments, `revision
      ensures var o := RecordWorkflow.Amend(old(View()), actor, reviewer, reason, name, now);
        View() == After'(old(View()), o) && r == Answer(o, revision)
    {
      if !reviewer {
        return Refused(CapabilityRequired);
      }
      if Blank(reason) {
        return Refused(ReasonRequired);
      }
      if versions == [] {
        return Refused(NotFinalized);
      }
      if OpenAmendment(View()).Some? {
        return Refused(AmendmentOpen);
      }
      var eventMark := if events == [] then 0 else Last(events).id;
      var decisionMark := if decisions == [] then 0 else Last(decisions).id;
      amendments := amendments
        + [Amendment(Last(versions).id, Trim(reason), actor, name, now, eventMark, decisionMark)];
      revision := revision + 1;
      return Done(revision);
    }
  }

  lemma StoredSnoc(entries: seq<RatingEntry>, e: RatingEntry)
    ensures StoredRatings(entries + [e])
            == StoredRatings(entries)[e.competency := RatingOf(e)]
  {
    var all := entries + [e];
    assert all[..|all| - 1] == entries;
  }

  /** The tables after a call: rolled back when it is refused. */
  function After'(before: Record, o: Outcome<Record, Refusal>): Record {
    if o.Done? then o.value else before
  }

  /** What the caller is told: the revision now current, or the refusal. */
  function Answer(o: Outcome<Record, Refusal>, revision: nat): Outcome<nat, Refusal> {
    if o.Done? then Done(revision) else Refused(o.refusal)
  }
}
