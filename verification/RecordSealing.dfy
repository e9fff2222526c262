/** Sealed means approved: under a policy that requires review, every version of
    a record holds what its own cycle last submitted and then had approved. */
module RecordSealing {
  import opened Basics
  import opened RecordWorkflow
  import opened RecordInvariant
  import opened RecordTheorems

  /** Under a policy that requires review, what a finalization seals is the
      submission this cycle's marks leave last, with its decision, made after it
      in the same cycle by a reviewer who is not a contributor when it is sealed. */
  lemma SealedIsWhatWasApproved(c: Codec, r: Record, op: Op, ids: Ids)
    requires Reachable(c, r) && Fresh(r, Step(op, ids))
    requires op.OpFinalize? && Perform(c, r, op, ids).Done? && r.policy.reviewApproved
    ensures var r' := After(c, r, op, ids);
      && |r'.versions| == |r.versions| + 1
      && LastSubmission(r.snapshots).Some?
      && var submission := LastSubmission(r.snapshots).value;
         var marks := match OpenAmendment(r) case None => (0, 0) case Some(a) => (a.eventMark, a.decisionMark);
         && submission.content == Last(r'.versions).envelope.copy
         && marks.0 < submission.event < Last(r'.events).id
         && Last(r'.events).kind == ReviewDecided && Last(r'.events).actor == Last(r'.decisions).reviewer
         && Last(r'.decisions).verdict == Approved && Last(r'.decisions).id > marks.1
         && !IsContributor(r', Last(r'.decisions).reviewer)
  {
    ReachableHolds(c, r);
    OpenIsTheLast(r);
    StatusByMarks(r);
    SameContributors(r, After(c, r, op, ids), Last(r.decisions).reviewer);
  }

  /** Where the cycle that sealed version `k` begins and ends, in events and in
      decisions: at the marks of the amendment that opened it and of the one that
      superseded it. */
  function CycleFrom(r: Record, k: nat): (Id, Id)
    requires k <= |r.amendments|
  {
    if k == 0 then (0, 0) else (r.amendments[k - 1].eventMark, r.amendments[k - 1].decisionMark)
  }

  function CycleTo(r: Record, k: nat): (Id, Id) {
    if k < |r.amendments| then (r.amendments[k].eventMark, r.amendments[k].decisionMark)
    else (LastEventId(r), LastDecisionId(r))
  }

  /** Who had shaped the record by an event: as the contributors are read, the
      owner being one of them by what made them so. */
  ghost predicate ShapedBy(events: seq<Event>, upTo: Id, user: Id) {
    exists e <- events :: e.id <= upTo && Shapes(e, user)
  }

  predicate Shapes(e: Event, user: Id) {
    || (e.kind in {Created, Contributed, SubmittedForReview} && e.actor == user)
    || (e.kind == OwnershipTransferred && e.to == Some(user))
  }

  ghost predicate OwnerShaped(r: Record) {
    ShapedBy(r.events, LastEventId(r), r.owner)
  }

  /** Submission `i` is of this copy, within a cycle and its last. */
  ghost predicate CycleSubmission(r: Record, i: nat, copy: Copy, from: Id, to: Id) {
    && i < |r.snapshots| && r.snapshots[i].reason == Submission && r.snapshots[i].content == copy
    && from < r.snapshots[i].event < to
    && forall j | i < j < |r.snapshots| && r.snapshots[j].reason == Submission :: r.snapshots[j].event > to
  }

  /** Decision `d` is a cycle's last, an approval, made at the cycle's last event
      by someone who had not shaped the record by then. */
  ghost predicate CycleApproval(r: Record, d: nat, from: Id, to: (Id, Id)) {
    && d < |r.decisions| && r.decisions[d].verdict == Approved && from < r.decisions[d].id == to.1
    && (exists e <- r.events :: e.id == to.0 && e.kind == ReviewDecided && e.actor == r.decisions[d].reviewer)
    && !ShapedBy(r.events, to.0, r.decisions[d].reviewer)
  }

  /** Version `k` is what its own cycle submitted last and then approved. */
  ghost predicate SealedInCycle(r: Record, k: nat)
    requires k < |r.versions|
  {
    && k <= |r.amendments|
    && (exists i: nat :: CycleSubmission(r, i, r.versions[k].envelope.copy, CycleFrom(r, k).0, CycleTo(r, k).0))
    && (exists d: nat :: CycleApproval(r, d, CycleFrom(r, k).1, CycleTo(r, k)))
  }

  /** What later steps add lies beyond everything there was. */
  ghost predicate AddsBeyond(r: Record, r': Record) {
    && Extends(r, r')
    && (forall i | |r.events| <= i < |r'.events| :: r'.events[i].id > LastEventId(r))
    && (forall i | |r.decisions| <= i < |r'.decisions| :: r'.decisions[i].id > LastDecisionId(r))
    && (forall i | |r.snapshots| <= i < |r'.snapshots| :: r'.snapshots[i].event > LastEventId(r))
  }

  lemma StepAddsBeyond(c: Codec, r: Record, step: Step)
    requires Fresh(r, step)
    ensures AddsBeyond(r, After(c, r, step.op, step.ids))
  {
    var op, ids := step.op, step.ids;
    StepExtends(c, r, op, ids);
    match op
    case OpSave(_, _, _, _) =>
    case OpLinks(_, _, _, _, _, _) =>
    case OpTransfer(_, _, _, _, _, _) =>
    case OpSubmit(_, _, _, _) =>
    case OpDecide(_, _, _, _) =>
    case OpFinalize(_, _, _, _) =>
    case OpAmend(_, _, _, _, _) =>
  }

  lemma ShapingStays(r: Record, r': Record, upTo: Id, user: Id)
    requires AddsBeyond(r, r') && upTo <= LastEventId(r)
    ensures ShapedBy(r'.events, upTo, user) <==> ShapedBy(r.events, upTo, user)
  {
    if ShapedBy(r.events, upTo, user) {
      var e :| e in r.events && e.id <= upTo && Shapes(e, user);
      assert e in r'.events;
    }
    if ShapedBy(r'.events, upTo, user) {
      var e :| e in r'.events && e.id <= upTo && Shapes(e, user);
      var n :| 0 <= n < |r'.events| && r'.events[n] == e;
      assert r.events[n] == e;
    }
  }

  lemma SealStays(r: Record, r': Record, k: nat)
    requires AddsBeyond(r, r') && k < |r.versions| && SealedInCycle(r, k)
    requires CycleTo(r', k) == CycleTo(r, k) && CycleTo(r, k).0 <= LastEventId(r)
    ensures SealedInCycle(r', k)
  {
    var copy, from, to := r.versions[k].envelope.copy, CycleFrom(r, k), CycleTo(r, k);
    assert r'.versions[k] == r.versions[k] && CycleFrom(r', k) == from;
    var i: nat :| CycleSubmission(r, i, copy, from.0, to.0);
    assert r'.snapshots[i] == r.snapshots[i];
    forall j | i < j < |r'.snapshots| && r'.snapshots[j].reason == Submission
      ensures r'.snapshots[j].event > to.0
    {
      assert j < |r.snapshots| ==> r'.snapshots[j] == r.snapshots[j];
    }
    assert CycleSubmission(r', i, copy, from.0, to.0);
    var d: nat :| CycleApproval(r, d, from.1, to);
    assert r'.decisions[d] == r.decisions[d];
    var e :| e in r.events && e.id == to.0 && e.kind == ReviewDecided && e.actor == r.decisions[d].reviewer;
    assert e in r'.events;
    ShapingStays(r, r', to.0, r.decisions[d].reviewer);
    assert CycleApproval(r', d, from.1, to);
  }

  lemma {:induction false} LastSubmissionIsOne(snapshots: seq<Snapshot>) returns (i: nat)
    requires LastSubmission(snapshots).Some?
    ensures i < |snapshots| && snapshots[i].reason == Submission && Some(snapshots[i]) == LastSubmission(snapshots)
    ensures forall j | i < j < |snapshots| :: snapshots[j].reason != Submission
  {
    if Last(snapshots).reason == Submission {
      i := |snapshots| - 1;
    } else {
      i := LastSubmissionIsOne(snapshots[..|snapshots| - 1]);
    }
  }

  lemma ShapersContribute(r: Record, user: Id)
    requires EventsAscend(r.events)
    ensures ShapedBy(r.events, LastEventId(r), user) ==> IsContributor(r, user)
  {
    if ShapedBy(r.events, LastEventId(r), user) {
      var e :| e in r.events && e.id <= LastEventId(r) && Shapes(e, user);
    }
  }

  /** The approved draft's submission and its approval, as the seal finds them. */
  lemma ApprovedIsInCycle(r: Record) returns (i: nat)
    requires Frozen(r) && MarksHold(r) && EventsAscend(r.events) && StatusOf(r) == ApprovedDraft
    requires LastDecisionId(r) > Marks(r).1
    ensures CycleSubmission(r, i, r.copy, Marks(r).0, LastEventId(r))
    ensures r.decisions != [] && CycleApproval(r, |r.decisions| - 1, Marks(r).1, (LastEventId(r), LastDecisionId(r)))
  {
    i := LastSubmissionIsOne(r.snapshots);
    assert Last(r.events) in r.events;
    ShapersContribute(r, Last(r.decisions).reviewer);
  }

  /** The seal that a finalization adds. */
  lemma NewSealIsInCycle(c: Codec, r: Record, actor: Id, reviewer: bool, revision: nat, now: int, ids: Ids)
    requires Inv(c, r) && r.policy.reviewApproved
    requires Finalize(c, r, actor, reviewer, revision, now, ids).Done?
    ensures var r' := Finalize(c, r, actor, reviewer, revision, now, ids).value;
      && |r'.versions| == |r.versions| + 1
      && SealedInCycle(r', |r.versions|)
  {
    var r' := Finalize(c, r, actor, reviewer, revision, now, ids).value;
    StatusByMarks(r);
    OpenIsTheLast(r);
    var k := |r.versions|;
    var i := ApprovedIsInCycle(r);
    assert r' == r.(versions := r'.versions) && r'.versions[k].envelope.copy == r.copy;
    assert CycleFrom(r', k) == Marks(r) && CycleTo(r', k) == (LastEventId(r), LastDecisionId(r));
    assert CycleSubmission(r', i, r.copy, CycleFrom(r', k).0, CycleTo(r', k).0);
    assert CycleApproval(r', |r.decisions| - 1, CycleFrom(r', k).1, CycleTo(r', k));
  }

  ghost predicate AllSealedInCycle(r: Record) {
    forall k | 0 <= k < |r.versions| :: SealedInCycle(r, k)
  }

  /** A finalized record's only next event is its amendment, which marks where the
      cycle ended. */
  lemma FinalizedOnlyReopens(c: Codec, r: Record, step: Step, k: nat)
    requires Inv(c, r) && Fresh(r, step) && k < |r.versions|
    ensures var r' := After(c, r, step.op, step.ids);
      CycleTo(r', k) == CycleTo(r, k) && CycleTo(r, k).0 <= LastEventId(r)
  {
    var r' := After(c, r, step.op, step.ids);
    StepExtends(c, r, step.op, step.ids);
    StatusByMarks(r);
    if k < |r.amendments| {
      assert r'.amendments[k] == r.amendments[k];
    } else {
      OpenIsTheLast(r);
      assert StatusOf(r) == Finalized;
    }
  }

  lemma OldSealStays(c: Codec, r: Record, step: Step, k: nat)
    requires Inv(c, r) && Fresh(r, step) && k < |r.versions| && SealedInCycle(r, k)
    ensures k < |After(c, r, step.op, step.ids).versions| && SealedInCycle(After(c, r, step.op, step.ids), k)
  {
    StepAddsBeyond(c, r, step);
    FinalizedOnlyReopens(c, r, step, k);
    SealStays(r, After(c, r, step.op, step.ids), k);
  }

  lemma NewSealIsNext(c: Codec, r: Record, op: Op, ids: Ids, k: nat)
    requires Inv(c, r) && r.policy.reviewApproved && |r.versions| <= k < |After(c, r, op, ids).versions|
    ensures SealedInCycle(After(c, r, op, ids), k)
  {
    OnlySealsAdd(c, r, op, ids);
    NewSealIsInCycle(c, r, op.actor, op.reviewer, op.revision, op.now, ids);
  }

  lemma OnlySealsAdd(c: Codec, r: Record, op: Op, ids: Ids)
    requires After(c, r, op, ids).versions != r.versions
    ensures op.OpFinalize? && Perform(c, r, op, ids).Done?
  {
    match op
    case OpSave(_, _, _, _) =>
    case OpLinks(_, _, _, _, _, _) =>
    case OpTransfer(_, _, _, _, _, _) =>
    case OpSubmit(_, _, _, _) =>
    case OpDecide(_, _, _, _) =>
    case OpFinalize(_, _, _, _) =>
    case OpAmend(_, _, _, _, _) =>
  }

  lemma {:induction false} RunSealsInCycle(c: Codec, r: Record, steps: seq<Step>, r': Record)
    requires Inv(c, r) && Run(c, r, steps, r') && r.policy.reviewApproved && AllSealedInCycle(r)
    ensures AllSealedInCycle(r')
    decreases |steps|
  {
    if steps != [] {
      var next := After(c, r, steps[0].op, steps[0].ids);
      StepKeeps(c, r, steps[0]);
      StepExtends(c, r, steps[0].op, steps[0].ids);
      forall k | 0 <= k < |next.versions|
        ensures SealedInCycle(next, k)
      {
        if k < |r.versions| {
          OldSealStays(c, r, steps[0], k);
        } else {
          NewSealIsNext(c, r, steps[0].op, steps[0].ids, k);
        }
      }
      RunSealsInCycle(c, next, steps[1..], r');
    }
  }

  /** Over every run: under a policy that requires review, every version ever
      sealed holds exactly the ratings and narratives its own cycle last submitted
      for review, after that cycle's reopening and before its seal, and the
      cycle's last decision approves them, after the submission, by a reviewer who
      had not shaped the record. */
  lemma EverySealedVersionWasSubmitted(c: Codec, r: Record, k: nat)
    requires Reachable(c, r) && r.policy.reviewApproved && k < |r.versions|
    ensures SealedInCycle(r, k)
  {
    var r0, steps :| IsNew(r0) && Run(c, r0, steps, r);
    CreateKeeps(c, r0);
    HistoryOnlyGrows(c, r0, steps, r);
    RunSealsInCycle(c, r0, steps, r);
  }

  /** An owner is one who shaped the record: by creating it or by receiving it. */
  lemma StepKeepsOwnerShaped(c: Codec, r: Record, step: Step)
    requires OwnerShaped(r) && r.events != [] && Fresh(r, step)
    ensures OwnerShaped(After(c, r, step.op, step.ids))
  {
    var next := After(c, r, step.op, step.ids);
    StepAddsBeyond(c, r, step);
    ShapingStays(r, next, LastEventId(r), r.owner);
    if next.owner != r.owner {
      assert Last(next.events) in next.events && Shapes(Last(next.events), next.owner);
    } else if next.events != r.events {
      assert Last(next.events) == next.events[|next.events| - 1];
      LaterShaped(next.events, LastEventId(r), LastEventId(next), r.owner);
    }
  }

  lemma LaterShaped(events: seq<Event>, upTo: Id, later: Id, user: Id)
    requires ShapedBy(events, upTo, user) && upTo <= later
    ensures ShapedBy(events, later, user)
  {
    var e :| e in events && e.id <= upTo && Shapes(e, user);
  }

  lemma {:induction false} OwnersShape(c: Codec, r: Record, steps: seq<Step>, r': Record)
    requires OwnerShaped(r) && r.events != [] && Run(c, r, steps, r')
    ensures OwnerShaped(r')
    decreases |steps|
  {
    if steps != [] {
      StepKeepsOwnerShaped(c, r, steps[0]);
      StepExtends(c, r, steps[0].op, steps[0].ids);
      OwnersShape(c, After(c, r, steps[0].op, steps[0].ids), steps[1..], r');
    }
  }

  lemma LastIsLatest(events: seq<Event>, e: Event)
    requires EventsAscend(events) && e in events
    ensures e.id <= Last(events).id
  {
    var n :| 0 <= n < |events| && events[n] == e;
  }

  /** So the contributors at any moment are those who had shaped it by then. */
  lemma ContributorsAreShapers(c: Codec, r: Record, user: Id)
    requires Reachable(c, r)
    ensures IsContributor(r, user) <==> ShapedBy(r.events, LastEventId(r), user)
  {
    var r0, steps :| IsNew(r0) && Run(c, r0, steps, r);
    CreateKeeps(c, r0);
    assert r0.events[0] in r0.events && Shapes(r0.events[0], r0.owner);
    OwnersShape(c, r0, steps, r);
    ReachableHolds(c, r);
    ShapersContribute(r, user);
    if e :| e in r.events && Shapes(e, user) {
      LastIsLatest(r.events, e);
    }
  }

  lemma SameContributors(r: Record, r': Record, user: Id)
    requires r'.events == r.events && r'.owner == r.owner
    ensures IsContributor(r', user) == IsContributor(r, user)
  {
  }
}
