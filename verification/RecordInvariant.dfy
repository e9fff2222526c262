/** What every service call keeps about an evaluation record. */
module RecordInvariant {
  import opened Basics
  import opened RecordWorkflow
  import Canonical

  ghost predicate EventsAscend(events: seq<Event>) {
    && (forall i | 0 <= i < |events| :: events[i].id >= 1)
    && (forall i, j | 0 <= i < j < |events| :: events[i].id < events[j].id)
  }

  ghost predicate DecisionsAscend(decisions: seq<Decision>) {
    && (forall i | 0 <= i < |decisions| :: decisions[i].id >= 1)
    && (forall i, j | 0 <= i < j < |decisions| :: decisions[i].id < decisions[j].id)
  }

  ghost predicate VersionsAscend(versions: seq<Version>) {
    forall i, j | 0 <= i < j < |versions| :: versions[i].id < versions[j].id
  }

  /** Version k+1 names version k: by number, by row, by the content hash its
      bytes commit to, and in its chain hash. */
  ghost predicate LinkHolds(c: Codec, r: Record, k: nat)
    requires k < |r.versions|
  {
    var v := r.versions[k];
    var previousHash := if k == 0 then None else Some(r.versions[k - 1].contentHash);
    && v.number == k + 1
    && v.predecessor == (if k == 0 then None else Some(r.versions[k - 1].id))
    && v.envelope.record == r.id
    && v.envelope.number == v.number
    && v.envelope.predecessorHash == previousHash
    && v.canonical == c.encode(v.envelope)
    && v.contentHash == Canonical.ContentHash(c.sha, v.canonical)
    && Canonical.ChainHash(c.sha, previousHash, v.canonical) == Some(v.chainHash)
  }

  ghost predicate Chained(c: Codec, r: Record) {
    forall k | 0 <= k < |r.versions| :: LinkHolds(c, r, k)
  }

  /** Every superseded version has the one amendment that superseded it, and at
      most one amendment, on the latest version, is open. */
  ghost predicate Amended(r: Record) {
    && |r.amendments| <= |r.versions| <= |r.amendments| + 1
    && (forall k | 0 <= k < |r.amendments| ::
          && r.amendments[k].predecessor == r.versions[k].id
          && !Blank(r.amendments[k].reason)
          && r.amendments[k].openedByName != "")
  }

  function LastEventId(r: Record): Id {
    if r.events == [] then 0 else Last(r.events).id
  }

  function LastDecisionId(r: Record): Id {
    if r.decisions == [] then 0 else Last(r.decisions).id
  }

  predicate Reopened(r: Record) {
    r.versions != [] && |r.amendments| == |r.versions|
  }

  /** Where the current cycle's events and decisions begin. */
  function Marks(r: Record): (Id, Id) {
    if Reopened(r) then (Last(r.amendments).eventMark, Last(r.amendments).decisionMark) else (0, 0)
  }

  ghost predicate MarksHold(r: Record) {
    && Marks(r).0 <= LastEventId(r) && Marks(r).1 <= LastDecisionId(r)
    && forall k | 0 <= k < |r.amendments| ::
         r.amendments[k].eventMark <= LastEventId(r) && r.amendments[k].decisionMark <= LastDecisionId(r)
  }

  /** A reviewed cycle has its decision. */
  ghost predicate Paired(r: Record) {
    var latest := LatestEvent(r.events, Marks(r).0);
    && (latest.Some? && latest.value.kind == ReviewDecided ==> LatestDecision(r.decisions, Marks(r).1).Some?)
    && (r.events != [] && Last(r.events).kind == ReviewDecided ==> r.decisions != [])
  }

  function LastSubmission(snapshots: seq<Snapshot>): Option<Snapshot> {
    if snapshots == [] then None
    else if Last(snapshots).reason == Submission then Some(Last(snapshots))
    else LastSubmission(snapshots[..|snapshots| - 1])
  }

  /** The last submission is of this copy and within these events. */
  predicate LastSubmits(snapshots: seq<Snapshot>, copy: Copy, after: Id, upTo: Id) {
    var s := LastSubmission(snapshots);
    s.Some? && s.value.content == copy && after < s.value.event <= upTo
  }

  /** While a record is under review or approved, the copy is the one this cycle
      last submitted, it meets the pinned rules, and an approval is the decision
      on that submission and someone else's. */
  ghost predicate Frozen(r: Record) {
    && (StatusOf(r) in {Submitted, ApprovedDraft} ==>
          LastSubmits(r.snapshots, r.copy, Marks(r).0, LastEventId(r)) && RuleRefusal(r) == None)
    && (StatusOf(r) == ApprovedDraft ==>
          && LastSubmission(r.snapshots).value.event < LastEventId(r)
          && r.decisions != [] && Last(r.decisions).verdict == Approved && !IsContributor(r, Last(r.decisions).reviewer)
          && r.events != [] && Last(r.events).kind == ReviewDecided && Last(r.events).actor == Last(r.decisions).reviewer)
  }

  predicate AnswersLast(before: seq<Snapshot>, s: Snapshot) {
    LastSubmission(before).Some? && LastSubmission(before).value.content == s.content
  }

  /** A change request's snapshot is the submission it answers. */
  ghost predicate Answers(snapshots: seq<Snapshot>) {
    forall i | 0 <= i < |snapshots| && snapshots[i].reason == ChangeRequestReturn ::
      AnswersLast(snapshots[..i], snapshots[i])
  }

  /** Nothing has happened since the last seal. */
  predicate QuietSinceSeal(r: Record) {
    r.versions != [] && (!Reopened(r) || LastEventId(r) <= Marks(r).0)
  }

  ghost predicate SealedAfterReview(r: Record) {
    r.policy.reviewApproved && QuietSinceSeal(r) ==> r.events != [] && Last(r.events).kind == ReviewDecided
  }

  ghost predicate Inv(c: Codec, r: Record) {
    && r.events != []
    && EventsAscend(r.events) && DecisionsAscend(r.decisions) && VersionsAscend(r.versions)
    && Chained(c, r) && Amended(r) && MarksHold(r) && Paired(r)
    && Frozen(r) && Answers(r.snapshots) && SealedAfterReview(r)
  }

  // -------------------------------------------------------- open amendments

  lemma {:induction false} NoneNamesIt(amendments: seq<Amendment>, version: Id)
    requires forall k | 0 <= k < |amendments| :: amendments[k].predecessor != version
    ensures AmendmentOf(amendments, version) == None
  {
    if amendments != [] {
      NoneNamesIt(amendments[..|amendments| - 1], version);
    }
  }

  /** The query for the open amendment finds it exactly when there is one. */
  lemma OpenIsTheLast(r: Record)
    requires Amended(r) && VersionsAscend(r.versions)
    ensures OpenAmendment(r) == if Reopened(r) then Some(Last(r.amendments)) else None
  {
    if r.versions != [] && !Reopened(r) {
      NoneNamesIt(r.amendments, Last(r.versions).id);
    }
  }

  lemma StatusByMarks(r: Record)
    requires Amended(r) && VersionsAscend(r.versions)
    ensures StatusOf(r) == if r.versions != [] && !Reopened(r) then Finalized else StatusAfter(r, Marks(r).0, Marks(r).1)
  {
    OpenIsTheLast(r);
  }

  // ---------------------------------------------------------- preservation

  lemma CreateKeeps(c: Codec, r: Record)
    requires IsNew(r)
    ensures Inv(c, r)
  {
    StatusByMarks(r);
  }

  /** An event that is neither a submission nor a decision leaves an editable
      record editable. */
  lemma EditEventKeeps(c: Codec, r: Record, r': Record, ids: Ids, kind: EventKind, actor: Id, to: Option<Id>)
    requires Inv(c, r) && FrozenRefusal(StatusOf(r)) == None
    requires kind == Contributed || kind == OwnershipTransferred
    requires ids.event > LastEventId(r)
    requires r' == r.(events := r'.events, owner := r'.owner, copy := r'.copy, links := r'.links, revision := r'.revision)
    requires r'.events == r.events + [Event(ids.event, kind, actor, to)]
    ensures Inv(c, r')
  {
    StatusByMarks(r);
    StatusByMarks(r');
    ChainOnly(c, r, r');
  }

  /** The chain speaks only of the versions. */
  lemma ChainOnly(c: Codec, r: Record, r': Record)
    requires Chained(c, r) && r'.versions == r.versions && r'.id == r.id
    ensures Chained(c, r')
  {
    forall k | 0 <= k < |r'.versions|
      ensures LinkHolds(c, r', k)
    {
      assert LinkHolds(c, r, k);
    }
  }

  lemma AttributeKeeps(c: Codec, r: Record, edited: Record, ids: Ids, actor: Id)
    requires Inv(c, r) && FrozenRefusal(StatusOf(r)) == None && ids.event > LastEventId(r)
    requires edited == r.(copy := edited.copy, links := edited.links, revision := edited.revision)
    ensures Inv(c, Attribute(edited, ids, actor))
  {
    OpenIsTheLast(r);
    OpenIsTheLast(edited);
    var r' := Attribute(edited, ids, actor);
    if r'.events == r.events {
      StatusByMarks(r);
      StatusByMarks(r');
      ChainOnly(c, r, r');
    } else {
      EditEventKeeps(c, r, r', ids, Contributed, actor, None);
    }
  }

  lemma {:induction false} SubmissionSnoc(snapshots: seq<Snapshot>, s: Snapshot)
    ensures LastSubmission(snapshots + [s]) == if s.reason == Submission then Some(s) else LastSubmission(snapshots)
    ensures Answers(snapshots) && (s.reason == ChangeRequestReturn ==> AnswersLast(snapshots, s))
            ==> Answers(snapshots + [s])
  {
    var all := snapshots + [s];
    assert all[..|all| - 1] == snapshots;
    assert forall i | 0 <= i < |snapshots| :: all[..i] == snapshots[..i];
  }

  lemma SubmitKeeps(c: Codec, r: Record, actor: Id, coordinator: bool, ownerSeen: Id, revision: nat, ids: Ids)
    requires Inv(c, r) && ids.event > LastEventId(r)
    ensures var o := Submit(r, actor, coordinator, ownerSeen, revision, ids);
      o.Done? ==> Inv(c, o.value) && StatusOf(o.value) == Submitted
  {
    var o := Submit(r, actor, coordinator, ownerSeen, revision, ids);
    if o.Done? {
      StatusByMarks(r);
      StatusByMarks(o.value);
      ChainOnly(c, r, o.value);
      SubmissionSnoc(r.snapshots, Snapshot(Submission, r.copy, actor, ids.event));
    }
  }

  /** A decision's event makes nobody a contributor. */
  lemma DecidingIsNotContributing(r: Record, r': Record, e: Event, user: Id)
    requires r'.events == r.events + [e] && e.kind == ReviewDecided && r'.owner == r.owner
    ensures IsContributor(r', user) == IsContributor(r, user)
  {
    forall x
      ensures x in r'.events <==> x in r.events || x == e
    {
    }
  }

  lemma EventAppended(events: seq<Event>, e: Event)
    requires EventsAscend(events) && e.id > (if events == [] then 0 else Last(events).id)
    ensures EventsAscend(events + [e])
  {
  }

  lemma DecisionAppended(decisions: seq<Decision>, d: Decision)
    requires DecisionsAscend(decisions) && d.id > (if decisions == [] then 0 else Last(decisions).id)
    ensures DecisionsAscend(decisions + [d])
  {
  }

  lemma DecideTables(r: Record, actor: Id, reviewer: bool, verdict: Verdict, comment: string, ids: Ids)
    requires EventsAscend(r.events) && DecisionsAscend(r.decisions) && Answers(r.snapshots)
    requires StatusOf(r) == Submitted ==> LastSubmits(r.snapshots, r.copy, Marks(r).0, LastEventId(r))
    requires ids.event > LastEventId(r) && ids.decision > LastDecisionId(r)
    ensures var o := Decide(r, actor, reviewer, verdict, comment, ids);
      o.Done? ==>
        && EventsAscend(o.value.events) && DecisionsAscend(o.value.decisions) && Answers(o.value.snapshots)
        && LastSubmission(o.value.snapshots) == LastSubmission(r.snapshots)
  {
    SubmissionSnoc(r.snapshots, Snapshot(ChangeRequestReturn, r.copy, actor, ids.event));
    EventAppended(r.events, Event(ids.event, ReviewDecided, actor, None));
    DecisionAppended(r.decisions, Decision(ids.decision, actor, verdict, Trim(comment)));
  }

  lemma DecideFreezes(r: Record, actor: Id, reviewer: bool, verdict: Verdict, comment: string, ids: Ids)
    requires Amended(r) && VersionsAscend(r.versions) && MarksHold(r)
    requires Frozen(r)
    requires ids.event > LastEventId(r) && ids.decision > LastDecisionId(r)
    requires LastSubmission(r.snapshots + [Snapshot(ChangeRequestReturn, r.copy, actor, ids.event)]) == LastSubmission(r.snapshots)
    ensures var o := Decide(r, actor, reviewer, verdict, comment, ids);
      o.Done? ==>
        && Frozen(o.value) && Paired(o.value) && MarksHold(o.value) && SealedAfterReview(o.value)
  {
    var o := Decide(r, actor, reviewer, verdict, comment, ids);
    if o.Done? {
      StatusByMarks(r);
      StatusByMarks(o.value);
      DecidingIsNotContributing(r, o.value, Event(ids.event, ReviewDecided, actor, None), actor);
      assert Last(o.value.decisions).reviewer == actor;
    }
  }

  lemma DecideKeeps(c: Codec, r: Record, actor: Id, reviewer: bool, verdict: Verdict, comment: string, ids: Ids)
    requires Inv(c, r) && ids.event > LastEventId(r) && ids.decision > LastDecisionId(r)
    ensures var o := Decide(r, actor, reviewer, verdict, comment, ids);
      o.Done? ==> Inv(c, o.value)
  {
    var o := Decide(r, actor, reviewer, verdict, comment, ids);
    if o.Done? {
      SubmissionSnoc(r.snapshots, Snapshot(ChangeRequestReturn, r.copy, actor, ids.event));
      DecideTables(r, actor, reviewer, verdict, comment, ids);
      DecideFreezes(r, actor, reviewer, verdict, comment, ids);
      ChainOnly(c, r, o.value);
    }
  }

  lemma SealLinks(c: Codec, r: Record, actor: Id, now: int, id: Id)
    requires Chained(c, r)
    ensures Seal(c, r, actor, now, id).Some?
    ensures Chained(c, r.(versions := r.versions + [Seal(c, r, actor, now, id).value]))
  {
    var n := |r.versions|;
    if n > 0 {
      assert LinkHolds(c, r, n - 1);
      Canonical.DigestRoundTrip(c.sha(Last(r.versions).canonical));
    }
    var v := Seal(c, r, actor, now, id).value;
    var r' := r.(versions := r.versions + [v]);
    forall k | 0 <= k < |r'.versions|
      ensures LinkHolds(c, r', k)
    {
      if k < n {
        assert LinkHolds(c, r, k);
      }
    }
  }

  lemma FinalizeChains(c: Codec, r: Record, actor: Id, reviewer: bool, revision: nat, now: int, ids: Ids)
    requires Chained(c, r) && Amended(r) && VersionsAscend(r.versions)
    requires forall v <- r.versions :: v.id < ids.version
    ensures var o := Finalize(c, r, actor, reviewer, revision, now, ids);
      o.Done? ==>
        && Chained(c, o.value) && Amended(o.value) && VersionsAscend(o.value.versions)
        && !Reopened(o.value) && o.value.versions != []
  {
    SealLinks(c, r, actor, now, ids.version);
    OpenIsTheLast(r);
  }

  lemma FinalizeKeeps(c: Codec, r: Record, actor: Id, reviewer: bool, revision: nat, now: int, ids: Ids)
    requires Inv(c, r)
    requires forall v <- r.versions :: v.id < ids.version
    ensures var o := Finalize(c, r, actor, reviewer, revision, now, ids);
      o.Done? ==> Inv(c, o.value) && StatusOf(o.value) == Finalized
  {
    var o := Finalize(c, r, actor, reviewer, revision, now, ids);
    if o.Done? {
      FinalizeChains(c, r, actor, reviewer, revision, now, ids);
      StatusByMarks(r);
      StatusByMarks(o.value);
    }
  }

  lemma AmendKeeps(c: Codec, r: Record, actor: Id, reviewer: bool, reason: string, name: string, now: int)
    requires Inv(c, r) && name != ""
    ensures var o := Amend(r, actor, reviewer, reason, name, now);
      o.Done? ==> Inv(c, o.value) && StatusOf(o.value) == Draft
  {
    var o := Amend(r, actor, reviewer, reason, name, now);
    if o.Done? {
      OpenIsTheLast(r);
      StatusByMarks(r);
      TrimIdempotent(reason);
      StatusByMarks(o.value);
      ChainOnly(c, r, o.value);
    }
  }

  lemma SaveKeeps(c: Codec, r: Record, actor: Id, may: bool, revision: nat, input: DraftContent, ids: Ids)
    requires Inv(c, r) && ids.event > LastEventId(r)
    ensures var o := Save(r, actor, may, revision, input, ids);
      o.Done? ==> Inv(c, o.value)
  {
    if Save(r, actor, may, revision, input, ids).Done? {
      var edited := r.(copy := Stored(input), revision := r.revision + 1);
      AttributeKeeps(c, r, edited, ids, actor);
      assert Save(r, actor, may, revision, input, ids).value == Attribute(edited, ids, actor);
    }
  }

  lemma EditLinksEdits(r: Record, actor: Id, may: bool, revision: nat, version: Id,
                       target: Option<LinkTarget>, add: bool, ids: Ids) returns (edited: Record)
    requires EditLinks(r, actor, may, revision, version, target, add, ids).Done?
    ensures FrozenRefusal(StatusOf(r)) == None
    ensures edited == r.(links := edited.links, revision := edited.revision)
    ensures EditLinks(r, actor, may, revision, version, target, add, ids).value == Attribute(edited, ids, actor)
  {
    edited := r.(links := if add then r.links + {version} else r.links - {version}, revision := r.revision + 1);
  }

  lemma EditLinksKeeps(c: Codec, r: Record, actor: Id, may: bool, revision: nat, version: Id,
                       target: Option<LinkTarget>, add: bool, ids: Ids)
    requires Inv(c, r) && ids.event > LastEventId(r)
    requires EditLinks(r, actor, may, revision, version, target, add, ids).Done?
    ensures Inv(c, EditLinks(r, actor, may, revision, version, target, add, ids).value)
  {
    var edited := EditLinksEdits(r, actor, may, revision, version, target, add, ids);
    AttributeKeeps(c, r, edited, ids, actor);
  }

  lemma TransferKeeps(c: Codec, r: Record, actor: Id, coordinator: bool, ownerSeen: Id, to: Id, exists_: bool,
                      eligible: bool, ids: Ids)
    requires Inv(c, r) && ids.event > LastEventId(r)
    ensures var o := Transfer(r, actor, coordinator, ownerSeen, to, exists_, eligible, ids);
      o.Done? ==> Inv(c, o.value)
  {
    var o := Transfer(r, actor, coordinator, ownerSeen, to, exists_, eligible, ids);
    if o.Done? {
      EditEventKeeps(c, r, o.value, ids, OwnershipTransferred, actor, Some(to));
    }
  }

  lemma StepKeeps(c: Codec, r: Record, step: Step)
    requires Inv(c, r) && Fresh(r, step)
    ensures Inv(c, After(c, r, step.op, step.ids))
  {
    var ids := step.ids;
    assert ids.event > LastEventId(r) && ids.decision > LastDecisionId(r);
    match step.op
    case OpSave(actor, may, revision, input) => SaveKeeps(c, r, actor, may, revision, input, ids);
    case OpLinks(actor, may, revision, version, target, add) =>
      if EditLinks(r, actor, may, revision, version, target, add, ids).Done? {
        EditLinksKeeps(c, r, actor, may, revision, version, target, add, ids);
      }
    case OpTransfer(actor, coordinator, ownerSeen, to, exists_, eligible) =>
      TransferKeeps(c, r, actor, coordinator, ownerSeen, to, exists_, eligible, ids);
    case OpSubmit(actor, coordinator, ownerSeen, revision) => SubmitKeeps(c, r, actor, coordinator, ownerSeen, revision, ids);
    case OpDecide(actor, reviewer, verdict, comment) => DecideKeeps(c, r, actor, reviewer, verdict, comment, ids);
    case OpFinalize(actor, reviewer, revision, now) => FinalizeKeeps(c, r, actor, reviewer, revision, now, ids);
    case OpAmend(actor, reviewer, reason, name, now) => AmendKeeps(c, r, actor, reviewer, reason, name, now);
  }

  lemma {:induction false} RunKeeps(c: Codec, r: Record, steps: seq<Step>, r': Record)
    requires Inv(c, r) && Run(c, r, steps, r')
    ensures Inv(c, r')
    decreases |steps|
  {
    if steps != [] {
      StepKeeps(c, r, steps[0]);
      RunKeeps(c, After(c, r, steps[0].op, steps[0].ids), steps[1..], r');
    }
  }

  /** Every state a record can reach satisfies the invariant. */
  lemma ReachableHolds(c: Codec, r: Record)
    requires Reachable(c, r)
    ensures Inv(c, r)
  {
    var r0, steps :| IsNew(r0) && Run(c, r0, steps, r);
    CreateKeeps(c, r0);
    RunKeeps(c, r0, steps, r);
  }
}
