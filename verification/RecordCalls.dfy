/** What each call on an evaluation record accepts and does, in the caller's terms,
    and what a record's status, decisions and contributors say of the calls that
    were made. */
module RecordCalls {
  import opened Basics
  import opened RecordWorkflow
  import opened RecordInvariant
  import opened RecordTheorems
  import opened RecordSealing
  import Canonical

  // ---------------------------------------------------- accepted exactly when

  predicate Editable(s: Status) {
    s == Draft || s == ChangesWanted || s == ReturnedToDraft
  }

  /** A save is accepted exactly from someone who may, on an editable record, with
      the revision now current, of content the form admits; it replaces the copy and
      leaves all but the revision and the contributions alone. */
  lemma SaveAcceptedExactly(r: Record, actor: Id, may: bool, revision: nat, input: DraftContent, ids: Ids)
    ensures var o := Save(r, actor, may, revision, input, ids);
      && (o.Done? <==> may && Editable(StatusOf(r)) && revision == r.revision && ContentRefusal(r.form, input) == None)
      && (o.Done? ==> o.value == r.(copy := o.value.copy, revision := r.revision + 1, events := o.value.events))
  {
  }

  lemma EditLinksAcceptedExactly(r: Record, actor: Id, may: bool, revision: nat, version: Id,
                                 target: Option<LinkTarget>, add: bool, ids: Ids)
    ensures var o := EditLinks(r, actor, may, revision, version, target, add, ids);
      && (o.Done? <==>
            && may && Editable(StatusOf(r)) && r.form.summary && revision == r.revision
            && if add then target == Some(LinkTarget(r.enrollment, true)) && version !in r.links else version in r.links)
      && (o.Done? ==> o.value == r.(links := o.value.links, revision := r.revision + 1, events := o.value.events))
  {
  }

  /** Ownership moves exactly when the owner, both as seen before and as found
      within the call, or a coordinator hands it to an eligible user who is neither;
      the event names who moved it and who received it. */
  lemma TransferAcceptedExactly(r: Record, actor: Id, coordinator: bool, ownerSeen: Id, to: Id, exists_: bool,
                                eligible: bool, ids: Ids)
    ensures var o := Transfer(r, actor, coordinator, ownerSeen, to, exists_, eligible, ids);
      && (o.Done? <==>
            && (coordinator || (actor == ownerSeen && actor == r.owner))
            && to != ownerSeen && to != r.owner && exists_ && eligible && Editable(StatusOf(r)))
      && (o.Done? ==>
            o.value == r.(owner := to, events := r.events + [Event(ids.event, OwnershipTransferred, actor, Some(to))]))
  {
  }

  /** A submission is accepted exactly from the owner or a coordinator, on an
      editable record, with the revision now current, of a copy that meets the
      pinned rules; it keeps that copy. */
  lemma SubmitAcceptedExactly(r: Record, actor: Id, coordinator: bool, ownerSeen: Id, revision: nat, ids: Ids)
    ensures var o := Submit(r, actor, coordinator, ownerSeen, revision, ids);
      && (o.Done? <==>
            && (coordinator || (actor == ownerSeen && actor == r.owner))
            && Editable(StatusOf(r)) && revision == r.revision && RulesMet(r))
      && (o.Done? ==>
            o.value == r.(snapshots := r.snapshots + [Snapshot(Submission, r.copy, actor, ids.event)],
                          events := r.events + [Event(ids.event, SubmittedForReview, actor, None)]))
  {
    RulesMetExactly(r);
  }

  /** What a decision leaves: the caller's verdict, name and trimmed comment in one
      row, its paired event, and for a change request the copy that was returned. */
  predicate Decides(r: Record, actor: Id, verdict: Verdict, comment: string, ids: Ids, r': Record) {
    && r'.decisions == r.decisions + [Decision(ids.decision, actor, verdict, Trim(comment))]
    && r'.events == r.events + [Event(ids.event, ReviewDecided, actor, None)]
    && r'.snapshots == r.snapshots
         + (if verdict.ChangesRequested? then [Snapshot(ChangeRequestReturn, r.copy, actor, ids.event)] else [])
    && r' == r.(decisions := r'.decisions, events := r'.events, snapshots := r'.snapshots)
  }

  function StatusOfVerdict(verdict: Verdict): Status {
    match verdict
    case Approved => ApprovedDraft
    case ChangesRequested => ChangesWanted
    case Returned => ReturnedToDraft
  }

  /** A decision is accepted exactly from a reviewer who is no contributor, on a
      submitted record, a change request with a comment; what is stored is what
      the reviewer said, and the status afterwards is the one they gave. */
  lemma DecisionIsTheReviewers(c: Codec, r: Record, actor: Id, reviewer: bool, verdict: Verdict, comment: string, ids: Ids)
    requires Reachable(c, r) && Fresh(r, Step(OpDecide(actor, reviewer, verdict, comment), ids))
    ensures var o := Decide(r, actor, reviewer, verdict, comment, ids);
      && (o.Done? <==>
            && reviewer && StatusOf(r) == Submitted && !IsContributor(r, actor)
            && (verdict.ChangesRequested? ==> !Blank(comment)))
      && (o.Done? ==> Decides(r, actor, verdict, comment, ids, o.value) && StatusOf(o.value) == StatusOfVerdict(verdict))
  {
    ReachableHolds(c, r);
    if Decide(r, actor, reviewer, verdict, comment, ids).Done? {
      StatusIs(c, r, OpDecide(actor, reviewer, verdict, comment), ids);
    }
  }

  /** An amendment opens exactly for a reviewer with a reason, on a finalized
      record; it names the latest version and marks where events and decisions
      stand. */
  lemma AmendAcceptedExactly(c: Codec, r: Record, actor: Id, reviewer: bool, reason: string, name: string, now: int)
    requires Reachable(c, r)
    ensures var o := Amend(r, actor, reviewer, reason, name, now);
      && (o.Done? <==> reviewer && !Blank(reason) && StatusOf(r) == Finalized)
      && (o.Done? ==>
            && r.versions != []
            && o.value == r.(revision := r.revision + 1,
                             amendments := r.amendments + [Amendment(Last(r.versions).id, Trim(reason), actor, name, now,
                                                                     LastEventId(r), LastDecisionId(r))]))
  {
    ReachableHolds(c, r);
    OpenIsTheLast(r);
    StatusByMarks(r);
  }

  /** A finalization adds one version, the next in number, that holds the copy and
      links now on the record, says who sealed it and when, and covers both with its
      hashes: the content's, and the link's to the version before. */
  lemma FinalizeStores(c: Codec, r: Record, actor: Id, reviewer: bool, revision: nat, now: int, ids: Ids)
    requires Reachable(c, r) && Finalize(c, r, actor, reviewer, revision, now, ids).Done?
    ensures var r' := Finalize(c, r, actor, reviewer, revision, now, ids).value;
      var k := |r.versions|;
      && |r'.versions| == k + 1
      && r' == r.(versions := r.versions + [r'.versions[k]])
      && SaysOf(r, r'.versions[k], k, actor, now, ids)
      && VersionHashes(c, r', k)
  {
    ReachableHolds(c, r);
    SealLinks(c, r, actor, now, ids.version);
    var r' := Finalize(c, r, actor, reviewer, revision, now, ids).value;
    ChainHashesAreOfTheBytes(c, r', |r.versions|);
    assert LinkHolds(c, r', |r.versions|);
  }

  /** A version's own row and envelope. */
  predicate SaysOf(r: Record, v: Version, k: nat, actor: Id, now: int, ids: Ids) {
    && v.id == ids.version && v.number == k + 1
    && v.envelope.record == r.id && v.envelope.number == k + 1
    && v.envelope.copy == r.copy && v.envelope.links == r.links
    && v.envelope.finalizedBy == actor && v.envelope.finalizedAt == now
    && (if r.versions == [] then v.predecessor == None && v.envelope.predecessorHash == None
        else v.predecessor == Some(Last(r.versions).id) && v.envelope.predecessorHash == Some(Last(r.versions).contentHash))
  }

  /** Version `k`'s bytes are its envelope's; its content hash is theirs, and its
      chain hash covers the domain, the digest of the bytes of the version before,
      or zeros, and its own bytes. */
  ghost predicate VersionHashes(c: Codec, r: Record, k: nat)
    requires k < |r.versions|
  {
    var v := r.versions[k];
    var previous: Bytes := if k == 0 then seq(32, _ => 0) else c.sha(r.versions[k - 1].canonical);
    && v.canonical == c.encode(v.envelope)
    && v.contentHash == Canonical.ToHex(c.sha(v.canonical))
    && v.chainHash
         == Canonical.ToHex(c.sha(Canonical.AsciiBytes("consolebook-version-v1") + [0] + previous + v.canonical))
  }

  lemma ChainHashesAreOfTheBytes(c: Codec, r: Record, k: nat)
    requires Chained(c, r) && k < |r.versions|
    ensures VersionHashes(c, r, k)
  {
    assert LinkHolds(c, r, k);
    var v := r.versions[k];
    var stated := if k == 0 then None else Some(r.versions[k - 1].contentHash);
    Canonical.ChainHashCoversTheLink(c.sha, stated, v.canonical);
    var previous: Bytes := seq(32, _ => 0);
    if k > 0 {
      assert LinkHolds(c, r, k - 1);
      previous := c.sha(r.versions[k - 1].canonical);
      Canonical.DigestRoundTrip(previous);
    }
    assert Canonical.StandsFor(previous, stated);
    assert v.chainHash == Canonical.ToHex(c.sha(Canonical.LinkBytes(previous, v.canonical)));
  }

  /** So it is for every version of every reachable record. */
  lemma EveryVersionIsLinked(c: Codec, r: Record, k: nat)
    requires Reachable(c, r) && k < |r.versions|
    ensures VersionHashes(c, r, k)
  {
    ReachableHolds(c, r);
    ChainHashesAreOfTheBytes(c, r, k);
  }

  // ------------------------------------------------------ the status machine

  /** Where a call, when accepted, leaves the record. */
  function Leads(op: Op): Status {
    match op
    case OpSubmit(_, _, _, _) => Submitted
    case OpDecide(_, _, verdict, _) => StatusOfVerdict(verdict)
    case OpFinalize(_, _, _, _) => Finalized
    case _ => Draft
  }

  /** From where a call can be accepted. */
  predicate Starts(r: Record, op: Op) {
    match op
    case OpDecide(_, _, _, _) => StatusOf(r) == Submitted
    case OpAmend(_, _, _, _, _) => StatusOf(r) == Finalized
    case OpFinalize(_, _, _, _) =>
      if r.policy.reviewApproved then StatusOf(r) == ApprovedDraft else StatusOf(r) != Finalized
    case _ => Editable(StatusOf(r))
  }

  lemma AttributedIsDraft(c: Codec, r: Record, edited: Record, ids: Ids, actor: Id)
    requires Inv(c, r) && FrozenRefusal(StatusOf(r)) == None && ids.event > LastEventId(r)
    requires edited == r.(copy := edited.copy, links := edited.links, revision := edited.revision)
    ensures StatusOf(Attribute(edited, ids, actor)) == Draft
  {
    OpenIsTheLast(r);
    OpenIsTheLast(edited);
    OpenIsTheLast(Attribute(edited, ids, actor));
    StatusByMarks(r);
    StatusByMarks(Attribute(edited, ids, actor));
  }

  lemma EditsAreDraft(c: Codec, r: Record, op: Op, ids: Ids)
    requires Inv(c, r) && Fresh(r, Step(op, ids)) && Perform(c, r, op, ids).Done?
    requires op.OpSave? || op.OpLinks?
    ensures Starts(r, op) && StatusOf(After(c, r, op, ids)) == Draft
  {
    if op.OpSave? {
      AttributedIsDraft(c, r, r.(copy := Stored(op.input), revision := r.revision + 1), ids, op.actor);
    } else {
      var edited := EditLinksEdits(r, op.actor, op.may, op.revision, op.version, op.target, op.add, ids);
      AttributedIsDraft(c, r, edited, ids, op.actor);
    }
  }

  /** The status is read from the newest event of the cycle, and a decision's from
      the newest decision. */
  lemma StatusByLast(r: Record)
    requires Amended(r) && VersionsAscend(r.versions) && (r.versions == [] || Reopened(r))
    requires r.events != [] && Last(r.events).id > Marks(r).0
    requires Last(r.events).kind == ReviewDecided ==> r.decisions != [] && Last(r.decisions).id > Marks(r).1
    ensures StatusOf(r) == match Last(r.events).kind
      case SubmittedForReview => Submitted
      case ReviewDecided => StatusOfVerdict(Last(r.decisions).verdict)
      case _ => Draft
  {
    StatusByMarks(r);
  }

  lemma DecidedIs(c: Codec, r: Record, actor: Id, reviewer: bool, verdict: Verdict, comment: string, ids: Ids)
    requires Inv(c, r) && ids.event > LastEventId(r) && ids.decision > LastDecisionId(r)
    requires Decide(r, actor, reviewer, verdict, comment, ids).Done?
    ensures StatusOf(r) == Submitted
    ensures StatusOf(Decide(r, actor, reviewer, verdict, comment, ids).value) == StatusOfVerdict(verdict)
  {
    StatusByMarks(r);
    StatusByLast(Decide(r, actor, reviewer, verdict, comment, ids).value);
  }

  lemma SentOnIs(c: Codec, r: Record, op: Op, ids: Ids)
    requires Inv(c, r) && ids.event > LastEventId(r) && Perform(c, r, op, ids).Done? && (op.OpTransfer? || op.OpSubmit?)
    ensures Starts(r, op) && StatusOf(After(c, r, op, ids)) == Leads(op)
  {
    StatusByMarks(r);
    StatusByLast(After(c, r, op, ids));
  }

  lemma ClosedIs(c: Codec, r: Record, op: Op, ids: Ids)
    requires Inv(c, r) && Fresh(r, Step(op, ids)) && Perform(c, r, op, ids).Done? && (op.OpFinalize? || op.OpAmend?)
    ensures Starts(r, op) && StatusOf(After(c, r, op, ids)) == Leads(op)
  {
    StatusByMarks(r);
    OpenIsTheLast(r);
    if op.OpFinalize? {
      FinalizeKeeps(c, r, op.actor, op.reviewer, op.revision, op.now, ids);
    } else {
      AmendKeeps(c, r, op.actor, op.reviewer, op.reason, op.name, op.now);
    }
  }

  lemma StatusIs(c: Codec, r: Record, op: Op, ids: Ids)
    requires Inv(c, r) && Fresh(r, Step(op, ids)) && Perform(c, r, op, ids).Done?
    ensures Starts(r, op) && StatusOf(After(c, r, op, ids)) == Leads(op)
  {
    assert ids.event > LastEventId(r) && ids.decision > LastDecisionId(r);
    match op
    case OpSave(_, _, _, _) => EditsAreDraft(c, r, op, ids);
    case OpLinks(_, _, _, _, _, _) => EditsAreDraft(c, r, op, ids);
    case OpTransfer(_, _, _, _, _, _) => SentOnIs(c, r, op, ids);
    case OpSubmit(_, _, _, _) => SentOnIs(c, r, op, ids);
    case OpDecide(actor, reviewer, verdict, comment) => DecidedIs(c, r, actor, reviewer, verdict, comment, ids);
    case OpFinalize(_, _, _, _) => ClosedIs(c, r, op, ids);
    case OpAmend(_, _, _, _, _) => ClosedIs(c, r, op, ids);
  }

  /** The status, which is never stored, moves as the workflow says: in every
      reachable state a call is accepted only from where it may be, and the status
      then derived from the streams is the one it leads to; a refused call leaves it,
      and a new record is a draft. */
  lemma StatusIsAMachine(c: Codec, r: Record, op: Op, ids: Ids)
    requires Reachable(c, r) && Fresh(r, Step(op, ids))
    ensures StatusOf(After(c, r, op, ids)) == if Perform(c, r, op, ids).Done? then Leads(op) else StatusOf(r)
    ensures Perform(c, r, op, ids).Done? ==> Starts(r, op)
    ensures IsNew(r) ==> StatusOf(r) == Draft
  {
    ReachableHolds(c, r);
    if Perform(c, r, op, ids).Done? {
      StatusIs(c, r, op, ids);
    }
  }

  // --------------------------------------------------- what was actually called

  /** Along the run a decision call was accepted that left this row. */
  ghost predicate DecidedIn(c: Codec, r: Record, steps: seq<Step>, row: Decision)
    decreases |steps|
  {
    steps != []
    && (DecidesAs(c, r, steps[0], row) || DecidedIn(c, After(c, r, steps[0].op, steps[0].ids), steps[1..], row))
  }

  predicate DecidesAs(c: Codec, r: Record, step: Step, row: Decision) {
    && step.op.OpDecide? && step.op.reviewer && Perform(c, r, step.op, step.ids).Done?
    && row == Decision(step.ids.decision, step.op.actor, step.op.verdict, Trim(step.op.comment))
  }

  lemma StepDecides(c: Codec, r: Record, step: Step, row: Decision)
    requires row in After(c, r, step.op, step.ids).decisions && row !in r.decisions
    ensures DecidesAs(c, r, step, row)
  {
    match step.op
    case OpSave(_, _, _, _) =>
    case OpLinks(_, _, _, _, _, _) =>
    case OpTransfer(_, _, _, _, _, _) =>
    case OpSubmit(_, _, _, _) =>
    case OpDecide(_, _, _, _) =>
    case OpFinalize(_, _, _, _) =>
    case OpAmend(_, _, _, _, _) =>
  }

  lemma {:induction false} DecisionsWereMade(c: Codec, r: Record, steps: seq<Step>, r': Record, row: Decision)
    requires Run(c, r, steps, r') && row in r'.decisions && row !in r.decisions
    ensures DecidedIn(c, r, steps, row)
    decreases |steps|
  {
    var next := After(c, r, steps[0].op, steps[0].ids);
    if row in next.decisions {
      StepDecides(c, r, steps[0], row);
    } else {
      DecisionsWereMade(c, next, steps[1..], r', row);
    }
  }

  /** The cycle's approval is a row that a reviewer's approving call left. */
  ghost predicate ApprovedByCall(c: Codec, r0: Record, steps: seq<Step>, r: Record, k: nat, d: nat)
    requires k <= |r.amendments|
  {
    && CycleApproval(r, d, CycleFrom(r, k).1, CycleTo(r, k))
    && r.decisions[d].verdict == Approved && DecidedIn(c, r0, steps, r.decisions[d])
  }

  /** Where review is required, behind every version ever sealed stands a call, in
      the run that led there, in which a reviewer who had not shaped the record said
      it was approved, in that version's own cycle. */
  lemma EverySealWasApprovedByACall(c: Codec, r0: Record, steps: seq<Step>, r: Record, k: nat)
    requires IsNew(r0) && Run(c, r0, steps, r) && r.policy.reviewApproved && k < |r.versions|
    ensures k <= |r.amendments| && exists d: nat :: ApprovedByCall(c, r0, steps, r, k, d)
  {
    EverySealedVersionWasSubmitted(c, r, k);
    var d: nat :| CycleApproval(r, d, CycleFrom(r, k).1, CycleTo(r, k));
    DecisionsWereMade(c, r0, steps, r, r.decisions[d]);
    assert ApprovedByCall(c, r0, steps, r, k, d);
  }

  /** An accepted call by which this user shaped the record: a save, a link edit or
      a submission of theirs, or a transfer to them. */
  predicate ShapesAs(c: Codec, r: Record, step: Step, user: Id) {
    && Perform(c, r, step.op, step.ids).Done?
    && match step.op
       case OpSave(actor, _, _, _) => actor == user
       case OpLinks(actor, _, _, _, _, _) => actor == user
       case OpSubmit(actor, _, _, _) => actor == user
       case OpTransfer(_, _, _, to, _, _) => to == user
       case _ => false
  }

  ghost predicate ShapedIn(c: Codec, r: Record, steps: seq<Step>, user: Id)
    decreases |steps|
  {
    steps != [] && (ShapesAs(c, r, steps[0], user) || ShapedIn(c, After(c, r, steps[0].op, steps[0].ids), steps[1..], user))
  }

  ghost predicate Named(events: seq<Event>, user: Id) {
    exists e <- events :: Shapes(e, user)
  }

  lemma NamedMore(events: seq<Event>, e: Event, user: Id)
    ensures Named(events + [e], user) <==> Named(events, user) || Shapes(e, user)
  {
    forall x
      ensures x in events + [e] <==> x in events || x == e
    {
    }
  }

  lemma AttributeNames(r: Record, ids: Ids, actor: Id, user: Id)
    ensures Named(Attribute(r, ids, actor).events, user) <==> Named(r.events, user) || user == actor
  {
    var e := Event(ids.event, Contributed, actor, None);
    NamedMore(r.events, e, user);
    if Attribute(r, ids, actor).events == r.events {
      assert Last(r.events) in r.events;
      assert user == actor ==> Shapes(Last(r.events), user);
    }
  }

  lemma StepNames(c: Codec, r: Record, step: Step, user: Id)
    ensures Named(After(c, r, step.op, step.ids).events, user) <==> Named(r.events, user) || ShapesAs(c, r, step, user)
  {
    var op, ids := step.op, step.ids;
    if Perform(c, r, op, ids).Done? {
      match op
      case OpSave(actor, _, revision, input) =>
        AttributeNames(r.(copy := Stored(input), revision := r.revision + 1), ids, actor, user);
      case OpLinks(actor, may, revision, version, target, add) =>
        var edited := EditLinksEdits(r, actor, may, revision, version, target, add, ids);
        AttributeNames(edited, ids, actor, user);
      case OpTransfer(actor, _, _, to, _, _) =>
        NamedMore(r.events, Event(ids.event, OwnershipTransferred, actor, Some(to)), user);
      case OpSubmit(actor, _, _, _) => NamedMore(r.events, Event(ids.event, SubmittedForReview, actor, None), user);
      case OpDecide(actor, _, _, _) => NamedMore(r.events, Event(ids.event, ReviewDecided, actor, None), user);
      case OpFinalize(_, _, _, _) =>
      case OpAmend(_, _, _, _, _) =>
    }
  }

  lemma {:induction false} RunNames(c: Codec, r: Record, steps: seq<Step>, r': Record, user: Id)
    requires Run(c, r, steps, r')
    ensures Named(r'.events, user) <==> Named(r.events, user) || ShapedIn(c, r, steps, user)
    decreases |steps|
  {
    if steps != [] {
      StepNames(c, r, steps[0], user);
      RunNames(c, After(c, r, steps[0].op, steps[0].ids), steps[1..], r', user);
    }
  }

  /** The contributors are exactly those who created the record, had a save, a link
      edit or a submission accepted, or received it: attribution, which writes one
      event a working stretch, loses nobody and adds nobody. */
  lemma ContributorsAreThoseWhoActed(c: Codec, r0: Record, steps: seq<Step>, r: Record, user: Id)
    requires IsNew(r0) && Run(c, r0, steps, r)
    ensures IsContributor(r, user) <==> user == r0.owner || ShapedIn(c, r0, steps, user)
  {
    RunNames(c, r0, steps, r, user);
    assert Named(r0.events, user) <==> user == r0.owner by {
      assert r0.events[0] in r0.events;
      assert r0.events == [] + [r0.events[0]];
      NamedMore([], r0.events[0], user);
    }
    ContributorsAreShapers(c, r, user);
    ReachableHolds(c, r);
    if Named(r.events, user) {
      var e :| e in r.events && Shapes(e, user);
      LastIsLatest(r.events, e);
    }
  }

  // ------------------------------------------------- one event a working stretch

  /** Two contributions of one user in a row, when there are such, lie on either side
      of a reopening. */
  ghost predicate ReopenedBetween(r: Record, i: nat)
    requires i + 1 < |r.events|
  {
    exists k :: 0 <= k < |r.amendments| && r.events[i].id <= r.amendments[k].eventMark < r.events[i + 1].id
  }

  predicate Repeats(r: Record, i: nat)
    requires i + 1 < |r.events|
  {
    && r.events[i].kind == Contributed && r.events[i + 1].kind == Contributed
    && r.events[i].actor == r.events[i + 1].actor
  }

  ghost predicate Stretches(r: Record) {
    forall i: nat | i + 1 < |r.events| && Repeats(r, i) :: ReopenedBetween(r, i)
  }

  lemma OldStretches(r: Record, r': Record, i: nat)
    requires Stretches(r) && r.events <= r'.events && r.amendments <= r'.amendments
    requires i + 1 < |r.events| && Repeats(r', i)
    ensures ReopenedBetween(r', i)
  {
    assert Repeats(r, i);
    var k :| 0 <= k < |r.amendments| && r.events[i].id <= r.amendments[k].eventMark < r.events[i + 1].id;
    assert r'.amendments[k] == r.amendments[k];
  }

  /** An attribution that appends follows something else, or a reopening. */
  lemma AttributeStretches(c: Codec, r: Record, edited: Record, ids: Ids, actor: Id)
    requires Inv(c, r) && Stretches(r) && ids.event > LastEventId(r)
    requires edited == r.(copy := edited.copy, links := edited.links, revision := edited.revision)
    ensures Stretches(Attribute(edited, ids, actor))
  {
    var r' := Attribute(edited, ids, actor);
    OpenIsTheLast(edited);
    forall i: nat | i + 1 < |r'.events| && Repeats(r', i)
      ensures ReopenedBetween(r', i)
    {
      if i + 1 < |r.events| {
        OldStretches(r, r', i);
      } else {
        assert r'.events[i] == Last(r.events) && Last(r.events).actor == actor;
        assert Reopened(r);
        var k := |r.amendments| - 1;
        assert r'.amendments[k].eventMark >= r'.events[i].id;
      }
    }
  }

  lemma OtherCallsStretch(c: Codec, r: Record, op: Op, ids: Ids)
    requires Stretches(r) && !op.OpSave? && !op.OpLinks?
    ensures Stretches(After(c, r, op, ids))
  {
    var r' := After(c, r, op, ids);
    StepExtends(c, r, op, ids);
    forall i: nat | i + 1 < |r'.events| && Repeats(r', i)
      ensures ReopenedBetween(r', i)
    {
      AddsNoContribution(c, r, op, ids);
      OldStretches(r, r', i);
    }
  }

  lemma AddsNoContribution(c: Codec, r: Record, op: Op, ids: Ids)
    requires !op.OpSave? && !op.OpLinks?
    ensures var events := After(c, r, op, ids).events;
      events == r.events || (|events| == |r.events| + 1 && Last(events).kind != Contributed)
  {
    match op
    case OpTransfer(_, _, _, _, _, _) =>
    case OpSubmit(_, _, _, _) =>
    case OpDecide(_, _, _, _) =>
    case OpFinalize(_, _, _, _) =>
    case OpAmend(_, _, _, _, _) =>
  }

  lemma StepStretches(c: Codec, r: Record, step: Step)
    requires Inv(c, r) && Fresh(r, step) && Stretches(r)
    ensures Stretches(After(c, r, step.op, step.ids))
  {
    var op, ids := step.op, step.ids;
    if !Perform(c, r, op, ids).Done? {
    } else if op.OpSave? {
      AttributeStretches(c, r, r.(copy := Stored(op.input), revision := r.revision + 1), ids, op.actor);
    } else if op.OpLinks? {
      var edited := EditLinksEdits(r, op.actor, op.may, op.revision, op.version, op.target, op.add, ids);
      AttributeStretches(c, r, edited, ids, op.actor);
    } else {
      OtherCallsStretch(c, r, op, ids);
    }
  }

  lemma {:induction false} RunStretches(c: Codec, r: Record, steps: seq<Step>, r': Record)
    requires Inv(c, r) && Stretches(r) && Run(c, r, steps, r')
    ensures Stretches(r')
    decreases |steps|
  {
    if steps != [] {
      StepKeeps(c, r, steps[0]);
      StepStretches(c, r, steps[0]);
      RunStretches(c, After(c, r, steps[0].op, steps[0].ids), steps[1..], r');
    }
  }

  /** However often someone saves, a working stretch leaves one contribution: in no
      reachable record do two of one user stand next to each other, unless the record
      was reopened between them. */
  lemma OneEventAStretch(c: Codec, r: Record, i: nat)
    requires Reachable(c, r) && i + 1 < |r.events| && Repeats(r, i)
    ensures ReopenedBetween(r, i)
  {
    var r0, steps :| IsNew(r0) && Run(c, r0, steps, r);
    CreateKeeps(c, r0);
    RunStretches(c, r0, steps, r);
  }
}
