/** What the workflow promises over every run: an approved draft can be sealed,
    no update is lost, history only grows, the chain verifies, and the review
    queue shows the records under review. */
module RecordTheorems {
  import opened Basics
  import opened RecordWorkflow
  import opened RecordInvariant
  import Canonical

  // ------------------------------------------------------- what is sealed

  /** A change request's snapshot is the submission it answers, in every
      reachable history. */
  lemma ChangeRequestsAnswerSubmissions(c: Codec, r: Record, i: nat)
    requires Reachable(c, r) && i < |r.snapshots| && r.snapshots[i].reason == ChangeRequestReturn
    ensures AnswersLast(r.snapshots[..i], r.snapshots[i])
  {
    ReachableHolds(c, r);
  }

  /** An approved draft is never wedged: a reviewer who seals it with the
      current revision is not refused, in any amendment cycle. */
  lemma ApprovedIsNeverWedged(c: Codec, r: Record, reviewer: Id, now: int, ids: Ids)
    requires Reachable(c, r) && StatusOf(r) == ApprovedDraft
    ensures Finalize(c, r, reviewer, true, r.revision, now, ids).Done?
  {
    ReachableHolds(c, r);
    StatusByMarks(r);
    OpenIsTheLast(r);
    SealLinks(c, r, reviewer, now, ids.version);
  }

  /** The pinned rules: where narratives are required each required one has a text,
      where ratings are to be complete each competency with a scale is rated or
      marked as not observed. */
  predicate RulesMet(r: Record) {
    && (r.policy.requiredNarratives ==>
          forall n <- r.form.narratives :: r.form.narratives[n] ==> n in r.copy.narratives && !Blank(r.copy.narratives[n]))
    && (r.policy.ratingsComplete ==>
          forall k <- r.form.competencies :: !r.form.competencies[k].NarrativeOnly? ==>
            k in r.copy.ratings && (r.copy.ratings[k].value.Some? || r.copy.ratings[k].notObserved))
  }

  lemma RulesMetExactly(r: Record)
    ensures RuleRefusal(r) == None <==> RulesMet(r)
  {
  }

  /** What finalization refuses, exactly: in every reachable state it succeeds if
      and only if the caller reviews, the record is not finalized, the revision
      is the one now current, and the copy was approved, or, where no review is
      required, meets the pinned rules. The stored predecessor hash always
      decodes. */
  lemma FinalizeAcceptedExactly(c: Codec, r: Record, actor: Id, reviewer: bool, revision: nat, now: int, ids: Ids)
    requires Reachable(c, r)
    ensures Finalize(c, r, actor, reviewer, revision, now, ids).Done? <==>
      && reviewer && StatusOf(r) != Finalized && revision == r.revision
      && (if r.policy.reviewApproved then StatusOf(r) == ApprovedDraft else RulesMet(r))
  {
    ReachableHolds(c, r);
    RulesMetExactly(r);
    StatusByMarks(r);
    OpenIsTheLast(r);
    SealLinks(c, r, actor, now, ids.version);
  }

  /** The branch of the status derivation for a decided event with no decision
      is never taken. */
  lemma UnmatchedDecisionIsUnreachable(c: Codec, r: Record)
    requires Reachable(c, r)
    ensures var marks := match OpenAmendment(r) case None => (0, 0) case Some(a) => (a.eventMark, a.decisionMark);
      var latest := LatestEvent(r.events, marks.0);
      latest.Some? && latest.value.kind == ReviewDecided ==> LatestDecision(r.decisions, marks.1).Some?
  {
    ReachableHolds(c, r);
    OpenIsTheLast(r);
  }

  // -------------------------------------------------------- the working copy

  /** One call moves the revision by at most one, and leaves the copy alone
      unless it moves it. */
  lemma StepMovesRevision(c: Codec, r: Record, op: Op, ids: Ids)
    ensures var r' := After(c, r, op, ids);
      && r.revision <= r'.revision <= r.revision + 1
      && (r'.revision == r.revision ==> r'.copy == r.copy && r'.links == r.links)
  {
  }

  /** No lost update: along any run, two states with the same revision hold the
      same ratings, narratives and links. */
  lemma {:induction false} SameRevisionSameCopy(c: Codec, r: Record, steps: seq<Step>, r': Record)
    requires Run(c, r, steps, r')
    ensures r.revision <= r'.revision
    ensures r'.revision == r.revision ==> r'.copy == r.copy && r'.links == r.links
    decreases |steps|
  {
    if steps != [] {
      StepMovesRevision(c, r, steps[0].op, steps[0].ids);
      SameRevisionSameCopy(c, After(c, r, steps[0].op, steps[0].ids), steps[1..], r');
    }
  }

  function ViewedRevision(op: Op): Option<nat> {
    match op
    case OpSave(_, _, revision, _) => Some(revision)
    case OpLinks(_, _, revision, _, _, _) => Some(revision)
    case OpSubmit(_, _, _, revision) => Some(revision)
    case OpFinalize(_, _, revision, _) => Some(revision)
    case _ => None
  }

  /** Every accepted save, link edit, submission or seal acts on exactly the
      copy its caller viewed, whatever ran in between; the last two put that
      copy into the snapshot or the version. */
  lemma AcceptedCallsActOnWhatWasViewed(c: Codec, viewed: Record, steps: seq<Step>, r: Record, op: Op, ids: Ids)
    requires Run(c, viewed, steps, r)
    requires ViewedRevision(op) == Some(viewed.revision) && Perform(c, r, op, ids).Done?
    ensures r.copy == viewed.copy && r.links == viewed.links
    ensures var r' := After(c, r, op, ids);
      && (op.OpSubmit? ==> Last(r'.snapshots) == Snapshot(Submission, viewed.copy, op.actor, ids.event))
      && (op.OpFinalize? ==> Last(r'.versions).envelope.copy == viewed.copy
                             && Last(r'.versions).envelope.links == viewed.links)
      && (op.OpSave? ==> r'.links == viewed.links && r'.revision == viewed.revision + 1)
      && (op.OpLinks? ==> r'.copy == viewed.copy && r'.revision == viewed.revision + 1
                          && r'.links == if op.add then viewed.links + {op.version} else viewed.links - {op.version})
  {
    SameRevisionSameCopy(c, viewed, steps, r);
  }

  // ------------------------------------------------------- permanent history

  ghost predicate Extends(r: Record, r': Record) {
    && r.events <= r'.events && r.decisions <= r'.decisions && r.snapshots <= r'.snapshots
    && r.versions <= r'.versions && r.amendments <= r'.amendments
    && r'.id == r.id && r'.form == r.form && r'.policy == r.policy && r'.enrollment == r.enrollment
  }

  lemma StepExtends(c: Codec, r: Record, op: Op, ids: Ids)
    ensures Extends(r, After(c, r, op, ids))
  {
    match op
    case OpSave(_, _, _, _) =>
    case OpLinks(_, _, _, _, _, _) =>
    case OpTransfer(_, _, _, _, _, _) =>
    case OpSubmit(_, _, _, _) =>
    case OpDecide(_, _, _, _) =>
    case OpFinalize(_, _, _, _) =>
    case OpAmend(_, _, _, _, _) =>
  }

  lemma ExtendsTrans(a: Record, b: Record, d: Record)
    requires Extends(a, b) && Extends(b, d)
    ensures Extends(a, d)
  {
  }

  /** Earlier versions, amendments, decisions, snapshots and events never
      change: every run only appends. */
  lemma {:induction false} HistoryOnlyGrows(c: Codec, r: Record, steps: seq<Step>, r': Record)
    requires Run(c, r, steps, r')
    ensures Extends(r, r')
    decreases |steps|
  {
    if steps != [] {
      var r1 := After(c, r, steps[0].op, steps[0].ids);
      StepExtends(c, r, steps[0].op, steps[0].ids);
      HistoryOnlyGrows(c, r1, steps[1..], r');
      ExtendsTrans(r, r1, r');
    }
  }

  /** The versions are numbered from 1 without gaps and each names the one
      before it, by row and by the content hash its bytes commit to. */
  lemma VersionsFormAChain(c: Codec, r: Record)
    requires Reachable(c, r)
    ensures forall k | 0 <= k < |r.versions| ::
      && r.versions[k].number == k + 1
      && r.versions[k].predecessor == (if k == 0 then None else Some(r.versions[k - 1].id))
      && r.versions[k].envelope.predecessorHash == (if k == 0 then None else Some(r.versions[k - 1].contentHash))
    ensures forall j, k | 0 <= j < k < |r.versions| :: r.versions[j].id != r.versions[k].id
  {
    ReachableHolds(c, r);
    forall k | 0 <= k < |r.versions|
      ensures r.versions[k].number == k + 1
      ensures r.versions[k].predecessor == (if k == 0 then None else Some(r.versions[k - 1].id))
      ensures r.versions[k].envelope.predecessorHash == (if k == 0 then None else Some(r.versions[k - 1].contentHash))
    {
      assert LinkHolds(c, r, k);
    }
  }

  /** Every superseded version was superseded through exactly one amendment; at
      most one amendment is open, and it is on the latest version. */
  lemma OneAmendmentPerSuccession(c: Codec, r: Record)
    requires Reachable(c, r)
    ensures forall k | 0 <= k < |r.amendments| :: k < |r.versions| && r.amendments[k].predecessor == r.versions[k].id
    ensures forall i, j | 0 <= i < j < |r.amendments| :: r.amendments[i].predecessor != r.amendments[j].predecessor
    ensures OpenAmendment(r).Some? ==> OpenAmendment(r).value.predecessor == Last(r.versions).id
    ensures |r.versions| == |r.amendments| + (if r.versions == [] || OpenAmendment(r).Some? then 0 else 1)
  {
    ReachableHolds(c, r);
    OpenIsTheLast(r);
  }

  // ------------------------------------------------------------- verification

  datatype Verification = Verification(contentOk: bool, chainOk: bool)

  function VersionAt(versions: seq<Version>, number: Option<nat>): Option<Version> {
    if versions == [] then None
    else if number == None || number == Some(Last(versions).number) then Some(Last(versions))
    else VersionAt(versions[..|versions| - 1], number)
  }

  function VersionById(versions: seq<Version>, id: Id): Option<Version> {
    if versions == [] then None
    else if Last(versions).id == id then Some(Last(versions))
    else VersionById(versions[..|versions| - 1], id)
  }

  /** Recomputes both fingerprints of a version from its stored bytes, the
      latest when no number is named. */
  function VerifyAt(c: Codec, r: Record, number: Option<nat>): Option<Verification> {
    match VersionAt(r.versions, number)
    case None => None
    case Some(v) =>
      Some(Verification(
        Canonical.ContentHash(c.sha, v.canonical) == v.contentHash,
        Canonical.ChainHash(c.sha, PredecessorHash(r, v), v.canonical) == Some(v.chainHash)))
  }

  /** The content hash of the row a version names as its predecessor. */
  function PredecessorHash(r: Record, v: Version): Option<string> {
    var previous := if v.predecessor.Some? then VersionById(r.versions, v.predecessor.value) else None;
    if previous.Some? then Some(previous.value.contentHash) else None
  }

  lemma {:induction false} FindByNumber(versions: seq<Version>, number: nat)
    requires forall k | 0 <= k < |versions| :: versions[k].number == k + 1
    ensures VersionAt(versions, Some(number))
            == if 1 <= number <= |versions| then Some(versions[number - 1]) else None
  {
    if versions != [] && number != |versions| {
      FindByNumber(versions[..|versions| - 1], number);
    }
  }

  lemma {:induction false} FindById(versions: seq<Version>, k: nat)
    requires VersionsAscend(versions) && k < |versions|
    ensures VersionById(versions, versions[k].id) == Some(versions[k])
  {
    if k < |versions| - 1 {
      FindById(versions[..|versions| - 1], k);
    }
  }

  lemma StoredVersionVerifies(c: Codec, r: Record, k: nat)
    requires VersionsAscend(r.versions) && Chained(c, r) && k < |r.versions|
    ensures var v := r.versions[k];
      && Canonical.ContentHash(c.sha, v.canonical) == v.contentHash
      && Canonical.ChainHash(c.sha, PredecessorHash(r, v), v.canonical) == Some(v.chainHash)
  {
    assert LinkHolds(c, r, k);
    if k > 0 {
      FindById(r.versions, k - 1);
    }
  }

  lemma {:induction false} FindsAVersion(c: Codec, r: Record, number: Option<nat>)
    requires Chained(c, r)
    ensures var known := if number.None? then r.versions != [] else 1 <= number.value <= |r.versions|;
      && VersionAt(r.versions, number).Some? == known
      && (known ==> VersionAt(r.versions, number).value in r.versions)
  {
    forall k | 0 <= k < |r.versions|
      ensures r.versions[k].number == k + 1
    {
      assert LinkHolds(c, r, k);
    }
    if number.Some? {
      FindByNumber(r.versions, number.value);
    }
  }

  /** Both fingerprints of every stored version verify, in every reachable
      state; a number no version has answers nothing. */
  lemma EveryVersionVerifies(c: Codec, r: Record, number: Option<nat>)
    requires Reachable(c, r)
    ensures var known := if number.None? then r.versions != [] else 1 <= number.value <= |r.versions|;
      VerifyAt(c, r, number) == if known then Some(Verification(true, true)) else None
  {
    ReachableHolds(c, r);
    FindsAVersion(c, r, number);
    if VersionAt(r.versions, number).Some? {
      var v := VersionAt(r.versions, number).value;
      var k :| 0 <= k < |r.versions| && r.versions[k] == v;
      StoredVersionVerifies(c, r, k);
    }
  }

  // -------------------------------------------------------------- the queue

  /** The review queue's query: it reads the newest event and no marks. */
  predicate InQueue(r: Record) {
    r.events != [] && Last(r.events).kind == SubmittedForReview
  }

  /** The queue is exact up to records sealed while under review, which only a
      policy without required review allows. */
  lemma QueueShowsSubmitted(c: Codec, r: Record)
    requires Reachable(c, r)
    ensures StatusOf(r) == Submitted <==> InQueue(r) && !QuietSinceSeal(r)
    ensures r.policy.reviewApproved ==> (InQueue(r) <==> StatusOf(r) == Submitted)
  {
    ReachableHolds(c, r);
    StatusByMarks(r);
  }

  /** The queue's eligibility flag for a reviewer. */
  predicate Eligible(r: Record, user: Id) {
    if || r.owner == user
       || exists e <- r.events ::
            || (e.kind in {Created, Contributed, SubmittedForReview} && e.actor == user)
            || (e.kind == OwnershipTransferred && e.to == Some(user))
    then false else true
  }

  /** The queue offers a reviewer exactly what a decision would accept: where
      review is required, a record is listed as eligible for a reviewer if and
      only if their decision on it is not refused. */
  lemma QueueOffersWhatDecideAccepts(c: Codec, r: Record, reviewer: Id, verdict: Verdict, comment: string, ids: Ids)
    requires Reachable(c, r) && r.policy.reviewApproved
    requires verdict == ChangesRequested ==> !Blank(comment)
    ensures InQueue(r) && Eligible(r, reviewer) <==> Decide(r, reviewer, true, verdict, comment, ids).Done?
  {
    QueueShowsSubmitted(c, r);
  }

  /** Such a record: created, submitted, and sealed under a policy that does not
      require review, it stays in the queue though it is finalized. */
  lemma SealedWhileSubmittedStaysQueued(c: Codec, form: Form)
    ensures var policy := Policy(false, false, false);
      var r0 := Create(1, 1, form, policy, 7, 1);
      var r1 := After(c, r0, OpSubmit(7, false, 7, 0), Ids(2, 1, 1));
      var r2 := After(c, r1, OpFinalize(8, true, 0, 0), Ids(3, 1, 1));
      Reachable(c, r2) && InQueue(r2) && StatusOf(r2) == Finalized
  {
    var r0 := Create(1, 1, form, Policy(false, false, false), 7, 1);
    var s1, s2 := Step(OpSubmit(7, false, 7, 0), Ids(2, 1, 1)), Step(OpFinalize(8, true, 0, 0), Ids(3, 1, 1));
    var r1 := After(c, r0, s1.op, s1.ids);
    var r2 := After(c, r1, s2.op, s2.ids);
    assert IsNew(r0);
    assert [s1, s2][1..] == [s2] && [s2][1..] == [];
    assert Run(c, r2, [], r2);
    assert Run(c, r1, [s2], r2);
    assert Run(c, r0, [s1, s2], r2);
  }

  // ------------------------------------------------------------------ saves

  ghost predicate Distinct(input: DraftContent) {
    && (forall i, j | 0 <= i < j < |input.ratings| :: input.ratings[i].competency != input.ratings[j].competency)
    && (forall i, j | 0 <= i < j < |input.narratives| :: input.narratives[i].narrative != input.narratives[j].narrative)
  }

  /** An entry the pinned form admits: its value is what the scale takes, or the
      explicit not-observed marker where a value could be. */
  predicate Admitted(form: Form, e: RatingEntry) {
    && e.competency in form.competencies
    && (forall m <- e.modifiers :: m in form.modifiers)
    && match form.competencies[e.competency]
       case NarrativeOnly => e.value.None? && !e.notObserved
       case PassFail => if e.notObserved then e.value.None? else e.value in {Some(0), Some(1)}
       case Anchored(min, max) =>
         if e.notObserved then e.value.None? else e.value.Some? && min <= e.value.value <= max
  }

  lemma {:induction false} RatingsAccepted(form: Form, entries: seq<RatingEntry>, seen: seq<Id>)
    ensures RatingsRefusal(form, entries, seen) == None <==>
      && (forall i | 0 <= i < |entries| :: Admitted(form, entries[i]) && entries[i].competency !in seen)
      && (forall i, j | 0 <= i < j < |entries| :: entries[i].competency != entries[j].competency)
    decreases |entries|
  {
    if entries != [] {
      var rest, seen' := entries[1..], seen + [entries[0].competency];
      RatingsAccepted(form, rest, seen');
      assert forall i | 0 < i < |entries| :: entries[i] == rest[i - 1];
      assert RatingRefusal(form, entries[0]) == None <==> Admitted(form, entries[0]);
      if RatingsRefusal(form, entries, seen) == None {
        forall i, j | 0 <= i < j < |entries|
          ensures entries[i].competency != entries[j].competency
        {
          assert rest[j - 1].competency !in seen';
        }
      }
    }
  }

  lemma {:induction false} NarrativesAccepted(form: Form, entries: seq<NarrativeEntry>, seen: seq<Id>)
    ensures NarrativesRefusal(form, entries, seen) == None <==>
      && (forall i | 0 <= i < |entries| :: entries[i].narrative in form.narratives && entries[i].narrative !in seen)
      && (forall i, j | 0 <= i < j < |entries| :: entries[i].narrative != entries[j].narrative)
    decreases |entries|
  {
    if entries != [] {
      var rest, seen' := entries[1..], seen + [entries[0].narrative];
      NarrativesAccepted(form, rest, seen');
      assert forall i | 0 < i < |entries| :: entries[i] == rest[i - 1];
      if NarrativesRefusal(form, entries, seen) == None {
        forall i, j | 0 <= i < j < |entries|
          ensures entries[i].narrative != entries[j].narrative
        {
          assert rest[j - 1].narrative !in seen';
        }
      }
    }
  }

  /** A save's content is accepted exactly when no entry repeats and the pinned
      form admits every one. */
  lemma ContentAcceptedExactly(form: Form, input: DraftContent)
    ensures ContentRefusal(form, input) == None <==>
      && Distinct(input)
      && (forall i | 0 <= i < |input.ratings| :: Admitted(form, input.ratings[i]))
      && (forall i | 0 <= i < |input.narratives| :: input.narratives[i].narrative in form.narratives)
  {
    RatingsAccepted(form, input.ratings, []);
    NarrativesAccepted(form, input.narratives, []);
  }

  lemma {:induction false} StoredRatingsReadBack(entries: seq<RatingEntry>)
    requires forall i, j | 0 <= i < j < |entries| :: entries[i].competency != entries[j].competency
    ensures forall k :: k in StoredRatings(entries) <==> exists i | 0 <= i < |entries| :: entries[i].competency == k
    ensures forall i | 0 <= i < |entries| ::
      && entries[i].competency in StoredRatings(entries)
      && StoredRatings(entries)[entries[i].competency] == RatingOf(entries[i])
  {
    if entries != [] {
      var last := |entries| - 1;
      var front := entries[..last];
      StoredRatingsReadBack(front);
      forall k | k in StoredRatings(entries)
        ensures exists i | 0 <= i < |entries| :: entries[i].competency == k
      {
        if k == entries[last].competency {
          assert entries[last].competency == k;
        } else {
          assert k in StoredRatings(front);
          var i :| 0 <= i < |front| && front[i].competency == k;
          assert entries[i].competency == k;
        }
      }
    }
  }

  lemma {:induction false} StoredNarrativesReadBack(entries: seq<NarrativeEntry>)
    requires forall i, j | 0 <= i < j < |entries| :: entries[i].narrative != entries[j].narrative
    ensures forall k :: k in StoredNarratives(entries) <==> exists i | 0 <= i < |entries| :: entries[i].narrative == k
    ensures forall i | 0 <= i < |entries| ::
      && entries[i].narrative in StoredNarratives(entries)
      && StoredNarratives(entries)[entries[i].narrative] == entries[i].text
  {
    if entries != [] {
      var last := |entries| - 1;
      var front := entries[..last];
      StoredNarrativesReadBack(front);
      forall k | k in StoredNarratives(entries)
        ensures exists i | 0 <= i < |entries| :: entries[i].narrative == k
      {
        if k == entries[last].narrative {
          assert entries[last].narrative == k;
        } else {
          assert k in StoredNarratives(front);
          var i :| 0 <= i < |front| && front[i].narrative == k;
          assert entries[i].narrative == k;
        }
      }
    }
  }

  /** An accepted save replaces the copy with its input: reading it back gives
      every rating and narrative saved, and nothing else. */
  lemma AcceptedSaveReadsBack(r: Record, actor: Id, may: bool, revision: nat, input: DraftContent, ids: Ids)
    requires Save(r, actor, may, revision, input, ids).Done?
    ensures var copy := Save(r, actor, may, revision, input, ids).value.copy;
      && (forall i | 0 <= i < |input.ratings| ::
            var e := input.ratings[i];
            && e.competency in copy.ratings
            && copy.ratings[e.competency].value == e.value
            && copy.ratings[e.competency].notObserved == e.notObserved
            && forall m :: m in copy.ratings[e.competency].modifiers <==> m in e.modifiers)
      && (forall k <- copy.ratings :: exists i | 0 <= i < |input.ratings| :: input.ratings[i].competency == k)
      && (forall i | 0 <= i < |input.narratives| ::
            var e := input.narratives[i];
            && e.narrative in copy.narratives
            && copy.narratives[e.narrative] == e.text)
      && (forall k <- copy.narratives :: exists i | 0 <= i < |input.narratives| :: input.narratives[i].narrative == k)
  {
    ContentAcceptedExactly(r.form, input);
    StoredRatingsReadBack(input.ratings);
    StoredNarrativesReadBack(input.narratives);
  }
}
