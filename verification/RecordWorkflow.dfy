/** The evaluation record's workflow: one mutable working copy with a revision
    token, append-only streams of events, decisions and snapshots, and a
    hash-chained list of sealed versions with the amendments between them.

    A record's status is derived from the streams and never stored. Each
    service call is one function from the committed state to its answer; a row
    inserted by a call takes the table's next id, which the call's `Ids` carry,
    so any interleaving with other records is a choice of ids. Answers read
    before the transaction (capabilities, the owner then) are parameters. */
module RecordWorkflow {
  import opened Basics
  import Canonical

  type Id = nat

  // ------------------------------------------------------------ vocabulary

  datatype Scale = NarrativeOnly | PassFail | Anchored(min: int, max: int)

  /** The pinned form: its competencies and their scales, its prompts and
      whether each is required, and the version's modifiers. */
  datatype Form = Form(
    summary: bool, competencies: map<Id, Scale>, narratives: map<Id, bool>, modifiers: set<Id>)

  datatype Policy = Policy(reviewApproved: bool, requiredNarratives: bool, ratingsComplete: bool)

  datatype RatingEntry = RatingEntry(competency: Id, value: Option<int>, notObserved: bool, modifiers: seq<Id>)

  datatype NarrativeEntry = NarrativeEntry(narrative: Id, text: string)

  /** What a save carries. */
  datatype DraftContent = DraftContent(ratings: seq<RatingEntry>, narratives: seq<NarrativeEntry>)

  datatype Rating = Rating(value: Option<int>, notObserved: bool, modifiers: set<Id>)

  /** The stored working copy, one row per competency and per prompt. */
  datatype Copy = Copy(ratings: map<Id, Rating>, narratives: map<Id, string>)

  // ---------------------------------------------------------------- tables

  datatype EventKind = Created | Contributed | OwnershipTransferred | SubmittedForReview | ReviewDecided

  datatype Event = Event(id: Id, kind: EventKind, actor: Id, to: Option<Id>)

  datatype Verdict = Approved | ChangesRequested | Returned

  datatype Decision = Decision(id: Id, reviewer: Id, verdict: Verdict, comment: string)

  datatype SnapshotReason = Submission | ChangeRequestReturn

  /** `event` is the event the same transaction appends. */
  datatype Snapshot = Snapshot(reason: SnapshotReason, content: Copy, takenBy: Id, event: Id)

  /** What a version's canonical bytes say. */
  datatype Envelope = Envelope(
    record: Id, number: nat, predecessorHash: Option<string>, copy: Copy, links: set<Id>,
    finalizedBy: Id, finalizedAt: int)

  datatype Version = Version(
    id: Id, number: nat, envelope: Envelope, canonical: Bytes,
    contentHash: string, chainHash: string, predecessor: Option<Id>)

  datatype Amendment = Amendment(
    predecessor: Id, reason: string, openedBy: Id, openedByName: string, openedAt: int,
    eventMark: Id, decisionMark: Id)

  datatype Record = Record(
    id: Id, enrollment: Id, form: Form, policy: Policy,
    owner: Id, revision: nat, copy: Copy, links: set<Id>,
    events: seq<Event>, decisions: seq<Decision>, snapshots: seq<Snapshot>,
    versions: seq<Version>, amendments: seq<Amendment>)

  /** The hash function and the envelope serializer, whatever they are. */
  datatype Codec = Codec(sha: Bytes -> Canonical.Digest, encode: Envelope -> Bytes)

  datatype Refusal =
    | CapabilityRequired | NoSuchUser | NotEligible | AlreadyOwner
    | DraftSubmitted | DraftApproved | DraftFinalized
    | StaleSave | DuplicateEntry | NoSuchFormCompetency | NoSuchFormNarrative | NoSuchModifier
    | ValueNotAllowed | ValueOutOfRange
    | NotASummary | NoSuchVersion | WrongEnrollment | NotADaily | DuplicateLink | NoSuchLink
    | NarrativesIncomplete | RatingsIncomplete
    | NotSubmitted | SelfReview | CommentRequired
    | AlreadyFinalized | NotApproved
    | ReasonRequired | NotFinalized | AmendmentOpen
    | Corrupt

  // ------------------------------------------------------------ derivations

  function Last<T>(s: seq<T>): T
    requires s != []
  {
    s[|s| - 1]
  }

  /** The open amendment: the one on the record's latest version. */
  function OpenAmendment(r: Record): Option<Amendment> {
    if r.versions == [] then None else AmendmentOf(r.amendments, Last(r.versions).id)
  }

  function AmendmentOf(amendments: seq<Amendment>, version: Id): Option<Amendment> {
    if amendments == [] then None
    else if Last(amendments).predecessor == version then Some(Last(amendments))
    else AmendmentOf(amendments[..|amendments| - 1], version)
  }

  /** The newest event after a mark; rows are kept in id order. */
  function LatestEvent(events: seq<Event>, mark: Id): Option<Event> {
    if events != [] && Last(events).id > mark then Some(Last(events)) else None
  }

  function LatestDecision(decisions: seq<Decision>, mark: Id): Option<Decision> {
    if decisions != [] && Last(decisions).id > mark then Some(Last(decisions)) else None
  }

  datatype Status = Draft | Submitted | ChangesWanted | ReturnedToDraft | ApprovedDraft | Finalized

  function StatusAfter(r: Record, eventMark: Id, decisionMark: Id): Status {
    match LatestEvent(r.events, eventMark)
    case None => Draft
    case Some(event) =>
      match event.kind
      case SubmittedForReview => Submitted
      case ReviewDecided =>
        (match LatestDecision(r.decisions, decisionMark)
         case None => Draft
         case Some(decision) =>
           match decision.verdict
           case Approved => ApprovedDraft
           case ChangesRequested => ChangesWanted
           case Returned => ReturnedToDraft)
      case _ => Draft
  }

  function StatusOf(r: Record): Status {
    if r.versions == [] then StatusAfter(r, 0, 0)
    else match OpenAmendment(r)
      case None => Finalized
      case Some(a) => StatusAfter(r, a.eventMark, a.decisionMark)
  }

  function FrozenRefusal(s: Status): Option<Refusal> {
    match s
    case Submitted => Some(DraftSubmitted)
    case ApprovedDraft => Some(DraftApproved)
    case Finalized => Some(DraftFinalized)
    case _ => None
  }

  /** Whose hands shaped the record: its owner, its authors and submitters, and
      whoever received it. */
  predicate IsContributor(r: Record, user: Id) {
    || r.owner == user
    || exists e <- r.events ::
         || (e.kind in {Created, Contributed, SubmittedForReview} && e.actor == user)
         || (e.kind == OwnershipTransferred && e.to == Some(user))
  }

  predicate NarrativesMissing(form: Form, copy: Copy) {
    exists n <- form.narratives :: form.narratives[n] && (n !in copy.narratives || Blank(copy.narratives[n]))
  }

  predicate RatingsMissing(form: Form, copy: Copy) {
    exists k <- form.competencies ::
      && !form.competencies[k].NarrativeOnly?
      && (k !in copy.ratings || (copy.ratings[k].value.None? && !copy.ratings[k].notObserved))
  }

  function RuleRefusal(r: Record): Option<Refusal> {
    if r.policy.requiredNarratives && NarrativesMissing(r.form, r.copy) then Some(NarrativesIncomplete)
    else if r.policy.ratingsComplete && RatingsMissing(r.form, r.copy) then Some(RatingsIncomplete)
    else None
  }

  // ------------------------------------------------------------------ saves

  function ValueRefusal(scale: Scale, e: RatingEntry): Option<Refusal> {
    if e.notObserved then
      if e.value.Some? || scale.NarrativeOnly? then Some(ValueNotAllowed) else None
    else match scale
      case NarrativeOnly => if e.value.Some? then Some(ValueNotAllowed) else None
      case PassFail => if e.value == Some(0) || e.value == Some(1) then None else Some(ValueOutOfRange)
      case Anchored(min, max) =>
        if e.value.Some? && min <= e.value.value <= max then None else Some(ValueOutOfRange)
  }

  function RatingRefusal(form: Form, e: RatingEntry): Option<Refusal> {
    if e.competency !in form.competencies then Some(NoSuchFormCompetency)
    else
      var value := ValueRefusal(form.competencies[e.competency], e);
      if value.Some? then value
      else if exists m <- e.modifiers :: m !in form.modifiers then Some(NoSuchModifier)
      else None
  }

  function RatingsRefusal(form: Form, entries: seq<RatingEntry>, seen: seq<Id>): Option<Refusal>
    decreases |entries|
  {
    if entries == [] then None
    else if entries[0].competency in seen then Some(DuplicateEntry)
    else
      var refusal := RatingRefusal(form, entries[0]);
      if refusal.Some? then refusal
      else RatingsRefusal(form, entries[1..], seen + [entries[0].competency])
  }

  function NarrativesRefusal(form: Form, entries: seq<NarrativeEntry>, seen: seq<Id>): Option<Refusal>
    decreases |entries|
  {
    if entries == [] then None
    else if entries[0].narrative in seen then Some(DuplicateEntry)
    else if entries[0].narrative !in form.narratives then Some(NoSuchFormNarrative)
    else NarrativesRefusal(form, entries[1..], seen + [entries[0].narrative])
  }

  function ContentRefusal(form: Form, input: DraftContent): Option<Refusal> {
    var ratings := RatingsRefusal(form, input.ratings, []);
    if ratings.Some? then ratings else NarrativesRefusal(form, input.narratives, [])
  }

  /** An entry as its rows hold it: each modifier once. */
  function RatingOf(e: RatingEntry): Rating {
    Rating(e.value, e.notObserved, set m <- e.modifiers)
  }

  function StoredRatings(entries: seq<RatingEntry>): map<Id, Rating> {
    if entries == [] then map[]
    else
      StoredRatings(entries[..|entries| - 1])[Last(entries).competency := RatingOf(Last(entries))]
  }

  function StoredNarratives(entries: seq<NarrativeEntry>): map<Id, string> {
    if entries == [] then map[]
    else StoredNarratives(entries[..|entries| - 1])[Last(entries).narrative := Last(entries).text]
  }

  function Stored(input: DraftContent): Copy {
    Copy(StoredRatings(input.ratings), StoredNarratives(input.narratives))
  }

  // --------------------------------------------------------------- services

  /** The next row ids of the tables a call may insert into. */
  datatype Ids = Ids(event: Id, decision: Id, version: Id)

  function AppendEvent(r: Record, ids: Ids, kind: EventKind, actor: Id, to: Option<Id>): Record {
    r.(events := r.events + [Event(ids.event, kind, actor, to)])
  }

  /** One contributed event per working stretch within one cycle. */
  function Attribute(r: Record, ids: Ids, actor: Id): Record {
    var mark := match OpenAmendment(r) case None => 0 case Some(a) => a.eventMark;
    var latest := LatestEvent(r.events, mark);
    if latest.Some? && latest.value.kind == Contributed && latest.value.actor == actor then r
    else AppendEvent(r, ids, Contributed, actor, None)
  }

  function Create(id: Id, enrollment: Id, form: Form, policy: Policy, actor: Id, event: Id): Record {
    Record(id, enrollment, form, policy, actor, 0, Copy(map[], map[]), {},
           [Event(event, Created, actor, None)], [], [], [], [])
  }

  function Save(r: Record, actor: Id, may: bool, revision: nat, input: DraftContent, ids: Ids): Outcome<Record, Refusal> {
    var frozen := FrozenRefusal(StatusOf(r));
    var invalid := ContentRefusal(r.form, input);
    if !may then Refused(CapabilityRequired)
    else if frozen.Some? then Refused(frozen.value)
    else if revision != r.revision then Refused(StaleSave)
    else if invalid.Some? then Refused(invalid.value)
    else Done(Attribute(r.(copy := Stored(input), revision := r.revision + 1), ids, actor))
  }

  /** The version a link names, as the tables hold it. */
  datatype LinkTarget = LinkTarget(enrollment: Id, daily: bool)

  function EditLinks(r: Record, actor: Id, may: bool, revision: nat, version: Id, target: Option<LinkTarget>,
                     add: bool, ids: Ids): Outcome<Record, Refusal> {
    var frozen := FrozenRefusal(StatusOf(r));
    if !may then Refused(CapabilityRequired)
    else if frozen.Some? then Refused(frozen.value)
    else if !r.form.summary then Refused(NotASummary)
    else if revision != r.revision then Refused(StaleSave)
    else if add && target.None? then Refused(NoSuchVersion)
    else if add && target.value.enrollment != r.enrollment then Refused(WrongEnrollment)
    else if add && !target.value.daily then Refused(NotADaily)
    else if add && version in r.links then Refused(DuplicateLink)
    else if !add && version !in r.links then Refused(NoSuchLink)
    else
      var links := if add then r.links + {version} else r.links - {version};
      Done(Attribute(r.(links := links, revision := r.revision + 1), ids, actor))
  }

  function Transfer(r: Record, actor: Id, coordinator: bool, ownerSeen: Id, to: Id, exists_: bool, eligible: bool,
                    ids: Ids): Outcome<Record, Refusal> {
    var frozen := FrozenRefusal(StatusOf(r));
    if actor != ownerSeen && !coordinator then Refused(CapabilityRequired)
    else if to == ownerSeen then Refused(AlreadyOwner)
    else if !exists_ then Refused(NoSuchUser)
    else if !eligible then Refused(NotEligible)
    else if frozen.Some? then Refused(frozen.value)
    else if actor != r.owner && !coordinator then Refused(CapabilityRequired)
    else if to == r.owner then Refused(AlreadyOwner)
    else Done(AppendEvent(r, ids, OwnershipTransferred, actor, Some(to)).(owner := to))
  }

  function Submit(r: Record, actor: Id, coordinator: bool, ownerSeen: Id, revision: nat, ids: Ids): Outcome<Record, Refusal> {
    var frozen := FrozenRefusal(StatusOf(r));
    var rule := RuleRefusal(r);
    if actor != ownerSeen && !coordinator then Refused(CapabilityRequired)
    else if frozen.Some? then Refused(frozen.value)
    else if actor != r.owner && !coordinator then Refused(CapabilityRequired)
    else if revision != r.revision then Refused(StaleSave)
    else if rule.Some? then Refused(rule.value)
    else
      var taken := r.(snapshots := r.snapshots + [Snapshot(Submission, r.copy, actor, ids.event)]);
      Done(AppendEvent(taken, ids, SubmittedForReview, actor, None))
  }

  /** The decision row and its paired event land together. */
  function Decide(r: Record, actor: Id, reviewer: bool, verdict: Verdict, comment: string, ids: Ids): Outcome<Record, Refusal> {
    if !reviewer then Refused(CapabilityRequired)
    else if verdict == ChangesRequested && Blank(comment) then Refused(CommentRequired)
    else if StatusOf(r) != Submitted then Refused(NotSubmitted)
    else if IsContributor(r, actor) then Refused(SelfReview)
    else
      var taken := if verdict == ChangesRequested
        then r.(snapshots := r.snapshots + [Snapshot(ChangeRequestReturn, r.copy, actor, ids.event)]) else r;
      var decided := taken.(decisions := r.decisions + [Decision(ids.decision, actor, verdict, Trim(comment))]);
      Done(AppendEvent(decided, ids, ReviewDecided, actor, None))
  }

  /** The version a seal would insert: the next number, an envelope committing
      to the predecessor's content hash, and a chain hash covering that hash
      and the bytes. `None` when the stored predecessor hash does not decode. */
  function Seal(c: Codec, r: Record, actor: Id, now: int, id: Id): Option<Version> {
    var first := r.versions == [];
    var number := if first then 1 else Last(r.versions).number + 1;
    var previousHash := if first then None else Some(Last(r.versions).contentHash);
    var envelope := Envelope(r.id, number, previousHash, r.copy, r.links, actor, now);
    var bytes := c.encode(envelope);
    match Canonical.ChainHash(c.sha, previousHash, bytes)
    case None => None
    case Some(chain) =>
      Some(Version(id, number, envelope, bytes, Canonical.ContentHash(c.sha, bytes), chain,
                   if first then None else Some(Last(r.versions).id)))
  }

  function Finalize(c: Codec, r: Record, actor: Id, reviewer: bool, revision: nat, now: int, ids: Ids): Outcome<Record, Refusal> {
    var rule := RuleRefusal(r);
    var version := Seal(c, r, actor, now, ids.version);
    if !reviewer then Refused(CapabilityRequired)
    else if r.versions != [] && OpenAmendment(r).None? then Refused(AlreadyFinalized)
    else if revision != r.revision then Refused(StaleSave)
    else if r.policy.reviewApproved && StatusOf(r) != ApprovedDraft then Refused(NotApproved)
    else if rule.Some? then Refused(rule.value)
    else if version.None? then Refused(Corrupt)
    else Done(r.(versions := r.versions + [version.value]))
  }

  function Amend(r: Record, actor: Id, reviewer: bool, reason: string, name: string, now: int): Outcome<Record, Refusal> {
    if !reviewer then Refused(CapabilityRequired)
    else if Blank(reason) then Refused(ReasonRequired)
    else if r.versions == [] then Refused(NotFinalized)
    else if OpenAmendment(r).Some? then Refused(AmendmentOpen)
    else
      var eventMark := if r.events == [] then 0 else Last(r.events).id;
      var decisionMark := if r.decisions == [] then 0 else Last(r.decisions).id;
      var row := Amendment(Last(r.versions).id, Trim(reason), actor, name, now, eventMark, decisionMark);
      Done(r.(amendments := r.amendments + [row], revision := r.revision + 1))
  }

  // ------------------------------------------------------------------- runs

  datatype Op =
    | OpSave(actor: Id, may: bool, revision: nat, input: DraftContent)
    | OpLinks(actor: Id, may: bool, revision: nat, version: Id, target: Option<LinkTarget>, add: bool)
    | OpTransfer(actor: Id, coordinator: bool, ownerSeen: Id, to: Id, exists_: bool, eligible: bool)
    | OpSubmit(actor: Id, coordinator: bool, ownerSeen: Id, revision: nat)
    | OpDecide(actor: Id, reviewer: bool, verdict: Verdict, comment: string)
    | OpFinalize(actor: Id, reviewer: bool, revision: nat, now: int)
    | OpAmend(actor: Id, reviewer: bool, reason: string, name: string, now: int)

  function Perform(c: Codec, r: Record, op: Op, ids: Ids): Outcome<Record, Refusal> {
    match op
    case OpSave(actor, may, revision, input) => Save(r, actor, may, revision, input, ids)
    case OpLinks(actor, may, revision, version, target, add) =>
      EditLinks(r, actor, may, revision, version, target, add, ids)
    case OpTransfer(actor, coordinator, ownerSeen, to, exists_, eligible) =>
      Transfer(r, actor, coordinator, ownerSeen, to, exists_, eligible, ids)
    case OpSubmit(actor, coordinator, ownerSeen, revision) => Submit(r, actor, coordinator, ownerSeen, revision, ids)
    case OpDecide(actor, reviewer, verdict, comment) => Decide(r, actor, reviewer, verdict, comment, ids)
    case OpFinalize(actor, reviewer, revision, now) => Finalize(c, r, actor, reviewer, revision, now, ids)
    case OpAmend(actor, reviewer, reason, name, now) => Amend(r, actor, reviewer, reason, name, now)
  }

  /** A refused call changes nothing. */
  function After(c: Codec, r: Record, op: Op, ids: Ids): Record {
    var outcome := Perform(c, r, op, ids);
    if outcome.Done? then outcome.value else r
  }

  datatype Step = Step(op: Op, ids: Ids)

  /** The next row ids are above every id already in the tables, and a user's
      stored name is never empty. */
  predicate Fresh(r: Record, step: Step) {
    && step.ids.event >= 1 && step.ids.decision >= 1
    && (forall e <- r.events :: e.id < step.ids.event)
    && (forall d <- r.decisions :: d.id < step.ids.decision)
    && (forall v <- r.versions :: v.id < step.ids.version)
    && (step.op.OpAmend? ==> step.op.name != "")
  }

  ghost predicate Run(c: Codec, r: Record, steps: seq<Step>, r': Record)
    decreases |steps|
  {
    if steps == [] then r == r'
    else Fresh(r, steps[0]) && Run(c, After(c, r, steps[0].op, steps[0].ids), steps[1..], r')
  }

  ghost predicate IsNew(r: Record) {
    exists event, actor | event >= 1 :: r == Create(r.id, r.enrollment, r.form, r.policy, actor, event)
  }

  ghost predicate Reachable(c: Codec, r: Record) {
    exists r0, steps :: IsNew(r0) && Run(c, r0, steps, r)
  }
}
