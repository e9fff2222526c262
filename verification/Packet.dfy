/** The trainee packet's documents and the order and shape checks a reader makes
    of each, from the documents alone. */
module Packet {
  import opened Basics
  import opened Lifecycle
  import opened Acknowledgments
  import Lineage

  // -------------------------------------------------------------- documents

  datatype VersionRef = VersionRef(number: int, labelText: string)

  datatype Actor = Actor(id: int, name: string)

  datatype EventDoc = EventDoc(
    id: int, kind: EventKind, at: int, actor: Option<Actor>, reason: string,
    from: Option<VersionRef>, to: Option<VersionRef>)

  datatype PhaseDoc = PhaseDoc(
    id: int, kind: PhaseKind, version: VersionRef, epoch: Option<int>, effective: int, recorded: int,
    actor: Option<Actor>, reason: string, from: Option<string>, to: Option<string>)

  datatype EnrollmentDoc = EnrollmentDoc(enrollment: int, events: seq<EventDoc>, phases: seq<PhaseDoc>)

  datatype SignoffDoc = SignoffDoc(
    id: int, task: int, version: VersionRef, category: string, competency: string, prompt: string,
    kind: SignoffKind, reason: string, signer: Actor, at: int)

  datatype AckDoc = AckDoc(
    record: int, number: int, kind: AckKind, response: string, user: Actor, recordedBy: Actor,
    recordedAt: int)

  datatype Manifest = Manifest(enrollment: int, trainee: int, pin: VersionRef, units: seq<Lineage.Unit>)

  // ------------------------------------------------------------------ shape

  predicate ActorShaped(actor: Option<Actor>) {
    actor.Some? ==> actor.value.name != ""
  }

  predicate EventShaped(d: EventDoc) {
    && ActorShaped(d.actor)
    && if d.kind.VersionChange? then
         && d.from.Some? && d.to.Some?
         && d.from.value.number >= 1 && d.to.value.number >= 1
         && d.from.value.number != d.to.value.number
         && d.reason != ""
       else d.from.None? && d.to.None?
  }

  predicate PhaseShaped(d: PhaseDoc) {
    && ActorShaped(d.actor)
    && d.version.number >= 1
    && d.from != Some("") && d.to != Some("")
    && (match d.kind
        case Advance => d.to.Some?
        case Return => d.from.Some? && d.to.Some?
        case Restart => d.from.Some? && d.to.Some?
        case _ => d.from.Some? && d.to.None?)
    && d.effective <= d.recorded
  }

  predicate AckShaped(d: AckDoc) {
    && d.user.name != "" && d.recordedBy.name != ""
    && (if d.kind == Spoken(Acknowledged) then d.response == "" else !Blank(d.response))
    && (d.kind.Spoken? <==> d.recordedBy.id == d.user.id)
  }

  predicate DescribesTaskLike(a: SignoffDoc, b: SignoffDoc) {
    && a.task == b.task && a.version == b.version
    && a.category == b.category && a.competency == b.competency && a.prompt == b.prompt
  }

  datatype ShapeError =
    | EmptySigner(id: int) | EmptyPrompt(id: int) | EmptyCompetency(id: int) | VersionBelowOne(id: int)
    | DescribesOtherwise(id: int, first: int) | RevokesNothing(id: int) | UnexplainedOverride(id: int)

  function SignoffError(first: map<int, SignoffDoc>, d: SignoffDoc): Option<ShapeError> {
    if d.signer.name == "" then Some(EmptySigner(d.id))
    else if d.prompt == "" then Some(EmptyPrompt(d.id))
    else if d.competency == "" then Some(EmptyCompetency(d.id))
    else if d.version.number < 1 then Some(VersionBelowOne(d.id))
    else if d.task in first && !DescribesTaskLike(d, first[d.task]) then Some(DescribesOtherwise(d.id, first[d.task].id))
    else if d.task !in first && d.kind.Revoked? then Some(RevokesNothing(d.id))
    else if d.task in first && Blank(d.reason) then Some(UnexplainedOverride(d.id))
    else None
  }

  /** The first row of each task. */
  function FirstForTask(rows: seq<SignoffDoc>): map<int, SignoffDoc> {
    if rows == [] then map[]
    else
      var first := FirstForTask(rows[..|rows| - 1]);
      if Last(rows).task in first then first else first[Last(rows).task := Last(rows)]
  }

  function SignoffErrors(rows: seq<SignoffDoc>): seq<ShapeError> {
    if rows == [] then []
    else
      var front := rows[..|rows| - 1];
      var error := SignoffError(FirstForTask(front), Last(rows));
      SignoffErrors(front) + (if error.Some? then [error.value] else [])
  }

  /** One pass in recorded order, remembering the first row of each task. */
  method SignoffShapeErrors(rows: seq<SignoffDoc>) returns (errors: seq<ShapeError>)
    ensures errors == SignoffErrors(rows)
  {
    var first: map<int, SignoffDoc> := map[];
    errors := [];
    var i := 0;
    while i < |rows|
      invariant 0 <= i <= |rows|
      invariant first == FirstForTask(rows[..i]) && errors == SignoffErrors(rows[..i])
    {
      assert rows[..i + 1][..i] == rows[..i];
      var error := SignoffError(first, rows[i]);
      if rows[i].task !in first {
        first := first[rows[i].task := rows[i]];
      }
      if error.Some? {
        errors := errors + [error.value];
      }
      i := i + 1;
    }
    assert rows[..i] == rows;
  }

  // ------------------------------------------- what a silent signoff scan says

  predicate SignedEarlier(rows: seq<SignoffDoc>, i: nat)
    requires i < |rows|
  {
    exists j | 0 <= j < i :: rows[j].task == rows[i].task
  }

  /** Row `i` is complete; a later row for its task says why, the first revokes
      nothing. */
  predicate RowShaped(rows: seq<SignoffDoc>, i: nat)
    requires i < |rows|
  {
    var d := rows[i];
    && d.signer.name != "" && d.prompt != "" && d.competency != "" && d.version.number >= 1
    && (if SignedEarlier(rows, i) then !Blank(d.reason) else !d.kind.Revoked?)
  }

  /** All rows of one task describe it alike. */
  ghost predicate TasksDescribedOnce(rows: seq<SignoffDoc>) {
    forall i, j | 0 <= i < |rows| && 0 <= j < |rows| ::
      rows[i].task == rows[j].task ==> DescribesTaskLike(rows[i], rows[j])
  }

  ghost predicate SignoffsShaped(rows: seq<SignoffDoc>) {
    (forall i | 0 <= i < |rows| :: RowShaped(rows, i)) && TasksDescribedOnce(rows)
  }

  lemma {:induction false} FirstIsFirst(rows: seq<SignoffDoc>)
    ensures forall task <- FirstForTask(rows) :: FirstForTask(rows)[task] in rows && FirstForTask(rows)[task].task == task
    ensures forall i | 0 <= i < |rows| :: rows[i].task in FirstForTask(rows)
  {
    if rows != [] {
      var front := rows[..|rows| - 1];
      FirstIsFirst(front);
      assert rows == front + [Last(rows)];
      assert Last(rows) in rows;
      forall i | 0 <= i < |rows|
        ensures rows[i].task in FirstForTask(rows)
      {
        if i < |front| {
          assert front[i] == rows[i];
        }
      }
    }
  }

  lemma ErrorsGrow(front: seq<SignoffDoc>, d: SignoffDoc)
    ensures SignoffErrors(front + [d]) == [] <==>
      SignoffErrors(front) == [] && SignoffError(FirstForTask(front), d) == None
  {
    assert (front + [d])[..|front|] == front;
  }

  lemma EarlierIsInFirst(rows: seq<SignoffDoc>, n: nat)
    requires n < |rows|
    ensures SignedEarlier(rows, n) <==> rows[n].task in FirstForTask(rows[..n])
  {
    FirstIsFirst(rows[..n]);
    if rows[n].task in FirstForTask(rows[..n]) {
      var d := FirstForTask(rows[..n])[rows[n].task];
      var j :| 0 <= j < n && rows[..n][j] == d;
      assert rows[j].task == rows[n].task;
    }
    if SignedEarlier(rows, n) {
      var j :| 0 <= j < n && rows[j].task == rows[n].task;
      assert rows[..n][j].task in FirstForTask(rows[..n]);
    }
  }

  /** Comparing each row with its task's first row compares every pair. */
  lemma OneMoreDescribed(front: seq<SignoffDoc>, d: SignoffDoc)
    requires TasksDescribedOnce(front)
    ensures TasksDescribedOnce(front + [d]) <==>
      (d.task in FirstForTask(front) ==> DescribesTaskLike(d, FirstForTask(front)[d.task]))
  {
    var rows, n := front + [d], |front|;
    FirstIsFirst(front);
    if d.task in FirstForTask(front) {
      var first := FirstForTask(front)[d.task];
      var k :| 0 <= k < n && front[k] == first;
      assert rows[k] == first && rows[n] == d;
      if DescribesTaskLike(d, first) {
        forall i, j | 0 <= i < |rows| && 0 <= j < |rows| && rows[i].task == rows[j].task
          ensures DescribesTaskLike(rows[i], rows[j])
        {
          if i < n {
            assert rows[i] == front[i];
            assert rows[i].task == d.task ==> DescribesTaskLike(front[i], front[k]);
          }
          if j < n {
            assert rows[j] == front[j];
            assert rows[j].task == d.task ==> DescribesTaskLike(front[j], front[k]);
          }
        }
      }
    } else {
      forall i, j | 0 <= i < |rows| && 0 <= j < |rows| && rows[i].task == rows[j].task
        ensures DescribesTaskLike(rows[i], rows[j])
      {
        assert i < n ==> rows[i] == front[i] && front[i].task in FirstForTask(front);
        assert j < n ==> rows[j] == front[j] && front[j].task in FirstForTask(front);
      }
    }
  }

  lemma RowsShapedInPrefix(front: seq<SignoffDoc>, d: SignoffDoc, i: nat)
    requires i < |front|
    ensures RowShaped(front + [d], i) == RowShaped(front, i)
  {
    var rows := front + [d];
    assert forall j | 0 <= j <= i :: rows[j] == front[j];
  }

  /** The signoff scan is exact: no error if and only if every row is complete
      and explained, and every task is described in one way only. */
  lemma {:induction false} SignoffShapesAreExact(rows: seq<SignoffDoc>)
    ensures SignoffErrors(rows) == [] <==> SignoffsShaped(rows)
  {
    if rows != [] {
      var n := |rows| - 1;
      var front, d := rows[..n], rows[n];
      assert rows == front + [d];
      SignoffShapesAreExact(front);
      ErrorsGrow(front, d);
      EarlierIsInFirst(rows, n);
      forall i: nat | i < n
        ensures RowShaped(rows, i) == RowShaped(front, i)
      {
        RowsShapedInPrefix(front, d, i);
      }
      if TasksDescribedOnce(rows) {
        forall i, j | 0 <= i < n && 0 <= j < n && front[i].task == front[j].task
          ensures DescribesTaskLike(front[i], front[j])
        {
          assert rows[i] == front[i] && rows[j] == front[j];
        }
      }
      if TasksDescribedOnce(front) {
        OneMoreDescribed(front, d);
      }
      assert SignoffError(FirstForTask(front), d) == None <==>
        && RowShaped(rows, n)
        && (d.task in FirstForTask(front) ==> DescribesTaskLike(d, FirstForTask(front)[d.task]));
    }
  }
}
