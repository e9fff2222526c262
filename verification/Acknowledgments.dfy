/** Acknowledgments of finalized versions: the trainee's own word on the latest
    version, or a reviewer's statement about the trainee; one a version. */
module Acknowledgments {
  import opened Basics
  import opened RecordWorkflow

  datatype TraineeKind = Acknowledged | AcknowledgedWithResponse | RefusedToAcknowledge

  datatype AttestedKind = SupervisorAttestedRefusal | Unavailable

  datatype AckKind = Spoken(own: TraineeKind) | Attested(about: AttestedKind)

  datatype Ack = Ack(
    kind: AckKind, response: string, user: int, userName: string, recordedBy: int, recordedByName: string,
    recordedAt: int)

  datatype AckRefusal =
    | NoAuthority | ResponseNotAllowed | ResponseRequired
    | NothingFinalized | NotYourRecord | SelfAttestation | AlreadyAcknowledged

  /** A record with its acknowledgments, each bound to a version's row. */
  datatype Dossier = Dossier(record: Record, acks: map<Id, Ack>)

  function Acknowledge(d: Dossier, trainee: int, actor: int, may: bool, kind: TraineeKind, response: string, name: string,
                       now: int)
    : Outcome<Dossier, AckRefusal>
  {
    var text := Trim(response);
    var versions := d.record.versions;
    if !may then Refused(NoAuthority)
    else if kind.Acknowledged? && text != "" then Refused(ResponseNotAllowed)
    else if !kind.Acknowledged? && text == "" then Refused(ResponseRequired)
    else if versions == [] then Refused(NothingFinalized)
    else if actor != trainee then Refused(NotYourRecord)
    else if Last(versions).id in d.acks then Refused(AlreadyAcknowledged)
    else Done(d.(acks := d.acks[Last(versions).id := Ack(Spoken(kind), text, actor, name, actor, name, now)]))
  }

  function Attest(d: Dossier, trainee: int, traineeName: string, actor: int, may: bool, kind: AttestedKind, reason: string,
                  name: string, now: int): Outcome<Dossier, AckRefusal>
  {
    var text := Trim(reason);
    var versions := d.record.versions;
    if !may then Refused(NoAuthority)
    else if text == "" then Refused(ResponseRequired)
    else if versions == [] then Refused(NothingFinalized)
    else if actor == trainee then Refused(SelfAttestation)
    else if Last(versions).id in d.acks then Refused(AlreadyAcknowledged)
    else Done(d.(acks := d.acks[Last(versions).id := Ack(Attested(kind), text, trainee, traineeName, actor, name, now)]))
  }

  // -------------------------------------------------------------- invariant

  /** An acknowledgment speaks of the trainee, by the trainee exactly when it is
      their own kind, and explains itself unless it is plain receipt. */
  ghost predicate AckHolds(trainee: int, a: Ack) {
    && a.user == trainee && a.userName != "" && a.recordedByName != ""
    && (a.kind.Spoken? <==> a.recordedBy == trainee)
    && (if a.kind == Spoken(Acknowledged) then a.response == "" else !Blank(a.response))
  }

  ghost predicate BoundToVersions(d: Dossier) {
    forall id <- d.acks :: exists k | 0 <= k < |d.record.versions| :: d.record.versions[k].id == id
  }

  ghost predicate AcksHold(trainee: int, d: Dossier) {
    BoundToVersions(d) && forall id <- d.acks :: AckHolds(trainee, d.acks[id])
  }

  lemma BindLatest(d: Dossier, a: Ack)
    requires BoundToVersions(d) && d.record.versions != []
    ensures BoundToVersions(d.(acks := d.acks[Last(d.record.versions).id := a]))
  {
    var versions := d.record.versions;
    var acks := d.acks[Last(versions).id := a];
    forall id <- acks
      ensures exists k | 0 <= k < |versions| :: versions[k].id == id
    {
      if id == Last(versions).id {
        assert versions[|versions| - 1].id == id;
      }
    }
  }

  /** One more acknowledgment is bound, to the latest version, and every earlier one
      is kept. */
  predicate Binds(d: Dossier, a: Ack, d': Dossier) {
    && d.record.versions != [] && d'.record == d.record
    && var id := Last(d.record.versions).id;
       && id !in d.acks && d'.acks.Keys == d.acks.Keys + {id} && d'.acks[id] == a
       && forall other <- d.acks :: d'.acks[other] == d.acks[other]
  }

  /** The trainee's own word is accepted exactly from the trainee, on a record with
      a version not yet acknowledged, with a response unless it is plain receipt and
      without one then; it is kept as the trainee gave it. */
  lemma AcknowledgeKeeps(d: Dossier, trainee: int, actor: int, may: bool, kind: TraineeKind, response: string, name: string,
                         now: int)
    requires AcksHold(trainee, d) && name != ""
    ensures var o := Acknowledge(d, trainee, actor, may, kind, response, name, now);
      && (o.Done? <==>
            && may && actor == trainee && (kind.Acknowledged? <==> Blank(response))
            && d.record.versions != [] && Last(d.record.versions).id !in d.acks)
      && (o.Done? ==>
            && AcksHold(trainee, o.value)
            && Binds(d, Ack(Spoken(kind), Trim(response), actor, name, actor, name, now), o.value))
  {
    TrimIdempotent(response);
    if d.record.versions != [] {
      BindLatest(d, Ack(Spoken(kind), Trim(response), actor, name, actor, name, now));
    }
  }

  /** A statement about the trainee is accepted exactly from another, with a reason,
      on a record with a version not yet acknowledged; it names both. */
  lemma AttestKeeps(d: Dossier, trainee: int, traineeName: string, actor: int, may: bool, kind: AttestedKind,
                    reason: string, name: string, now: int)
    requires AcksHold(trainee, d) && name != "" && traineeName != ""
    ensures var o := Attest(d, trainee, traineeName, actor, may, kind, reason, name, now);
      && (o.Done? <==>
            && may && actor != trainee && !Blank(reason)
            && d.record.versions != [] && Last(d.record.versions).id !in d.acks)
      && (o.Done? ==>
            && AcksHold(trainee, o.value)
            && Binds(d, Ack(Attested(kind), Trim(reason), trainee, traineeName, actor, name, now), o.value))
  {
    TrimIdempotent(reason);
    if d.record.versions != [] {
      BindLatest(d, Ack(Attested(kind), Trim(reason), trainee, traineeName, actor, name, now));
    }
  }
}
