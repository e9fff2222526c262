/** One enrollment and its evaluation records as every service changes them, in
    any interleaving, and the documents a packet builds from them. */
module PacketWorld {
  import opened Basics
  import opened Acknowledgments
  import opened Packet
  import Life = Lifecycle
  import Work = RecordWorkflow
  import Lineage
  import Amendments

  /** The dossiers are in ascending record id. */
  datatype World = World(state: Life.State, dossiers: seq<Dossier>)

  datatype Action =
    | OnEnrollment(life: Life.Step)
    | OpenRecord(id: Work.Id, form: Work.Form, policy: Work.Policy, owner: Work.Id, event: Work.Id)
    | OnRecord(i: nat, work: Work.Step)
    | OwnWord(i: nat, actor: int, may: bool, own: TraineeKind, response: string, name: string, now: int)
    | Statement(i: nat, actor: int, may: bool, about: AttestedKind, response: string, name: string, traineeName: string,
                now: int)

  /** Row ids are fresh, ids are positive and stored names are never empty. */
  ghost predicate Possible(w: World, a: Action) {
    match a
    case OnEnrollment(life) => Life.Named(life)
    case OpenRecord(id, _, _, _, event) =>
      id >= 1 && event >= 1 && (forall d <- w.dossiers :: d.record.id < id)
    case OnRecord(i, work) => i < |w.dossiers| && Work.Fresh(w.dossiers[i].record, work)
    case OwnWord(i, _, _, _, _, name, _) => i < |w.dossiers| && name != ""
    case Statement(i, _, _, _, _, name, traineeName, _) => i < |w.dossiers| && name != "" && traineeName != ""
  }

  ghost function Next(c: Work.Codec, w: World, a: Action): World
    requires Possible(w, a)
  {
    match a
    case OnEnrollment(life) => w.(state := Life.After(w.state, life))
    case OpenRecord(id, form, policy, owner, event) =>
      w.(dossiers := w.dossiers + [Dossier(Work.Create(id, w.state.e.id, form, policy, owner, event), map[])])
    case OnRecord(i, work) =>
      var d := w.dossiers[i];
      w.(dossiers := w.dossiers[i := d.(record := Work.After(c, d.record, work.op, work.ids))])
    case OwnWord(i, actor, may, own, response, name, now) =>
      var o := Acknowledge(w.dossiers[i], w.state.e.trainee, actor, may, own, response, name, now);
      if o.Done? then w.(dossiers := w.dossiers[i := o.value]) else w
    case Statement(i, actor, may, about, response, name, traineeName, now) =>
      var o := Attest(w.dossiers[i], w.state.e.trainee, traineeName, actor, may, about, response, name, now);
      if o.Done? then w.(dossiers := w.dossiers[i := o.value]) else w
  }

  ghost predicate Run(c: Work.Codec, w: World, actions: seq<Action>, w': World)
    decreases |actions|
  {
    if actions == [] then w == w'
    else Possible(w, actions[0]) && Run(c, Next(c, w, actions[0]), actions[1..], w')
  }

  ghost predicate Reachable(c: Work.Codec, w: World) {
    exists w0: World, actions :: Life.IsNew(w0.state) && w0.dossiers == [] && Run(c, w0, actions, w)
  }

  // -------------------------------------------------------------- documents

  function RefOf(c: Life.Catalog, v: int): VersionRef {
    if v in c then VersionRef(c[v].number, c[v].labelText) else VersionRef(0, "")
  }

  /** The version that owns a phase; no two versions share one. */
  ghost function OwnerOf(c: Life.Catalog, phase: int): Option<int> {
    if exists v <- c :: phase in c[v].phases then
      var v :| v in c && phase in c[v].phases;
      Some(v)
    else None
  }

  ghost function PhaseName(c: Life.Catalog, phase: Option<int>): Option<string> {
    if phase.None? then None
    else
      var owner := OwnerOf(c, phase.value);
      if owner.Some? then Some(c[owner.value].phases[phase.value]) else None
  }

  ghost function TaskOwner(c: Life.Catalog, task: int): Option<int> {
    if exists v <- c :: task in c[v].tasks then
      var v :| v in c && task in c[v].tasks;
      Some(v)
    else None
  }

  /** Names as shown at export. */
  type Directory = int -> string

  function DocOfEvent(c: Life.Catalog, names: Directory, x: Life.Event): EventDoc {
    EventDoc(x.id, x.kind, x.at, Some(Actor(x.actor, names(x.actor))), x.reason,
             if x.from.Some? then Some(RefOf(c, x.from.value)) else None,
             if x.to.Some? then Some(RefOf(c, x.to.value)) else None)
  }

  ghost function DocOfPhase(c: Life.Catalog, names: Directory, x: Life.PhaseEvent): PhaseDoc {
    var named := if x.to.Some? then x.to else x.from;
    var owner := if named.Some? then OwnerOf(c, named.value) else None;
    PhaseDoc(x.id, x.kind, if owner.Some? then RefOf(c, owner.value) else VersionRef(0, ""), x.epoch,
             x.effective, x.recorded, Some(Actor(x.actor, names(x.actor))), x.reason,
             PhaseName(c, x.from), PhaseName(c, x.to))
  }

  ghost function DocOfSignoff(c: Life.Catalog, x: Life.Signoff): SignoffDoc {
    var owner := TaskOwner(c, x.task);
    var version := if owner.Some? then RefOf(c, owner.value) else VersionRef(0, "");
    var task := if owner.Some? then c[owner.value].tasks[x.task] else Life.Task("", "", "");
    SignoffDoc(x.id, x.task, version, task.category, task.competency, task.prompt,
               x.kind, x.reason, Actor(x.signer, x.signerName), x.at)
  }

  function EventDocs(c: Life.Catalog, names: Directory, rows: seq<Life.Event>): seq<EventDoc> {
    if rows == [] then []
    else EventDocs(c, names, rows[..|rows| - 1]) + [DocOfEvent(c, names, Life.Last(rows))]
  }

  /** Rows in ascending effective instant, then id: the order of the query. */
  function InsertByEffective(sorted: seq<Life.PhaseEvent>, x: Life.PhaseEvent): seq<Life.PhaseEvent> {
    if sorted == [] || Life.Later(x, Life.Last(sorted)) then sorted + [x]
    else InsertByEffective(sorted[..|sorted| - 1], x) + [Life.Last(sorted)]
  }

  function ByEffective(rows: seq<Life.PhaseEvent>): seq<Life.PhaseEvent> {
    if rows == [] then [] else InsertByEffective(ByEffective(rows[..|rows| - 1]), Life.Last(rows))
  }

  ghost function PhaseDocs(c: Life.Catalog, names: Directory, rows: seq<Life.PhaseEvent>): seq<PhaseDoc> {
    if rows == [] then []
    else PhaseDocs(c, names, rows[..|rows| - 1]) + [DocOfPhase(c, names, Life.Last(rows))]
  }

  ghost function SignoffDocs(c: Life.Catalog, rows: seq<Life.Signoff>): seq<SignoffDoc> {
    if rows == [] then []
    else SignoffDocs(c, rows[..|rows| - 1]) + [DocOfSignoff(c, Life.Last(rows))]
  }

  ghost function EnrollmentDocOf(w: World, names: Directory): EnrollmentDoc {
    var c, e := w.state.catalog, w.state.e;
    EnrollmentDoc(e.id, EventDocs(c, names, e.events), PhaseDocs(c, names, ByEffective(e.phaseEvents)))
  }

  // Units, amendments and acknowledgments, record by record in version order.

  function HashById(versions: seq<Work.Version>, id: Work.Id): Option<string> {
    if versions == [] then None
    else if Work.Last(versions).id == id then Some(Work.Last(versions).contentHash)
    else HashById(versions[..|versions| - 1], id)
  }

  function NumberById(versions: seq<Work.Version>, id: Work.Id): Option<int> {
    if versions == [] then None
    else if Work.Last(versions).id == id then Some(Work.Last(versions).number)
    else NumberById(versions[..|versions| - 1], id)
  }

  /** The version that names `id` as its predecessor. */
  function SuccessorNumber(versions: seq<Work.Version>, id: Work.Id): Option<int> {
    if versions == [] then None
    else if Work.Last(versions).predecessor == Some(id) then Some(Work.Last(versions).number)
    else SuccessorNumber(versions[..|versions| - 1], id)
  }

  function UnitOf(r: Work.Record, v: Work.Version): Lineage.Unit {
    Lineage.Unit(r.id, v.number, v.contentHash, v.chainHash,
                 if v.predecessor.Some? then HashById(r.versions, v.predecessor.value) else None)
  }

  function UnitsOfRecord(r: Work.Record, n: nat): seq<Lineage.Unit>
    requires n <= |r.versions|
  {
    if n == 0 then [] else UnitsOfRecord(r, n - 1) + [UnitOf(r, r.versions[n - 1])]
  }

  function UnitsOf(dossiers: seq<Dossier>): seq<Lineage.Unit> {
    if dossiers == [] then []
    else
      var r := Work.Last(dossiers).record;
      UnitsOf(dossiers[..|dossiers| - 1]) + UnitsOfRecord(r, |r.versions|)
  }

  function FilesOf(dossiers: seq<Dossier>): Lineage.Files {
    if dossiers == [] then map[]
    else
      var r := Work.Last(dossiers).record;
      FilesOf(dossiers[..|dossiers| - 1]) + FilesOfRecord(r, |r.versions|)
  }

  function FilesOfRecord(r: Work.Record, n: nat): Lineage.Files
    requires n <= |r.versions|
  {
    if n == 0 then map[]
    else FilesOfRecord(r, n - 1)[(r.id, r.versions[n - 1].number) := r.versions[n - 1].canonical]
  }

  function AmendmentDocOf(r: Work.Record, a: Work.Amendment): Amendments.Amendment {
    var number := NumberById(r.versions, a.predecessor);
    Amendments.Amendment(r.id, if number.Some? then number.value else 0,
                         SuccessorNumber(r.versions, a.predecessor), a.reason, a.openedBy, a.openedByName, a.openedAt)
  }

  function AmendmentsOfRecord(r: Work.Record, n: nat): seq<Amendments.Amendment>
    requires n <= |r.amendments|
  {
    if n == 0 then [] else AmendmentsOfRecord(r, n - 1) + [AmendmentDocOf(r, r.amendments[n - 1])]
  }

  function AmendmentsOf(dossiers: seq<Dossier>): seq<Amendments.Amendment> {
    if dossiers == [] then []
    else
      var r := Work.Last(dossiers).record;
      AmendmentsOf(dossiers[..|dossiers| - 1]) + AmendmentsOfRecord(r, |r.amendments|)
  }

  function AckDocOf(r: Work.Record, v: Work.Version, a: Ack): AckDoc {
    AckDoc(r.id, v.number, a.kind, a.response, Actor(a.user, a.userName), Actor(a.recordedBy, a.recordedByName),
           a.recordedAt)
  }

  function AcksOfRecord(d: Dossier, n: nat): seq<AckDoc>
    requires n <= |d.record.versions|
  {
    if n == 0 then []
    else
      var v := d.record.versions[n - 1];
      AcksOfRecord(d, n - 1) + (if v.id in d.acks then [AckDocOf(d.record, v, d.acks[v.id])] else [])
  }

  function AcksOf(dossiers: seq<Dossier>): seq<AckDoc> {
    if dossiers == [] then []
    else
      var d := Work.Last(dossiers);
      AcksOf(dossiers[..|dossiers| - 1]) + AcksOfRecord(d, |d.record.versions|)
  }

  ghost function ManifestOf(w: World): Manifest {
    Manifest(w.state.e.id, w.state.e.trainee, RefOf(w.state.catalog, w.state.e.pin), UnitsOf(w.dossiers))
  }
}
