/** A packet leaves nothing out and adds nothing: over every state the services can
    reach, each stored row of the enrollment's histories and records is carried by
    exactly one row of the packet, with all its members, and each row of the packet
    carries one. Stated from the stored rows, not from how the documents are built. */
module PacketCompleteness {
  import opened Basics
  import opened Acknowledgments
  import opened Packet
  import opened PacketWorld
  import opened PacketAgreement
  import PacketHistory
  import PacketRecords
  import PacketVerify
  import Life = Lifecycle
  import LifeInv = LifecycleInvariant
  import Work = RecordWorkflow
  import WorkInv = RecordInvariant
  import Lineage
  import Amendments

  // -------------------------------------------------------- what a row carries

  /** A version as the documents name it. */
  ghost predicate Names(c: Life.Catalog, v: int, ref: VersionRef) {
    v in c && ref.number == c[v].number && ref.labelText == c[v].labelText
  }

  ghost predicate MaybeNames(c: Life.Catalog, v: Option<int>, ref: Option<VersionRef>) {
    if v.None? then ref.None? else ref.Some? && Names(c, v.value, ref.value)
  }

  predicate Acts(names: Directory, actor: int, a: Option<Actor>) {
    a == Some(Actor(actor, names(actor)))
  }

  ghost predicate CarriesEvent(c: Life.Catalog, names: Directory, x: Life.Event, d: EventDoc) {
    && d.id == x.id && d.kind == x.kind && d.at == x.at && d.reason == x.reason
    && Acts(names, x.actor, d.actor)
    && MaybeNames(c, x.from, d.from) && MaybeNames(c, x.to, d.to)
  }

  /** A phase, when there is one, is named as the version that has it names it. */
  ghost predicate NamesPhase(v: Life.ProgramVersion, phase: Option<int>, name: Option<string>) {
    if phase.None? then name.None? else phase.value in v.phases && name == Some(v.phases[phase.value])
  }

  ghost predicate CarriesPhaseOf(c: Life.Catalog, v: int, x: Life.PhaseEvent, d: PhaseDoc) {
    && Names(c, v, d.version)
    && NamesPhase(c[v], x.from, d.from) && NamesPhase(c[v], x.to, d.to)
  }

  ghost predicate CarriesPhase(c: Life.Catalog, names: Directory, x: Life.PhaseEvent, d: PhaseDoc) {
    && d.id == x.id && d.kind == x.kind && d.epoch == x.epoch && d.reason == x.reason
    && d.effective == x.effective && d.recorded == x.recorded
    && Acts(names, x.actor, d.actor)
    && exists v :: CarriesPhaseOf(c, v, x, d)
  }

  ghost predicate CarriesTaskOf(c: Life.Catalog, v: int, x: Life.Signoff, d: SignoffDoc) {
    && Names(c, v, d.version) && x.task in c[v].tasks
    && d.category == c[v].tasks[x.task].category
    && d.competency == c[v].tasks[x.task].competency
    && d.prompt == c[v].tasks[x.task].prompt
  }

  ghost predicate CarriesSignoff(c: Life.Catalog, x: Life.Signoff, d: SignoffDoc) {
    && d.id == x.id && d.task == x.task && d.kind == x.kind && d.reason == x.reason && d.at == x.at
    && d.signer == Actor(x.signer, x.signerName)
    && exists v :: CarriesTaskOf(c, v, x, d)
  }

  /** Row for row: as many rows as there are stored, in the order they were stored,
      each carrying its own and no two of one id. */
  ghost predicate EventsCarried(c: Life.Catalog, names: Directory, rows: seq<Life.Event>, docs: seq<EventDoc>) {
    && |docs| == |rows|
    && (forall i | 0 <= i < |rows| :: CarriesEvent(c, names, rows[i], docs[i]))
    && (forall i, j | 0 <= i < j < |docs| :: docs[i].id != docs[j].id)
  }

  ghost predicate PhasesCarried(c: Life.Catalog, names: Directory, rows: seq<Life.PhaseEvent>, docs: seq<PhaseDoc>) {
    && |docs| == |rows|
    && (forall i | 0 <= i < |rows| :: CarriesPhase(c, names, rows[i], docs[i]))
    && (forall i, j | 0 <= i < j < |docs| :: docs[i].id != docs[j].id)
  }

  ghost predicate SignoffsCarried(c: Life.Catalog, rows: seq<Life.Signoff>, docs: seq<SignoffDoc>) {
    && |docs| == |rows|
    && (forall i | 0 <= i < |rows| :: CarriesSignoff(c, rows[i], docs[i]))
    && (forall i, j | 0 <= i < j < |docs| :: docs[i].id != docs[j].id)
  }

  // ------------------------------------------------------------- the histories

  lemma EventCarried(s: Life.State, names: Directory, i: nat)
    requires LifeInv.Inv(s) && i < |s.e.events|
    ensures CarriesEvent(s.catalog, names, s.e.events[i], DocOfEvent(s.catalog, names, s.e.events[i]))
  {
    var x := s.e.events[i];
    if x.kind.VersionChange? {
      PacketHistory.VersionChangesAreListed(s.e.events);
      var k :| 0 <= k < |Life.Changes(s.e.events)| && Life.Changes(s.e.events)[k] == x;
      assert LifeInv.ChangeHolds(s.e, k);
      assert LifeInv.PinHolds(s, k) && LifeInv.PinHolds(s, k + 1);
    } else {
      PlainEventsNameNone(s, i);
    }
  }

  lemma PlainEventsNameNone(s: Life.State, i: nat)
    requires LifeInv.Inv(s) && i < |s.e.events| && !s.e.events[i].kind.VersionChange?
    ensures s.e.events[i].from == None && s.e.events[i].to == None
  {
  }

  lemma PhaseCarried(s: Life.State, names: Directory, i: nat)
    requires LifeInv.Inv(s) && i < |s.e.phaseEvents|
    ensures CarriesPhase(s.catalog, names, s.e.phaseEvents[i], DocOfPhase(s.catalog, names, s.e.phaseEvents[i]))
  {
    var x := s.e.phaseEvents[i];
    assert LifeInv.PhaseFits(s, i);
    var k: nat :| LifeInv.PhaseOk(s, i, k);
    var v := LifeInv.PinAt(s.e, k);
    if x.from.Some? {
      PacketHistory.OwnerIsUnique(s.catalog, x.from.value, v);
    }
    if x.to.Some? {
      PacketHistory.OwnerIsUnique(s.catalog, x.to.value, v);
    }
    assert CarriesPhaseOf(s.catalog, v, x, DocOfPhase(s.catalog, names, x));
  }

  lemma SignoffCarried(s: Life.State, i: nat)
    requires LifeInv.Inv(s) && i < |s.e.signoffs|
    ensures CarriesSignoff(s.catalog, s.e.signoffs[i], DocOfSignoff(s.catalog, s.e.signoffs[i]))
  {
    var x := s.e.signoffs[i];
    assert LifeInv.SignoffFits(s, i);
    var k: nat :| LifeInv.SignoffOk(s, i, k);
    var v := LifeInv.PinAt(s.e, k);
    PacketHistory.TaskOwnerIsUnique(s.catalog, x.task, v);
    assert CarriesTaskOf(s.catalog, v, x, DocOfSignoff(s.catalog, x));
  }

  /** The enrollment and signoff documents of every reachable world carry every
      lifecycle event, phase event and signoff, each once and with all its members,
      and nothing else. */
  lemma HistoriesAreCarried(c: Work.Codec, w: World, names: Directory)
    requires Reachable(c, w)
    ensures var packet := PacketOf(w, names);
      && packet.enrollment.enrollment == w.state.e.id
      && EventsCarried(w.state.catalog, names, w.state.e.events, packet.enrollment.events)
      && PhasesCarried(w.state.catalog, names, w.state.e.phaseEvents, packet.enrollment.phases)
      && SignoffsCarried(w.state.catalog, w.state.e.signoffs, packet.signoffs)
  {
    ReachableHolds(c, w);
    EventsAreCarried(w.state, names);
    PhasesAreCarried(w.state, names);
    SignoffsAreCarried(w.state);
  }

  lemma EventsAreCarried(s: Life.State, names: Directory)
    requires LifeInv.Inv(s)
    ensures EventsCarried(s.catalog, names, s.e.events, EventDocs(s.catalog, names, s.e.events))
  {
    PacketHistory.EventDocAt(s.catalog, names, s.e.events);
    forall i | 0 <= i < |s.e.events|
      ensures CarriesEvent(s.catalog, names, s.e.events[i], EventDocs(s.catalog, names, s.e.events)[i])
    {
      EventCarried(s, names, i);
    }
  }

  lemma PhasesAreCarried(s: Life.State, names: Directory)
    requires LifeInv.Inv(s)
    ensures PhasesCarried(s.catalog, names, s.e.phaseEvents, PhaseDocs(s.catalog, names, ByEffective(s.e.phaseEvents)))
  {
    PacketHistory.EffectiveIsRecorded(s.e.phaseEvents);
    PacketHistory.PhaseDocAt(s.catalog, names, s.e.phaseEvents);
    forall i | 0 <= i < |s.e.phaseEvents|
      ensures CarriesPhase(s.catalog, names, s.e.phaseEvents[i], PhaseDocs(s.catalog, names, s.e.phaseEvents)[i])
    {
      PhaseCarried(s, names, i);
    }
  }

  lemma SignoffsAreCarried(s: Life.State)
    requires LifeInv.Inv(s)
    ensures SignoffsCarried(s.catalog, s.e.signoffs, SignoffDocs(s.catalog, s.e.signoffs))
  {
    PacketHistory.SignoffDocAt(s.catalog, s.e.signoffs);
    forall i | 0 <= i < |s.e.signoffs|
      ensures CarriesSignoff(s.catalog, s.e.signoffs[i], SignoffDocs(s.catalog, s.e.signoffs)[i])
    {
      SignoffCarried(s, i);
    }
  }

  // ---------------------------------------------------------------- the records

  /** Row `d` carries the acknowledgment bound to version `k` of record `i`. */
  ghost predicate CarriesAck(dossiers: seq<Dossier>, i: nat, k: nat, d: AckDoc) {
    && i < |dossiers| && k < |dossiers[i].record.versions|
    && dossiers[i].record.versions[k].id in dossiers[i].acks
    && var a := dossiers[i].acks[dossiers[i].record.versions[k].id];
       && d.record == dossiers[i].record.id && d.number == k + 1
       && d.kind == a.kind && d.response == a.response && d.recordedAt == a.recordedAt
       && d.user == Actor(a.user, a.userName) && d.recordedBy == Actor(a.recordedBy, a.recordedByName)
  }

  ghost predicate AckIsCarried(dossiers: seq<Dossier>, i: nat, k: nat, docs: seq<AckDoc>) {
    exists j: nat :: j < |docs| && CarriesAck(dossiers, i, k, docs[j])
      && forall l | 0 <= l < |docs| && docs[l].record == docs[j].record && docs[l].number == docs[j].number :: l == j
  }

  ghost predicate AckIsBound(dossiers: seq<Dossier>, d: AckDoc) {
    exists i, k :: CarriesAck(dossiers, i, k, d)
  }

  /** Every acknowledgment, bound as it is to a version, has its one row, and every
      row has its acknowledgment. */
  ghost predicate AcksCarried(dossiers: seq<Dossier>, docs: seq<AckDoc>) {
    && (forall i, id | 0 <= i < |dossiers| && id in dossiers[i].acks ::
          exists k: nat :: k < |dossiers[i].record.versions| && dossiers[i].record.versions[k].id == id
                           && AckIsCarried(dossiers, i, k, docs))
    && (forall d <- docs :: AckIsBound(dossiers, d))
  }

  lemma {:induction false} AcksOfOneBelong(c: Work.Codec, d: Dossier, n: nat, doc: AckDoc) returns (k: nat)
    requires WorkInv.Inv(c, d.record) && n <= |d.record.versions| && doc in AcksOfRecord(d, n)
    ensures k < n && CarriesAck([d], 0, k, doc)
  {
    var v := d.record.versions[n - 1];
    assert WorkInv.LinkHolds(c, d.record, n - 1);
    if v.id in d.acks && doc == AckDocOf(d.record, v, d.acks[v.id]) {
      k := n - 1;
    } else {
      k := AcksOfOneBelong(c, d, n - 1, doc);
    }
  }

  lemma {:induction false} AckOfOneIsThere(c: Work.Codec, d: Dossier, n: nat, k: nat) returns (j: nat)
    requires WorkInv.Inv(c, d.record) && k < n <= |d.record.versions| && d.record.versions[k].id in d.acks
    ensures j < |AcksOfRecord(d, n)| && CarriesAck([d], 0, k, AcksOfRecord(d, n)[j])
  {
    assert WorkInv.LinkHolds(c, d.record, n - 1);
    if k == n - 1 {
      j := |AcksOfRecord(d, n - 1)|;
    } else {
      j := AckOfOneIsThere(c, d, n - 1, k);
    }
  }

  lemma {:induction false} AcksBelong(c: Work.Codec, dossiers: seq<Dossier>, doc: AckDoc) returns (i: nat, k: nat)
    requires PacketRecords.RecordsHold(c, dossiers) && doc in AcksOf(dossiers)
    ensures CarriesAck(dossiers, i, k, doc)
  {
    var n := |dossiers| - 1;
    var front, d := dossiers[..n], dossiers[n];
    if doc in AcksOf(front) {
      PacketRecords.FrontHolds(c, dossiers);
      i, k := AcksBelong(c, front, doc);
      assert dossiers[i] == front[i];
    } else {
      k := AcksOfOneBelong(c, d, |d.record.versions|, doc);
      i := n;
    }
  }

  lemma {:induction false} AckIsThere(c: Work.Codec, dossiers: seq<Dossier>, i: nat, k: nat) returns (j: nat)
    requires PacketRecords.RecordsHold(c, dossiers) && i < |dossiers| && k < |dossiers[i].record.versions|
    requires dossiers[i].record.versions[k].id in dossiers[i].acks
    ensures j < |AcksOf(dossiers)| && CarriesAck(dossiers, i, k, AcksOf(dossiers)[j])
  {
    var n := |dossiers| - 1;
    var front, d := dossiers[..n], dossiers[n];
    if i < n {
      PacketRecords.FrontHolds(c, dossiers);
      assert front[i] == dossiers[i];
      j := AckIsThere(c, front, i, k);
      assert AcksOf(dossiers)[j] == AcksOf(front)[j];
      assert CarriesAck(dossiers, i, k, AcksOf(front)[j]);
    } else {
      var own := AckOfOneIsThere(c, d, |d.record.versions|, k);
      j := Behind(AcksOf(front), AcksOfRecord(d, |d.record.versions|), own);
      assert CarriesAck(dossiers, i, k, AcksOf(dossiers)[j]);
    }
  }

  lemma Behind<T>(front: seq<T>, own: seq<T>, n: nat) returns (j: nat)
    requires n < |own|
    ensures j < |front + own| && (front + own)[j] == own[n]
  {
    j := |front| + n;
  }

  lemma {:induction false} LaterAcks(docs: seq<AckDoc>, i: nat, j: nat)
    requires PacketVerify.AcksInOrder(docs) && i < j < |docs|
    ensures docs[i].record < docs[j].record || (docs[i].record == docs[j].record && docs[i].number < docs[j].number)
  {
    assert PacketVerify.AckBefore(docs[j - 1], docs[j]);
    if i < j - 1 {
      LaterAcks(docs, i, j - 1);
    }
  }

  lemma OneAckRow(docs: seq<AckDoc>, j: nat, l: nat)
    requires PacketVerify.AcksInOrder(docs) && j < |docs| && l < |docs|
    requires docs[l].record == docs[j].record && docs[l].number == docs[j].number
    ensures l == j
  {
    if l < j {
      LaterAcks(docs, l, j);
    } else if j < l {
      LaterAcks(docs, j, l);
    }
  }

  lemma AcksAreCarried(c: Work.Codec, trainee: int, dossiers: seq<Dossier>)
    requires PacketRecords.RecordsHold(c, dossiers) && PacketRecords.AllAcksHold(trainee, dossiers)
    ensures AcksCarried(dossiers, AcksOf(dossiers))
  {
    var docs := AcksOf(dossiers);
    PacketRecords.AcksOfAll(c, trainee, dossiers);
    forall i, id | 0 <= i < |dossiers| && id in dossiers[i].acks
      ensures exists k: nat :: k < |dossiers[i].record.versions| && dossiers[i].record.versions[k].id == id
                               && AckIsCarried(dossiers, i, k, docs)
    {
      assert BoundToVersions(dossiers[i]);
      var k :| 0 <= k < |dossiers[i].record.versions| && dossiers[i].record.versions[k].id == id;
      var j := AckIsThere(c, dossiers, i, k);
      forall l | 0 <= l < |docs| && docs[l].record == docs[j].record && docs[l].number == docs[j].number
        ensures l == j
      {
        OneAckRow(docs, j, l);
      }
      assert AckIsCarried(dossiers, i, k, docs);
    }
    forall d <- docs
      ensures AckIsBound(dossiers, d)
    {
      var i, k := AcksBelong(c, dossiers, d);
    }
  }

  /** Unit `u` and its file carry version `k` of record `i`. */
  ghost predicate CarriesVersion(dossiers: seq<Dossier>, i: nat, k: nat, u: Lineage.Unit, files: Lineage.Files) {
    && i < |dossiers| && k < |dossiers[i].record.versions|
    && var r := dossiers[i].record;
       && u.record == r.id && u.number == k + 1
       && u.contentHash == r.versions[k].contentHash && u.chainHash == r.versions[k].chainHash
       && u.predecessorHash == (if k == 0 then None else Some(r.versions[k - 1].contentHash))
       && (u.record, u.number) in files && files[(u.record, u.number)] == r.versions[k].canonical
  }

  ghost predicate VersionIsCarried(dossiers: seq<Dossier>, i: nat, k: nat, units: seq<Lineage.Unit>, files: Lineage.Files) {
    exists j: nat :: j < |units| && CarriesVersion(dossiers, i, k, units[j], files)
      && forall l | 0 <= l < |units| && units[l].record == units[j].record && units[l].number == units[j].number :: l == j
  }

  ghost predicate UnitIsStored(dossiers: seq<Dossier>, u: Lineage.Unit, files: Lineage.Files) {
    exists i, k :: CarriesVersion(dossiers, i, k, u, files)
  }

  /** Every version of every record has its one unit and its bytes, and there is no
      other unit and no other file. */
  ghost predicate VersionsCarried(dossiers: seq<Dossier>, units: seq<Lineage.Unit>, files: Lineage.Files) {
    && (forall i: nat, k: nat | i < |dossiers| && k < |dossiers[i].record.versions| ::
          VersionIsCarried(dossiers, i, k, units, files))
    && (forall u <- units :: UnitIsStored(dossiers, u, files))
    && (forall key <- files :: exists u <- units :: (u.record, u.number) == key)
  }

  lemma {:induction false} FilesBelong(c: Work.Codec, dossiers: seq<Dossier>, key: (int, int)) returns (i: nat, k: nat)
    requires PacketRecords.RecordsHold(c, dossiers) && key in FilesOf(dossiers)
    ensures i < |dossiers| && k < |dossiers[i].record.versions| && key == (dossiers[i].record.id, k + 1)
  {
    var n := |dossiers| - 1;
    var front, r := dossiers[..n], dossiers[n].record;
    if key in FilesOf(front) {
      PacketRecords.FrontHolds(c, dossiers);
      i, k := FilesBelong(c, front, key);
      assert dossiers[i] == front[i];
    } else {
      i := n;
      k := FilesOfOneBelong(c, r, |r.versions|, key);
    }
  }

  lemma {:induction false} FilesOfOneBelong(c: Work.Codec, r: Work.Record, n: nat, key: (int, int)) returns (k: nat)
    requires WorkInv.Inv(c, r) && n <= |r.versions| && key in FilesOfRecord(r, n)
    ensures k < n && key == (r.id, k + 1)
  {
    assert WorkInv.LinkHolds(c, r, n - 1);
    if key == (r.id, n) {
      k := n - 1;
    } else {
      k := FilesOfOneBelong(c, r, n - 1, key);
    }
  }

  lemma UnitCarries(c: Work.Codec, dossiers: seq<Dossier>, i: nat, k: nat, u: Lineage.Unit)
    requires PacketRecords.RecordsHold(c, dossiers) && i < |dossiers| && k < |dossiers[i].record.versions|
    requires PacketRecords.UnitHolds(c, dossiers[i].record, k, u)
    ensures CarriesVersion(dossiers, i, k, u, FilesOf(dossiers))
  {
    PacketRecords.FileIsThere(c, dossiers, i, k);
  }

  lemma {:induction false} LaterUnits(units: seq<Lineage.Unit>, i: nat, j: nat)
    requires Lineage.Whole(units) && i < j < |units|
    ensures units[i].record < units[j].record || (units[i].record == units[j].record && units[i].number < units[j].number)
  {
    assert Lineage.Follows(units, j);
    if i < j - 1 {
      LaterUnits(units, i, j - 1);
    }
  }

  lemma OneUnit(units: seq<Lineage.Unit>, j: nat, l: nat)
    requires Lineage.Whole(units) && j < |units| && l < |units|
    requires units[l].record == units[j].record && units[l].number == units[j].number
    ensures l == j
  {
    if l < j {
      LaterUnits(units, l, j);
    } else if j < l {
      LaterUnits(units, j, l);
    }
  }

  lemma OneVersionCarried(c: Work.Codec, dossiers: seq<Dossier>, i: nat, k: nat)
    requires PacketRecords.RecordsHold(c, dossiers) && i < |dossiers| && k < |dossiers[i].record.versions|
    requires Lineage.Whole(UnitsOf(dossiers))
    ensures VersionIsCarried(dossiers, i, k, UnitsOf(dossiers), FilesOf(dossiers))
  {
    var units := UnitsOf(dossiers);
    var u := PacketRecords.There(c, dossiers, i, k);
    var j: nat :| j < |units| && units[j] == u;
    UnitCarries(c, dossiers, i, k, u);
    forall l | 0 <= l < |units| && units[l].record == u.record && units[l].number == u.number
      ensures l == j
    {
      OneUnit(units, j, l);
    }
  }

  lemma VersionsAreCarried(c: Work.Codec, dossiers: seq<Dossier>)
    requires PacketRecords.RecordsHold(c, dossiers)
    ensures VersionsCarried(dossiers, UnitsOf(dossiers), FilesOf(dossiers))
  {
    PacketRecords.UnitsAreWhole(c, dossiers);
    forall i: nat, k: nat | i < |dossiers| && k < |dossiers[i].record.versions|
      ensures VersionIsCarried(dossiers, i, k, UnitsOf(dossiers), FilesOf(dossiers))
    {
      OneVersionCarried(c, dossiers, i, k);
    }
    forall u <- UnitsOf(dossiers)
      ensures UnitIsStored(dossiers, u, FilesOf(dossiers))
    {
      var i, k := PacketRecords.Whose(c, dossiers, u);
      UnitCarries(c, dossiers, i, k, u);
    }
    forall key <- FilesOf(dossiers)
      ensures exists u <- UnitsOf(dossiers) :: (u.record, u.number) == key
    {
      var i, k := FilesBelong(c, dossiers, key);
      var u := PacketRecords.There(c, dossiers, i, k);
    }
  }

  /** Row `d` carries amendment `k` of record `i`: it opened on version `k + 1`, and
      the version that followed, when there is one, is its successor. */
  ghost predicate CarriesAmendment(dossiers: seq<Dossier>, i: nat, k: nat, d: Amendments.Amendment) {
    && i < |dossiers| && k < |dossiers[i].record.amendments| && k < |dossiers[i].record.versions|
    && var r := dossiers[i].record;
       var a := r.amendments[k];
       && a.predecessor == r.versions[k].id
       && d.record == r.id && d.predecessor == k + 1
       && d.successor == (if k + 1 < |r.versions| then Some(k + 2) else None)
       && d.reason == a.reason && d.openedBy == a.openedBy && d.openedByName == a.openedByName
       && d.openedAt == a.openedAt
  }

  ghost predicate AmendmentIsCarried(dossiers: seq<Dossier>, i: nat, k: nat, docs: seq<Amendments.Amendment>) {
    exists j: nat :: j < |docs| && CarriesAmendment(dossiers, i, k, docs[j])
      && forall l | 0 <= l < |docs| && docs[l].record == docs[j].record && docs[l].predecessor == docs[j].predecessor :: l == j
  }

  ghost predicate AmendmentIsStored(dossiers: seq<Dossier>, d: Amendments.Amendment) {
    exists i, k :: CarriesAmendment(dossiers, i, k, d)
  }

  ghost predicate AmendmentsCarried(dossiers: seq<Dossier>, docs: seq<Amendments.Amendment>) {
    && (forall i: nat, k: nat | i < |dossiers| && k < |dossiers[i].record.amendments| ::
          AmendmentIsCarried(dossiers, i, k, docs))
    && (forall d <- docs :: AmendmentIsStored(dossiers, d))
  }

  lemma AmendmentCarries(c: Work.Codec, dossiers: seq<Dossier>, i: nat, k: nat)
    requires PacketRecords.RecordsHold(c, dossiers) && i < |dossiers| && k < |dossiers[i].record.amendments|
    ensures CarriesAmendment(dossiers, i, k, AmendmentDocOf(dossiers[i].record, dossiers[i].record.amendments[k]))
  {
    PacketRecords.AmendmentOfRecord(c, dossiers[i].record, k);
  }

  lemma {:induction false} LaterAmendments(docs: seq<Amendments.Amendment>, i: nat, j: nat)
    requires Amendments.Ascending(docs) && i < j < |docs|
    ensures docs[i].record < docs[j].record
      || (docs[i].record == docs[j].record && docs[i].predecessor < docs[j].predecessor)
  {
    assert Amendments.RowBefore(docs[j - 1], docs[j]);
    if i < j - 1 {
      LaterAmendments(docs, i, j - 1);
    }
  }

  lemma OneAmendmentRow(docs: seq<Amendments.Amendment>, j: nat, l: nat)
    requires Amendments.Ascending(docs) && j < |docs| && l < |docs|
    requires docs[l].record == docs[j].record && docs[l].predecessor == docs[j].predecessor
    ensures l == j
  {
    if l < j {
      LaterAmendments(docs, l, j);
    } else if j < l {
      LaterAmendments(docs, j, l);
    }
  }

  lemma AmendmentsAreCarried(c: Work.Codec, dossiers: seq<Dossier>)
    requires PacketRecords.RecordsHold(c, dossiers)
    ensures AmendmentsCarried(dossiers, AmendmentsOf(dossiers))
  {
    var docs := AmendmentsOf(dossiers);
    PacketRecords.AmendmentsAscend(c, dossiers);
    forall i: nat, k: nat | i < |dossiers| && k < |dossiers[i].record.amendments|
      ensures AmendmentIsCarried(dossiers, i, k, docs)
    {
      PacketRecords.AmendmentIsThere(dossiers, i, k);
      AmendmentCarries(c, dossiers, i, k);
      var row := AmendmentDocOf(dossiers[i].record, dossiers[i].record.amendments[k]);
      var j: nat :| j < |docs| && docs[j] == row;
      forall l | 0 <= l < |docs| && docs[l].record == docs[j].record && docs[l].predecessor == docs[j].predecessor
        ensures l == j
      {
        OneAmendmentRow(docs, j, l);
      }
    }
    forall d <- docs
      ensures AmendmentIsStored(dossiers, d)
    {
      PacketRecords.AmendmentsBelong(dossiers, d);
      var i, k :| 0 <= i < |dossiers| && 0 <= k < |dossiers[i].record.amendments|
        && d == AmendmentDocOf(dossiers[i].record, dossiers[i].record.amendments[k]);
      AmendmentCarries(c, dossiers, i, k);
    }
  }

  /** The packet of every reachable world carries every version of every record with
      its bytes, every amendment and every acknowledgment, each once and with all its
      members, and nothing else, and its manifest says whose it is. */
  lemma RecordsAreCarried(c: Work.Codec, w: World, names: Directory)
    requires Reachable(c, w)
    ensures var packet := PacketOf(w, names);
      && packet.manifest.enrollment == w.state.e.id && packet.manifest.trainee == w.state.e.trainee
      && Names(w.state.catalog, w.state.e.pin, packet.manifest.pin)
      && VersionsCarried(w.dossiers, packet.manifest.units, packet.files)
      && AmendmentsCarried(w.dossiers, packet.amendments)
      && AcksCarried(w.dossiers, packet.acks)
  {
    ReachableHolds(c, w);
    var last := |Life.Changes(w.state.e.events)|;
    assert LifeInv.PinHolds(w.state, last);
    VersionsAreCarried(c, w.dossiers);
    AmendmentsAreCarried(c, w.dossiers);
    AcksAreCarried(c, w.state.e.trainee, w.dossiers);
  }
}
