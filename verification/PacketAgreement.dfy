/** Producer and verifier agree: whatever the services did, the packet built from
    the committed rows verifies clean. */
module PacketAgreement {
  import opened Basics
  import opened Acknowledgments
  import opened PinHistory
  import opened PacketVerify
  import opened PacketWorld
  import PacketHistory
  import PacketRecords
  import Life = Lifecycle
  import LifeInv = LifecycleInvariant
  import LifeTheorems = LifecycleTheorems
  import Work = RecordWorkflow
  import WorkInv = RecordInvariant
  import WorkTheorems = RecordTheorems
  import Amendments

  ghost predicate WorldHolds(c: Work.Codec, w: World) {
    && LifeInv.Inv(w.state)
    && PacketRecords.RecordsHold(c, w.dossiers)
    && PacketRecords.AllAcksHold(w.state.e.trainee, w.dossiers)
    && forall i | 0 <= i < |w.dossiers| :: w.dossiers[i].record.enrollment == w.state.e.id
  }

  lemma OpenKeeps(c: Work.Codec, w: World, a: Action)
    requires WorldHolds(c, w) && a.OpenRecord? && Possible(w, a)
    ensures WorldHolds(c, Next(c, w, a))
  {
    var d := Work.Last(Next(c, w, a).dossiers);
    WorkInv.CreateKeeps(c, d.record);
    forall i | 0 <= i < |w.dossiers|
      ensures w.dossiers[i].record.id < a.id
    {
      assert w.dossiers[i] in w.dossiers;
    }
  }

  /** A call on one record leaves every other dossier alone. */
  lemma ReplaceKeeps(c: Work.Codec, w: World, i: nat, d: Dossier)
    requires WorldHolds(c, w) && i < |w.dossiers|
    requires d.record.id == w.dossiers[i].record.id && d.record.enrollment == w.dossiers[i].record.enrollment
    requires WorkInv.Inv(c, d.record) && AcksHold(w.state.e.trainee, d)
    ensures WorldHolds(c, w.(dossiers := w.dossiers[i := d]))
  {
  }

  lemma RecordKeeps(c: Work.Codec, w: World, i: nat, step: Work.Step)
    requires WorldHolds(c, w) && i < |w.dossiers| && Work.Fresh(w.dossiers[i].record, step)
    ensures WorldHolds(c, Next(c, w, OnRecord(i, step)))
  {
    var d := w.dossiers[i];
    var d' := d.(record := Work.After(c, d.record, step.op, step.ids));
    WorkInv.StepKeeps(c, d.record, step);
    WorkTheorems.StepExtends(c, d.record, step.op, step.ids);
    forall id <- d'.acks
      ensures exists k | 0 <= k < |d'.record.versions| :: d'.record.versions[k].id == id
    {
      var k :| 0 <= k < |d.record.versions| && d.record.versions[k].id == id;
      assert d'.record.versions[k].id == id;
    }
    ReplaceKeeps(c, w, i, d');
  }

  lemma NextKeeps(c: Work.Codec, w: World, a: Action)
    requires WorldHolds(c, w) && Possible(w, a)
    ensures WorldHolds(c, Next(c, w, a))
  {
    match a
    case OnEnrollment(life) =>
      LifeInv.StepKeeps(w.state, life);
      LifeTheorems.StepExtends(w.state, life);
    case OpenRecord(_, _, _, _, _) => OpenKeeps(c, w, a);
    case OnRecord(i, step) => RecordKeeps(c, w, i, step);
    case OwnWord(i, actor, may, own, response, name, now) =>
      if Acknowledge(w.dossiers[i], w.state.e.trainee, actor, may, own, response, name, now).Done? {
        AcknowledgeKeeps(w.dossiers[i], w.state.e.trainee, actor, may, own, response, name, now);
        ReplaceKeeps(c, w, i, Acknowledge(w.dossiers[i], w.state.e.trainee, actor, may, own, response, name, now).value);
      }
    case Statement(i, actor, may, about, response, name, traineeName, now) =>
      if Attest(w.dossiers[i], w.state.e.trainee, traineeName, actor, may, about, response, name, now).Done? {
        AttestKeeps(w.dossiers[i], w.state.e.trainee, traineeName, actor, may, about, response, name, now);
        ReplaceKeeps(c, w, i,
          Attest(w.dossiers[i], w.state.e.trainee, traineeName, actor, may, about, response, name, now).value);
      }
  }

  lemma {:induction false} RunKeeps(c: Work.Codec, w: World, actions: seq<Action>, w': World)
    requires WorldHolds(c, w) && Run(c, w, actions, w')
    ensures WorldHolds(c, w')
    decreases |actions|
  {
    if actions != [] {
      NextKeeps(c, w, actions[0]);
      RunKeeps(c, Next(c, w, actions[0]), actions[1..], w');
    }
  }

  lemma ReachableHolds(c: Work.Codec, w: World)
    requires Reachable(c, w)
    ensures WorldHolds(c, w)
  {
    var w0: World, actions :| Life.IsNew(w0.state) && w0.dossiers == [] && Run(c, w0, actions, w);
    RunKeeps(c, w0, actions, w);
  }

  /** The packet built from a committed state. */
  ghost function PacketOf(w: World, names: Directory): PacketFiles {
    PacketFiles(ManifestOf(w), FilesOf(w.dossiers), EnrollmentDocOf(w, names),
                SignoffDocs(w.state.catalog, w.state.e.signoffs), AmendmentsOf(w.dossiers), AcksOf(w.dossiers))
  }

  /** Producer and verifier agree. For every interleaving of lifecycle, phase,
      signoff, acknowledgment, record, amendment and finalization calls on a
      clock that never runs back, the packet of the state reached is intact and
      no check finds anything, provided the stored versions of one record hash
      distinctly. */
  lemma ReachablePacketsAreClean(c: Work.Codec, w: World, names: Directory)
    requires Reachable(c, w) && (forall u :: names(u) != "")
    requires Amendments.DistinctHashes(UnitsOf(w.dossiers))
    ensures Clean(c.sha, PacketOf(w, names)) && Intact(c.sha, PacketOf(w, names))
  {
    ReachableHolds(c, w);
    var s := w.state;
    PacketRecords.UnitsAreWhole(c, w.dossiers);
    PacketRecords.BytesAreCarried(c, w.dossiers);
    PacketRecords.AmendmentsAreFaithful(c, w.dossiers);
    PacketRecords.AcksDocPasses(c, ManifestOf(w), w.dossiers);
    PacketHistory.EnrollmentIsIntact(s, names);
    PacketHistory.DocumentsAreInOrder(w, names);
    PacketHistory.ReadBack(s, names);
    PacketHistory.PinsAreRead(s);
    PacketHistory.SignoffDocsPass(s, ChangesIn(EventDocs(s.catalog, names, s.e.events)));
    EnrollmentPassesExactly(ManifestOf(w), EnrollmentDocOf(w, names));
    AcksPassExactly(ManifestOf(w), AcksOf(w.dossiers));
    CleanMeansIntact(c.sha, PacketOf(w, names));
  }
}
