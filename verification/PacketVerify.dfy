/** Everything a reader checks of a packet, and what it means that nothing is
    found. */
module PacketVerify {
  import opened Basics
  import opened Packet
  import opened PinHistory
  import Life = Lifecycle
  import Spoke = Acknowledgments
  import Canonical
  import Lineage
  import Amendments

  datatype PacketFiles = PacketFiles(
    manifest: Manifest, files: Lineage.Files, enrollment: EnrollmentDoc,
    signoffs: seq<SignoffDoc>, amendments: seq<Amendments.Amendment>, acks: seq<AckDoc>)

  predicate ManifestShaped(m: Manifest) {
    m.enrollment > 0 && m.trainee > 0 && m.pin.number >= 1
  }

  predicate EventsInOrder(events: seq<EventDoc>) {
    forall i | 0 <= i < |events| - 1 :: events[i].id < events[i + 1].id
  }

  predicate PhaseBefore(a: PhaseDoc, b: PhaseDoc) {
    a.effective < b.effective || (a.effective == b.effective && a.id < b.id)
  }

  predicate PhasesInOrder(phases: seq<PhaseDoc>) {
    forall i | 0 <= i < |phases| - 1 :: PhaseBefore(phases[i], phases[i + 1])
  }

  predicate EnrollmentPasses(m: Manifest, d: EnrollmentDoc) {
    && d.enrollment == m.enrollment
    && EventsInOrder(d.events) && PhasesInOrder(d.phases)
    && (forall x <- d.events :: EventShaped(x))
    && (forall x <- d.phases :: PhaseShaped(x))
  }

  predicate SignoffsInOrder(rows: seq<SignoffDoc>) {
    forall i | 0 <= i < |rows| - 1 :: rows[i].id < rows[i + 1].id
  }

  predicate SignoffsPass(rows: seq<SignoffDoc>) {
    SignoffsInOrder(rows) && SignoffErrors(rows) == []
  }

  predicate AckBefore(a: AckDoc, b: AckDoc) {
    a.record < b.record || (a.record == b.record && a.number < b.number)
  }

  predicate AcksInOrder(acks: seq<AckDoc>) {
    forall i | 0 <= i < |acks| - 1 :: AckBefore(acks[i], acks[i + 1])
  }

  predicate AcksPass(m: Manifest, acks: seq<AckDoc>) {
    && AcksInOrder(acks)
    && (forall a <- acks ::
          && a.user.id == m.trainee
          && (a.record, a.number) in Amendments.Identities(m.units)
          && AckShaped(a))
  }

  predicate Clean(sha: Bytes -> Canonical.Digest, p: PacketFiles) {
    && ManifestShaped(p.manifest)
    && Lineage.UnitFindings(sha, p.files, p.manifest.units) == {}
    && Amendments.AmendmentFindings(p.manifest.units, p.amendments) == {}
    && EnrollmentPasses(p.manifest, p.enrollment)
    && SignoffsPass(p.signoffs)
    && AcksPass(p.manifest, p.acks)
    && Silent(p.manifest.pin, ChangesIn(p.enrollment.events), p.enrollment.phases, p.signoffs)
  }

  // ------------------------------------------------------------- soundness

  lemma {:induction false} EventsAscend(events: seq<EventDoc>, i: nat, j: nat)
    requires EventsInOrder(events) && i < j < |events|
    ensures events[i].id < events[j].id
    decreases j
  {
    if i < j - 1 {
      EventsAscend(events, i, j - 1);
    }
  }

  lemma {:induction false} ChangesAreEvents(events: seq<EventDoc>)
    ensures forall c <- ChangesIn(events) :: exists d :: d in events && d.id == c.id
  {
    if events != [] {
      var front, last := events[..|events| - 1], events[|events| - 1];
      ChangesAreEvents(front);
      forall c <- ChangesIn(events)
        ensures exists d :: d in events && d.id == c.id
      {
        if c in ChangesIn(front) {
          var d :| d in front && d.id == c.id;
          assert d in events;
        } else {
          assert last in events && last.id == c.id;
        }
      }
    }
  }

  lemma {:induction false} ChangesAscend(events: seq<EventDoc>)
    requires EventsInOrder(events)
    ensures IdsAscend(ChangesIn(events))
  {
    if events != [] {
      var n := |events| - 1;
      var front := events[..n];
      ChangesAscend(front);
      ChangesAreEvents(front);
      forall c <- ChangesIn(front)
        ensures c.id < events[n].id
      {
        var d :| d in front && d.id == c.id;
        var i :| 0 <= i < n && front[i] == d;
        EventsAscend(events, i, n);
      }
      var earlier, all := ChangesIn(front), ChangesIn(events);
      forall i, j | 0 <= i < j < |all|
        ensures all[i].id < all[j].id
      {
        if j < |earlier| {
          assert all[i] == earlier[i] && all[j] == earlier[j];
        } else {
          assert all[i] == earlier[i] && earlier[i] in earlier;
        }
      }
    }
  }

  /** A lifecycle event as the services record one: a version change leaves one
      numbered version for another and says why, nothing else names versions. */
  predicate EventIs(d: EventDoc) {
    && (d.actor == None || d.actor.value.name != "")
    && (d.kind == Life.VersionChange ==>
          && d.from != None && d.to != None && d.from.value.number != d.to.value.number
          && d.from.value.number > 0 && d.to.value.number > 0 && d.reason != "")
    && (d.kind != Life.VersionChange ==> d.from == None && d.to == None)
  }

  /** A phase event as the services record one: a move has a phase to go to, only an
      advance may have none to leave; anything else stays where it is. */
  predicate PhaseIs(d: PhaseDoc) {
    && (d.actor == None || d.actor.value.name != "")
    && d.version.number > 0 && d.recorded >= d.effective
    && (d.from != None ==> d.from.value != "") && (d.to != None ==> d.to.value != "")
    && (d.kind in {Life.Advance, Life.Return, Life.Restart} <==> d.to != None)
    && (d.kind != Life.Advance ==> d.from != None)
  }

  /** An acknowledgment as the services record one: named people, a response unless it
      is plain receipt, the trainee's own word exactly when the trainee recorded it. */
  predicate AckIs(d: AckDoc) {
    && d.user.name != "" && d.recordedBy.name != ""
    && (d.kind == Spoke.Spoken(Spoke.Acknowledged) ==> d.response == "")
    && (d.kind != Spoke.Spoken(Spoke.Acknowledged) ==> !Blank(d.response))
    && (d.kind.Attested? <==> d.user.id != d.recordedBy.id)
  }

  /** The manifest's own enrollment, its events each after the one before, its phase
      events in the order they took effect. */
  ghost predicate HistoryIs(m: Manifest, d: EnrollmentDoc) {
    && d.enrollment == m.enrollment
    && (forall i | 0 <= i < |d.events| - 1 :: d.events[i + 1].id > d.events[i].id)
    && (forall i | 0 <= i < |d.phases| - 1 ::
          && d.phases[i + 1].effective >= d.phases[i].effective
          && (d.phases[i + 1].effective == d.phases[i].effective ==> d.phases[i + 1].id > d.phases[i].id))
    && (forall i | 0 <= i < |d.events| :: EventIs(d.events[i]))
    && (forall i | 0 <= i < |d.phases| :: PhaseIs(d.phases[i]))
  }

  /** Acknowledgments by record and version, each once, about the trainee and bound to
      a version the packet carries. */
  ghost predicate AcksAre(m: Manifest, acks: seq<AckDoc>) {
    && (forall i | 0 <= i < |acks| - 1 ::
          && acks[i].record <= acks[i + 1].record
          && (acks[i].record == acks[i + 1].record ==> acks[i].number < acks[i + 1].number))
    && (forall i | 0 <= i < |acks| ::
          && acks[i].user.id == m.trainee && AckIs(acks[i])
          && exists u <- m.units :: u.record == acks[i].record && u.number == acks[i].number)
  }

  lemma EnrollmentPassesExactly(m: Manifest, d: EnrollmentDoc)
    ensures EnrollmentPasses(m, d) <==> HistoryIs(m, d)
  {
    forall x: EventDoc
      ensures EventShaped(x) <==> EventIs(x)
    {
    }
    forall x: PhaseDoc
      ensures PhaseShaped(x) <==> PhaseIs(x)
    {
    }
    if HistoryIs(m, d) {
      forall i | 0 <= i < |d.phases| - 1
        ensures PhaseBefore(d.phases[i], d.phases[i + 1])
      {
      }
    }
  }

  lemma AcksPassExactly(m: Manifest, acks: seq<AckDoc>)
    ensures AcksPass(m, acks) <==> AcksAre(m, acks)
  {
    forall x: AckDoc
      ensures AckShaped(x) <==> AckIs(x)
      ensures (x.record, x.number) in Amendments.Identities(m.units) <==>
        exists u <- m.units :: u.record == x.record && u.number == x.number
    {
    }
    if AcksAre(m, acks) {
      forall i | 0 <= i < |acks| - 1
        ensures AckBefore(acks[i], acks[i + 1])
      {
      }
    }
  }

  /** What an intact packet is: whole lineages whose bytes carry their hashes,
      one amendment a succession, one chain of pins with every phase event and
      signoff where it was pinned, signoffs explained, and every document in
      order, well shaped and about what the packet carries. */
  ghost predicate Intact(sha: Bytes -> Canonical.Digest, p: PacketFiles) {
    && p.manifest.enrollment >= 1 && p.manifest.trainee >= 1 && p.manifest.pin.number >= 1
    && Lineage.Whole(p.manifest.units) && Lineage.BytesAgree(sha, p.files, p.manifest.units)
    && Amendments.Faithful(p.manifest.units, p.amendments)
    && HistoryIs(p.manifest, p.enrollment)
    && (forall i | 0 <= i < |p.signoffs| - 1 :: p.signoffs[i + 1].id > p.signoffs[i].id) && SignoffsShaped(p.signoffs)
    && AcksAre(p.manifest, p.acks)
    && Intended(p.manifest.pin, ChangesIn(p.enrollment.events), p.enrollment.phases, p.signoffs)
  }

  /** A packet whose versions hash distinctly is clean if and only if it is
      intact. */
  lemma CleanMeansIntact(sha: Bytes -> Canonical.Digest, p: PacketFiles)
    requires Amendments.DistinctHashes(p.manifest.units)
    ensures Clean(sha, p) <==> Intact(sha, p)
  {
    Lineage.UnitChecksAreExact(sha, p.files, p.manifest.units);
    if Lineage.Whole(p.manifest.units) {
      Amendments.AmendmentCheckIsExact(p.manifest.units, p.amendments);
    }
    SignoffShapesAreExact(p.signoffs);
    EnrollmentPassesExactly(p.manifest, p.enrollment);
    AcksPassExactly(p.manifest, p.acks);
    if EventsInOrder(p.enrollment.events) {
      ChangesAscend(p.enrollment.events);
      PinChecksAreExact(p.manifest.pin, ChangesIn(p.enrollment.events), p.enrollment.phases, p.signoffs);
    }
  }
}
