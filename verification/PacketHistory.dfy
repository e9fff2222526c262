/** The enrollment and signoff documents of a reachable enrollment are what the
    verifier intends. */
module PacketHistory {
  import opened Basics
  import opened Packet
  import opened PinHistory
  import opened PacketVerify
  import opened PacketWorld
  import Life = Lifecycle
  import Inv = LifecycleInvariant

  // ------------------------------------------------------------ the changes

  function ChangeOf(c: Life.Catalog, x: Life.Event): Change {
    Change(x.id, x.at,
           if x.from.Some? then RefOf(c, x.from.value) else VersionRef(0, ""),
           if x.to.Some? then RefOf(c, x.to.value) else VersionRef(0, ""))
  }

  function ChangeDocs(c: Life.Catalog, changes: seq<Life.Event>): seq<Change> {
    if changes == [] then [] else ChangeDocs(c, changes[..|changes| - 1]) + [ChangeOf(c, Life.Last(changes))]
  }

  lemma {:induction false} ChangeDocAt(c: Life.Catalog, changes: seq<Life.Event>)
    ensures |ChangeDocs(c, changes)| == |changes|
    ensures forall k | 0 <= k < |changes| :: ChangeDocs(c, changes)[k] == ChangeOf(c, changes[k])
  {
    if changes != [] {
      ChangeDocAt(c, changes[..|changes| - 1]);
    }
  }

  lemma {:induction false} VersionChangesAreListed(events: seq<Life.Event>)
    ensures forall x <- events :: x.kind.VersionChange? ==> x in Life.Changes(events)
  {
    if events != [] {
      var front := events[..|events| - 1];
      VersionChangesAreListed(front);
      assert events == front + [Life.Last(events)];
      forall x <- events | x.kind.VersionChange?
        ensures x in Life.Changes(events)
      {
        assert x in front || x == Life.Last(events);
      }
    }
  }

  lemma OneMoreDoc(c: Life.Catalog, names: Directory, front: seq<Life.Event>, x: Life.Event)
    ensures EventDocs(c, names, front + [x]) == EventDocs(c, names, front) + [DocOfEvent(c, names, x)]
  {
    assert (front + [x])[..|front|] == front;
  }

  lemma OneMoreRead(docs: seq<EventDoc>, d: EventDoc)
    ensures ChangesIn(docs + [d]) == ChangesIn(docs)
      + (if d.kind.VersionChange? && d.from.Some? && d.to.Some?
         then [Change(d.id, d.at, d.from.value, d.to.value)] else [])
  {
    assert (docs + [d])[..|docs|] == docs;
  }

  lemma OneMoreListed(c: Life.Catalog, changes: seq<Life.Event>, x: Life.Event)
    ensures ChangeDocs(c, changes + [x]) == ChangeDocs(c, changes) + [ChangeOf(c, x)]
  {
    assert (changes + [x])[..|changes|] == changes;
  }

  lemma OneMoreChange(c: Life.Catalog, names: Directory, front: seq<Life.Event>, x: Life.Event, read: seq<Change>)
    requires x.kind.VersionChange? ==> x.from.Some? && x.to.Some?
    requires read == ChangesIn(EventDocs(c, names, front)) == ChangeDocs(c, Life.Changes(front))
    ensures ChangesIn(EventDocs(c, names, front + [x])) == ChangeDocs(c, Life.Changes(front + [x]))
  {
    OneMoreDoc(c, names, front, x);
    OneMoreRead(EventDocs(c, names, front), DocOfEvent(c, names, x));
    Inv.ChangesGrow(front, x);
    OneMoreListed(c, Life.Changes(front), x);
    if !x.kind.VersionChange? {
      assert read + [] == read;
    }
  }

  lemma {:induction false} DocsListTheChanges(c: Life.Catalog, names: Directory, events: seq<Life.Event>)
    requires forall x <- events :: x.kind.VersionChange? ==> x.from.Some? && x.to.Some?
    ensures ChangesIn(EventDocs(c, names, events)) == ChangeDocs(c, Life.Changes(events))
  {
    if events != [] {
      var front, x := events[..|events| - 1], Life.Last(events);
      assert events == front + [x];
      DocsListTheChanges(c, names, front);
      assert x in events;
      OneMoreChange(c, names, front, x, ChangesIn(EventDocs(c, names, front)));
    }
  }

  /** The changes the verifier reads back from the document. */
  lemma ReadBack(s: Life.State, names: Directory)
    requires Inv.Inv(s)
    ensures ChangesIn(EventDocs(s.catalog, names, s.e.events)) == ChangeDocs(s.catalog, Life.Changes(s.e.events))
  {
    VersionChangesAreListed(s.e.events);
    var changes := Life.Changes(s.e.events);
    forall x <- s.e.events | x.kind.VersionChange?
      ensures x.from.Some? && x.to.Some?
    {
      var k :| 0 <= k < |changes| && changes[k] == x;
      assert Inv.ChangeHolds(s.e, k);
    }
    DocsListTheChanges(s.catalog, names, s.e.events);
  }

  // --------------------------------------------------------------- the pins

  ghost predicate PinsRead(s: Life.State, changes: seq<Change>) {
    && changes == ChangeDocs(s.catalog, Life.Changes(s.e.events))
    && |changes| == |Life.Changes(s.e.events)|
    && forall k: nat | k <= |changes| :: VersionAt(RefOf(s.catalog, s.e.pin), changes, k) == RefOf(s.catalog, Inv.PinAt(s.e, k))
  }

  lemma PinsAreRead(s: Life.State)
    requires Inv.Inv(s)
    ensures PinsRead(s, ChangeDocs(s.catalog, Life.Changes(s.e.events)))
  {
    var rows := Life.Changes(s.e.events);
    var changes := ChangeDocs(s.catalog, rows);
    ChangeDocAt(s.catalog, rows);
    forall k: nat | k <= |changes|
      ensures VersionAt(RefOf(s.catalog, s.e.pin), changes, k) == RefOf(s.catalog, Inv.PinAt(s.e, k))
    {
      if k < |changes| {
        assert Inv.ChangeHolds(s.e, k);
      }
    }
  }

  lemma PinsChain(s: Life.State, changes: seq<Change>)
    requires Inv.Inv(s) && PinsRead(s, changes)
    ensures Chained(RefOf(s.catalog, s.e.pin), changes)
  {
    var rows := Life.Changes(s.e.events);
    ChangeDocAt(s.catalog, rows);
    Inv.ChangesAscend(s.e.events);
    forall k | 0 <= k < |changes|
      ensures changes[k].to.number == VersionAt(RefOf(s.catalog, s.e.pin), changes, k + 1).number
      ensures k + 1 < |changes| ==> changes[k].at <= changes[k + 1].at
    {
      assert Inv.ChangeHolds(s.e, k);
      if k + 1 < |changes| {
        assert rows[k].at <= rows[k + 1].at;
      }
    }
  }

  /** Every reference is to a version some epoch pinned. */
  lemma {:induction false} NamedArePins(s: Life.State, changes: seq<Change>, n: nat, v: VersionRef)
    requires Inv.Inv(s) && PinsRead(s, changes) && n <= |changes|
    requires v in Named(RefOf(s.catalog, s.e.pin), changes, n)
    ensures exists k: nat :: k <= |changes| && v == RefOf(s.catalog, Inv.PinAt(s.e, k))
  {
    var current := RefOf(s.catalog, s.e.pin);
    if n == 0 {
      assert VersionAt(current, changes, |changes|) == RefOf(s.catalog, Inv.PinAt(s.e, |changes|));
    } else if v in Named(current, changes, n - 1) {
      NamedArePins(s, changes, n - 1, v);
    } else if v == changes[n - 1].from {
      assert VersionAt(current, changes, n - 1) == RefOf(s.catalog, Inv.PinAt(s.e, n - 1));
    } else {
      ChangeDocAt(s.catalog, Life.Changes(s.e.events));
      assert Inv.ChangeHolds(s.e, n - 1);
      assert v == RefOf(s.catalog, Inv.PinAt(s.e, n));
    }
  }

  lemma {:induction false} FromsAreNamed(current: VersionRef, changes: seq<Change>, n: nat, k: nat)
    requires n <= |changes|
    ensures current in Named(current, changes, n)
    ensures k < n ==> changes[k].from in Named(current, changes, n)
  {
    if n > 0 {
      FromsAreNamed(current, changes, n - 1, if k < n - 1 then k else 0);
    }
  }

  lemma PinsAreNamed(s: Life.State, changes: seq<Change>, k: nat)
    requires Inv.Inv(s) && PinsRead(s, changes) && k <= |changes|
    ensures RefOf(s.catalog, Inv.PinAt(s.e, k)) in Named(RefOf(s.catalog, s.e.pin), changes, |changes|)
  {
    FromsAreNamed(RefOf(s.catalog, s.e.pin), changes, |changes|, k);
    assert VersionAt(RefOf(s.catalog, s.e.pin), changes, k) == RefOf(s.catalog, Inv.PinAt(s.e, k));
  }

  /** Within one program a number names one version, so one label. */
  lemma PinsShareLabels(s: Life.State, j: nat, k: nat)
    requires Inv.Inv(s) && j <= |Life.Changes(s.e.events)| && k <= |Life.Changes(s.e.events)|
    ensures RefOf(s.catalog, Inv.PinAt(s.e, j)).number == RefOf(s.catalog, Inv.PinAt(s.e, k)).number
      ==> Inv.PinAt(s.e, j) == Inv.PinAt(s.e, k)
  {
    assert Inv.PinHolds(s, j) && Inv.PinHolds(s, k);
    var v, w := Inv.PinAt(s.e, j), Inv.PinAt(s.e, k);
    assert v != w ==> Life.Apart(s.catalog[v], s.catalog[w]);
  }

  lemma LabelsAgree(s: Life.State, changes: seq<Change>)
    requires Inv.Inv(s) && PinsRead(s, changes)
    ensures OneLabelEach(Named(RefOf(s.catalog, s.e.pin), changes, |changes|))
  {
    var refs := Named(RefOf(s.catalog, s.e.pin), changes, |changes|);
    forall v, w | v in refs && w in refs && v.number == w.number
      ensures v.labelText == w.labelText
    {
      NamedArePins(s, changes, |changes|, v);
      NamedArePins(s, changes, |changes|, w);
      var j: nat :| j <= |changes| && v == RefOf(s.catalog, Inv.PinAt(s.e, j));
      var k: nat :| k <= |changes| && w == RefOf(s.catalog, Inv.PinAt(s.e, k));
      PinsShareLabels(s, j, k);
    }
  }

  // --------------------------------------------------- phase and signoff rows

  lemma OwnerIsUnique(c: Life.Catalog, phase: int, v: int)
    requires Life.WellFormed(c) && v in c && phase in c[v].phases
    ensures OwnerOf(c, phase) == Some(v)
  {
    var w := OwnerOf(c, phase).value;
    assert v != w ==> Life.Apart(c[v], c[w]);
  }

  lemma TaskOwnerIsUnique(c: Life.Catalog, task: int, v: int)
    requires Life.WellFormed(c) && v in c && task in c[v].tasks
    ensures TaskOwner(c, task) == Some(v)
  {
    var w := TaskOwner(c, task).value;
    assert v != w ==> Life.Apart(c[v], c[w]);
  }

  lemma PhaseDocFits(s: Life.State, names: Directory, changes: seq<Change>, i: nat)
    requires Inv.Inv(s) && PinsRead(s, changes) && i < |s.e.phaseEvents| && (forall u :: names(u) != "")
    ensures var d := DocOfPhase(s.catalog, names, s.e.phaseEvents[i]);
      PhaseFits(RefOf(s.catalog, s.e.pin), changes, d) && PhaseShaped(d)
  {
    var x := s.e.phaseEvents[i];
    assert Inv.PhaseFits(s, i);
    var k: nat :| Inv.PhaseOk(s, i, k);
    var v := Inv.PinAt(s.e, k);
    assert Life.WellFormedVersion(s.catalog[v]);
    if x.from.Some? {
      OwnerIsUnique(s.catalog, x.from.value, v);
    }
    if x.to.Some? {
      OwnerIsUnique(s.catalog, x.to.value, v);
    }
    var d := DocOfPhase(s.catalog, names, x);
    assert d.version == RefOf(s.catalog, v);
    PinsAreNamed(s, changes, k);
    ChangeDocAt(s.catalog, Life.Changes(s.e.events));
    assert PhaseIn(RefOf(s.catalog, s.e.pin), changes, d, k) by {
      assert VersionAt(RefOf(s.catalog, s.e.pin), changes, k) == RefOf(s.catalog, v);
    }
  }

  lemma SignoffDocFits(s: Life.State, changes: seq<Change>, i: nat)
    requires Inv.Inv(s) && PinsRead(s, changes) && i < |s.e.signoffs|
    ensures SignoffFits(RefOf(s.catalog, s.e.pin), changes, DocOfSignoff(s.catalog, s.e.signoffs[i]))
  {
    var x := s.e.signoffs[i];
    assert Inv.SignoffFits(s, i);
    var k: nat :| Inv.SignoffOk(s, i, k);
    var v := Inv.PinAt(s.e, k);
    TaskOwnerIsUnique(s.catalog, x.task, v);
    var d := DocOfSignoff(s.catalog, x);
    PinsAreNamed(s, changes, k);
    ChangeDocAt(s.catalog, Life.Changes(s.e.events));
    assert SignoffIn(RefOf(s.catalog, s.e.pin), changes, d, k) by {
      assert VersionAt(RefOf(s.catalog, s.e.pin), changes, k) == RefOf(s.catalog, v);
    }
  }

  // ------------------------------------------------------------- the documents

  lemma {:induction false} EventDocAt(c: Life.Catalog, names: Directory, rows: seq<Life.Event>)
    ensures |EventDocs(c, names, rows)| == |rows|
    ensures forall i | 0 <= i < |rows| :: EventDocs(c, names, rows)[i] == DocOfEvent(c, names, rows[i])
  {
    if rows != [] {
      EventDocAt(c, names, rows[..|rows| - 1]);
    }
  }

  lemma {:induction false} PhaseDocAt(c: Life.Catalog, names: Directory, rows: seq<Life.PhaseEvent>)
    ensures |PhaseDocs(c, names, rows)| == |rows|
    ensures forall i | 0 <= i < |rows| :: PhaseDocs(c, names, rows)[i] == DocOfPhase(c, names, rows[i])
  {
    if rows != [] {
      PhaseDocAt(c, names, rows[..|rows| - 1]);
    }
  }

  lemma {:induction false} SignoffDocAt(c: Life.Catalog, rows: seq<Life.Signoff>)
    ensures |SignoffDocs(c, rows)| == |rows|
    ensures forall i | 0 <= i < |rows| :: SignoffDocs(c, rows)[i] == DocOfSignoff(c, rows[i])
  {
    if rows != [] {
      SignoffDocAt(c, rows[..|rows| - 1]);
    }
  }

  /** The order the packet reads is the order of recording. */
  lemma {:induction false} EffectiveIsRecorded(rows: seq<Life.PhaseEvent>)
    requires Inv.RowsAscend(rows)
    ensures ByEffective(rows) == rows
  {
    if rows != [] {
      var n := |rows| - 1;
      var front := rows[..n];
      EffectiveIsRecorded(front);
      assert rows == front + [rows[n]];
      if n > 0 {
        assert Life.Later(rows[n], rows[n - 1]) && Life.Last(front) == rows[n - 1];
      }
    }
  }

  lemma EventDocsPass(s: Life.State, names: Directory)
    requires Inv.Inv(s) && (forall u :: names(u) != "")
    ensures EventsInOrder(EventDocs(s.catalog, names, s.e.events))
    ensures forall d <- EventDocs(s.catalog, names, s.e.events) :: EventShaped(d)
  {
    var docs, rows := EventDocs(s.catalog, names, s.e.events), s.e.events;
    EventDocAt(s.catalog, names, rows);
    VersionChangesAreListed(rows);
    forall i | 0 <= i < |docs| - 1
      ensures docs[i].id < docs[i + 1].id
    {
      assert rows[i].id < rows[i + 1].id;
    }
    forall d <- docs
      ensures EventShaped(d)
    {
      var i :| 0 <= i < |docs| && docs[i] == d;
      EventDocShaped(s, names, i);
    }
  }

  lemma EventDocShaped(s: Life.State, names: Directory, i: nat)
    requires Inv.Inv(s) && (forall u :: names(u) != "") && i < |s.e.events|
    ensures EventShaped(DocOfEvent(s.catalog, names, s.e.events[i]))
  {
    var x := s.e.events[i];
    if x.kind.VersionChange? {
      var changes := Life.Changes(s.e.events);
      VersionChangesAreListed(s.e.events);
      var k :| 0 <= k < |changes| && changes[k] == x;
      assert Inv.ChangeHolds(s.e, k) && Inv.PinHolds(s, k) && Inv.PinHolds(s, k + 1);
      assert Life.WellFormedVersion(s.catalog[Inv.PinAt(s.e, k)]);
      assert Life.WellFormedVersion(s.catalog[Inv.PinAt(s.e, k + 1)]);
      PinsShareLabels(s, k, k + 1);
    }
  }

  lemma PhaseDocsPass(s: Life.State, names: Directory, changes: seq<Change>)
    requires Inv.Inv(s) && PinsRead(s, changes) && (forall u :: names(u) != "")
    ensures var docs := PhaseDocs(s.catalog, names, ByEffective(s.e.phaseEvents));
      && PhasesInOrder(docs)
      && (forall d <- docs :: PhaseShaped(d) && PhaseFits(RefOf(s.catalog, s.e.pin), changes, d))
  {
    var rows := s.e.phaseEvents;
    EffectiveIsRecorded(rows);
    PhaseDocAt(s.catalog, names, rows);
    var docs := PhaseDocs(s.catalog, names, rows);
    forall i | 0 <= i < |docs| - 1
      ensures PhaseBefore(docs[i], docs[i + 1])
    {
      assert rows[i].id < rows[i + 1].id && rows[i].effective <= rows[i + 1].effective;
    }
    forall d <- docs
      ensures PhaseShaped(d) && PhaseFits(RefOf(s.catalog, s.e.pin), changes, d)
    {
      var i :| 0 <= i < |docs| && docs[i] == d;
      PhaseDocFits(s, names, changes, i);
    }
  }

  lemma SameEarlierRows(c: Life.Catalog, rows: seq<Life.Signoff>, i: nat)
    requires i < |rows|
    ensures i < |SignoffDocs(c, rows)|
    ensures SignedEarlier(SignoffDocs(c, rows), i) <==> Life.SignedBefore(rows[..i], rows[i].task)
  {
    var docs := SignoffDocs(c, rows);
    SignoffDocAt(c, rows);
    if SignedEarlier(docs, i) {
      var j :| 0 <= j < i && docs[j].task == docs[i].task;
      assert rows[..i][j] in rows[..i];
    }
    if Life.SignedBefore(rows[..i], rows[i].task) {
      var x :| x in rows[..i] && x.task == rows[i].task;
      var j :| 0 <= j < i && rows[..i][j] == x;
      assert docs[j].task == docs[i].task;
    }
  }

  lemma SignoffRowShaped(s: Life.State, i: nat)
    requires Inv.Inv(s) && i < |s.e.signoffs|
    ensures i < |SignoffDocs(s.catalog, s.e.signoffs)| && RowShaped(SignoffDocs(s.catalog, s.e.signoffs), i)
  {
    var rows := s.e.signoffs;
    SignoffDocAt(s.catalog, rows);
    SameEarlierRows(s.catalog, rows, i);
    assert Inv.SignoffFits(s, i) && Inv.Overrides(rows, i);
    var k: nat :| Inv.SignoffOk(s, i, k);
    var v := Inv.PinAt(s.e, k);
    TaskOwnerIsUnique(s.catalog, rows[i].task, v);
    assert Life.WellFormedVersion(s.catalog[v]);
  }

  lemma SignoffDocsPass(s: Life.State, changes: seq<Change>)
    requires Inv.Inv(s) && PinsRead(s, changes)
    ensures var docs := SignoffDocs(s.catalog, s.e.signoffs);
      && SignoffsInOrder(docs) && SignoffsShaped(docs)
      && (forall d <- docs :: SignoffFits(RefOf(s.catalog, s.e.pin), changes, d))
  {
    var rows, docs := s.e.signoffs, SignoffDocs(s.catalog, s.e.signoffs);
    SignoffDocAt(s.catalog, rows);
    forall i | 0 <= i < |docs| - 1
      ensures docs[i].id < docs[i + 1].id
    {
      assert rows[i].id < rows[i + 1].id;
    }
    forall i | 0 <= i < |docs|
      ensures RowShaped(docs, i)
    {
      SignoffRowShaped(s, i);
    }
    forall d <- docs
      ensures SignoffFits(RefOf(s.catalog, s.e.pin), changes, d)
    {
      var i :| 0 <= i < |docs| && docs[i] == d;
      SignoffDocFits(s, changes, i);
    }
  }

  lemma EnrollmentIsIntact(s: Life.State, names: Directory)
    requires Inv.Inv(s) && (forall u :: names(u) != "")
    ensures var current, changes := RefOf(s.catalog, s.e.pin), ChangesIn(EventDocs(s.catalog, names, s.e.events));
      Intended(current, changes, PhaseDocs(s.catalog, names, ByEffective(s.e.phaseEvents)),
               SignoffDocs(s.catalog, s.e.signoffs))
  {
    var changes := ChangesIn(EventDocs(s.catalog, names, s.e.events));
    ReadBack(s, names);
    PinsAreRead(s);
    PinsChain(s, changes);
    LabelsAgree(s, changes);
    PhaseDocsPass(s, names, changes);
    SignoffDocsPass(s, changes);
  }

  lemma DocumentsAreInOrder(w: World, names: Directory)
    requires Inv.Inv(w.state) && (forall u :: names(u) != "")
    ensures ManifestShaped(ManifestOf(w))
    ensures EnrollmentPasses(ManifestOf(w), EnrollmentDocOf(w, names))
  {
    var s := w.state;
    EventDocsPass(s, names);
    ReadBack(s, names);
    PinsAreRead(s);
    PhaseDocsPass(s, names, ChangesIn(EventDocs(s.catalog, names, s.e.events)));
    assert Inv.PinHolds(s, |Life.Changes(s.e.events)|);
    assert Life.WellFormedVersion(s.catalog[s.e.pin]);
  }
}
