/** The pin history a packet's enrollment document defines, as the verifier
    rebuilds it from the version changes, and the rows it is held against. */
module PinHistory {
  import opened Basics
  import opened Packet
  import opened Lifecycle

  datatype Change = Change(id: int, at: int, from: VersionRef, to: VersionRef)

  datatype Epoch = Epoch(version: int, opening: Option<int>, closing: Option<int>)

  datatype History = History(labels: map<int, string>, original: Epoch, epochs: map<int, Epoch>)

  datatype Complaint =
    | LeavesUnpinned(change: int)
    | LabelledTwice(change: int, version: int)
    | OutOfRecordedOrder(change: int)
    | EndsElsewhere(version: int)

  function ChangesIn(events: seq<EventDoc>): seq<Change> {
    if events == [] then []
    else
      var d := Last(events);
      ChangesIn(events[..|events| - 1])
      + (if d.kind.VersionChange? && d.from.Some? && d.to.Some?
         then [Change(d.id, d.at, d.from.value, d.to.value)] else [])
  }

  // ------------------------------------------------------- the rebuilt history

  function LabelIn(labels: map<int, string>, v: VersionRef): map<int, string> {
    if v.number in labels then labels else labels[v.number := v.labelText]
  }

  function LabelFinding(labels: map<int, string>, change: int, v: VersionRef): set<Complaint> {
    if v.number in labels && labels[v.number] != v.labelText then {LabelledTwice(change, v.number)} else {}
  }

  function Closing(changes: seq<Change>, k: nat): Option<int>
    requires k <= |changes|
  {
    if k < |changes| then Some(changes[k].at) else None
  }

  /** The version pinned when change `k` is read. */
  function PinnedBefore(current: VersionRef, changes: seq<Change>, k: nat): int
    requires k <= |changes|
  {
    if changes == [] then current.number else if k == 0 then changes[0].from.number else changes[k - 1].to.number
  }

  /** Every label met in the first `k` changes, the packet's own first. */
  function LabelsTo(current: VersionRef, changes: seq<Change>, k: nat): map<int, string>
    requires k <= |changes|
  {
    if k == 0 then map[current.number := current.labelText]
    else LabelIn(LabelIn(LabelsTo(current, changes, k - 1), changes[k - 1].from), changes[k - 1].to)
  }

  function EpochsTo(changes: seq<Change>, k: nat): map<int, Epoch>
    requires k <= |changes|
  {
    if k == 0 then map[]
    else
      var c := changes[k - 1];
      EpochsTo(changes, k - 1)[c.id := Epoch(c.to.number, Some(c.at), Closing(changes, k))]
  }

  function ChangeFindings(labels: map<int, string>, pinned: int, changes: seq<Change>, k: nat): set<Complaint>
    requires k < |changes|
  {
    var c := changes[k];
    (if c.from.number != pinned then {LeavesUnpinned(c.id)} else {})
    + LabelFinding(labels, c.id, c.from)
    + LabelFinding(LabelIn(labels, c.from), c.id, c.to)
    + (if k + 1 < |changes| && changes[k + 1].at < c.at then {OutOfRecordedOrder(c.id)} else {})
  }

  function FoundTo(current: VersionRef, changes: seq<Change>, k: nat): set<Complaint>
    requires k <= |changes|
  {
    if k == 0 then {}
    else
      FoundTo(current, changes, k - 1)
      + ChangeFindings(LabelsTo(current, changes, k - 1), PinnedBefore(current, changes, k - 1), changes, k - 1)
  }

  function HistoryOf(current: VersionRef, changes: seq<Change>): History {
    History(LabelsTo(current, changes, |changes|),
            Epoch(PinnedBefore(current, changes, 0), None, Closing(changes, 0)),
            EpochsTo(changes, |changes|))
  }

  function HistoryFindings(current: VersionRef, changes: seq<Change>): set<Complaint> {
    var ended := PinnedBefore(current, changes, |changes|);
    FoundTo(current, changes, |changes|) + (if ended != current.number then {EndsElsewhere(ended)} else {})
  }

  method LabelVersion(labels: map<int, string>, change: int, v: VersionRef)
      returns (labels': map<int, string>, finding: set<Complaint>)
    ensures labels' == LabelIn(labels, v) && finding == LabelFinding(labels, change, v)
  {
    labels', finding := labels, {};
    if v.number in labels {
      if labels[v.number] != v.labelText {
        finding := {LabelledTwice(change, v.number)};
      }
    } else {
      labels' := labels[v.number := v.labelText];
    }
  }

  /** Builds the history, noting where the events contradict it. */
  method Rebuild(manifest: Manifest, doc: EnrollmentDoc) returns (history: History, findings: set<Complaint>)
    ensures history == HistoryOf(manifest.pin, ChangesIn(doc.events))
    ensures findings == HistoryFindings(manifest.pin, ChangesIn(doc.events))
  {
    var current, changes := manifest.pin, ChangesIn(doc.events);
    var original := if changes == [] then current.number else changes[0].from.number;
    var labels := map[current.number := current.labelText];
    var epochs: map<int, Epoch> := map[];
    findings := {};
    var pinned := original;
    var i := 0;
    while i < |changes|
      invariant 0 <= i <= |changes|
      invariant labels == LabelsTo(current, changes, i) && epochs == EpochsTo(changes, i)
      invariant pinned == PinnedBefore(current, changes, i) && findings == FoundTo(current, changes, i)
    {
      var c := changes[i];
      var unpinned: set<Complaint> := if c.from.number != pinned then {LeavesUnpinned(c.id)} else {};
      var left, reached;
      labels, left := LabelVersion(labels, c.id, c.from);
      labels, reached := LabelVersion(labels, c.id, c.to);
      var closing := Closing(changes, i + 1);
      var late: set<Complaint> :=
        if closing.Some? && closing.value < c.at then {OutOfRecordedOrder(c.id)} else {};
      findings := findings + (unpinned + left + reached + late);
      epochs := epochs[c.id := Epoch(c.to.number, Some(c.at), closing)];
      pinned := c.to.number;
      i := i + 1;
    }
    if pinned != current.number {
      findings := findings + {EndsElsewhere(pinned)};
    }
    history := History(labels, Epoch(original, None, Closing(changes, 0)), epochs);
  }

  // -------------------------------------------------- rows against the history

  /** Whole seconds cannot order a change and an act within that second, so both
      endpoints belong to the epoch. */
  predicate Includes(e: Epoch, instant: int) {
    (e.opening.Some? ==> instant >= e.opening.value) && (e.closing.Some? ==> instant <= e.closing.value)
  }

  predicate Known(h: History, v: VersionRef) {
    v.number in h.labels && h.labels[v.number] == v.labelText
  }

  predicate SignoffPasses(h: History, d: SignoffDoc) {
    && Known(h, d.version)
    && (|| (h.original.version == d.version.number && Includes(h.original, d.at))
        || exists id <- h.epochs :: h.epochs[id].version == d.version.number && Includes(h.epochs[id], d.at))
  }

  predicate TimesPass(e: Epoch, d: PhaseDoc) {
    && (e.opening.Some? ==> d.effective >= e.opening.value && d.recorded >= e.opening.value)
    && (e.closing.Some? ==> d.recorded <= e.closing.value)
  }

  /** The epoch a phase event claims: the original pin, or the one its version
      change opened. */
  function ClaimedEpoch(h: History, d: PhaseDoc): Option<Epoch> {
    if d.epoch.None? then Some(h.original)
    else if d.epoch.value in h.epochs then Some(h.epochs[d.epoch.value]) else None
  }

  predicate PhasePasses(h: History, d: PhaseDoc) {
    var claimed := ClaimedEpoch(h, d);
    && Known(h, d.version)
    && claimed.Some? && claimed.value.version == d.version.number
    && TimesPass(claimed.value, d)
  }

  // ------------------------------------------------------ the intended history

  /** The version pinned in epoch `k`: what change `k` left, or the current pin. */
  function VersionAt(current: VersionRef, changes: seq<Change>, k: nat): VersionRef
    requires k <= |changes|
  {
    if k < |changes| then changes[k].from else current
  }

  /** Each change reaches the version the next one leaves, no later than it. */
  ghost predicate Chained(current: VersionRef, changes: seq<Change>) {
    forall k | 0 <= k < |changes| ::
      && changes[k].to.number == VersionAt(current, changes, k + 1).number
      && (k + 1 < |changes| ==> changes[k].at <= changes[k + 1].at)
  }

  /** The versions the packet names, in the order the verifier meets them. */
  function Named(current: VersionRef, changes: seq<Change>, k: nat): seq<VersionRef>
    requires k <= |changes|
  {
    if k == 0 then [current] else Named(current, changes, k - 1) + [changes[k - 1].from] + [changes[k - 1].to]
  }

  ghost predicate OneLabelEach(refs: seq<VersionRef>) {
    forall v, w | v in refs && w in refs :: v.number == w.number ==> v.labelText == w.labelText
  }

  ghost predicate EpochNamed(changes: seq<Change>, k: nat, epoch: Option<int>) {
    k <= |changes| && epoch == if k == 0 then None else Some(changes[k - 1].id)
  }

  /** The row names the version epoch `k` pinned, and fits between its bounds. */
  ghost predicate PhaseIn(current: VersionRef, changes: seq<Change>, d: PhaseDoc, k: nat) {
    && EpochNamed(changes, k, d.epoch)
    && d.version.number == VersionAt(current, changes, k).number
    && (k > 0 ==> changes[k - 1].at <= d.effective && changes[k - 1].at <= d.recorded)
    && (k < |changes| ==> d.recorded <= changes[k].at)
  }

  ghost predicate PhaseFits(current: VersionRef, changes: seq<Change>, d: PhaseDoc) {
    && d.version in Named(current, changes, |changes|)
    && exists k: nat :: PhaseIn(current, changes, d, k)
  }

  ghost predicate SignoffIn(current: VersionRef, changes: seq<Change>, d: SignoffDoc, k: nat) {
    && k <= |changes|
    && d.version.number == VersionAt(current, changes, k).number
    && (k > 0 ==> changes[k - 1].at <= d.at)
    && (k < |changes| ==> d.at <= changes[k].at)
  }

  ghost predicate SignoffFits(current: VersionRef, changes: seq<Change>, d: SignoffDoc) {
    && d.version in Named(current, changes, |changes|)
    && exists k: nat :: SignoffIn(current, changes, d, k)
  }

  /** The history the packet claims: one chain of pins under one set of labels,
      and every phase event and signoff in an epoch that pinned its version. */
  ghost predicate Intended(current: VersionRef, changes: seq<Change>, phases: seq<PhaseDoc>, signoffs: seq<SignoffDoc>) {
    && Chained(current, changes)
    && OneLabelEach(Named(current, changes, |changes|))
    && (forall d <- phases :: PhaseFits(current, changes, d))
    && (forall d <- signoffs :: SignoffFits(current, changes, d))
  }

  predicate Silent(current: VersionRef, changes: seq<Change>, phases: seq<PhaseDoc>, signoffs: seq<SignoffDoc>) {
    && HistoryFindings(current, changes) == {}
    && (forall d <- phases :: PhasePasses(HistoryOf(current, changes), d))
    && (forall d <- signoffs :: SignoffPasses(HistoryOf(current, changes), d))
  }

  // ----------------------------------------------------------------- exactness

  /** One label per version among `refs`, which `labels` records. */
  ghost predicate Records(labels: map<int, string>, refs: seq<VersionRef>) {
    && (forall v <- refs :: v.number in labels)
    && (forall n <- labels :: VersionRef(n, labels[n]) in refs)
  }

  lemma LabelOnce(labels: map<int, string>, refs: seq<VersionRef>, change: int, v: VersionRef)
    requires Records(labels, refs)
    ensures Records(LabelIn(labels, v), refs + [v])
    ensures OneLabelEach(refs) ==> (LabelFinding(labels, change, v) == {} <==> OneLabelEach(refs + [v]))
  {
    assert forall w :: w in refs + [v] <==> w in refs || w == v;
    if OneLabelEach(refs) && v.number in labels {
      var known := VersionRef(v.number, labels[v.number]);
      assert known in refs + [v] && v in refs + [v];
    }
  }

  lemma FewerStillOne(refs: seq<VersionRef>, more: seq<VersionRef>)
    requires OneLabelEach(refs + more)
    ensures OneLabelEach(refs)
  {
    assert forall v | v in refs :: v in refs + more;
  }

  ghost predicate ChangeFits(current: VersionRef, changes: seq<Change>, k: nat)
    requires k < |changes|
  {
    && (k > 0 ==> changes[k].from.number == changes[k - 1].to.number)
    && (k + 1 < |changes| ==> changes[k].at <= changes[k + 1].at)
  }

  /** What one change adds, over the references already read. */
  lemma ReadOne(labels: map<int, string>, pinned: int, changes: seq<Change>, k: nat, refs: seq<VersionRef>)
    requires k < |changes| && Records(labels, refs)
    ensures Records(LabelIn(LabelIn(labels, changes[k].from), changes[k].to), refs + [changes[k].from] + [changes[k].to])
    ensures OneLabelEach(refs) ==>
      (ChangeFindings(labels, pinned, changes, k) == {} <==>
        && changes[k].from.number == pinned
        && (k + 1 < |changes| ==> changes[k].at <= changes[k + 1].at)
        && OneLabelEach(refs + [changes[k].from] + [changes[k].to]))
  {
    var c := changes[k];
    LabelOnce(labels, refs, c.id, c.from);
    LabelOnce(LabelIn(labels, c.from), refs + [c.from], c.id, c.to);
    if OneLabelEach(refs + [c.from] + [c.to]) {
      FewerStillOne(refs + [c.from], [c.to]);
    }
    var found := ChangeFindings(labels, pinned, changes, k);
    assert LabelFinding(labels, c.id, c.from) <= found && LabelFinding(LabelIn(labels, c.from), c.id, c.to) <= found;
    if c.from.number != pinned {
      assert LeavesUnpinned(c.id) in found;
    }
    if k + 1 < |changes| && changes[k + 1].at < c.at {
      assert OutOfRecordedOrder(c.id) in found;
    }
  }

  /** The labels of the first `k` changes are the references they make. */
  lemma {:induction false} LabelsAreNamed(current: VersionRef, changes: seq<Change>, k: nat)
      returns (labels: map<int, string>, refs: seq<VersionRef>)
    requires k <= |changes|
    ensures labels == LabelsTo(current, changes, k) && refs == Named(current, changes, k) && Records(labels, refs)
  {
    if k == 0 {
      labels, refs := map[current.number := current.labelText], [current];
    } else {
      var before, named := LabelsAreNamed(current, changes, k - 1);
      var c := changes[k - 1];
      LabelOnce(before, named, c.id, c.from);
      LabelOnce(LabelIn(before, c.from), named + [c.from], c.id, c.to);
      labels, refs := LabelIn(LabelIn(before, c.from), c.to), named + [c.from] + [c.to];
    }
  }

  ghost predicate AllFit(current: VersionRef, changes: seq<Change>, k: nat)
    requires k <= |changes|
  {
    forall i | 0 <= i < k :: ChangeFits(current, changes, i)
  }

  lemma FoundStep(current: VersionRef, changes: seq<Change>, k: nat)
    requires k < |changes|
    ensures FoundTo(current, changes, k + 1) == {} <==>
      && FoundTo(current, changes, k) == {}
      && ChangeFindings(LabelsTo(current, changes, k), PinnedBefore(current, changes, k), changes, k) == {}
  {
  }

  lemma ChangeIsExact(current: VersionRef, changes: seq<Change>, k: nat)
    requires k < |changes| && OneLabelEach(Named(current, changes, k))
    ensures ChangeFindings(LabelsTo(current, changes, k), PinnedBefore(current, changes, k), changes, k) == {} <==>
      ChangeFits(current, changes, k) && OneLabelEach(Named(current, changes, k + 1))
  {
    var labels, refs := LabelsAreNamed(current, changes, k);
    ReadOne(labels, PinnedBefore(current, changes, k), changes, k, refs);
  }

  lemma NamedGrows(current: VersionRef, changes: seq<Change>, k: nat)
    requires k < |changes| && OneLabelEach(Named(current, changes, k + 1))
    ensures OneLabelEach(Named(current, changes, k))
  {
    var more := [changes[k].from] + [changes[k].to];
    assert Named(current, changes, k + 1) == Named(current, changes, k) + more;
    FewerStillOne(Named(current, changes, k), more);
  }

  /** Reading them has found nothing exactly when those changes are sound. */
  lemma {:induction false} ScanFinds(current: VersionRef, changes: seq<Change>, k: nat)
    requires k <= |changes|
    ensures FoundTo(current, changes, k) == {} <==>
      AllFit(current, changes, k) && OneLabelEach(Named(current, changes, k))
  {
    if k > 0 {
      ScanFinds(current, changes, k - 1);
      FoundStep(current, changes, k - 1);
      assert AllFit(current, changes, k) <==> AllFit(current, changes, k - 1) && ChangeFits(current, changes, k - 1);
      if OneLabelEach(Named(current, changes, k - 1)) {
        ChangeIsExact(current, changes, k - 1);
      } else if OneLabelEach(Named(current, changes, k)) {
        NamedGrows(current, changes, k - 1);
      }
    }
  }

  lemma ChainFits(current: VersionRef, changes: seq<Change>)
    ensures Chained(current, changes) <==>
      && AllFit(current, changes, |changes|)
      && (changes != [] ==> Last(changes).to.number == current.number)
  {
    if Chained(current, changes) {
      forall i: nat | i < |changes|
        ensures ChangeFits(current, changes, i)
      {
        if i > 0 {
          assert changes[i - 1].to.number == VersionAt(current, changes, i).number;
        }
      }
    }
    if && AllFit(current, changes, |changes|)
       && (changes != [] ==> Last(changes).to.number == current.number)
    {
      forall k | 0 <= k < |changes|
        ensures changes[k].to.number == VersionAt(current, changes, k + 1).number
        ensures k + 1 < |changes| ==> changes[k].at <= changes[k + 1].at
      {
        assert ChangeFits(current, changes, k);
        if k + 1 < |changes| {
          assert ChangeFits(current, changes, k + 1);
        }
      }
    }
  }

  /** The rebuilt history finds nothing exactly when the changes are one chain
      ending at the manifest's pin, under one label each, in recorded order. */
  lemma HistoryIsExact(current: VersionRef, changes: seq<Change>)
    ensures HistoryFindings(current, changes) == {} <==>
      Chained(current, changes) && OneLabelEach(Named(current, changes, |changes|))
  {
    ScanFinds(current, changes, |changes|);
    ChainFits(current, changes);
    var ended := PinnedBefore(current, changes, |changes|);
    if ended != current.number {
      assert EndsElsewhere(ended) in HistoryFindings(current, changes);
    }
  }

  ghost predicate IdsAscend(changes: seq<Change>) {
    forall i, j | 0 <= i < j < |changes| :: changes[i].id < changes[j].id
  }

  function ChangeIds(changes: seq<Change>, k: nat): set<int>
    requires k <= |changes|
  {
    if k == 0 then {} else ChangeIds(changes, k - 1) + {changes[k - 1].id}
  }

  ghost predicate RecordsEpochs(epochs: map<int, Epoch>, changes: seq<Change>, k: nat)
    requires k <= |changes|
  {
    && epochs.Keys == ChangeIds(changes, k)
    && (forall i | 0 <= i < k ::
          && changes[i].id in epochs
          && epochs[changes[i].id] == Epoch(changes[i].to.number, Some(changes[i].at), Closing(changes, i + 1)))
  }

  lemma {:induction false} ChangeOfId(changes: seq<Change>, k: nat, id: int) returns (i: nat)
    requires k <= |changes| && id in ChangeIds(changes, k)
    ensures i < k && changes[i].id == id
  {
    if changes[k - 1].id == id {
      i := k - 1;
    } else {
      i := ChangeOfId(changes, k - 1, id);
    }
  }

  lemma {:induction false} EpochsAreTheChanges(changes: seq<Change>, k: nat)
    requires k <= |changes| && IdsAscend(changes)
    ensures RecordsEpochs(EpochsTo(changes, k), changes, k)
  {
    if k > 0 {
      EpochsAreTheChanges(changes, k - 1);
      var c := changes[k - 1];
      var epochs := EpochsTo(changes, k - 1)[c.id := Epoch(c.to.number, Some(c.at), Closing(changes, k))];
      assert EpochsTo(changes, k) == epochs;
      assert epochs.Keys == ChangeIds(changes, k);
    }
  }

  lemma KnownIsNamed(current: VersionRef, changes: seq<Change>, v: VersionRef)
    requires OneLabelEach(Named(current, changes, |changes|))
    ensures Known(HistoryOf(current, changes), v) <==> v in Named(current, changes, |changes|)
  {
    var labels, refs := LabelsAreNamed(current, changes, |changes|);
    if v.number in labels {
      assert VersionRef(v.number, labels[v.number]) in refs;
    }
  }

  /** A history whose epochs are the changes'. */
  ghost predicate Rebuilt(h: History, current: VersionRef, changes: seq<Change>) {
    && h.original == Epoch(VersionAt(current, changes, 0).number, None, Closing(changes, 0))
    && RecordsEpochs(h.epochs, changes, |changes|)
  }

  /** Epoch `k` as the history holds it. */
  function EpochAt(h: History, changes: seq<Change>, k: nat): Option<Epoch>
    requires k <= |changes|
  {
    if k == 0 then Some(h.original)
    else if changes[k - 1].id in h.epochs then Some(h.epochs[changes[k - 1].id]) else None
  }

  lemma EpochIsRecorded(h: History, current: VersionRef, changes: seq<Change>, k: nat)
    requires k <= |changes| && Rebuilt(h, current, changes) && Chained(current, changes)
    ensures EpochAt(h, changes, k) == Some(Epoch(
        VersionAt(current, changes, k).number,
        if k == 0 then None else Some(changes[k - 1].at),
        Closing(changes, k)))
  {
    if k > 0 {
      assert changes[k - 1].to.number == VersionAt(current, changes, k).number;
    }
  }

  lemma ChangeById(h: History, current: VersionRef, changes: seq<Change>, id: int) returns (k: nat)
    requires Rebuilt(h, current, changes) && id in h.epochs
    ensures 0 < k <= |changes| && changes[k - 1].id == id
  {
    var i := ChangeOfId(changes, |changes|, id);
    k := i + 1;
  }

  lemma ClaimFound(h: History, current: VersionRef, changes: seq<Change>, d: PhaseDoc) returns (k: nat)
    requires Rebuilt(h, current, changes) && ClaimedEpoch(h, d).Some?
    ensures EpochNamed(changes, k, d.epoch)
  {
    k := 0;
    if d.epoch.Some? {
      k := ChangeById(h, current, changes, d.epoch.value);
    }
  }

  lemma PhaseAt(h: History, current: VersionRef, changes: seq<Change>, d: PhaseDoc, k: nat)
    requires Rebuilt(h, current, changes) && Chained(current, changes) && EpochNamed(changes, k, d.epoch)
    ensures ClaimedEpoch(h, d).Some?
    ensures var e := ClaimedEpoch(h, d).value;
      e.version == d.version.number && TimesPass(e, d) <==> PhaseIn(current, changes, d, k)
  {
    EpochIsRecorded(h, current, changes, k);
    assert ClaimedEpoch(h, d) == EpochAt(h, changes, k);
  }

  lemma PhaseIsExact(h: History, current: VersionRef, changes: seq<Change>, d: PhaseDoc)
    requires Rebuilt(h, current, changes) && Chained(current, changes)
    requires Known(h, d.version) <==> d.version in Named(current, changes, |changes|)
    ensures PhasePasses(h, d) <==> PhaseFits(current, changes, d)
  {
    if PhasePasses(h, d) {
      var k := ClaimFound(h, current, changes, d);
      PhaseAt(h, current, changes, d, k);
    }
    if PhaseFits(current, changes, d) {
      var k: nat :| PhaseIn(current, changes, d, k);
      PhaseAt(h, current, changes, d, k);
    }
  }

  lemma SignoffAt(h: History, current: VersionRef, changes: seq<Change>, d: SignoffDoc, k: nat)
    requires k <= |changes| && Rebuilt(h, current, changes) && Chained(current, changes)
    ensures EpochAt(h, changes, k).Some?
    ensures var e := EpochAt(h, changes, k).value;
      e.version == d.version.number && Includes(e, d.at) <==> SignoffIn(current, changes, d, k)
  {
    EpochIsRecorded(h, current, changes, k);
  }

  lemma SignoffIsExact(h: History, current: VersionRef, changes: seq<Change>, d: SignoffDoc)
    requires Rebuilt(h, current, changes) && Chained(current, changes)
    requires Known(h, d.version) <==> d.version in Named(current, changes, |changes|)
    ensures SignoffPasses(h, d) <==> SignoffFits(current, changes, d)
  {
    if SignoffPasses(h, d) {
      var k: nat := 0;
      if !(h.original.version == d.version.number && Includes(h.original, d.at)) {
        var id :| id in h.epochs && h.epochs[id].version == d.version.number && Includes(h.epochs[id], d.at);
        k := ChangeById(h, current, changes, id);
      }
      SignoffAt(h, current, changes, d, k);
    }
    if SignoffFits(current, changes, d) {
      var k: nat :| SignoffIn(current, changes, d, k);
      SignoffAt(h, current, changes, d, k);
    }
  }

  /** The pin checks are exact: over events in recorded order nothing is found if
      and only if the packet's history is the intended one. */
  lemma PinChecksAreExact(current: VersionRef, changes: seq<Change>, phases: seq<PhaseDoc>, signoffs: seq<SignoffDoc>)
    requires IdsAscend(changes)
    ensures Silent(current, changes, phases, signoffs) <==> Intended(current, changes, phases, signoffs)
  {
    HistoryIsExact(current, changes);
    var h := HistoryOf(current, changes);
    EpochsAreTheChanges(changes, |changes|);
    if Chained(current, changes) && OneLabelEach(Named(current, changes, |changes|)) {
      forall d <- phases
        ensures PhasePasses(h, d) <==> PhaseFits(current, changes, d)
      {
        KnownIsNamed(current, changes, d.version);
        PhaseIsExact(h, current, changes, d);
      }
      forall d <- signoffs
        ensures SignoffPasses(h, d) <==> SignoffFits(current, changes, d)
      {
        KnownIsNamed(current, changes, d.version);
        SignoffIsExact(h, current, changes, d);
      }
    }
  }
}
