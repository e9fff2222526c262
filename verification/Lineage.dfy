/** The lineage an archive's units state, how the verifier checks it, and what
    its silence means.

    A unit is one carried version as the manifest lists it. Findings form a set:
    the checks are about whether anything is found, not the order of a report. */
module Lineage {
  import opened Basics
  import Canonical

  datatype Unit = Unit(
    record: int, number: int, contentHash: string, chainHash: string, predecessorHash: Option<string>)

  datatype Finding =
    | UnitsOutOfOrder
    | MissingEntry(record: int, number: int)
    | ContentHashMismatch(record: int, number: int)
    | ChainHashMismatch(record: int, number: int)
    | HashNotCanonical(record: int, number: int)
    | IdentityOutOfRange(record: int, number: int)
    | LineageShape(record: int, number: int)
    | PredecessorMismatch(record: int, number: int)
    | PredecessorNotCarried(record: int, number: int)

  /** The archive's record entries, by the identity their path derives from. */
  type Files = map<(int, int), Bytes>

  predicate Before(a: Unit, b: Unit) {
    a.record < b.record || (a.record == b.record && a.number < b.number)
  }

  predicate Ordered(units: seq<Unit>) {
    forall i | 0 <= i < |units| - 1 :: Before(units[i], units[i + 1])
  }

  /** The identity map the checks build: a repeated identity keeps its last unit. */
  function ByIdentity(units: seq<Unit>): map<(int, int), Unit> {
    if units == [] then map[]
    else
      var last := units[|units| - 1];
      ByIdentity(units[..|units| - 1])[(last.record, last.number) := last]
  }

  function HashFindings(sha: Bytes -> Canonical.Digest, files: Files, u: Unit): set<Finding> {
    var key := (u.record, u.number);
    if key !in files then {MissingEntry(u.record, u.number)}
    else
      (if Canonical.ContentHash(sha, files[key]) != u.contentHash then {ContentHashMismatch(u.record, u.number)} else {})
      + (if Canonical.ChainHash(sha, u.predecessorHash, files[key]) != Some(u.chainHash)
         then {ChainHashMismatch(u.record, u.number)} else {})
  }

  predicate StoredForm(u: Unit) {
    && Canonical.IsLowercaseHexHash(u.contentHash)
    && Canonical.IsLowercaseHexHash(u.chainHash)
    && (u.predecessorHash.Some? ==> Canonical.IsLowercaseHexHash(u.predecessorHash.value))
  }

  function LinkFindings(known: map<(int, int), Unit>, u: Unit): set<Finding> {
    (if !StoredForm(u) then {HashNotCanonical(u.record, u.number)} else {})
    + (if u.record < 1 || u.number < 1 then {IdentityOutOfRange(u.record, u.number)} else {})
    + (if (u.number == 1) != u.predecessorHash.None? then {LineageShape(u.record, u.number)} else {})
    + match u.predecessorHash
      case None => {}
      case Some(hash) =>
        var key := (u.record, u.number - 1);
        if key !in known then {PredecessorNotCarried(u.record, u.number)}
        else if known[key].contentHash != hash then {PredecessorMismatch(u.record, u.number)}
        else {}
  }

  function OneFindings(sha: Bytes -> Canonical.Digest, files: Files, known: map<(int, int), Unit>, u: Unit): set<Finding> {
    HashFindings(sha, files, u) + LinkFindings(known, u)
  }

  function EachFindings(sha: Bytes -> Canonical.Digest, files: Files, known: map<(int, int), Unit>, units: seq<Unit>): set<Finding> {
    if units == [] then {}
    else
      var last := units[|units| - 1];
      EachFindings(sha, files, known, units[..|units| - 1]) + OneFindings(sha, files, known, last)
  }

  function UnitFindings(sha: Bytes -> Canonical.Digest, files: Files, units: seq<Unit>): set<Finding> {
    (if Ordered(units) then {} else {UnitsOutOfOrder}) + EachFindings(sha, files, ByIdentity(units), units)
  }

  method InOrder(units: seq<Unit>) returns (ordered: bool)
    ensures ordered == Ordered(units)
  {
    var i := 0;
    while i + 1 < |units|
      invariant 0 <= i && (i > 0 ==> i < |units|)
      invariant forall k | 0 <= k < i :: Before(units[k], units[k + 1])
    {
      if !Before(units[i], units[i + 1]) {
        return false;
      }
      i := i + 1;
    }
    return true;
  }

  method IndexUnits(units: seq<Unit>) returns (known: map<(int, int), Unit>)
    ensures known == ByIdentity(units)
  {
    known := map[];
    var i := 0;
    while i < |units|
      invariant 0 <= i <= |units| && known == ByIdentity(units[..i])
    {
      assert units[..i + 1][..i] == units[..i];
      known := known[(units[i].record, units[i].number) := units[i]];
      i := i + 1;
    }
    assert units[..i] == units;
  }

  lemma EachGrows(sha: Bytes -> Canonical.Digest, files: Files, known: map<(int, int), Unit>, units: seq<Unit>, i: nat)
    requires i < |units|
    ensures EachFindings(sha, files, known, units[..i + 1])
      == EachFindings(sha, files, known, units[..i]) + OneFindings(sha, files, known, units[i])
  {
    assert units[..i + 1][..i] == units[..i];
  }

  method VerifyEach(sha: Bytes -> Canonical.Digest, files: Files, known: map<(int, int), Unit>, units: seq<Unit>)
      returns (each: set<Finding>)
    ensures each == EachFindings(sha, files, known, units)
  {
    each := {};
    var i := 0;
    while i < |units|
      invariant 0 <= i <= |units| && each == EachFindings(sha, files, known, units[..i])
    {
      EachGrows(sha, files, known, units, i);
      each := each + OneFindings(sha, files, known, units[i]);
      i := i + 1;
    }
    assert units[..i] == units;
  }

  /** The checks as they run: the order, the identities, then each unit. A
      packet or installation export also reports a predecessor it does not
      carry. */
  method VerifyUnits(sha: Bytes -> Canonical.Digest, files: Files, units: seq<Unit>) returns (findings: set<Finding>)
    ensures findings == UnitFindings(sha, files, units)
  {
    var ordered := InOrder(units);
    var known := IndexUnits(units);
    var each := VerifyEach(sha, files, known, units);
    return (if ordered then {} else {UnitsOutOfOrder}) + each;
  }

  // ----------------------------------------------------- what silence means

  /** Unit `i` begins its record's versions or directly follows the version it
      succeeds, whose content hash it names. */
  ghost predicate Follows(units: seq<Unit>, i: nat)
    requires i < |units|
  {
    var u := units[i];
    && u.record >= 1
    && Canonical.IsLowercaseHexHash(u.contentHash) && Canonical.IsLowercaseHexHash(u.chainHash)
    && (u.predecessorHash.Some? ==> Canonical.IsLowercaseHexHash(u.predecessorHash.value))
    && if u.number == 1 then
         u.predecessorHash.None? && (i > 0 ==> units[i - 1].record < u.record)
       else
         && i > 0
         && units[i - 1].record == u.record
         && units[i - 1].number == u.number - 1
         && u.predecessorHash == Some(units[i - 1].contentHash)
  }

  ghost predicate Whole(units: seq<Unit>) {
    forall i | 0 <= i < |units| :: Follows(units, i)
  }

  /** Every unit's entry is present and carries the bytes both of its hashes
      were computed over. */
  ghost predicate BytesAgree(sha: Bytes -> Canonical.Digest, files: Files, units: seq<Unit>) {
    forall u <- units ::
      var key := (u.record, u.number);
      && key in files
      && u.contentHash == Canonical.ContentHash(sha, files[key])
      && Canonical.ChainHash(sha, u.predecessorHash, files[key]) == Some(u.chainHash)
  }

  lemma {:induction false} EachIsUnion(sha: Bytes -> Canonical.Digest, files: Files, known: map<(int, int), Unit>, units: seq<Unit>)
    ensures EachFindings(sha, files, known, units) == {} <==>
      forall u <- units :: HashFindings(sha, files, u) == {} && LinkFindings(known, u) == {}
  {
    if units != [] {
      var front, last := units[..|units| - 1], units[|units| - 1];
      EachIsUnion(sha, files, known, front);
      assert units == front + [last];
      assert forall u :: u in units <==> u in front || u == last;
    }
  }

  lemma {:induction false} OrderedIsTransitive(units: seq<Unit>, i: nat, j: nat)
    requires Ordered(units) && i < j < |units|
    ensures Before(units[i], units[j])
    decreases j
  {
    if i < j - 1 {
      OrderedIsTransitive(units, i, j - 1);
    }
  }

  lemma {:induction false} WholeIsOrdered(units: seq<Unit>)
    requires Whole(units)
    ensures Ordered(units)
    ensures forall i | 0 <= i < |units| :: units[i].number >= 1
  {
    forall i | 0 <= i < |units| - 1
      ensures Before(units[i], units[i + 1])
    {
      assert Follows(units, i + 1);
    }
    forall i | 0 <= i < |units|
      ensures units[i].number >= 1
    {
      NumbersArePositive(units, i);
    }
  }

  lemma {:induction false} NumbersArePositive(units: seq<Unit>, i: nat)
    requires Whole(units) && i < |units|
    ensures units[i].number >= 1
  {
    assert Follows(units, i);
    if units[i].number != 1 {
      NumbersArePositive(units, i - 1);
    }
  }

  /** In an ordered list an identity's unit is the one at its index. */
  lemma {:induction false} IdentityFinds(units: seq<Unit>)
    requires Ordered(units)
    ensures forall i | 0 <= i < |units| ::
      var key := (units[i].record, units[i].number);
      key in ByIdentity(units) && ByIdentity(units)[key] == units[i]
  {
    if units != [] {
      var n := |units| - 1;
      var front := units[..n];
      IdentityFinds(front);
      forall i | 0 <= i < n
        ensures Before(units[i], units[n])
      {
        OrderedIsTransitive(units, i, n);
      }
      forall i | 0 <= i < |units|
        ensures var key := (units[i].record, units[i].number);
          key in ByIdentity(units) && ByIdentity(units)[key] == units[i]
      {
        if i < n {
          assert front[i] == units[i];
        }
      }
    }
  }

  lemma {:induction false} IdentityOrigin(units: seq<Unit>, key: (int, int)) returns (i: nat)
    requires key in ByIdentity(units)
    ensures i < |units| && key == (units[i].record, units[i].number)
  {
    var n := |units| - 1;
    if key == (units[n].record, units[n].number) {
      i := n;
    } else {
      i := IdentityOrigin(units[..n], key);
    }
  }

  /** Nothing fits between a version and its successor in an ordered list. */
  lemma PredecessorIsAdjacent(units: seq<Unit>, i: nat, j: nat)
    requires Ordered(units) && i < |units| && j < |units|
    requires units[j].record == units[i].record && units[j].number == units[i].number - 1
    ensures j == i - 1
  {
    assert i > 0 ==> Before(units[i - 1], units[i]);
    if i < j {
      OrderedIsTransitive(units, i, j);
    }
    if j < i - 1 {
      OrderedIsTransitive(units, j, i - 1);
    }
  }

  lemma LinkSilent(known: map<(int, int), Unit>, u: Unit)
    ensures var key := (u.record, u.number - 1);
      LinkFindings(known, u) == {} <==>
      && StoredForm(u) && u.record >= 1 && u.number >= 1
      && (u.number == 1) == u.predecessorHash.None?
      && (u.predecessorHash.Some? ==> key in known && known[key].contentHash == u.predecessorHash.value)
  {
    var key := (u.record, u.number - 1);
    var a: set<Finding> := if !StoredForm(u) then {HashNotCanonical(u.record, u.number)} else {};
    var b: set<Finding> := if u.record < 1 || u.number < 1 then {IdentityOutOfRange(u.record, u.number)} else {};
    var d: set<Finding> := if (u.number == 1) != u.predecessorHash.None? then {LineageShape(u.record, u.number)} else {};
    assert a <= LinkFindings(known, u) && b <= LinkFindings(known, u) && d <= LinkFindings(known, u);
    if !StoredForm(u) { assert HashNotCanonical(u.record, u.number) in a; }
    if u.record < 1 || u.number < 1 { assert IdentityOutOfRange(u.record, u.number) in b; }
    if (u.number == 1) != u.predecessorHash.None? { assert LineageShape(u.record, u.number) in d; }
    if u.predecessorHash.Some? && key !in known {
      assert PredecessorNotCarried(u.record, u.number) in LinkFindings(known, u);
    }
    if u.predecessorHash.Some? && key in known && known[key].contentHash != u.predecessorHash.value {
      assert PredecessorMismatch(u.record, u.number) in LinkFindings(known, u);
    }
  }

  lemma LinksMakeWhole(sha: Bytes -> Canonical.Digest, files: Files, units: seq<Unit>, i: nat)
    requires UnitFindings(sha, files, units) == {} && i < |units|
    ensures Follows(units, i)
  {
    var known := ByIdentity(units);
    assert Ordered(units);
    EachIsUnion(sha, files, known, units);
    IdentityFinds(units);
    var u := units[i];
    assert u in units;
    LinkSilent(known, u);
    if u.number == 1 {
      if i > 0 {
        assert Before(units[i - 1], units[i]);
        assert units[i - 1] in units;
        LinkSilent(known, units[i - 1]);
      }
    } else {
      var key := (u.record, u.number - 1);
      assert key in known;
      var j := IdentityOrigin(units, key);
      PredecessorIsAdjacent(units, i, j);
    }
  }

  lemma SilentMeansWhole(sha: Bytes -> Canonical.Digest, files: Files, units: seq<Unit>)
    requires UnitFindings(sha, files, units) == {}
    ensures Whole(units) && BytesAgree(sha, files, units)
  {
    forall i | 0 <= i < |units|
      ensures Follows(units, i)
    {
      LinksMakeWhole(sha, files, units, i);
    }
    EachIsUnion(sha, files, ByIdentity(units), units);
    forall u <- units
      ensures HashFindings(sha, files, u) == {}
    {
    }
    forall u <- units
      ensures var key := (u.record, u.number);
        && key in files
        && u.contentHash == Canonical.ContentHash(sha, files[key])
        && Canonical.ChainHash(sha, u.predecessorHash, files[key]) == Some(u.chainHash)
    {
      HashSilent(sha, files, u);
    }
  }

  lemma HashSilent(sha: Bytes -> Canonical.Digest, files: Files, u: Unit)
    ensures var key := (u.record, u.number);
      HashFindings(sha, files, u) == {} <==>
      && key in files
      && u.contentHash == Canonical.ContentHash(sha, files[key])
      && Canonical.ChainHash(sha, u.predecessorHash, files[key]) == Some(u.chainHash)
  {
    var key := (u.record, u.number);
    if key !in files {
      assert MissingEntry(u.record, u.number) in HashFindings(sha, files, u);
    } else {
      if Canonical.ContentHash(sha, files[key]) != u.contentHash {
        assert ContentHashMismatch(u.record, u.number) in HashFindings(sha, files, u);
      }
      if Canonical.ChainHash(sha, u.predecessorHash, files[key]) != Some(u.chainHash) {
        assert ChainHashMismatch(u.record, u.number) in HashFindings(sha, files, u);
      }
    }
  }

  ghost predicate Indexes(known: map<(int, int), Unit>, units: seq<Unit>) {
    forall i | 0 <= i < |units| ::
      var key := (units[i].record, units[i].number);
      key in known && known[key] == units[i]
  }

  lemma LinkIsSilent(known: map<(int, int), Unit>, units: seq<Unit>, i: nat)
    requires i < |units| && Indexes(known, units) && Follows(units, i) && units[i].number >= 1
    ensures LinkFindings(known, units[i]) == {}
  {
    LinkSilent(known, units[i]);
    if units[i].number != 1 {
      assert known[(units[i - 1].record, units[i - 1].number)] == units[i - 1];
    }
  }

  lemma WholeMeansSilent(sha: Bytes -> Canonical.Digest, files: Files, units: seq<Unit>)
    requires Whole(units) && BytesAgree(sha, files, units)
    ensures UnitFindings(sha, files, units) == {}
  {
    var known := ByIdentity(units);
    WholeIsOrdered(units);
    IdentityFinds(units);
    assert Indexes(known, units);
    forall u <- units
      ensures HashFindings(sha, files, u) == {} && LinkFindings(known, u) == {}
    {
      var i :| 0 <= i < |units| && units[i] == u;
      assert Follows(units, i);
      LinkIsSilent(known, units, i);
      HashSilent(sha, files, u);
    }
    EachIsUnion(sha, files, known, units);
  }

  /** The unit checks are exact: they are silent if and only if every record's
      units are its versions from 1 without a gap, each naming the content hash
      of the one before it, and every entry's bytes carry both hashes. */
  lemma UnitChecksAreExact(sha: Bytes -> Canonical.Digest, files: Files, units: seq<Unit>)
    ensures UnitFindings(sha, files, units) == {} <==> Whole(units) && BytesAgree(sha, files, units)
  {
    if UnitFindings(sha, files, units) == {} {
      SilentMeansWhole(sha, files, units);
    }
    if Whole(units) && BytesAgree(sha, files, units) {
      WholeMeansSilent(sha, files, units);
    }
  }

  function OfRecord(units: seq<Unit>, record: int): seq<Unit> {
    if units == [] then []
    else
      var last := units[|units| - 1];
      OfRecord(units[..|units| - 1], record) + (if last.record == record then [last] else [])
  }

  function HashBefore(own: seq<Unit>, k: nat): Option<string>
    requires k <= |own|
  {
    if k == 0 then None else Some(own[k - 1].contentHash)
  }

  /** Versions 1 to n in order, each naming the content hash of the one before. */
  ghost predicate VersionsFromOne(own: seq<Unit>) {
    forall k | 0 <= k < |own| :: own[k].number == k + 1 && own[k].predecessorHash == HashBefore(own, k)
  }

  lemma OneMoreVersion(own: seq<Unit>, u: Unit)
    requires VersionsFromOne(own) && u.number == |own| + 1
    requires u.predecessorHash == HashBefore(own, |own|)
    ensures VersionsFromOne(own + [u])
  {
    var more := own + [u];
    forall k | 0 <= k < |more|
      ensures more[k].number == k + 1 && more[k].predecessorHash == HashBefore(more, k)
    {
      assert HashBefore(more, k) == HashBefore(own, k);
      if k < |own| {
        assert more[k] == own[k];
      }
    }
  }

  /** So each record's carried units are exactly its versions 1 to n. */
  lemma {:induction false} RecordsAreWhole(units: seq<Unit>, record: int)
    requires Whole(units)
    ensures VersionsFromOne(OfRecord(units, record))
    ensures var own := OfRecord(units, record);
      && (forall u :: u in own <==> u in units && u.record == record)
      && (units != [] && units[|units| - 1].record == record ==> own != [] && own[|own| - 1] == units[|units| - 1])
      && (units != [] && units[|units| - 1].record < record ==> own == [])
  {
    if units != [] {
      var n := |units| - 1;
      var front := units[..n];
      assert units == front + [units[n]];
      assert forall u :: u in units <==> u in front || u == units[n];
      forall i | 0 <= i < n
        ensures Follows(front, i)
      {
        assert Follows(units, i);
      }
      RecordsAreWhole(front, record);
      assert Follows(units, n);
      var own := OfRecord(front, record);
      assert n > 0 ==> front[|front| - 1] == units[n - 1];
      if units[n].record == record {
        if units[n].number == 1 {
          assert own == [];
        } else {
          assert own[|own| - 1] == units[n - 1] && units[n].number == |own| + 1;
        }
        OneMoreVersion(own, units[n]);
        assert OfRecord(units, record) == own + [units[n]];
      } else {
        assert OfRecord(units, record) == own;
      }
    }
  }
}
