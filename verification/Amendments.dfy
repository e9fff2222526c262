/** The amendments document against the lineage the carried units establish. */
module Amendments {
  import opened Basics
  import opened Lineage

  datatype Amendment = Amendment(
    record: int, predecessor: int, successor: Option<int>, reason: string,
    openedBy: int, openedByName: string, openedAt: int)

  datatype Complaint =
    | RowsOutOfOrder
    | Misshapen(row: Amendment)
    | DanglingPredecessor(record: int, number: int)
    | DanglingSuccessor(record: int, number: int)
    | StillInProgress(record: int, number: int)
    | OtherSuccessor(record: int, number: int)
    | NotASuccessor(record: int, number: int)
    | Unrecorded(record: int, number: int)

  predicate RowBefore(a: Amendment, b: Amendment) {
    a.record < b.record || (a.record == b.record && a.predecessor < b.predecessor)
  }

  predicate Ascending(rows: seq<Amendment>) {
    forall i | 0 <= i < |rows| - 1 :: RowBefore(rows[i], rows[i + 1])
  }

  /** An amendment explains itself and its authority has a name. */
  predicate WellShaped(row: Amendment) {
    !Blank(row.reason) && row.openedByName != ""
  }

  function Identities(units: seq<Unit>): set<(int, int)> {
    set u | u in units :: (u.record, u.number)
  }

  function ByHash(units: seq<Unit>): map<(int, string), int> {
    if units == [] then map[]
    else
      var last := units[|units| - 1];
      ByHash(units[..|units| - 1])[(last.record, last.contentHash) := last.number]
  }

  function Succession(byHash: map<(int, string), int>, units: seq<Unit>): map<(int, int), int> {
    if units == [] then map[]
    else
      var last := units[|units| - 1];
      var earlier := Succession(byHash, units[..|units| - 1]);
      if last.predecessorHash.Some? && (last.record, last.predecessorHash.value) in byHash
      then earlier[(last.record, byHash[(last.record, last.predecessorHash.value)]) := last.number]
      else earlier
  }

  /** Which carried version succeeds which, read from the units' own hashes. */
  function Successors(units: seq<Unit>): map<(int, int), int> {
    Succession(ByHash(units), units)
  }

  function SuccessorFindings(carried: set<(int, int)>, successors: map<(int, int), int>, row: Amendment): set<Complaint> {
    var key := (row.record, row.predecessor);
    match row.successor
    case None => if key in successors then {StillInProgress(row.record, row.predecessor)} else {}
    case Some(named) =>
      (if (row.record, named) !in carried then {DanglingSuccessor(row.record, named)} else {})
      + (if key in successors then
           if successors[key] != named then {OtherSuccessor(row.record, row.predecessor)} else {}
         else if (row.record, named) in carried then {NotASuccessor(row.record, row.predecessor)}
         else {})
  }

  function RowFindings(carried: set<(int, int)>, successors: map<(int, int), int>, row: Amendment): set<Complaint> {
    (if !WellShaped(row) then {Misshapen(row)} else {})
    + (if (row.record, row.predecessor) !in carried then {DanglingPredecessor(row.record, row.predecessor)}
       else SuccessorFindings(carried, successors, row))
  }

  function EachRowFindings(carried: set<(int, int)>, successors: map<(int, int), int>, rows: seq<Amendment>): set<Complaint> {
    if rows == [] then {}
    else
      EachRowFindings(carried, successors, rows[..|rows| - 1]) + RowFindings(carried, successors, rows[|rows| - 1])
  }

  function Recorded(rows: seq<Amendment>): set<(int, int)> {
    set row | row in rows :: (row.record, row.predecessor)
  }

  function UnrecordedFindings(keys: set<(int, int)>, recorded: set<(int, int)>): set<Complaint> {
    set key | key in keys && key !in recorded :: Unrecorded(key.0, key.1)
  }

  function AmendmentFindings(units: seq<Unit>, rows: seq<Amendment>): set<Complaint> {
    (if Ascending(rows) then {} else {RowsOutOfOrder})
    + EachRowFindings(Identities(units), Successors(units), rows)
    + UnrecordedFindings(Successors(units).Keys, Recorded(rows))
  }

  // ------------------------------------------------------- the check as run

  method LineageOf(units: seq<Unit>) returns (successors: map<(int, int), int>)
    ensures successors == Successors(units)
  {
    var byHash: map<(int, string), int> := map[];
    var i := 0;
    while i < |units|
      invariant 0 <= i <= |units| && byHash == ByHash(units[..i])
    {
      assert units[..i + 1][..i] == units[..i];
      byHash := byHash[(units[i].record, units[i].contentHash) := units[i].number];
      i := i + 1;
    }
    assert units[..i] == units;
    successors := map[];
    i := 0;
    while i < |units|
      invariant 0 <= i <= |units| && successors == Succession(byHash, units[..i])
    {
      assert units[..i + 1][..i] == units[..i];
      var u := units[i];
      if u.predecessorHash.Some? && (u.record, u.predecessorHash.value) in byHash {
        successors := successors[(u.record, byHash[(u.record, u.predecessorHash.value)]) := u.number];
      }
      i := i + 1;
    }
    assert units[..i] == units;
  }

  method RowsInOrder(rows: seq<Amendment>) returns (ordered: bool)
    ensures ordered == Ascending(rows)
  {
    var i := 0;
    while i + 1 < |rows|
      invariant 0 <= i && (i > 0 ==> i < |rows|)
      invariant forall k | 0 <= k < i :: RowBefore(rows[k], rows[k + 1])
    {
      if !RowBefore(rows[i], rows[i + 1]) {
        return false;
      }
      i := i + 1;
    }
    return true;
  }

  method CheckAmendments(units: seq<Unit>, rows: seq<Amendment>) returns (findings: set<Complaint>)
    ensures findings == AmendmentFindings(units, rows)
  {
    var ordered := RowsInOrder(rows);
    var order: set<Complaint> := if ordered then {} else {RowsOutOfOrder};
    var successors := LineageOf(units);
    var carried := Identities(units);
    var each: set<Complaint> := {};
    var i := 0;
    while i < |rows|
      invariant 0 <= i <= |rows| && each == EachRowFindings(carried, successors, rows[..i])
    {
      assert rows[..i + 1][..i] == rows[..i];
      each := each + RowFindings(carried, successors, rows[i]);
      i := i + 1;
    }
    assert rows[..i] == rows;
    var recorded := Recorded(rows);
    var missing: set<Complaint> := {};
    var rest, done: set<(int, int)> := successors.Keys, {};
    while rest != {}
      invariant done + rest == successors.Keys && missing == UnrecordedFindings(done, recorded)
      decreases rest
    {
      var key :| key in rest;
      if key !in recorded {
        missing := missing + {Unrecorded(key.0, key.1)};
      }
      rest, done := rest - {key}, done + {key};
    }
    assert done == successors.Keys;
    return order + each + missing;
  }

  // ----------------------------------------------------- what silence means

  /** Each record's carried versions hash distinctly. */
  ghost predicate DistinctHashes(units: seq<Unit>) {
    forall i, j | 0 <= i < j < |units| ::
      units[i].record == units[j].record ==> units[i].contentHash != units[j].contentHash
  }

  function NextVersion(carried: set<(int, int)>, record: int, number: int): Option<int> {
    if (record, number + 1) in carried then Some(number + 1) else None
  }

  /** A version's successor is the next version, exactly when that is carried. */
  ghost predicate NamesNextVersions(carried: set<(int, int)>, successors: map<(int, int), int>) {
    forall r: int, n: int {:trigger (r, n) in successors} ::
      && ((r, n) in successors <==> (r, n) in carried && (r, n + 1) in carried)
      && ((r, n) in successors ==> successors[(r, n)] == n + 1)
  }

  /** Row by row the succession the lineage records, with at most one amendment
      in progress a record: the one of its last version. */
  ghost predicate Faithful(units: seq<Unit>, rows: seq<Amendment>) {
    && (forall i | 0 <= i < |rows| - 1 ::
          || rows[i].record < rows[i + 1].record
          || (rows[i].record == rows[i + 1].record && rows[i].predecessor < rows[i + 1].predecessor))
    && (forall row <- rows ::
          && !Blank(row.reason) && row.openedByName != ""
          && (row.record, row.predecessor) in Identities(units)
          && row.successor == NextVersion(Identities(units), row.record, row.predecessor))
    && (forall u <- units ::
          (u.record, u.number + 1) in Identities(units) ==> (u.record, u.number) in Recorded(rows))
  }

  lemma {:induction false} HashFindsItsVersion(units: seq<Unit>)
    requires DistinctHashes(units)
    ensures forall i | 0 <= i < |units| ::
      var key := (units[i].record, units[i].contentHash);
      key in ByHash(units) && ByHash(units)[key] == units[i].number
  {
    if units != [] {
      var n := |units| - 1;
      var front := units[..n];
      HashFindsItsVersion(front);
      forall i | 0 <= i < |units|
        ensures var key := (units[i].record, units[i].contentHash);
          key in ByHash(units) && ByHash(units)[key] == units[i].number
      {
        if i < n {
          assert front[i] == units[i];
        }
      }
    }
  }

  lemma IdentitiesGrow(front: seq<Unit>, last: Unit)
    ensures Identities(front + [last]) == Identities(front) + {(last.record, last.number)}
  {
    assert forall u :: u in front + [last] <==> u in front || u == last;
  }

  lemma LinkAt(units: seq<Unit>, i: nat)
    requires Whole(units) && DistinctHashes(units) && i < |units|
    ensures var u := units[i];
      if u.number == 1 then u.predecessorHash.None?
      else
        && u.number > 1 && u.predecessorHash.Some?
        && (u.record, u.predecessorHash.value) in ByHash(units)
        && ByHash(units)[(u.record, u.predecessorHash.value)] == u.number - 1
  {
    NumbersArePositive(units, i);
    HashFindsItsVersion(units);
    assert Follows(units, i);
    if units[i].number != 1 {
      var before := units[i - 1];
      assert ByHash(units)[(before.record, before.contentHash)] == before.number;
    }
  }

  lemma SuccessionGrows(byHash: map<(int, string), int>, front: seq<Unit>, last: Unit)
    ensures Succession(byHash, front + [last]) ==
      if last.predecessorHash.Some? && (last.record, last.predecessorHash.value) in byHash
      then Succession(byHash, front)[(last.record, byHash[(last.record, last.predecessorHash.value)]) := last.number]
      else Succession(byHash, front)
  {
    assert (front + [last])[..|front|] == front;
  }

  /** In a whole lineage the version after (record, n) is n + 1, and a version
      has one exactly when n + 1 is carried. */
  lemma {:induction false} SuccessionOfPrefix(units: seq<Unit>, k: nat, r: int, n: int)
    requires Whole(units) && DistinctHashes(units) && k <= |units|
    ensures var successors := Succession(ByHash(units), units[..k]);
      && ((r, n) in successors <==> n >= 1 && (r, n + 1) in Identities(units[..k]))
      && ((r, n) in successors ==> successors[(r, n)] == n + 1)
  {
    if k > 0 {
      var front, last := units[..k - 1], units[k - 1];
      SuccessionOfPrefix(units, k - 1, r, n);
      LinkAt(units, k - 1);
      assert units[..k] == front + [last];
      IdentitiesGrow(front, last);
      SuccessionGrows(ByHash(units), front, last);
    }
  }

  lemma CarriedAt(units: seq<Unit>, r: int, n: int) returns (i: nat)
    requires Whole(units) && (r, n) in Identities(units)
    ensures i < |units| && units[i].record == r && units[i].number == n >= 1 && Follows(units, i)
  {
    var u :| u in units && (u.record, u.number) == (r, n);
    i :| 0 <= i < |units| && units[i] == u;
    NumbersArePositive(units, i);
  }

  lemma SuccessorsAreNextVersions(units: seq<Unit>)
    requires Whole(units) && DistinctHashes(units)
    ensures NamesNextVersions(Identities(units), Successors(units))
  {
    var carried, successors := Identities(units), Successors(units);
    forall r: int, n: int
      ensures (r, n) in successors <==> (r, n) in carried && (r, n + 1) in carried
      ensures (r, n) in successors ==> successors[(r, n)] == n + 1
    {
      SuccessionOfPrefix(units, |units|, r, n);
      assert units[..|units|] == units;
      if (r, n) in carried {
        var i := CarriedAt(units, r, n);
      }
      if n >= 1 && (r, n + 1) in carried {
        var i := CarriedAt(units, r, n + 1);
        assert units[i - 1] in units;
      }
    }
  }

  lemma {:induction false} EachRowIsUnion(carried: set<(int, int)>, successors: map<(int, int), int>, rows: seq<Amendment>)
    ensures EachRowFindings(carried, successors, rows) == {} <==>
      forall row <- rows :: RowFindings(carried, successors, row) == {}
  {
    if rows != [] {
      var front, last := rows[..|rows| - 1], rows[|rows| - 1];
      EachRowIsUnion(carried, successors, front);
      assert rows == front + [last];
      assert forall row :: row in rows <==> row in front || row == last;
    }
  }

  lemma SuccessorSilent(carried: set<(int, int)>, successors: map<(int, int), int>, row: Amendment)
    requires NamesNextVersions(carried, successors)
    requires (row.record, row.predecessor) in carried
    ensures SuccessorFindings(carried, successors, row) == {}
      <==> row.successor == NextVersion(carried, row.record, row.predecessor)
  {
    var key := (row.record, row.predecessor);
    var found := SuccessorFindings(carried, successors, row);
    match row.successor
    case None =>
      if key in successors {
        assert StillInProgress(row.record, row.predecessor) in found;
      }
    case Some(named) =>
      if (row.record, named) !in carried {
        assert DanglingSuccessor(row.record, named) in found;
      } else if key !in successors {
        assert NotASuccessor(row.record, row.predecessor) in found;
      } else if successors[key] != named {
        assert OtherSuccessor(row.record, row.predecessor) in found;
      }
  }

  lemma RowSilent(carried: set<(int, int)>, successors: map<(int, int), int>, row: Amendment)
    requires NamesNextVersions(carried, successors)
    ensures RowFindings(carried, successors, row) == {} <==>
      && WellShaped(row)
      && (row.record, row.predecessor) in carried
      && row.successor == NextVersion(carried, row.record, row.predecessor)
  {
    if !WellShaped(row) {
      assert Misshapen(row) in RowFindings(carried, successors, row);
    } else if (row.record, row.predecessor) !in carried {
      assert DanglingPredecessor(row.record, row.predecessor) in RowFindings(carried, successors, row);
    } else {
      SuccessorSilent(carried, successors, row);
      assert RowFindings(carried, successors, row) == SuccessorFindings(carried, successors, row);
    }
  }

  lemma UnrecordedSilent(units: seq<Unit>, rows: seq<Amendment>)
    requires Whole(units) && DistinctHashes(units)
    ensures UnrecordedFindings(Successors(units).Keys, Recorded(rows)) == {} <==>
      forall u <- units :: (u.record, u.number + 1) in Identities(units) ==> (u.record, u.number) in Recorded(rows)
  {
    SuccessorsAreNextVersions(units);
    var keys := Successors(units).Keys;
    if u :| u in units && (u.record, u.number + 1) in Identities(units) && (u.record, u.number) !in Recorded(rows) {
      assert (u.record, u.number) in keys;
      assert Unrecorded(u.record, u.number) in UnrecordedFindings(keys, Recorded(rows));
    } else {
      forall r: int, n: int | (r, n) in keys
        ensures (r, n) in Recorded(rows)
      {
        var i := CarriedAt(units, r, n);
        assert units[i] in units;
      }
    }
  }

  /** The amendment check is exact: over a whole lineage whose versions hash
      distinctly, it is silent if and only if the rows are, in order and well
      shaped, one a succession naming the immediate successor, plus at most one
      in progress for a record's last version. */
  lemma AmendmentCheckIsExact(units: seq<Unit>, rows: seq<Amendment>)
    requires Whole(units) && DistinctHashes(units)
    ensures AmendmentFindings(units, rows) == {} <==> Faithful(units, rows)
  {
    var carried, successors := Identities(units), Successors(units);
    SuccessorsAreNextVersions(units);
    EachRowIsUnion(carried, successors, rows);
    UnrecordedSilent(units, rows);
    forall row <- rows
      ensures RowFindings(carried, successors, row) == {} <==>
        && WellShaped(row)
        && (row.record, row.predecessor) in carried
        && row.successor == NextVersion(carried, row.record, row.predecessor)
    {
      RowSilent(carried, successors, row);
    }
    if !Ascending(rows) {
      assert RowsOutOfOrder in AmendmentFindings(units, rows);
    }
  }

  lemma {:induction false} AscendingIsTransitive(rows: seq<Amendment>, i: nat, j: nat)
    requires Ascending(rows) && i < j < |rows|
    ensures RowBefore(rows[i], rows[j])
    decreases j
  {
    if i < j - 1 {
      AscendingIsTransitive(rows, i, j - 1);
    }
  }

  /** So a record has at most one amendment in progress, and it is of the last
      version the packet carries. */
  lemma OneInProgress(units: seq<Unit>, rows: seq<Amendment>, i: nat, j: nat, u: Unit)
    requires Whole(units) && Faithful(units, rows) && i < |rows| && j < |rows|
    requires rows[i].successor == None && rows[j].successor == None && rows[i].record == rows[j].record
    requires u in units && u.record == rows[i].record
    ensures i == j && u.number <= rows[i].predecessor
  {
    assert rows[i] in rows && rows[j] in rows;
    LastHasNoNext(units, rows[i].record, rows[i].predecessor, u);
    var v :| v in units && (v.record, v.number) == (rows[j].record, rows[j].predecessor);
    LastHasNoNext(units, rows[i].record, rows[i].predecessor, v);
    var w :| w in units && (w.record, w.number) == (rows[i].record, rows[i].predecessor);
    LastHasNoNext(units, rows[j].record, rows[j].predecessor, w);
    if i < j {
      AscendingIsTransitive(rows, i, j);
    } else if j < i {
      AscendingIsTransitive(rows, j, i);
    }
  }

  /** Versions are carried without a gap: below a carried one, every one is. */
  lemma {:induction false} LastHasNoNext(units: seq<Unit>, record: int, number: int, u: Unit)
    requires Whole(units) && u in units && u.record == record
    requires (record, number) in Identities(units) && (record, number + 1) !in Identities(units)
    ensures u.number <= number
    decreases u.number - number
  {
    if u.number > number {
      assert (u.record, u.number) in Identities(units);
      var i :| 0 <= i < |units| && units[i] == u;
      assert Follows(units, i);
      var v :| v in units && (v.record, v.number) == (record, number);
      var k :| 0 <= k < |units| && units[k] == v;
      NumbersArePositive(units, k);
      assert units[i - 1] in units;
      LastHasNoNext(units, record, number, units[i - 1]);
    }
  }
}
