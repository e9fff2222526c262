/** An installation export's units against its table of versions, both ways. A
    row's columns are read as their types where they have them; whether they do
    is another check. */
module Agreement {
  import opened Basics

  datatype Entry = Entry(
    record: int, number: int, schema: int, contentHash: string, chainHash: string, predecessorHash: Option<string>)

  datatype Row = Row(
    id: Option<int>, record: Option<int>, number: Option<int>, schema: Option<int>,
    contentHash: Option<string>, chainHash: Option<string>, predecessor: Option<int>)

  datatype Column = SchemaColumn | ContentColumn | ChainColumn | PredecessorColumn

  datatype Finding =
    | VersionWithoutUnit(record: int, number: int)
    | Disagrees(record: int, number: int, column: Column)
    | UnitVersionRows(record: int, number: int, rows: nat)

  type Identity = (int, int)

  function IdentityOf(e: Entry): Identity {
    (e.record, e.number)
  }

  predicate Identified(row: Row) {
    row.record.Some? && row.number.Some?
  }

  function RowIdentity(row: Row): Identity
    requires Identified(row)
  {
    (row.record.value, row.number.value)
  }

  // ------------------------------------------------------------ what is found

  function ContentById(rows: seq<Row>): map<int, string> {
    if rows == [] then map[]
    else
      var row := rows[|rows| - 1];
      var earlier := ContentById(rows[..|rows| - 1]);
      if row.id.Some? && row.contentHash.Some? then earlier[row.id.value := row.contentHash.value] else earlier
  }

  function ByIdentity(units: seq<Entry>): map<Identity, Entry> {
    if units == [] then map[]
    else ByIdentity(units[..|units| - 1])[IdentityOf(units[|units| - 1]) := units[|units| - 1]]
  }

  function CountAt(rows: seq<Row>, identity: Identity): nat {
    if rows == [] then 0
    else
      var row := rows[|rows| - 1];
      CountAt(rows[..|rows| - 1], identity) + (if Identified(row) && RowIdentity(row) == identity then 1 else 0)
  }

  /** Whether the unit's predecessor hash is the content hash of the row its own
      row names; a predecessor that does not resolve is another check's. */
  predicate PredecessorAgrees(content: map<int, string>, row: Row, unit: Entry) {
    match row.predecessor
    case None => unit.predecessorHash.None?
    case Some(id) => id in content ==> unit.predecessorHash == Some(content[id])
  }

  function Disagreements(content: map<int, string>, row: Row, unit: Entry): set<Finding> {
    (if row.schema != Some(unit.schema) then {Disagrees(unit.record, unit.number, SchemaColumn)} else {})
    + (if row.contentHash != Some(unit.contentHash) then {Disagrees(unit.record, unit.number, ContentColumn)} else {})
    + (if row.chainHash != Some(unit.chainHash) then {Disagrees(unit.record, unit.number, ChainColumn)} else {})
    + (if !PredecessorAgrees(content, row, unit) then {Disagrees(unit.record, unit.number, PredecessorColumn)} else {})
  }

  function RowFindings(content: map<int, string>, byIdentity: map<Identity, Entry>, row: Row): set<Finding> {
    if !Identified(row) then {}
    else if RowIdentity(row) !in byIdentity then {VersionWithoutUnit(row.record.value, row.number.value)}
    else Disagreements(content, row, byIdentity[RowIdentity(row)])
  }

  function AllRowFindings(content: map<int, string>, byIdentity: map<Identity, Entry>, rows: seq<Row>): set<Finding> {
    if rows == [] then {}
    else
      AllRowFindings(content, byIdentity, rows[..|rows| - 1]) + RowFindings(content, byIdentity, rows[|rows| - 1])
  }

  function UnitFindings(rows: seq<Row>, units: seq<Entry>): set<Finding> {
    if units == [] then {}
    else
      var unit := units[|units| - 1];
      var count := CountAt(rows, IdentityOf(unit));
      UnitFindings(rows, units[..|units| - 1])
      + (if count != 1 then {UnitVersionRows(unit.record, unit.number, count)} else {})
  }

  function AgreementFindings(units: seq<Entry>, rows: seq<Row>): set<Finding> {
    AllRowFindings(ContentById(rows), ByIdentity(units), rows) + UnitFindings(rows, units)
  }

  // --------------------------------------------------------- the check as run

  /** Rows per identity, counted once. */
  method CountRows(rows: seq<Row>) returns (counts: map<Identity, nat>)
    ensures forall k :: (if k in counts then counts[k] else 0) == CountAt(rows, k)
  {
    counts := map[];
    var i := 0;
    while i < |rows|
      invariant 0 <= i <= |rows|
      invariant forall k :: (if k in counts then counts[k] else 0) == CountAt(rows[..i], k)
    {
      assert rows[..i + 1][..i] == rows[..i];
      if Identified(rows[i]) {
        var k := RowIdentity(rows[i]);
        counts := counts[k := (if k in counts then counts[k] else 0) + 1];
      }
      i := i + 1;
    }
    assert rows[..i] == rows;
  }

  method IndexRows(rows: seq<Row>) returns (content: map<int, string>)
    ensures content == ContentById(rows)
  {
    content := map[];
    var i := 0;
    while i < |rows|
      invariant 0 <= i <= |rows| && content == ContentById(rows[..i])
    {
      assert rows[..i + 1][..i] == rows[..i];
      if rows[i].id.Some? && rows[i].contentHash.Some? {
        content := content[rows[i].id.value := rows[i].contentHash.value];
      }
      i := i + 1;
    }
    assert rows[..i] == rows;
  }

  method IndexUnits(units: seq<Entry>) returns (byIdentity: map<Identity, Entry>)
    ensures byIdentity == ByIdentity(units)
  {
    byIdentity := map[];
    var i := 0;
    while i < |units|
      invariant 0 <= i <= |units| && byIdentity == ByIdentity(units[..i])
    {
      assert units[..i + 1][..i] == units[..i];
      byIdentity := byIdentity[IdentityOf(units[i]) := units[i]];
      i := i + 1;
    }
    assert units[..i] == units;
  }

  method CheckAgreement(units: seq<Entry>, rows: seq<Row>) returns (findings: set<Finding>)
    ensures findings == AgreementFindings(units, rows)
  {
    var content := IndexRows(rows);
    var byIdentity := IndexUnits(units);
    var fromRows, fromUnits: set<Finding> := {}, {};
    var i := 0;
    while i < |rows|
      invariant 0 <= i <= |rows| && fromRows == AllRowFindings(content, byIdentity, rows[..i])
    {
      assert rows[..i + 1][..i] == rows[..i];
      fromRows := fromRows + RowFindings(content, byIdentity, rows[i]);
      i := i + 1;
    }
    assert rows[..i] == rows;
    var counts := CountRows(rows);
    var j := 0;
    while j < |units|
      invariant 0 <= j <= |units| && fromUnits == UnitFindings(rows, units[..j])
    {
      assert units[..j + 1][..j] == units[..j];
      var identity := IdentityOf(units[j]);
      var count := if identity in counts then counts[identity] else 0;
      if count != 1 {
        fromUnits := fromUnits + {UnitVersionRows(units[j].record, units[j].number, count)};
      }
      j := j + 1;
    }
    assert units[..j] == units;
    return fromRows + fromUnits;
  }

  // ------------------------------------------------------ what silence means

  ghost predicate DistinctUnits(units: seq<Entry>) {
    forall i, j | 0 <= i < j < |units| :: IdentityOf(units[i]) != IdentityOf(units[j])
  }

  /** Every column of a version row has its type, its id is its own, and its
      predecessor is a row. */
  ghost predicate SoundRows(rows: seq<Row>) {
    && (forall i | 0 <= i < |rows| ::
          && rows[i].id.Some? && Identified(rows[i])
          && rows[i].schema.Some? && rows[i].contentHash.Some? && rows[i].chainHash.Some?)
    && (forall i, j | 0 <= i < j < |rows| :: rows[i].id != rows[j].id)
    && (forall i | 0 <= i < |rows| :: rows[i].predecessor.Some? ==> exists p :: Names(rows, i, p))
  }

  /** Row `p` is the one row `i` names as its predecessor. */
  ghost predicate Names(rows: seq<Row>, i: int, p: int)
    requires 0 <= i < |rows|
  {
    0 <= p < |rows| && rows[i].predecessor.Some? && rows[p].id == rows[i].predecessor
  }

  /** The unit says of the version what its row says, down to the content hash of
      the version before it. */
  ghost predicate Agrees(rows: seq<Row>, i: int, unit: Entry)
    requires 0 <= i < |rows|
  {
    var row := rows[i];
    && row.record == Some(unit.record) && row.number == Some(unit.number)
    && row.schema == Some(unit.schema)
    && row.contentHash == Some(unit.contentHash) && row.chainHash == Some(unit.chainHash)
    && (row.predecessor.None? ==> unit.predecessorHash.None?)
    && (forall p :: Names(rows, i, p) ==> unit.predecessorHash == rows[p].contentHash)
  }

  ghost predicate HasUnit(units: seq<Entry>, rows: seq<Row>, i: int)
    requires 0 <= i < |rows|
  {
    exists j :: 0 <= j < |units| && Agrees(rows, i, units[j])
  }

  /** Rows and units correspond one to one: each row has the one unit it agrees
      with, and each unit the one row. */
  ghost predicate OneToOne(units: seq<Entry>, rows: seq<Row>) {
    && (forall i | 0 <= i < |rows| :: HasUnit(units, rows, i))
    && (forall j | 0 <= j < |units| :: OnlyRow(rows, IdentityOf(units[j])))
  }

  ghost predicate IsRowOf(rows: seq<Row>, i: int, identity: Identity) {
    0 <= i < |rows| && Identified(rows[i]) && RowIdentity(rows[i]) == identity
  }

  ghost predicate OnlyRow(rows: seq<Row>, identity: Identity) {
    exists i :: IsRowOf(rows, i, identity) && forall k :: IsRowOf(rows, k, identity) ==> k == i
  }

  lemma {:induction false} CountIsZero(rows: seq<Row>, identity: Identity)
    ensures CountAt(rows, identity) == 0 <==> forall k :: !IsRowOf(rows, k, identity)
  {
    if rows != [] {
      var n := |rows| - 1;
      var front := rows[..n];
      CountIsZero(front, identity);
      assert forall k :: k != n ==> IsRowOf(rows, k, identity) == IsRowOf(front, k, identity);
      if CountAt(rows, identity) != 0 && CountAt(front, identity) == 0 {
        assert IsRowOf(rows, n, identity);
      }
      if CountAt(front, identity) != 0 {
        var k :| IsRowOf(front, k, identity);
        assert IsRowOf(rows, k, identity);
      }
    }
  }

  lemma {:induction false} CountIsOne(rows: seq<Row>, identity: Identity)
    ensures CountAt(rows, identity) == 1 <==> OnlyRow(rows, identity)
  {
    if rows != [] {
      var n := |rows| - 1;
      var front := rows[..n];
      CountIsOne(front, identity);
      CountIsZero(front, identity);
      assert forall k :: k != n ==> IsRowOf(rows, k, identity) == IsRowOf(front, k, identity);
      if IsRowOf(rows, n, identity) {
        if CountAt(front, identity) == 0 {
          assert OnlyRow(rows, identity);
        } else {
          var k :| IsRowOf(front, k, identity);
          assert IsRowOf(rows, k, identity) && k != n;
          assert !OnlyRow(rows, identity);
        }
      } else {
        if OnlyRow(front, identity) {
          var i :| IsRowOf(front, i, identity) && forall k :: IsRowOf(front, k, identity) ==> k == i;
          assert IsRowOf(rows, i, identity);
        }
        if OnlyRow(rows, identity) {
          var i :| IsRowOf(rows, i, identity) && forall k :: IsRowOf(rows, k, identity) ==> k == i;
          assert IsRowOf(front, i, identity);
        }
      }
    }
  }

  lemma {:induction false} UnitsSilent(rows: seq<Row>, units: seq<Entry>)
    ensures UnitFindings(rows, units) == {} <==> forall j | 0 <= j < |units| :: OnlyRow(rows, IdentityOf(units[j]))
  {
    if units != [] {
      var n := |units| - 1;
      var front := units[..n];
      UnitsSilent(rows, front);
      CountIsOne(rows, IdentityOf(units[n]));
      var count := CountAt(rows, IdentityOf(units[n]));
      if count != 1 {
        assert UnitVersionRows(units[n].record, units[n].number, count) in UnitFindings(rows, units);
      } else {
        assert UnitFindings(rows, units) == UnitFindings(rows, front);
      }
      assert forall j | 0 <= j < n :: front[j] == units[j];
    }
  }

  lemma {:induction false} RowsSilent(content: map<int, string>, byIdentity: map<Identity, Entry>, rows: seq<Row>)
    ensures AllRowFindings(content, byIdentity, rows) == {} <==>
      forall i | 0 <= i < |rows| :: RowFindings(content, byIdentity, rows[i]) == {}
  {
    if rows != [] {
      var front := rows[..|rows| - 1];
      RowsSilent(content, byIdentity, front);
      assert forall i | 0 <= i < |front| :: front[i] == rows[i];
    }
  }

  lemma {:induction false} IdentityFindsUnit(units: seq<Entry>)
    requires DistinctUnits(units)
    ensures forall j | 0 <= j < |units| ::
      IdentityOf(units[j]) in ByIdentity(units) && ByIdentity(units)[IdentityOf(units[j])] == units[j]
    ensures forall k <- ByIdentity(units) :: exists j :: 0 <= j < |units| && IdentityOf(units[j]) == k
  {
    if units != [] {
      var n := |units| - 1;
      var front := units[..n];
      IdentityFindsUnit(front);
      forall j | 0 <= j < |units|
        ensures IdentityOf(units[j]) in ByIdentity(units) && ByIdentity(units)[IdentityOf(units[j])] == units[j]
      {
        assert j < n ==> front[j] == units[j];
      }
      forall k <- ByIdentity(units)
        ensures exists j :: 0 <= j < |units| && IdentityOf(units[j]) == k
      {
        if k in ByIdentity(front) {
          var j :| 0 <= j < n && IdentityOf(front[j]) == k;
          assert IdentityOf(units[j]) == k;
        } else {
          assert IdentityOf(units[n]) == k;
        }
      }
    }
  }

  lemma {:induction false} IdFindsContent(rows: seq<Row>)
    requires forall i | 0 <= i < |rows| :: rows[i].id.Some? && rows[i].contentHash.Some?
    requires forall i, j | 0 <= i < j < |rows| :: rows[i].id != rows[j].id
    ensures forall p | 0 <= p < |rows| ::
      rows[p].id.value in ContentById(rows) && Some(ContentById(rows)[rows[p].id.value]) == rows[p].contentHash
  {
    if rows != [] {
      var n := |rows| - 1;
      var front := rows[..n];
      IdFindsContent(front);
      forall p | 0 <= p < |rows|
        ensures rows[p].id.value in ContentById(rows) && Some(ContentById(rows)[rows[p].id.value]) == rows[p].contentHash
      {
        if p < n {
          assert front[p] == rows[p];
          assert rows[p].id != rows[n].id;
        }
      }
    }
  }

  lemma PredecessorIsExact(rows: seq<Row>, i: int, unit: Entry)
    requires SoundRows(rows) && 0 <= i < |rows|
    ensures PredecessorAgrees(ContentById(rows), rows[i], unit) <==>
      && (rows[i].predecessor.None? ==> unit.predecessorHash.None?)
      && (forall p :: Names(rows, i, p) ==> unit.predecessorHash == rows[p].contentHash)
  {
    IdFindsContent(rows);
    if rows[i].predecessor.Some? {
      var p :| Names(rows, i, p);
    }
  }

  lemma RowIsExact(units: seq<Entry>, rows: seq<Row>, i: int, unit: Entry)
    requires SoundRows(rows) && 0 <= i < |rows| && RowIdentity(rows[i]) == IdentityOf(unit)
    ensures Disagreements(ContentById(rows), rows[i], unit) == {} <==> Agrees(rows, i, unit)
  {
    var row, content := rows[i], ContentById(rows);
    var found := Disagreements(content, row, unit);
    PredecessorIsExact(rows, i, unit);
    if row.schema != Some(unit.schema) {
      assert Disagrees(unit.record, unit.number, SchemaColumn) in found;
    } else if row.contentHash != Some(unit.contentHash) {
      assert Disagrees(unit.record, unit.number, ContentColumn) in found;
    } else if row.chainHash != Some(unit.chainHash) {
      assert Disagrees(unit.record, unit.number, ChainColumn) in found;
    } else if !PredecessorAgrees(content, row, unit) {
      assert Disagrees(unit.record, unit.number, PredecessorColumn) in found;
    }
  }

  lemma RowHasItsUnit(units: seq<Entry>, rows: seq<Row>, i: int)
    requires DistinctUnits(units) && SoundRows(rows) && 0 <= i < |rows|
    ensures RowFindings(ContentById(rows), ByIdentity(units), rows[i]) == {} <==> HasUnit(units, rows, i)
  {
    IdentityFindsUnit(units);
    var identity, byIdentity := RowIdentity(rows[i]), ByIdentity(units);
    if identity in byIdentity {
      var j :| 0 <= j < |units| && IdentityOf(units[j]) == identity;
      RowIsExact(units, rows, i, units[j]);
      forall k | 0 <= k < |units| && Agrees(rows, i, units[k])
        ensures units[k] == units[j]
      {
        assert IdentityOf(units[k]) == identity;
      }
    } else {
      assert VersionWithoutUnit(rows[i].record.value, rows[i].number.value) in
        RowFindings(ContentById(rows), byIdentity, rows[i]);
    }
  }

  /** The agreement check is exact: over units with identities of their own and
      sound rows it is silent if and only if rows and units correspond one to
      one, agreeing on schema, both hashes and the predecessor's content hash. */
  lemma AgreementIsExact(units: seq<Entry>, rows: seq<Row>)
    requires DistinctUnits(units) && SoundRows(rows)
    ensures AgreementFindings(units, rows) == {} <==> OneToOne(units, rows)
  {
    var fromRows := AllRowFindings(ContentById(rows), ByIdentity(units), rows);
    RowsSilent(ContentById(rows), ByIdentity(units), rows);
    UnitsSilent(rows, units);
    assert AgreementFindings(units, rows) == {} <==> fromRows == {} && UnitFindings(rows, units) == {};
    forall i | 0 <= i < |rows|
      ensures RowFindings(ContentById(rows), ByIdentity(units), rows[i]) == {} <==> HasUnit(units, rows, i)
    {
      RowHasItsUnit(units, rows, i);
    }
  }

  function UnitIdentities(units: seq<Entry>): seq<Identity> {
    if units == [] then [] else UnitIdentities(units[..|units| - 1]) + [IdentityOf(units[|units| - 1])]
  }

  lemma {:induction false} UnitIdentityAt(units: seq<Entry>)
    ensures |UnitIdentities(units)| == |units|
    ensures forall j | 0 <= j < |units| :: UnitIdentities(units)[j] == IdentityOf(units[j])
  {
    if units != [] {
      UnitIdentityAt(units[..|units| - 1]);
    }
  }

  function RowIdentities(rows: seq<Row>): seq<Identity>
    requires forall i | 0 <= i < |rows| :: Identified(rows[i])
  {
    if rows == [] then [] else RowIdentities(rows[..|rows| - 1]) + [RowIdentity(rows[|rows| - 1])]
  }

  lemma {:induction false} RowIdentityAt(rows: seq<Row>)
    requires forall i | 0 <= i < |rows| :: Identified(rows[i])
    ensures |RowIdentities(rows)| == |rows|
    ensures forall i | 0 <= i < |rows| :: RowIdentities(rows)[i] == RowIdentity(rows[i])
  {
    if rows != [] {
      RowIdentityAt(rows[..|rows| - 1]);
    }
  }

  lemma OneRowEach(units: seq<Entry>, rows: seq<Row>, i: int, k: int)
    requires SoundRows(rows) && OneToOne(units, rows) && 0 <= i < k < |rows|
    ensures RowIdentity(rows[i]) != RowIdentity(rows[k])
  {
    assert HasUnit(units, rows, i);
    var j :| 0 <= j < |units| && Agrees(rows, i, units[j]);
    assert OnlyRow(rows, IdentityOf(units[j]));
    assert IsRowOf(rows, i, IdentityOf(units[j]));
    assert RowIdentity(rows[i]) == RowIdentity(rows[k]) ==> IsRowOf(rows, k, IdentityOf(units[j]));
  }

  /** One to one in number too: the same identities, each once. */
  lemma OneToOneInNumber(units: seq<Entry>, rows: seq<Row>)
    requires DistinctUnits(units) && SoundRows(rows) && OneToOne(units, rows)
    ensures |units| == |rows|
  {
    var u, r := UnitIdentities(units), RowIdentities(rows);
    UnitIdentityAt(units);
    RowIdentityAt(rows);
    forall i | 0 <= i < |r|
      ensures r[i] in u
    {
      assert HasUnit(units, rows, i);
      var j :| 0 <= j < |units| && Agrees(rows, i, units[j]);
      assert u[j] == r[i];
    }
    forall j | 0 <= j < |u|
      ensures u[j] in r
    {
      assert OnlyRow(rows, IdentityOf(units[j]));
      var i :| IsRowOf(rows, i, IdentityOf(units[j]));
      assert r[i] == u[j];
    }
    forall i, k | 0 <= i < k < |r|
      ensures r[i] != r[k]
    {
      OneRowEach(units, rows, i, k);
    }
    var all := set x | x in u;
    assert all == set x | x in r;
    DistinctImages(u, all);
    DistinctImages(r, all);
  }

  lemma {:induction false} DistinctImages(s: seq<Identity>, image: set<Identity>)
    requires forall i, j | 0 <= i < j < |s| :: s[i] != s[j]
    requires image == set x | x in s
    ensures |image| == |s|
  {
    if s != [] {
      var n := |s| - 1;
      var front := s[..n];
      var smaller := set x | x in front;
      DistinctImages(front, smaller);
      assert s == front + [s[n]];
      assert image == smaller + {s[n]};
      assert s[n] !in smaller;
    }
  }
}
