/** The units, amendments and acknowledgments of records that keep their
    invariant are what the verifier intends. */
module PacketRecords {
  import opened Basics
  import opened Acknowledgments
  import opened Packet
  import opened PacketVerify
  import opened PacketWorld
  import Work = RecordWorkflow
  import Inv = RecordInvariant
  import Canonical
  import Lineage
  import Amendments

  ghost predicate RecordsHold(c: Work.Codec, dossiers: seq<Dossier>) {
    && (forall i | 0 <= i < |dossiers| :: dossiers[i].record.id >= 1 && Inv.Inv(c, dossiers[i].record))
    && (forall i, j | 0 <= i < j < |dossiers| :: dossiers[i].record.id < dossiers[j].record.id)
  }

  lemma FrontHolds(c: Work.Codec, dossiers: seq<Dossier>)
    requires RecordsHold(c, dossiers) && dossiers != []
    ensures RecordsHold(c, dossiers[..|dossiers| - 1]) && Inv.Inv(c, Work.Last(dossiers).record)
    ensures forall d <- dossiers[..|dossiers| - 1] :: d.record.id < Work.Last(dossiers).record.id
  {
    forall d <- dossiers[..|dossiers| - 1]
      ensures d.record.id < Work.Last(dossiers).record.id
    {
      var i :| 0 <= i < |dossiers| - 1 && dossiers[i] == d;
    }
  }

  // --------------------------------------------------------------- one record

  lemma {:induction false} VersionFound(versions: seq<Work.Version>, k: nat)
    requires Inv.VersionsAscend(versions) && k < |versions|
    ensures HashById(versions, versions[k].id) == Some(versions[k].contentHash)
    ensures NumberById(versions, versions[k].id) == Some(versions[k].number)
  {
    if k < |versions| - 1 {
      VersionFound(versions[..|versions| - 1], k);
    }
  }

  lemma {:induction false} SuccessorFound(c: Work.Codec, r: Work.Record, n: nat, k: nat)
    requires Inv.VersionsAscend(r.versions) && Inv.Chained(c, r) && k < |r.versions| && n <= |r.versions|
    ensures SuccessorNumber(r.versions[..n], r.versions[k].id) == if k + 1 < n then Some(k + 2) else None
  {
    if n > 0 {
      var versions := r.versions[..n];
      assert versions[..n - 1] == r.versions[..n - 1];
      SuccessorFound(c, r, n - 1, k);
      assert Inv.LinkHolds(c, r, n - 1);
      if n - 1 != k + 1 && n > 1 {
        assert r.versions[n - 2].id != r.versions[k].id;
      }
    }
  }

  lemma StoredFormOf(c: Work.Codec, r: Work.Record, k: nat)
    requires Inv.Chained(c, r) && k < |r.versions|
    ensures Canonical.IsLowercaseHexHash(r.versions[k].contentHash)
    ensures Canonical.IsLowercaseHexHash(r.versions[k].chainHash)
  {
    var v := r.versions[k];
    assert Inv.LinkHolds(c, r, k);
    var previous := if k == 0 then None else Some(r.versions[k - 1].contentHash);
    Canonical.HashesAreStoredForm(c.sha, previous, v.canonical);
  }

  /** The unit of version `k + 1`. */
  ghost predicate UnitHolds(c: Work.Codec, r: Work.Record, k: nat, u: Lineage.Unit)
    requires k < |r.versions|
  {
    && u.record == r.id && u.number == k + 1
    && u.contentHash == r.versions[k].contentHash && u.chainHash == r.versions[k].chainHash
    && u.predecessorHash == (if k == 0 then None else Some(r.versions[k - 1].contentHash))
    && Lineage.StoredForm(u)
    && u.contentHash == Canonical.ContentHash(c.sha, r.versions[k].canonical)
    && Canonical.ChainHash(c.sha, u.predecessorHash, r.versions[k].canonical) == Some(u.chainHash)
  }

  lemma UnitOfVersion(c: Work.Codec, r: Work.Record, k: nat)
    requires Inv.Inv(c, r) && k < |r.versions|
    ensures UnitHolds(c, r, k, UnitOf(r, r.versions[k]))
  {
    assert Inv.LinkHolds(c, r, k);
    StoredFormOf(c, r, k);
    if k > 0 {
      VersionFound(r.versions, k - 1);
      StoredFormOf(c, r, k - 1);
    }
  }

  lemma {:induction false} UnitAt(r: Work.Record, n: nat)
    requires n <= |r.versions|
    ensures |UnitsOfRecord(r, n)| == n
    ensures forall k | 0 <= k < n :: UnitsOfRecord(r, n)[k] == UnitOf(r, r.versions[k])
  {
    if n > 0 {
      UnitAt(r, n - 1);
    }
  }

  lemma {:induction false} FileAt(c: Work.Codec, r: Work.Record, n: nat, k: nat)
    requires Inv.Chained(c, r) && k < n <= |r.versions|
    ensures (r.id, k + 1) in FilesOfRecord(r, n) && FilesOfRecord(r, n)[(r.id, k + 1)] == r.versions[k].canonical
  {
    assert Inv.LinkHolds(c, r, n - 1);
    if k < n - 1 {
      FileAt(c, r, n - 1, k);
    }
  }

  lemma {:induction false} FilesAreItsOwn(r: Work.Record, n: nat)
    requires n <= |r.versions|
    ensures forall key <- FilesOfRecord(r, n) :: key.0 == r.id
  {
    if n > 0 {
      FilesAreItsOwn(r, n - 1);
    }
  }

  lemma AmendmentOfRecord(c: Work.Codec, r: Work.Record, k: nat)
    requires Inv.Inv(c, r) && k < |r.amendments|
    ensures AmendmentDocOf(r, r.amendments[k]) == Amendments.Amendment(
      r.id, k + 1, if k + 1 < |r.versions| then Some(k + 2) else None, r.amendments[k].reason,
      r.amendments[k].openedBy, r.amendments[k].openedByName, r.amendments[k].openedAt)
  {
    VersionFound(r.versions, k);
    SuccessorFound(c, r, |r.versions|, k);
    assert r.versions[..|r.versions|] == r.versions;
    assert Inv.LinkHolds(c, r, k);
  }

  lemma {:induction false} AmendmentAt(r: Work.Record, n: nat)
    requires n <= |r.amendments|
    ensures |AmendmentsOfRecord(r, n)| == n
    ensures forall k | 0 <= k < n :: AmendmentsOfRecord(r, n)[k] == AmendmentDocOf(r, r.amendments[k])
  {
    if n > 0 {
      AmendmentAt(r, n - 1);
    }
  }

  // -------------------------------------------------------------- all records

  lemma {:induction false} UnitsBelong(dossiers: seq<Dossier>, u: Lineage.Unit)
    requires u in UnitsOf(dossiers)
    ensures exists i, k ::
      0 <= i < |dossiers| && 0 <= k < |dossiers[i].record.versions|
      && u == UnitOf(dossiers[i].record, dossiers[i].record.versions[k])
  {
    if dossiers != [] {
      var front, r := dossiers[..|dossiers| - 1], Work.Last(dossiers).record;
      if u in UnitsOf(front) {
        UnitsBelong(front, u);
        var i, k :| 0 <= i < |front| && 0 <= k < |front[i].record.versions|
          && u == UnitOf(front[i].record, front[i].record.versions[k]);
        assert dossiers[i] == front[i];
      } else {
        UnitAt(r, |r.versions|);
        var k :| 0 <= k < |r.versions| && u == UnitsOfRecord(r, |r.versions|)[k];
        assert dossiers[|dossiers| - 1].record == r;
      }
    }
  }

  lemma {:induction false} UnitIsThere(dossiers: seq<Dossier>, i: nat, k: nat)
    requires i < |dossiers| && k < |dossiers[i].record.versions|
    ensures UnitOf(dossiers[i].record, dossiers[i].record.versions[k]) in UnitsOf(dossiers)
  {
    var front, r := dossiers[..|dossiers| - 1], Work.Last(dossiers).record;
    if i < |front| {
      assert front[i] == dossiers[i];
      UnitIsThere(front, i, k);
    } else {
      UnitAt(r, |r.versions|);
      assert UnitsOfRecord(r, |r.versions|)[k] == UnitOf(r, r.versions[k]);
    }
  }

  lemma Whose(c: Work.Codec, dossiers: seq<Dossier>, u: Lineage.Unit) returns (i: nat, k: nat)
    requires RecordsHold(c, dossiers) && u in UnitsOf(dossiers)
    ensures i < |dossiers| && k < |dossiers[i].record.versions| && UnitHolds(c, dossiers[i].record, k, u)
  {
    UnitsBelong(dossiers, u);
    i, k :| 0 <= i < |dossiers| && 0 <= k < |dossiers[i].record.versions|
      && u == UnitOf(dossiers[i].record, dossiers[i].record.versions[k]);
    UnitOfVersion(c, dossiers[i].record, k);
  }

  lemma There(c: Work.Codec, dossiers: seq<Dossier>, i: nat, k: nat) returns (u: Lineage.Unit)
    requires RecordsHold(c, dossiers) && i < |dossiers| && k < |dossiers[i].record.versions|
    ensures u in UnitsOf(dossiers) && UnitHolds(c, dossiers[i].record, k, u)
  {
    u := UnitOf(dossiers[i].record, dossiers[i].record.versions[k]);
    UnitIsThere(dossiers, i, k);
    UnitOfVersion(c, dossiers[i].record, k);
  }

  lemma CarriedIsVersion(c: Work.Codec, dossiers: seq<Dossier>, i: nat, n: int)
    requires RecordsHold(c, dossiers) && i < |dossiers|
    requires (dossiers[i].record.id, n) in Amendments.Identities(UnitsOf(dossiers))
    ensures 1 <= n <= |dossiers[i].record.versions|
  {
    var u :| u in UnitsOf(dossiers) && (u.record, u.number) == (dossiers[i].record.id, n);
    var j, k := Whose(c, dossiers, u);
    assert j == i;
  }

  lemma VersionIsCarried(c: Work.Codec, dossiers: seq<Dossier>, i: nat, n: int)
    requires RecordsHold(c, dossiers) && i < |dossiers| && 1 <= n <= |dossiers[i].record.versions|
    ensures (dossiers[i].record.id, n) in Amendments.Identities(UnitsOf(dossiers))
  {
    var u := There(c, dossiers, i, n - 1);
    assert (u.record, u.number) == (dossiers[i].record.id, n);
  }

  /** A record's carried identities are its version numbers. */
  lemma IdentityIff(c: Work.Codec, dossiers: seq<Dossier>, i: nat, n: int)
    requires RecordsHold(c, dossiers) && i < |dossiers|
    ensures (dossiers[i].record.id, n) in Amendments.Identities(UnitsOf(dossiers)) <==>
      1 <= n <= |dossiers[i].record.versions|
  {
    if (dossiers[i].record.id, n) in Amendments.Identities(UnitsOf(dossiers)) {
      CarriedIsVersion(c, dossiers, i, n);
    }
    if 1 <= n <= |dossiers[i].record.versions| {
      VersionIsCarried(c, dossiers, i, n);
    }
  }

  /** The units of one record alone. */
  ghost predicate OwnUnits(c: Work.Codec, r: Work.Record, own: seq<Lineage.Unit>) {
    |own| == |r.versions| && forall k | 0 <= k < |own| :: UnitHolds(c, r, k, own[k])
  }

  lemma OwnUnitsHold(c: Work.Codec, r: Work.Record)
    requires Inv.Inv(c, r)
    ensures OwnUnits(c, r, UnitsOfRecord(r, |r.versions|))
  {
    var own := UnitsOfRecord(r, |r.versions|);
    UnitAt(r, |r.versions|);
    forall k | 0 <= k < |own|
      ensures UnitHolds(c, r, k, own[k])
    {
      UnitOfVersion(c, r, k);
    }
  }

  lemma AppendWhole(c: Work.Codec, units: seq<Lineage.Unit>, r: Work.Record, own: seq<Lineage.Unit>)
    requires Lineage.Whole(units) && r.id >= 1 && OwnUnits(c, r, own)
    requires forall u <- units :: u.record < r.id
    ensures Lineage.Whole(units + own)
  {
    var all := units + own;
    forall i | 0 <= i < |all|
      ensures Lineage.Follows(all, i)
    {
      if i < |units| {
        assert Lineage.Follows(units, i);
      } else {
        var k := i - |units|;
        assert all[i] == own[k] && UnitHolds(c, r, k, own[k]);
        if k > 0 {
          assert all[i - 1] == own[k - 1] && UnitHolds(c, r, k - 1, own[k - 1]);
        } else if i > 0 {
          assert units[i - 1] in units;
        }
      }
    }
  }

  lemma {:induction false} UnitsAreWhole(c: Work.Codec, dossiers: seq<Dossier>)
    requires RecordsHold(c, dossiers)
    ensures Lineage.Whole(UnitsOf(dossiers))
  {
    if dossiers != [] {
      var front := dossiers[..|dossiers| - 1];
      FrontHolds(c, dossiers);
      UnitsAreWhole(c, front);
      forall u <- UnitsOf(front)
        ensures u.record < Work.Last(dossiers).record.id
      {
        UnitsBelong(front, u);
        var i, k :| 0 <= i < |front| && 0 <= k < |front[i].record.versions|
          && u == UnitOf(front[i].record, front[i].record.versions[k]);
        assert front[i] in front;
      }
      var r := Work.Last(dossiers).record;
      OwnUnitsHold(c, r);
      AppendWhole(c, UnitsOf(front), r, UnitsOfRecord(r, |r.versions|));
    }
  }

  lemma {:induction false} FileIsThere(c: Work.Codec, dossiers: seq<Dossier>, i: nat, k: nat)
    requires RecordsHold(c, dossiers) && i < |dossiers| && k < |dossiers[i].record.versions|
    ensures (dossiers[i].record.id, k + 1) in FilesOf(dossiers)
    ensures FilesOf(dossiers)[(dossiers[i].record.id, k + 1)] == dossiers[i].record.versions[k].canonical
  {
    var n := |dossiers| - 1;
    var front, r := dossiers[..n], dossiers[n].record;
    if i < n {
      assert front[i] == dossiers[i];
      FrontHolds(c, dossiers);
      FileIsThere(c, front, i, k);
      FilesAreItsOwn(r, |r.versions|);
      assert dossiers[i].record.id < r.id;
    } else {
      FileAt(c, r, |r.versions|, k);
    }
  }

  lemma BytesAreCarried(c: Work.Codec, dossiers: seq<Dossier>)
    requires RecordsHold(c, dossiers)
    ensures Lineage.BytesAgree(c.sha, FilesOf(dossiers), UnitsOf(dossiers))
  {
    var files := FilesOf(dossiers);
    forall u <- UnitsOf(dossiers)
      ensures var key := (u.record, u.number);
        && key in files
        && u.contentHash == Canonical.ContentHash(c.sha, files[key])
        && Canonical.ChainHash(c.sha, u.predecessorHash, files[key]) == Some(u.chainHash)
    {
      var i, k := Whose(c, dossiers, u);
      FileIsThere(c, dossiers, i, k);
    }
  }

  // --------------------------------------------------------------- amendments

  lemma {:induction false} AmendmentsBelong(dossiers: seq<Dossier>, row: Amendments.Amendment)
    requires row in AmendmentsOf(dossiers)
    ensures exists i, k ::
      0 <= i < |dossiers| && 0 <= k < |dossiers[i].record.amendments|
      && row == AmendmentDocOf(dossiers[i].record, dossiers[i].record.amendments[k])
  {
    if dossiers != [] {
      var front, r := dossiers[..|dossiers| - 1], Work.Last(dossiers).record;
      if row in AmendmentsOf(front) {
        AmendmentsBelong(front, row);
        var i, k :| 0 <= i < |front| && 0 <= k < |front[i].record.amendments|
          && row == AmendmentDocOf(front[i].record, front[i].record.amendments[k]);
        assert dossiers[i] == front[i];
      } else {
        AmendmentAt(r, |r.amendments|);
        var k :| 0 <= k < |r.amendments| && row == AmendmentsOfRecord(r, |r.amendments|)[k];
        assert dossiers[|dossiers| - 1].record == r;
      }
    }
  }

  lemma {:induction false} AmendmentIsThere(dossiers: seq<Dossier>, i: nat, k: nat)
    requires i < |dossiers| && k < |dossiers[i].record.amendments|
    ensures AmendmentDocOf(dossiers[i].record, dossiers[i].record.amendments[k]) in AmendmentsOf(dossiers)
  {
    var front, r := dossiers[..|dossiers| - 1], Work.Last(dossiers).record;
    if i < |front| {
      assert front[i] == dossiers[i];
      AmendmentIsThere(front, i, k);
    } else {
      AmendmentAt(r, |r.amendments|);
      assert AmendmentsOfRecord(r, |r.amendments|)[k] == AmendmentDocOf(r, r.amendments[k]);
    }
  }

  /** The row of amendment `k`: what it corrected and what succeeded it. */
  ghost predicate RowHolds(r: Work.Record, k: nat, row: Amendments.Amendment) {
    && row.record == r.id && row.predecessor == k + 1
    && row.successor == (if k + 1 < |r.versions| then Some(k + 2) else None)
    && Amendments.WellShaped(row)
  }

  lemma WhoseRow(c: Work.Codec, dossiers: seq<Dossier>, row: Amendments.Amendment) returns (i: nat, k: nat)
    requires RecordsHold(c, dossiers) && row in AmendmentsOf(dossiers)
    ensures i < |dossiers| && k < |dossiers[i].record.versions| && RowHolds(dossiers[i].record, k, row)
  {
    AmendmentsBelong(dossiers, row);
    i, k :| 0 <= i < |dossiers| && 0 <= k < |dossiers[i].record.amendments|
      && row == AmendmentDocOf(dossiers[i].record, dossiers[i].record.amendments[k]);
    AmendmentOfRecord(c, dossiers[i].record, k);
  }

  ghost predicate OwnRows(r: Work.Record, own: seq<Amendments.Amendment>) {
    forall k | 0 <= k < |own| :: k < |r.versions| && RowHolds(r, k, own[k])
  }

  lemma OwnRowsHold(c: Work.Codec, r: Work.Record)
    requires Inv.Inv(c, r)
    ensures OwnRows(r, AmendmentsOfRecord(r, |r.amendments|))
  {
    AmendmentAt(r, |r.amendments|);
    forall k | 0 <= k < |r.amendments|
      ensures k < |r.versions| && RowHolds(r, k, AmendmentsOfRecord(r, |r.amendments|)[k])
    {
      AmendmentOfRecord(c, r, k);
    }
  }

  lemma AppendAscends(before: seq<Amendments.Amendment>, r: Work.Record, own: seq<Amendments.Amendment>)
    requires Amendments.Ascending(before) && OwnRows(r, own)
    requires forall row <- before :: row.record < r.id
    ensures Amendments.Ascending(before + own)
  {
    var all := before + own;
    forall i | 0 <= i < |all| - 1
      ensures Amendments.RowBefore(all[i], all[i + 1])
    {
      if i + 1 < |before| {
        assert Amendments.RowBefore(before[i], before[i + 1]);
      } else {
        var k := i + 1 - |before|;
        assert all[i + 1] == own[k] && RowHolds(r, k, own[k]);
        if k > 0 {
          assert all[i] == own[k - 1] && RowHolds(r, k - 1, own[k - 1]);
        } else {
          assert before[i] in before;
        }
      }
    }
  }

  lemma {:induction false} AmendmentsAscend(c: Work.Codec, dossiers: seq<Dossier>)
    requires RecordsHold(c, dossiers)
    ensures Amendments.Ascending(AmendmentsOf(dossiers))
  {
    if dossiers != [] {
      var front, r := dossiers[..|dossiers| - 1], Work.Last(dossiers).record;
      FrontHolds(c, dossiers);
      AmendmentsAscend(c, front);
      OwnRowsHold(c, r);
      forall row <- AmendmentsOf(front)
        ensures row.record < r.id
      {
        var i, k := WhoseRow(c, front, row);
        assert front[i] in front;
      }
      AppendAscends(AmendmentsOf(front), r, AmendmentsOfRecord(r, |r.amendments|));
    }
  }

  /** What the carried identities say of a row's own version and the next. */
  lemma NextIsKnown(carried: set<(int, int)>, row: Amendments.Amendment, r: Work.Record, k: nat)
    requires k < |r.versions| && RowHolds(r, k, row)
    requires (r.id, k + 1) in carried && ((r.id, k + 2) in carried <==> k + 2 <= |r.versions|)
    ensures (row.record, row.predecessor) in carried
    ensures row.successor == Amendments.NextVersion(carried, row.record, row.predecessor)
  {
  }

  lemma CarriedAround(c: Work.Codec, dossiers: seq<Dossier>, i: nat, k: nat) returns (carried: set<(int, int)>)
    requires RecordsHold(c, dossiers) && i < |dossiers| && k < |dossiers[i].record.versions|
    ensures carried == Amendments.Identities(UnitsOf(dossiers))
    ensures (dossiers[i].record.id, k + 1) in carried
    ensures (dossiers[i].record.id, k + 2) in carried <==> k + 2 <= |dossiers[i].record.versions|
  {
    carried := Amendments.Identities(UnitsOf(dossiers));
    IdentityIff(c, dossiers, i, k + 1);
    IdentityIff(c, dossiers, i, k + 2);
  }

  lemma RowIsFaithful(c: Work.Codec, dossiers: seq<Dossier>, row: Amendments.Amendment)
    requires RecordsHold(c, dossiers) && row in AmendmentsOf(dossiers)
    ensures Amendments.WellShaped(row)
    ensures (row.record, row.predecessor) in Amendments.Identities(UnitsOf(dossiers))
    ensures row.successor
      == Amendments.NextVersion(Amendments.Identities(UnitsOf(dossiers)), row.record, row.predecessor)
  {
    var i, k := WhoseRow(c, dossiers, row);
    var carried := CarriedAround(c, dossiers, i, k);
    NextIsKnown(carried, row, dossiers[i].record, k);
  }

  lemma SuccessionIsRecorded(c: Work.Codec, dossiers: seq<Dossier>, u: Lineage.Unit)
    requires RecordsHold(c, dossiers) && u in UnitsOf(dossiers)
    requires (u.record, u.number + 1) in Amendments.Identities(UnitsOf(dossiers))
    ensures (u.record, u.number) in Amendments.Recorded(AmendmentsOf(dossiers))
  {
    var i, k := Whose(c, dossiers, u);
    IdentityIff(c, dossiers, i, k + 2);
    AmendmentIsThere(dossiers, i, k);
    AmendmentOfRecord(c, dossiers[i].record, k);
    var row := AmendmentDocOf(dossiers[i].record, dossiers[i].record.amendments[k]);
    assert row in AmendmentsOf(dossiers) && (row.record, row.predecessor) == (u.record, u.number);
  }

  lemma AmendmentsAreFaithful(c: Work.Codec, dossiers: seq<Dossier>)
    requires RecordsHold(c, dossiers)
    ensures Amendments.Faithful(UnitsOf(dossiers), AmendmentsOf(dossiers))
  {
    AmendmentsAscend(c, dossiers);
    forall row <- AmendmentsOf(dossiers)
      ensures Amendments.WellShaped(row)
      ensures (row.record, row.predecessor) in Amendments.Identities(UnitsOf(dossiers))
      ensures row.successor
        == Amendments.NextVersion(Amendments.Identities(UnitsOf(dossiers)), row.record, row.predecessor)
    {
      RowIsFaithful(c, dossiers, row);
    }
    forall u <- UnitsOf(dossiers) | (u.record, u.number + 1) in Amendments.Identities(UnitsOf(dossiers))
      ensures (u.record, u.number) in Amendments.Recorded(AmendmentsOf(dossiers))
    {
      SuccessionIsRecorded(c, dossiers, u);
    }
  }

  // ---------------------------------------------------------- acknowledgments

  ghost predicate AllAcksHold(trainee: int, dossiers: seq<Dossier>) {
    forall i | 0 <= i < |dossiers| :: AcksHold(trainee, dossiers[i])
  }

  /** The acknowledgments of the first `n` versions, in version order. */
  lemma {:induction false} AcksOfOne(c: Work.Codec, trainee: int, d: Dossier, n: nat)
    requires Inv.Inv(c, d.record) && AcksHold(trainee, d) && n <= |d.record.versions|
    ensures AcksInOrder(AcksOfRecord(d, n))
    ensures forall a <- AcksOfRecord(d, n) ::
      a.record == d.record.id && 1 <= a.number <= n && a.user.id == trainee && AckShaped(a)
  {
    if n > 0 {
      AcksOfOne(c, trainee, d, n - 1);
      var before, all, v := AcksOfRecord(d, n - 1), AcksOfRecord(d, n), d.record.versions[n - 1];
      assert Inv.LinkHolds(c, d.record, n - 1);
      if v.id in d.acks {
        assert all == before + [AckDocOf(d.record, v, d.acks[v.id])];
        assert AckHolds(trainee, d.acks[v.id]);
        forall i | 0 <= i < |all| - 1
          ensures AckBefore(all[i], all[i + 1])
        {
          assert before[i] in before;
        }
      } else {
        assert all == before;
      }
    }
  }

  lemma {:induction false} AcksOfAll(c: Work.Codec, trainee: int, dossiers: seq<Dossier>)
    requires RecordsHold(c, dossiers) && AllAcksHold(trainee, dossiers)
    ensures AcksInOrder(AcksOf(dossiers))
    ensures forall a <- AcksOf(dossiers) :: a.user.id == trainee && AckShaped(a)
    ensures forall a <- AcksOf(dossiers) ::
      exists i :: 0 <= i < |dossiers| && a.record == dossiers[i].record.id && 1 <= a.number <= |dossiers[i].record.versions|
  {
    if dossiers != [] {
      var front, d := dossiers[..|dossiers| - 1], Work.Last(dossiers);
      FrontHolds(c, dossiers);
      AcksOfAll(c, trainee, front);
      AcksOfOne(c, trainee, d, |d.record.versions|);
      var before, own := AcksOf(front), AcksOfRecord(d, |d.record.versions|);
      var all := before + own;
      forall i | 0 <= i < |all| - 1
        ensures AckBefore(all[i], all[i + 1])
      {
        if i == |before| - 1 {
          assert before[i] in before && own[0] in own;
          var j :| 0 <= j < |front| && before[i].record == front[j].record.id;
          assert front[j] in front;
        }
      }
      forall a <- all
        ensures exists i ::
          0 <= i < |dossiers| && a.record == dossiers[i].record.id && 1 <= a.number <= |dossiers[i].record.versions|
      {
        if a in before {
          var j :| 0 <= j < |front| && a.record == front[j].record.id && 1 <= a.number <= |front[j].record.versions|;
          assert dossiers[j] == front[j];
        } else {
          assert a in own;
          assert dossiers[|dossiers| - 1] == d;
        }
      }
    }
  }

  lemma AcksDocPasses(c: Work.Codec, m: Manifest, dossiers: seq<Dossier>)
    requires RecordsHold(c, dossiers) && AllAcksHold(m.trainee, dossiers) && m.units == UnitsOf(dossiers)
    ensures AcksPass(m, AcksOf(dossiers))
  {
    AcksOfAll(c, m.trainee, dossiers);
    forall a <- AcksOf(dossiers)
      ensures (a.record, a.number) in Amendments.Identities(m.units)
    {
      var i :| 0 <= i < |dossiers| && a.record == dossiers[i].record.id && 1 <= a.number <= |dossiers[i].record.versions|;
      IdentityIff(c, dossiers, i, a.number);
    }
  }
}
