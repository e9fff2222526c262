/** Whose copy directory it is. The check lets in the owner of the newest
    readable backup, an installation's own kind before the databases restores
    set aside; retention deletes by age alone. It is shown exactly which
    directories stay one installation's through every run. */
module BackupOwnership {
  import opened Basics
  import opened Backups
  import opened BackupCopy

  // ------------------------------------------------------- what the check reads

  predicate Readable(r: Reader, files: Files, name: string) {
    name in files && IsSnapshot(name) && r.owner(files[name]).Some?
  }

  /** An installation's own kind of backup before any set aside; then the newer. */
  predicate Outranks(a: string, b: string) {
    if IsSetAside(a) == IsSetAside(b) then Older(b, a) else IsSetAside(b)
  }

  /** The newest readable backup of an installation's own kind or, failing any,
      the newest readable one of any kind. */
  ghost predicate IsChief(r: Reader, files: Files, name: string) {
    && Readable(r, files, name)
    && forall other | Readable(r, files, other) && other != name :: Outranks(name, other)
  }

  ghost predicate Heads(r: Reader, files: Files, x: Installation) {
    exists name :: IsChief(r, files, name) && r.owner(files[name]) == Some(x)
  }

  ghost predicate NothingReadable(r: Reader, files: Files) {
    forall name <- files :: !Readable(r, files, name)
  }

  lemma ReverseAt<T>(s: seq<T>)
    ensures |Reverse(s)| == |s|
    ensures forall i | 0 <= i < |s| :: Reverse(s)[i] == s[|s| - 1 - i]
  {
    if s != [] {
      ReverseAt(s[..|s| - 1]);
    }
  }

  lemma {:induction false} SelectSplits(list: seq<string>)
    ensures forall name :: name in list <==> name in Select(list, false) || name in Select(list, true)
    ensures forall name <- Select(list, false) :: !IsSetAside(name)
    ensures forall name <- Select(list, true) :: IsSetAside(name)
  {
    if list != [] {
      var front, last := list[..|list| - 1], list[|list| - 1];
      SelectSplits(front);
      assert list == front + [last];
      assert forall name :: name in Select(list, IsSetAside(last)) <==> name in Select(front, IsSetAside(last)) || name == last;
      assert Select(list, !IsSetAside(last)) == Select(front, !IsSetAside(last));
    }
  }

  lemma {:induction false} SelectInOrder(list: seq<string>, setAside: bool)
    requires InOrder(list)
    ensures InOrder(Select(list, setAside))
  {
    if list != [] {
      var front, last := list[..|list| - 1], list[|list| - 1];
      SelectInOrder(front, setAside);
      SelectSplits(front);
      var chosen := Select(front, setAside);
      forall i | 0 <= i < |chosen|
        ensures Older(chosen[i], last)
      {
        assert chosen[i] in chosen && chosen[i] in front;
        var k :| 0 <= k < |front| && front[k] == chosen[i];
        assert Older(list[k], list[|list| - 1]);
      }
    }
  }

  lemma ReverseKeeps<T>(s: seq<T>)
    ensures forall x :: x in Reverse(s) <==> x in s
  {
    ReverseAt(s);
    forall x | x in s
      ensures x in Reverse(s)
    {
      var k :| 0 <= k < |s| && s[k] == x;
      assert Reverse(s)[|s| - 1 - k] == x;
    }
  }

  lemma CandidatesAreTheList(list: seq<string>)
    ensures forall name :: name in Candidates(list) <==> name in list
  {
    SelectSplits(list);
    ReverseKeeps(Select(list, false));
    ReverseKeeps(Select(list, true));
  }

  lemma TwoReversed<T>(a: seq<T>, b: seq<T>, i: nat)
    requires i < |a| + |b|
    ensures |Reverse(a) + Reverse(b)| == |a| + |b|
    ensures (Reverse(a) + Reverse(b))[i] == if i < |a| then a[|a| - 1 - i] else b[|a| + |b| - 1 - i]
  {
    ReverseAt(a);
    ReverseAt(b);
  }

  lemma CandidateAt(list: seq<string>, i: nat)
    requires i < |Select(list, false)| + |Select(list, true)|
    ensures var own, others := Select(list, false), Select(list, true);
      && |Candidates(list)| == |own| + |others|
      && if i < |own| then Candidates(list)[i] == own[|own| - 1 - i] && !IsSetAside(Candidates(list)[i])
         else Candidates(list)[i] == others[|own| + |others| - 1 - i] && IsSetAside(Candidates(list)[i])
  {
    var own, others := Select(list, false), Select(list, true);
    SelectSplits(list);
    TwoReversed(own, others, i);
    var name := Candidates(list)[i];
    assert i < |own| ==> name in own;
    assert i >= |own| ==> name in others;
  }

  /** The candidates are the listed names, by rank. */
  lemma CandidatesAreRanked(list: seq<string>)
    requires InOrder(list)
    ensures forall i, j | 0 <= i < j < |Candidates(list)| :: Outranks(Candidates(list)[i], Candidates(list)[j])
  {
    SelectInOrder(list, false);
    SelectInOrder(list, true);
    ReverseAt(Select(list, false));
    ReverseAt(Select(list, true));
    forall i, j | 0 <= i < j < |Candidates(list)|
      ensures Outranks(Candidates(list)[i], Candidates(list)[j])
    {
      CandidateAt(list, i);
      CandidateAt(list, j);
    }
  }

  lemma {:induction false} FirstReadableAt(r: Reader, files: Files, names: seq<string>) returns (i: nat)
    requires forall name <- names :: IsSnapshot(name)
    ensures i <= |names| && forall k | 0 <= k < i :: !Readable(r, files, names[k])
    ensures FirstReadable(r, files, names) ==
      if i == |names| then None else if Readable(r, files, names[i]) then r.owner(files[names[i]]) else None
    ensures i < |names| ==> Readable(r, files, names[i])
  {
    if names == [] || Readable(r, files, names[0]) {
      i := 0;
    } else {
      assert names[0] in names;
      i := FirstReadableAt(r, files, names[1..]);
      i := i + 1;
      assert forall k | 0 < k < i :: names[k] == names[1..][k - 1];
    }
  }

  lemma OneChief(r: Reader, files: Files, a: string, b: string)
    requires IsChief(r, files, a) && IsChief(r, files, b)
    ensures a == b
  {
    if a != b {
      if IsSetAside(a) == IsSetAside(b) {
        OlderIsStrict(a, b);
      }
    }
  }

  /** The scan answers with the owner of the one chief, and with none exactly when
      nothing is readable. */
  lemma ScanFindsTheChief(r: Reader, files: Files, list: seq<string>)
    requires Lists(list, SnapshotNames(files))
    ensures FirstReadable(r, files, Candidates(list)) == None <==> NothingReadable(r, files)
    ensures forall x :: FirstReadable(r, files, Candidates(list)) == Some(x) <==> Heads(r, files, x)
  {
    var names := Candidates(list);
    CandidatesAreTheList(list);
    CandidatesAreRanked(list);
    var i := FirstReadableAt(r, files, names);
    forall name | Readable(r, files, name)
      ensures exists k :: i <= k < |names| && names[k] == name
    {
      assert name in SnapshotNames(files) && name in list && name in names;
      var k :| 0 <= k < |names| && names[k] == name;
    }
    if i < |names| {
      assert IsChief(r, files, names[i]);
      forall x
        ensures FirstReadable(r, files, names) == Some(x) <==> Heads(r, files, x)
      {
        if Heads(r, files, x) {
          var name :| IsChief(r, files, name) && r.owner(files[name]) == Some(x);
          OneChief(r, files, name, names[i]);
        }
      }
    }
  }

  /** Whatever else a directory holds, unreadable files and databases other
      installations set aside included: where an installation's backup is the
      chief one the check lets in that installation and no other. */
  lemma OnlyTheOwnerPasses(r: Reader, files: Files, list: seq<string>, content: Bytes, x: Installation)
    requires Heads(r, files, x) && Lists(list, SnapshotNames(files))
    ensures SameInstallation(r, files, list, content) <==> r.owner(content) == Some(x)
  {
    ScanFindsTheChief(r, files, list);
  }

  /** Two installations can both pass if and only if nothing there is readable. */
  lemma BothPassExactly(r: Reader, files: Files, list: seq<string>, a: Bytes, b: Bytes)
    requires Lists(list, SnapshotNames(files)) && r.owner(a) != r.owner(b)
    ensures SameInstallation(r, files, list, a) && SameInstallation(r, files, list, b) <==> NothingReadable(r, files)
  {
    ScanFindsTheChief(r, files, list);
  }

  // --------------------------------------------------- a scan that takes time

  /** The scan opens one candidate after another: `looks[i]` is the directory as
      the i-th is opened. */
  function SlowScan(r: Reader, looks: seq<Files>, names: seq<string>): Option<Installation>
    requires |looks| == |names|
  {
    if names == [] then None
    else if names[0] in looks[0] && r.owner(looks[0][names[0]]).Some? then r.owner(looks[0][names[0]])
    else SlowScan(r, looks[1..], names[1..])
  }

  /** While files listed are at most deleted, it answers as one look at the
      directory listed would as long as the chief is there when opened. */
  lemma {:induction false} SlowScanAgrees(r: Reader, files: Files, looks: seq<Files>, names: seq<string>)
    requires |looks| == |names| && forall name <- names :: name in files
    requires forall i, name | 0 <= i < |looks| && name in names && name in looks[i] :: looks[i][name] == files[name]
    requires forall i | 0 <= i < |names| && r.owner(files[names[i]]).Some? && names[i] !in looks[i] ::
      exists k | 0 <= k < i :: r.owner(files[names[k]]).Some?
    ensures SlowScan(r, looks, names) == FirstReadable(r, files, names)
  {
    if names != [] && r.owner(files[names[0]]).None? {
      assert names[0] in names;
      forall i | 0 <= i < |names| - 1 && r.owner(files[names[1..][i]]).Some? && names[1..][i] !in looks[1..][i]
        ensures exists k | 0 <= k < i :: r.owner(files[names[1..][k]]).Some?
      {
        var k :| 0 <= k < i + 1 && r.owner(files[names[k]]).Some?;
        assert names[1..][k - 1] == names[k];
      }
      SlowScanAgrees(r, files, looks[1..], names[1..]);
    } else if names != [] {
      assert names[0] in names;
    }
  }

  /** But when all that was listed has gone before it is opened, anybody passes. */
  lemma {:induction false} SlowScanCanFindNothing(r: Reader, looks: seq<Files>, names: seq<string>)
    requires |looks| == |names| && forall i | 0 <= i < |names| :: names[i] !in looks[i]
    ensures SlowScan(r, looks, names) == None
  {
    if names != [] {
      SlowScanCanFindNothing(r, looks[1..], names[1..]);
    }
  }
}
