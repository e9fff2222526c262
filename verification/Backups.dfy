/** Snapshot files in a directory: which names are snapshots, their order, and
    retention. A directory maps each file name to its contents; names carry the
    UTC stamp they are ordered by. */
module Backups {
  import opened Basics

  type Files = map<string, Bytes>

  predicate EndsWith(s: string, suffix: string) {
    |suffix| <= |s| && s[|s| - |suffix|..] == suffix
  }

  predicate BeginsWith(s: string, prefix: string) {
    |prefix| <= |s| && s[..|prefix|] == prefix
  }

  predicate IsSnapshot(name: string) {
    BeginsWith(name, "consolebook-") && EndsWith(name, ".db")
  }

  /** A database a restore set aside. */
  predicate IsSetAside(name: string) {
    BeginsWith(name, "consolebook-prerestore-")
  }

  /** An installation's own backup: the only kind it copies. */
  predicate IsOwnBackup(name: string) {
    IsSnapshot(name) && !IsSetAside(name)
  }

  function AfterLastDash(s: string): string {
    if s == "" then ""
    else if s[|s| - 1] == '-' then ""
    else AfterLastDash(s[..|s| - 1]) + [s[|s| - 1]]
  }

  /** The stamp a snapshot name ends with. */
  function Stamp(name: string): string {
    AfterLastDash(if EndsWith(name, ".db") then name[..|name| - 3] else name)
  }

  /** By the stamp, then the whole name. */
  predicate Older(a: string, b: string) {
    TextLess(Stamp(a), Stamp(b)) || (Stamp(a) == Stamp(b) && TextLess(a, b))
  }

  lemma {:induction false} AfterTheDash(front: string, stamp: string)
    requires '-' !in stamp
    ensures AfterLastDash(front + "-" + stamp) == stamp
  {
    var s := front + "-" + stamp;
    if stamp != "" {
      var shorter := stamp[..|stamp| - 1];
      assert s[..|s| - 1] == front + "-" + shorter;
      assert stamp == shorter + [stamp[|stamp| - 1]];
      AfterTheDash(front, shorter);
    }
  }

  /** A snapshot's stamp is what stands between its last dash and `.db`, whatever
      kind its name says it is; so snapshots of every kind are in the order of their
      stamps, and only within one stamp in the order of their names. */
  lemma OrderIsByStamp(front: string, stamp: string, front': string, stamp': string)
    requires '-' !in stamp && '-' !in stamp'
    ensures var a, b := front + "-" + stamp + ".db", front' + "-" + stamp' + ".db";
      && Stamp(a) == stamp && Stamp(b) == stamp'
      && (Older(a, b) <==> TextLess(stamp, stamp') || (stamp == stamp' && TextLess(a, b)))
  {
    var a, b := front + "-" + stamp + ".db", front' + "-" + stamp' + ".db";
    assert a[..|a| - 3] == front + "-" + stamp && b[..|b| - 3] == front' + "-" + stamp';
    assert a[|a| - 3..] == ".db" && b[|b| - 3..] == ".db";
    AfterTheDash(front, stamp);
    AfterTheDash(front', stamp');
  }

  lemma OlderIsTotal(a: string, b: string)
    ensures a == b || Older(a, b) || Older(b, a)
  {
    TextLessTotal(Stamp(a), Stamp(b));
    TextLessTotal(a, b);
  }

  lemma OlderIsStrict(a: string, b: string)
    requires Older(a, b)
    ensures a != b && !Older(b, a)
  {
    if TextLess(Stamp(a), Stamp(b)) {
      TextLessStrict(Stamp(a), Stamp(b));
    } else {
      TextLessStrict(a, b);
    }
  }

  lemma OlderIsTransitive(a: string, b: string, c: string)
    requires Older(a, b) && Older(b, c)
    ensures Older(a, c)
  {
    if TextLess(Stamp(a), Stamp(b)) && TextLess(Stamp(b), Stamp(c)) {
      TextLessTrans(Stamp(a), Stamp(b), Stamp(c));
    }
    if TextLess(a, b) && TextLess(b, c) {
      TextLessTrans(a, b, c);
    }
  }

  function SnapshotNames(files: Files): set<string> {
    set name | name in files && IsSnapshot(name)
  }

  function Newer(names: set<string>, name: string): set<string> {
    set other | other in names && Older(name, other)
  }

  /** Snapshots in order, oldest first. */
  ghost predicate InOrder(list: seq<string>) {
    forall i, j | 0 <= i < j < |list| :: Older(list[i], list[j])
  }

  ghost predicate Lists(list: seq<string>, names: set<string>) {
    InOrder(list) && forall name :: name in list <==> name in names
  }

  /** In an ordered list, the names after a place are the newer ones. */
  lemma {:induction false} NewerAreAfter(list: seq<string>, names: set<string>, i: nat)
    requires Lists(list, names) && i < |list|
    ensures |Newer(names, list[i])| == |list| - 1 - i
  {
    var after := list[i + 1..];
    forall name
      ensures name in Newer(names, list[i]) <==> name in after
    {
      if name in after {
        var k :| 0 <= k < |after| && after[k] == name;
        assert list[i + 1 + k] == name;
      }
      if name in Newer(names, list[i]) {
        var k :| 0 <= k < |list| && list[k] == name;
        if k < i {
          OlderIsStrict(list[k], list[i]);
        } else if k == i {
          OlderIsStrict(list[i], list[k]);
        } else {
          assert after[k - (i + 1)] == name;
        }
      }
    }
    assert Newer(names, list[i]) == set name | name in after;
    DistinctCount(after);
  }

  lemma {:induction false} DistinctCount(list: seq<string>)
    requires InOrder(list)
    ensures |set name | name in list| == |list|
  {
    if list != [] {
      var n := |list| - 1;
      var front := list[..n];
      DistinctCount(front);
      assert list == front + [list[n]];
      assert (set name | name in list) == (set name | name in front) + {list[n]};
      if list[n] in front {
        var k :| 0 <= k < n && front[k] == list[n];
        OlderIsStrict(list[k], list[n]);
      }
    }
  }

  /** Two ordered lists of the same names are the same list. */
  lemma {:induction false} OneOrder(a: seq<string>, b: seq<string>, names: set<string>)
    requires Lists(a, names) && Lists(b, names)
    ensures a == b
  {
    DistinctCount(a);
    DistinctCount(b);
    assert (set name | name in a) == names == set name | name in b;
    forall i | 0 <= i < |a|
      ensures a[i] == b[i]
    {
      NewerAreAfter(a, names, i);
      assert a[i] in b;
      var k :| 0 <= k < |b| && b[k] == a[i];
      NewerAreAfter(b, names, k);
    }
  }

  lemma OldestOf(names: set<string>) returns (oldest: string)
    requires names != {}
    ensures oldest in names && forall name <- names :: name == oldest || Older(oldest, name)
    decreases |names|
  {
    var some := SomeMember(names);
    oldest := some;
    if names != {some} {
      var rest := names - {some};
      assert names == rest + {some};
      assert rest != {};
      var next := OldestOf(rest);
      OlderIsTotal(some, next);
      if Older(some, next) {
        forall name | name in rest
          ensures Older(some, name)
        {
          if name != next {
            OlderIsTransitive(some, next, name);
          }
        }
      } else {
        oldest := next;
      }
    }
  }

  /** Every directory can be listed. */
  lemma ListingOf(names: set<string>) returns (list: seq<string>)
    ensures Lists(list, names)
    decreases |names|
  {
    if names == {} {
      list := [];
    } else {
      var oldest := OldestOf(names);
      var rest := ListingOf(names - {oldest});
      list := [oldest] + rest;
      forall i, j | 0 <= i < j < |list|
        ensures Older(list[i], list[j])
      {
        assert list[j] == rest[j - 1] && rest[j - 1] in rest;
        if i > 0 {
          assert list[i] == rest[i - 1];
        }
      }
    }
  }

  // ---------------------------------------------------------------- retention

  /** What retention leaves: every other file, and the snapshots with fewer than
      `max(keep, 1)` newer ones. */
  function Pruned(files: Files, keep: nat): Files {
    map name | name in files && (IsSnapshot(name) ==> |Newer(SnapshotNames(files), name)| < Max(keep, 1)) :: files[name]
  }

  function Without(files: Files, names: seq<string>): Files {
    map name | name in files && name !in names :: files[name]
  }

  lemma WithoutOneMore(files: Files, list: seq<string>, i: nat)
    requires i < |list|
    ensures Without(files, list[..i]) - {list[i]} == Without(files, list[..i + 1])
  {
    assert list[..i + 1] == list[..i] + [list[i]];
  }

  /** How many of a list of snapshots retention deletes, oldest first. */
  function Excess(list: seq<string>, keep: nat): nat {
    if |list| > Max(keep, 1) then |list| - Max(keep, 1) else 0
  }

  lemma InFront(list: seq<string>, e: nat, i: nat)
    requires InOrder(list) && i < |list| && e <= |list|
    ensures list[i] in list[..e] <==> i < e
  {
    if i < e {
      assert list[..e][i] == list[i];
    }
    if list[i] in list[..e] {
      var k :| 0 <= k < e && list[..e][k] == list[i];
      if k < i {
        OlderIsStrict(list[k], list[i]);
      } else if i < k {
        OlderIsStrict(list[i], list[k]);
      }
    }
  }

  /** Deleting the oldest beyond `max(keep, 1)` is what retention leaves. */
  lemma DroppingIsPruning(files: Files, list: seq<string>, keep: nat)
    requires Lists(list, SnapshotNames(files))
    ensures Without(files, list[..Excess(list, keep)]) == Pruned(files, keep)
    ensures forall name <- list[..Excess(list, keep)] :: name in files
  {
    var e, names := Excess(list, keep), SnapshotNames(files);
    var victims := list[..e];
    forall name | name in victims
      ensures name in names
    {
      assert name in list;
    }
    forall name | name in files
      ensures name in victims <==> IsSnapshot(name) && |Newer(names, name)| >= Max(keep, 1)
    {
      if IsSnapshot(name) {
        assert name in list;
        var i :| 0 <= i < |list| && list[i] == name;
        InFront(list, e, i);
        NewerAreAfter(list, names, i);
      }
    }
  }

  /** Deleting the oldest of too many changes neither what retention leaves nor
      what else it has to delete. */
  lemma DroppingTheOldest(files: Files, list: seq<string>, keep: nat)
    requires Lists(list, SnapshotNames(files)) && |list| > Max(keep, 1)
    ensures Lists(list[1..], SnapshotNames(files - {list[0]}))
    ensures Pruned(files - {list[0]}, keep) == Pruned(files, keep)
    ensures list[..Excess(list, keep)][1..] == list[1..][..Excess(list[1..], keep)]
  {
    var rest, files' := list[1..], files - {list[0]};
    assert list == [list[0]] + rest;
    forall name
      ensures name in rest <==> name in SnapshotNames(files')
    {
      InFront(list, 1, 0);
      if name in rest {
        var k :| 0 <= k < |rest| && rest[k] == name;
        OlderIsStrict(list[0], list[k + 1]);
      }
      assert name in list <==> name == list[0] || name in rest;
    }
    assert InOrder(rest);
    DroppingIsPruning(files, list, keep);
    DroppingIsPruning(files', rest, keep);
    assert list[..Excess(list, keep)] == [list[0]] + rest[..Excess(rest, keep)];
    assert Without(files', rest[..Excess(rest, keep)]) == Without(files, list[..Excess(list, keep)]);
  }

  /** Retention never deletes the newest snapshot, and keeps exactly
      `max(keep, 1)` of them, or all when there are fewer. */
  lemma PruningKeepsNewest(files: Files, list: seq<string>, keep: nat)
    requires Lists(list, SnapshotNames(files))
    ensures Lists(list[Excess(list, keep)..], SnapshotNames(Pruned(files, keep)))
    ensures |list[Excess(list, keep)..]| == Min(|list|, Max(keep, 1))
    ensures forall name <- files :: !IsSnapshot(name) ==> name in Pruned(files, keep) && Pruned(files, keep)[name] == files[name]
  {
    var e, names := Excess(list, keep), SnapshotNames(files);
    var kept := list[e..];
    forall name
      ensures name in kept <==> name in SnapshotNames(Pruned(files, keep))
    {
      if name in kept {
        var i :| 0 <= i < |kept| && kept[i] == name;
        assert list[e + i] == name && name in list;
        NewerAreAfter(list, names, e + i);
      }
      if name in SnapshotNames(Pruned(files, keep)) {
        assert name in names && name in list;
        var i :| 0 <= i < |list| && list[i] == name;
        NewerAreAfter(list, names, i);
        assert kept[i - e] == name;
      }
    }
  }

  /** A new name set before the first newer one leaves a list in order. */
  lemma InsertedInOrder(list: seq<string>, name: string, i: nat, names: set<string>)
    requires Lists(list, names) && name !in names && i <= |list|
    requires i > 0 ==> !Older(name, list[i - 1])
    requires forall k | i <= k < |list| :: Older(name, list[k])
    ensures Lists(list[..i] + [name] + list[i..], names + {name})
  {
    var longer := list[..i] + [name] + list[i..];
    forall k | 0 <= k < i
      ensures Older(list[k], name)
    {
      assert list[i - 1] in list;
      OlderIsTotal(name, list[i - 1]);
      if k < i - 1 {
        OlderIsTransitive(list[k], list[i - 1], name);
      }
    }
    forall x, y | 0 <= x < y < |longer|
      ensures Older(longer[x], longer[y])
    {
      assert x < i ==> longer[x] == list[x];
      assert y > i ==> longer[y] == list[y - 1];
      assert x > i ==> longer[x] == list[x - 1];
      assert y < i ==> longer[y] == list[y];
    }
    assert list == list[..i] + list[i..];
    assert forall n :: n in longer <==> n in list || n == name;
  }

  // ------------------------------------------------------------ the directory

  class SnapshotDirectory {
    var files: Files

    constructor (files: Files)
      ensures this.files == files
    {
      this.files := files;
    }

    /** The snapshot files, oldest first by the stamp in their names. */
    method Snapshots() returns (found: seq<string>)
      ensures Lists(found, SnapshotNames(files))
    {
      found := [];
      var entries, seen: set<string> := files.Keys, {};
      while entries != {}
        invariant seen + entries == files.Keys && seen !! entries
        invariant Lists(found, set name | name in seen && IsSnapshot(name))
        decreases entries
      {
        ghost var some := SomeMember(entries);
        var name :| name in entries;
        ghost var before := set n | n in seen && IsSnapshot(n);
        entries, seen := entries - {name}, seen + {name};
        if IsSnapshot(name) {
          found := InsertInOrder(found, name, before);
          assert (set n | n in seen && IsSnapshot(n)) == before + {name};
        } else {
          assert (set n | n in seen && IsSnapshot(n)) == before;
        }
      }
      assert seen == files.Keys;
    }

    /** One step of the sort. */
    method InsertInOrder(list: seq<string>, name: string, ghost names: set<string>) returns (longer: seq<string>)
      requires Lists(list, names) && name !in names
      ensures Lists(longer, names + {name})
    {
      var i := |list|;
      while i > 0 && Older(name, list[i - 1])
        invariant 0 <= i <= |list|
        invariant forall k | i <= k < |list| :: Older(name, list[k])
      {
        i := i - 1;
      }
      longer := list[..i] + [name] + list[i..];
      InsertedInOrder(list, name, i, names);
    }

    /** Deletes the oldest snapshots beyond `keep`, one file at a time, and never
        the last one. */
    method PruneIn(keep: nat) returns (pruned: seq<string>)
      modifies this
      ensures files == Pruned(old(files), keep)
      ensures forall name :: name in pruned <==> name in old(files) && name !in files
    {
      var all := Snapshots();
      var excess := Excess(all, keep);
      pruned := [];
      var i := 0;
      while i < excess
        invariant 0 <= i <= excess && pruned == all[..i]
        invariant files == Without(old(files), all[..i])
      {
        WithoutOneMore(old(files), all, i);
        files := files - {all[i]};
        pruned := pruned + [all[i]];
        i := i + 1;
      }
      DroppingIsPruning(old(files), all, keep);
    }
  }
}
