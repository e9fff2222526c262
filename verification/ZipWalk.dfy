/** What an answer of the central-directory walk says of the bytes, whatever they
    are: the walk answers with these entries if and only if the bytes hold an end
    record, the directory it points at, and these headers one after another. */
module ZipWalk {
  import opened Basics
  import opened ZipContainer

  /** Two and four bytes, the least significant first. */
  predicate Says2(bytes: Bytes, at: nat, x: nat) {
    at + 2 <= |bytes| && x == bytes[at] as nat + 0x100 * bytes[at + 1] as nat
  }

  predicate Says4(bytes: Bytes, at: nat, x: nat) {
    && at + 4 <= |bytes|
    && x == bytes[at] as nat + 0x100 * bytes[at + 1] as nat + 0x1_0000 * bytes[at + 2] as nat + 0x100_0000 * bytes[at + 3] as nat
  }

  predicate Says8(bytes: Bytes, at: nat, x: nat) {
    Says4(bytes, at, x % 0x1_0000_0000) && Says4(bytes, at + 4, x / 0x1_0000_0000)
  }

  /** A letter pair and two numbers mark each structure. */
  predicate Marks(bytes: Bytes, at: nat, a: byte, b: byte) {
    at + 4 <= |bytes| && bytes[at..at + 4] == [0x50, 0x4b, a, b]
  }

  /** A central header stands here and says this of its entry; the next would stand
      right after its name, extra field and comment. */
  predicate HeaderStands(bytes: Bytes, at: nat, e: CentralEntry, next: nat) {
    && Marks(bytes, at, 1, 2)
    && Says2(bytes, at + 4, e.versionMadeBy) && Says2(bytes, at + 8, e.flags) && Says2(bytes, at + 10, e.method_)
    && Says2(bytes, at + 12, e.dosTime) && Says2(bytes, at + 14, e.dosDate)
    && Says2(bytes, at + 28, |e.name|) && Says2(bytes, at + 30, e.extraLen) && Says2(bytes, at + 32, e.commentLen)
    && Says4(bytes, at + 38, e.externalAttributes) && Says4(bytes, at + 42, e.localHeaderOffset)
    && at + 46 + |e.name| <= |bytes| && bytes[at + 46..at + 46 + |e.name|] == e.name
    && next == at + 46 + |e.name| + e.extraLen + e.commentLen
  }

  ghost predicate StandInTurn(bytes: Bytes, at: nat, entries: seq<CentralEntry>)
    decreases |entries|
  {
    entries != [] ==>
      var next := at + 46 + |entries[0].name| + entries[0].extraLen + entries[0].commentLen;
      HeaderStands(bytes, at, entries[0], next) && StandInTurn(bytes, next, entries[1..])
  }

  /** An end record stands here, no later one where a comment of at most 65535 bytes
      lets one stand. */
  ghost predicate EndStands(bytes: Bytes, end: nat) {
    var last: nat := if |bytes| >= 22 then |bytes| - 22 else 0;
    && end <= last && last - end <= 65535 && Marks(bytes, end, 5, 6)
    && forall p | end < p <= last :: !Marks(bytes, p, 5, 6)
  }

  /** The directory's count and offset: the end record's, or, when either is all
      ones, those of the ZIP64 record its locator names. */
  ghost predicate DirectoryStands(bytes: Bytes, end: nat, count: nat, start: nat) {
    exists c: nat :: Says2(bytes, end + 10, c) && CountedStands(bytes, end, c, count, start)
  }

  ghost predicate CountedStands(bytes: Bytes, end: nat, c: nat, count: nat, start: nat) {
    exists s: nat :: PlacedStands(bytes, end, c, s, count, start)
  }

  ghost predicate PlacedStands(bytes: Bytes, end: nat, c: nat, s: nat, count: nat, start: nat) {
    Says4(bytes, end + 16, s)
    && if c != 0xFFFF && s != 0xFFFF_FFFF then count == c && start == s
       else LargeDirectoryStands(bytes, end, count, start)
  }

  ghost predicate LargeDirectoryStands(bytes: Bytes, end: nat, count: nat, start: nat) {
    end >= 20 && Marks(bytes, end - 20, 6, 7)
    && exists record: nat :: Says8(bytes, end - 12, record) && Marks(bytes, record, 6, 6)
         && Says8(bytes, record + 32, count) && Says8(bytes, record + 48, start)
  }

  // ------------------------------------------------------------ field by field

  lemma Field2(bytes: Bytes, at: nat, x: nat)
    ensures Field(bytes, at, 2) == Some(x) <==> Says2(bytes, at, x)
  {
    if at + 2 <= |bytes| {
      var s := bytes[at..at + 2];
      assert s[1..][1..] == [];
      assert FromLE(s[1..]) == s[1] as nat;
    }
  }

  lemma Field4(bytes: Bytes, at: nat, x: nat)
    ensures Field(bytes, at, 4) == Some(x) <==> Says4(bytes, at, x)
  {
    if at + 4 <= |bytes| {
      Four(bytes[at..at + 4]);
    }
  }

  lemma Four(s: Bytes)
    requires |s| == 4
    ensures FromLE(s) == s[0] as nat + 0x100 * s[1] as nat + 0x1_0000 * s[2] as nat + 0x100_0000 * s[3] as nat
  {
    assert s[1..][1..] == s[2..] && s[2..][1..] == s[3..] && s[3..][1..] == [];
    assert FromLE(s[3..]) == s[3] as nat;
    assert FromLE(s[2..]) == s[2] as nat + 256 * FromLE(s[3..]);
    assert FromLE(s[1..]) == s[1] as nat + 256 * FromLE(s[2..]);
  }

  lemma Field8(bytes: Bytes, at: nat, x: nat)
    ensures Field(bytes, at, 8) == Some(x) <==> Says8(bytes, at, x)
  {
    if at + 8 <= |bytes| {
      var low, high := bytes[at..at + 4], bytes[at + 4..at + 8];
      assert bytes[at..at + 8] == low + high;
      Four(low);
      Four(high);
      LowThenHigh(low, high);
    }
  }

  lemma LowThenHigh(low: Bytes, high: Bytes)
    requires |low| == 4 && |high| == 4
    ensures FromLE(low + high) == FromLE(low) + 0x1_0000_0000 * FromLE(high)
    ensures FromLE(low) < 0x1_0000_0000
  {
    Four(low);
    var s := low + high;
    assert s[1..][1..] == s[2..] && s[2..][1..] == s[3..] && s[3..][1..] == s[4..] && s[4..] == high;
    assert FromLE(s[3..]) == s[3] as nat + 256 * FromLE(high);
    assert FromLE(s[2..]) == s[2] as nat + 256 * FromLE(s[3..]);
    assert FromLE(s[1..]) == s[1] as nat + 256 * FromLE(s[2..]);
  }

  // -------------------------------------------------------------- the walk

  lemma HeaderIsExact(bytes: Bytes, at: nat, e: CentralEntry, next: nat)
    ensures ReadHeader(bytes, at) == Done((e, next)) <==> HeaderStands(bytes, at, e, next)
  {
    Field2(bytes, at + 4, e.versionMadeBy);
    Field2(bytes, at + 8, e.flags);
    Field2(bytes, at + 10, e.method_);
    Field2(bytes, at + 12, e.dosTime);
    Field2(bytes, at + 14, e.dosDate);
    Field2(bytes, at + 28, |e.name|);
    Field2(bytes, at + 30, e.extraLen);
    Field2(bytes, at + 32, e.commentLen);
    Field4(bytes, at + 38, e.externalAttributes);
    Field4(bytes, at + 42, e.localHeaderOffset);
  }

  function NextOf(at: nat, e: CentralEntry): nat {
    at + 46 + |e.name| + e.extraLen + e.commentLen
  }

  lemma {:induction false} HeadersStand(bytes: Bytes, at: nat, entries: seq<CentralEntry>)
    requires ReadHeaders(bytes, at, |entries|) == Done(entries)
    ensures StandInTurn(bytes, at, entries)
    decreases |entries|
  {
    if entries != [] {
      FirstOfThem(bytes, at, entries, entries[0], NextOf(at, entries[0]));
      HeadersStand(bytes, NextOf(at, entries[0]), entries[1..]);
    }
  }

  lemma FirstOfThem(bytes: Bytes, at: nat, entries: seq<CentralEntry>, first: CentralEntry, next: nat)
    requires entries != [] && ReadHeaders(bytes, at, |entries|) == Done(entries)
    requires first == entries[0] && next == NextOf(at, first)
    ensures HeaderStands(bytes, at, first, next) && ReadHeaders(bytes, next, |entries| - 1) == Done(entries[1..])
  {
    var read := ReadHeader(bytes, at).value;
    var rest := ReadHeaders(bytes, read.1, |entries| - 1).value;
    assert entries == [read.0] + rest;
    assert entries[1..] == rest;
    HeaderIsExact(bytes, at, read.0, read.1);
  }

  lemma {:induction false} StandingIsRead(bytes: Bytes, at: nat, entries: seq<CentralEntry>) returns (nexts: seq<nat>)
    requires StandInTurn(bytes, at, entries)
    ensures ReadInTurn(bytes, at, entries, nexts)
    decreases |entries|
  {
    nexts := [];
    if entries != [] {
      var next := NextOf(at, entries[0]);
      HeaderIsExact(bytes, at, entries[0], next);
      var rest := StandingIsRead(bytes, next, entries[1..]);
      nexts := [next] + rest;
      assert nexts[1..] == rest;
    }
  }

  lemma HeadersAreExact(bytes: Bytes, at: nat, entries: seq<CentralEntry>)
    ensures ReadHeaders(bytes, at, |entries|) == Done(entries) <==> StandInTurn(bytes, at, entries)
  {
    if ReadHeaders(bytes, at, |entries|) == Done(entries) {
      HeadersStand(bytes, at, entries);
    }
    if StandInTurn(bytes, at, entries) {
      var nexts := StandingIsRead(bytes, at, entries);
      ReadTogether(bytes, at, entries, nexts);
    }
  }

  lemma {:induction false} SearchIsExact(bytes: Bytes, at: nat, tries: nat, end: nat)
    ensures FindEnd(bytes, at, tries) == Some(end) <==>
      end <= at < end + tries && SignatureAt(bytes, end, EOCD) && forall p | end < p <= at :: !SignatureAt(bytes, p, EOCD)
    decreases tries
  {
    if tries > 0 && !SignatureAt(bytes, at, EOCD) && at > 0 {
      SearchIsExact(bytes, at - 1, tries - 1, end);
    }
  }

  lemma EndIsExact(bytes: Bytes, end: nat)
    ensures EndOf(bytes) == Some(end) <==> EndStands(bytes, end)
  {
    SearchIsExact(bytes, LastStart(bytes), MAX16 + 1, end);
    forall p: nat
      ensures SignatureAt(bytes, p, EOCD) <==> Marks(bytes, p, 5, 6)
    {
    }
  }

  lemma LocatorIsRead(bytes: Bytes, end: nat, count: nat, start: nat) returns (record: nat)
    requires LargeDirectoryStands(bytes, end, count, start)
    ensures Field(bytes, end - 12, 8) == Some(record) && SignatureAt(bytes, record, ZIP64_EOCD)
    ensures Field(bytes, record + 32, 8) == Some(count) && Field(bytes, record + 48, 8) == Some(start)
    ensures end >= 20 && SignatureAt(bytes, end - 20, ZIP64_LOCATOR)
  {
    record :| Says8(bytes, end - 12, record) && Marks(bytes, record, 6, 6)
      && Says8(bytes, record + 32, count) && Says8(bytes, record + 48, start);
    Field8(bytes, end - 12, record);
    Field8(bytes, record + 32, count);
    Field8(bytes, record + 48, start);
  }

  lemma LargeStands(bytes: Bytes, end: nat, record: nat, count: nat, start: nat)
    requires end >= 20 && SignatureAt(bytes, end - 20, ZIP64_LOCATOR)
    requires Field(bytes, end - 12, 8) == Some(record) && SignatureAt(bytes, record, ZIP64_EOCD)
    requires Field(bytes, record + 32, 8) == Some(count) && Field(bytes, record + 48, 8) == Some(start)
    ensures LargeDirectoryStands(bytes, end, count, start)
  {
    Field8(bytes, end - 12, record);
    Field8(bytes, record + 32, count);
    Field8(bytes, record + 48, start);
    assert Marks(bytes, end - 20, 6, 7) && Marks(bytes, record, 6, 6);
    assert Says8(bytes, end - 12, record);
  }

  lemma LargeIsExact(bytes: Bytes, end: nat, count: nat, start: nat)
    requires Field(bytes, end + 10, 2).Some? && Field(bytes, end + 16, 4).Some?
    requires Field(bytes, end + 10, 2) == Some(MAX16) || Field(bytes, end + 16, 4) == Some(MAX32)
    ensures Extent(bytes, end) == Done((count, start)) <==> LargeDirectoryStands(bytes, end, count, start)
  {
    if LargeDirectoryStands(bytes, end, count, start) {
      var record := LocatorIsRead(bytes, end, count, start);
    }
    if Extent(bytes, end) == Done((count, start)) {
      LargeStands(bytes, end, Field(bytes, end - 12, 8).value, count, start);
    }
  }

  lemma ExtentStands(bytes: Bytes, end: nat, count: nat, start: nat)
    requires Extent(bytes, end) == Done((count, start))
    ensures DirectoryStands(bytes, end, count, start)
  {
    var c, s := Field(bytes, end + 10, 2).value, Field(bytes, end + 16, 4).value;
    Field2(bytes, end + 10, c);
    Field4(bytes, end + 16, s);
    if c == MAX16 || s == MAX32 {
      LargeIsExact(bytes, end, count, start);
    }
    assert PlacedStands(bytes, end, c, s, count, start);
    assert CountedStands(bytes, end, c, count, start);
  }

  lemma ExtentIsExact(bytes: Bytes, end: nat, count: nat, start: nat)
    ensures Extent(bytes, end) == Done((count, start)) <==> DirectoryStands(bytes, end, count, start)
  {
    if Extent(bytes, end) == Done((count, start)) {
      ExtentStands(bytes, end, count, start);
    }
    if DirectoryStands(bytes, end, count, start) {
      var c: nat :| Says2(bytes, end + 10, c) && CountedStands(bytes, end, c, count, start);
      var s: nat :| PlacedStands(bytes, end, c, s, count, start);
      Field2(bytes, end + 10, c);
      Field4(bytes, end + 16, s);
      if c == MAX16 || s == MAX32 {
        LargeIsExact(bytes, end, count, start);
      }
    }
  }

  /** What the walk read, in the bytes' own terms. */
  ghost predicate ArchiveHolds(bytes: Bytes, end: nat, start: nat, entries: seq<CentralEntry>) {
    EndStands(bytes, end) && DirectoryStands(bytes, end, |entries|, start) && StandInTurn(bytes, start, entries)
  }

  /** Of any bytes whatever: the walk answers with these entries if and only if the
      last end record the search can reach, the directory it names and exactly these
      headers, one after another, stand in them. So nothing is made up, skipped or
      read from elsewhere, and every other input is refused. */
  lemma WalkIsExact(bytes: Bytes, entries: seq<CentralEntry>)
    ensures Walk(bytes) == Done(entries) <==> exists end: nat, start: nat :: ArchiveHolds(bytes, end, start, entries)
  {
    if Walk(bytes) == Done(entries) {
      var end := EndOf(bytes).value;
      var extent := Extent(bytes, end).value;
      HeadersConsume(bytes, extent.1, extent.0);
      EndIsExact(bytes, end);
      ExtentIsExact(bytes, end, extent.0, extent.1);
      HeadersAreExact(bytes, extent.1, entries);
      assert ArchiveHolds(bytes, end, extent.1, entries);
    }
    if end: nat, start: nat :| ArchiveHolds(bytes, end, start, entries) {
      EndIsExact(bytes, end);
      ExtentIsExact(bytes, end, |entries|, start);
      HeadersAreExact(bytes, start, entries);
    }
  }
}
