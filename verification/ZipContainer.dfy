/** The central directory of a ZIP container (APPNOTE 6.3, sections 4.3.12 and
    4.3.14 to 4.3.16): how it is laid out, and the walk that reads it back with
    duplicated names kept. Positions are unbounded; field widths are the
    format's. */
module ZipContainer {
  import opened Basics

  // ----------------------------------------------------- little-endian fields

  const EOCD: Bytes := [0x50, 0x4b, 0x05, 0x06]
  const ZIP64_LOCATOR: Bytes := [0x50, 0x4b, 0x06, 0x07]
  const ZIP64_EOCD: Bytes := [0x50, 0x4b, 0x06, 0x06]
  const CENTRAL_HEADER: Bytes := [0x50, 0x4b, 0x01, 0x02]

  const MAX16: int := 0xFFFF
  const MAX32: int := 0xFFFF_FFFF
  const MAX64: int := 0xFFFF_FFFF_FFFF_FFFF

  function LE(x: nat, width: nat): (s: Bytes)
    ensures |s| == width
    decreases width + x
  {
    if width == 0 then [] else [(x % 256) as byte] + LE(x / 256, width - 1)
  }

  function FromLE(s: Bytes): nat {
    if s == [] then 0 else s[0] as int + 256 * FromLE(s[1..])
  }

  function Pow256(width: nat): nat {
    if width == 0 then 1 else 256 * Pow256(width - 1)
  }

  /** The field of `width` bytes at `at`, unless the bytes end before it does. */
  function Field(bytes: Bytes, at: nat, width: nat): Option<nat> {
    if at + width <= |bytes| then Some(FromLE(bytes[at..at + width])) else None
  }

  predicate SignatureAt(bytes: Bytes, at: nat, signature: Bytes) {
    at + |signature| <= |bytes| && bytes[at..at + |signature|] == signature
  }

  lemma {:induction false} FieldRoundTrip(x: nat, width: nat)
    requires x < Pow256(width)
    ensures FromLE(LE(x, width)) == x
  {
    if width > 0 {
      FieldRoundTrip(x / 256, width - 1);
      assert LE(x, width)[1..] == LE(x / 256, width - 1);
    }
  }

  lemma Widths()
    ensures Pow256(2) == MAX16 + 1 && Pow256(4) == MAX32 + 1 && Pow256(8) == MAX64 + 1
  {
    assert Pow256(2) == 0x1_0000;
    assert Pow256(4) == 0x1_0000_0000;
    assert Pow256(6) == 0x1_0000_0000_0000;
  }

  /** `piece` stands in `bytes` at `at`. */
  predicate Has(bytes: Bytes, at: nat, piece: Bytes) {
    at + |piece| <= |bytes| && bytes[at..at + |piece|] == piece
  }

  lemma HasBoth(bytes: Bytes, at: nat, a: Bytes, b: Bytes)
    requires Has(bytes, at, a + b)
    ensures Has(bytes, at, a) && Has(bytes, at + |a|, b)
  {
    var whole := bytes[at..at + |a + b|];
    assert whole[..|a|] == a && whole[|a|..] == b;
    assert bytes[at..at + |a|] == whole[..|a|];
    assert bytes[at + |a|..at + |a| + |b|] == whole[|a|..];
  }

  lemma HasField(bytes: Bytes, at: nat, x: nat, width: nat)
    requires Has(bytes, at, LE(x, width)) && x < Pow256(width)
    ensures Field(bytes, at, width) == Some(x)
  {
    FieldRoundTrip(x, width);
  }

  // ------------------------------------------------------------------ records

  /** One central header: what the walk reports of it, and the rest. */
  datatype Header = Header(
    name: Bytes, extra: Bytes, comment: Bytes,
    versionMadeBy: nat, versionNeeded: nat, flags: nat, method_: nat, dosTime: nat, dosDate: nat,
    crc: nat, compressed: nat, size: nat, disk: nat, internal: nat,
    externalAttributes: nat, localHeaderOffset: nat)

  datatype CentralEntry = CentralEntry(
    name: Bytes, versionMadeBy: nat, flags: nat, method_: nat, dosTime: nat, dosDate: nat,
    externalAttributes: nat, extraLen: nat, commentLen: nat, localHeaderOffset: nat)

  function EntryOf(h: Header): CentralEntry {
    CentralEntry(h.name, h.versionMadeBy, h.flags, h.method_, h.dosTime, h.dosDate,
                 h.externalAttributes, |h.extra|, |h.comment|, h.localHeaderOffset)
  }

  predicate Fits(h: Header) {
    && |h.name| <= MAX16 && |h.extra| <= MAX16 && |h.comment| <= MAX16
    && h.versionMadeBy <= MAX16 && h.versionNeeded <= MAX16 && h.flags <= MAX16 && h.method_ <= MAX16
    && h.dosTime <= MAX16 && h.dosDate <= MAX16 && h.disk <= MAX16 && h.internal <= MAX16
    && h.crc <= MAX32 && h.compressed <= MAX32 && h.size <= MAX32
    && h.externalAttributes <= MAX32 && h.localHeaderOffset <= MAX32
  }

  // A header's 46 fixed bytes, in the order of section 4.3.12.

  function Stamp(h: Header): (s: Bytes)
    ensures |s| == 16
  {
    CENTRAL_HEADER + LE(h.versionMadeBy, 2) + LE(h.versionNeeded, 2) + LE(h.flags, 2)
    + LE(h.method_, 2) + LE(h.dosTime, 2) + LE(h.dosDate, 2)
  }

  function Sizes(h: Header): (s: Bytes)
    ensures |s| == 18
  {
    LE(h.crc, 4) + LE(h.compressed, 4) + LE(h.size, 4) + LE(|h.name|, 2) + LE(|h.extra|, 2) + LE(|h.comment|, 2)
  }

  function Placement(h: Header): (s: Bytes)
    ensures |s| == 12
  {
    LE(h.disk, 2) + LE(h.internal, 2) + LE(h.externalAttributes, 4) + LE(h.localHeaderOffset, 4)
  }

  function EncodeHeader(h: Header): (s: Bytes)
    ensures |s| == 46 + |h.name| + |h.extra| + |h.comment|
  {
    Stamp(h) + Sizes(h) + Placement(h) + h.name + h.extra + h.comment
  }

  function Directory(headers: seq<Header>): Bytes {
    if headers == [] then [] else EncodeHeader(headers[0]) + Directory(headers[1..])
  }

  function Entries(headers: seq<Header>): seq<CentralEntry> {
    if headers == [] then [] else [EntryOf(headers[0])] + Entries(headers[1..])
  }

  function EndRecord(count: nat, size: nat, start: nat, comment: Bytes): (s: Bytes)
    ensures |s| == 22 + |comment|
  {
    EOCD + LE(0, 2) + LE(0, 2) + LE(count, 2) + LE(count, 2) + LE(size, 4) + LE(start, 4) + LE(|comment|, 2) + comment
  }

  function Zip64Record(count: nat, size: nat, start: nat): (s: Bytes)
    ensures |s| == 56
  {
    ZIP64_EOCD + LE(44, 8) + LE(45, 2) + LE(45, 2) + LE(0, 4) + LE(0, 4)
    + LE(count, 8) + LE(count, 8) + LE(size, 8) + LE(start, 8)
  }

  function Zip64Locator(record: nat): (s: Bytes)
    ensures |s| == 20
  {
    ZIP64_LOCATOR + LE(0, 4) + LE(record, 8) + LE(1, 4)
  }

  /** Where the classic fields cannot hold the count or the offset. */
  predicate Overflows(count: nat, start: nat) {
    count >= MAX16 || start >= MAX32
  }

  /** Whatever precedes the directory, the directory, the ZIP64 record and
      locator when `zip64`, and the end record; a field that overflows is all
      ones. */
  function Encode(prefix: Bytes, headers: seq<Header>, zip64: bool, comment: Bytes): Bytes {
    BeforeEnd(prefix, headers, zip64)
    + EndRecord(Min(|headers|, MAX16), Min(|Directory(headers)|, MAX32), Min(|prefix|, MAX32), comment)
  }

  function BeforeEnd(prefix: Bytes, headers: seq<Header>, zip64: bool): Bytes {
    var directory := Directory(headers);
    prefix + directory
    + (if zip64 then Zip64Record(|headers|, |directory|, |prefix|) + Zip64Locator(|prefix| + |directory|) else [])
  }

  // --------------------------------------------------------------------- walk

  datatype WalkError =
    | NoEndRecord | Truncated(at: nat) | NoLocator | NoZip64Record | NoHeader(at: nat) | TruncatedHeader

  /** The last end-record signature among the positions an end record with a
      comment of at most 65535 bytes can start at. */
  function FindEnd(bytes: Bytes, at: nat, tries: nat): Option<nat>
    decreases tries
  {
    if tries == 0 then None
    else if SignatureAt(bytes, at, EOCD) then Some(at)
    else if at == 0 then None
    else FindEnd(bytes, at - 1, tries - 1)
  }

  function LastStart(bytes: Bytes): nat {
    if |bytes| >= 22 then |bytes| - 22 else 0
  }

  function EndOf(bytes: Bytes): Option<nat> {
    FindEnd(bytes, LastStart(bytes), MAX16 + 1)
  }

  /** The directory's entry count and offset. */
  function Extent(bytes: Bytes, end: nat): Outcome<(nat, nat), WalkError> {
    var count, start := Field(bytes, end + 10, 2), Field(bytes, end + 16, 4);
    if count.None? then Refused(Truncated(end + 10))
    else if start.None? then Refused(Truncated(end + 16))
    else if count.value != MAX16 && start.value != MAX32 then Done((count.value, start.value))
    else if end < 20 || !SignatureAt(bytes, end - 20, ZIP64_LOCATOR) then Refused(NoLocator)
    else
      var record := Field(bytes, end - 12, 8);
      if record.None? then Refused(Truncated(end - 12))
      else if !SignatureAt(bytes, record.value, ZIP64_EOCD) then Refused(NoZip64Record)
      else
        var count64, start64 := Field(bytes, record.value + 32, 8), Field(bytes, record.value + 48, 8);
        if count64.None? then Refused(Truncated(record.value + 32))
        else if start64.None? then Refused(Truncated(record.value + 48))
        else Done((count64.value, start64.value))
  }

  /** One header: what it says and where the next begins. */
  function ReadHeader(bytes: Bytes, at: nat): (r: Outcome<(CentralEntry, nat), WalkError>)
    ensures r.Done? ==> r.value.1 >= at + 46 && at + 46 + |r.value.0.name| <= |bytes|
  {
    var nameLen, extraLen, commentLen := Field(bytes, at + 28, 2), Field(bytes, at + 30, 2), Field(bytes, at + 32, 2);
    if !SignatureAt(bytes, at, CENTRAL_HEADER) then Refused(NoHeader(at))
    else if nameLen.None? then Refused(Truncated(at + 28))
    else if extraLen.None? then Refused(Truncated(at + 30))
    else if commentLen.None? then Refused(Truncated(at + 32))
    else if at + 46 + nameLen.value > |bytes| then Refused(TruncatedHeader)
    else
      Done((CentralEntry(
              bytes[at + 46..at + 46 + nameLen.value],
              Field(bytes, at + 4, 2).value, Field(bytes, at + 8, 2).value, Field(bytes, at + 10, 2).value,
              Field(bytes, at + 12, 2).value, Field(bytes, at + 14, 2).value, Field(bytes, at + 38, 4).value,
              extraLen.value, commentLen.value, Field(bytes, at + 42, 4).value),
            at + 46 + nameLen.value + extraLen.value + commentLen.value))
  }

  function ReadHeaders(bytes: Bytes, at: nat, count: nat): Outcome<seq<CentralEntry>, WalkError>
    decreases count
  {
    if count == 0 then Done([])
    else match ReadHeader(bytes, at)
      case Refused(e) => Refused(e)
      case Done(read) =>
        match ReadHeaders(bytes, read.1, count - 1)
        case Refused(e) => Refused(e)
        case Done(rest) => Done([read.0] + rest)
  }

  function Walk(bytes: Bytes): Outcome<seq<CentralEntry>, WalkError> {
    match EndOf(bytes)
    case None => Refused(NoEndRecord)
    case Some(end) =>
      match Extent(bytes, end)
      case Refused(e) => Refused(e)
      case Done(extent) => ReadHeaders(bytes, extent.1, extent.0)
  }

  method FindEndRecord(bytes: Bytes) returns (found: Option<nat>)
    ensures found == EndOf(bytes)
  {
    var at, tries := LastStart(bytes), MAX16 + 1;
    while tries > 0
      invariant 0 <= tries && EndOf(bytes) == FindEnd(bytes, at, tries)
    {
      if SignatureAt(bytes, at, EOCD) {
        return Some(at);
      }
      if at == 0 {
        return None;
      }
      at, tries := at - 1, tries - 1;
    }
    return None;
  }

  /** Every central directory header, duplicates included, in directory order. */
  method CentralDirectoryEntries(bytes: Bytes) returns (r: Outcome<seq<CentralEntry>, WalkError>)
    ensures r == Walk(bytes)
  {
    var end := FindEndRecord(bytes);
    if end.None? {
      return Refused(NoEndRecord);
    }
    var extent := Extent(bytes, end.value);
    if extent.Refused? {
      return Refused(extent.refusal);
    }
    var at, entries: seq<CentralEntry> := extent.value.1, [];
    var left := extent.value.0;
    assert forall all: seq<CentralEntry> :: entries + all == all;
    while left > 0
      invariant var rest := ReadHeaders(bytes, at, left);
        Walk(bytes) == if rest.Done? then Done(entries + rest.value) else Refused(rest.refusal)
      decreases left
    {
      var read := ReadHeader(bytes, at);
      if read.Refused? {
        return Refused(read.refusal);
      }
      ghost var rest := ReadHeaders(bytes, read.value.1, left - 1);
      assert rest.Done? ==> entries + ([read.value.0] + rest.value) == (entries + [read.value.0]) + rest.value;
      entries := entries + [read.value.0];
      at, left := read.value.1, left - 1;
    }
    assert entries + [] == entries;
    return Done(entries);
  }

  // --------------------------------------------------------------- any input

  /** On any input whatever, each accepted header consumes at least 46 bytes, so
      a container never yields more entries than its length allows. */
  lemma {:induction false} HeadersConsume(bytes: Bytes, at: nat, count: nat)
    requires ReadHeaders(bytes, at, count).Done?
    ensures |ReadHeaders(bytes, at, count).value| == count
    ensures count > 0 ==> at + 46 * count <= |bytes|
    decreases count
  {
    if count > 0 {
      HeadersConsume(bytes, ReadHeader(bytes, at).value.1, count - 1);
    }
  }

  lemma EntriesAreBounded(bytes: Bytes)
    requires Walk(bytes).Done?
    ensures 46 * |Walk(bytes).value| <= |bytes|
  {
    var extent := Extent(bytes, EndOf(bytes).value).value;
    HeadersConsume(bytes, extent.1, extent.0);
  }

  // -------------------------------------------------------------- round trip

  lemma StampReads(bytes: Bytes, at: nat, h: Header)
    requires Fits(h) && Has(bytes, at, Stamp(h))
    ensures SignatureAt(bytes, at, CENTRAL_HEADER)
    ensures Field(bytes, at + 4, 2) == Some(h.versionMadeBy) && Field(bytes, at + 8, 2) == Some(h.flags)
    ensures Field(bytes, at + 10, 2) == Some(h.method_)
    ensures Field(bytes, at + 12, 2) == Some(h.dosTime) && Field(bytes, at + 14, 2) == Some(h.dosDate)
  {
    Widths();
    var a := CENTRAL_HEADER + LE(h.versionMadeBy, 2);
    var b := a + LE(h.versionNeeded, 2);
    var c := b + LE(h.flags, 2);
    var d := c + LE(h.method_, 2);
    var e := d + LE(h.dosTime, 2);
    HasBoth(bytes, at, e, LE(h.dosDate, 2));
    HasField(bytes, at + 14, h.dosDate, 2);
    HasBoth(bytes, at, d, LE(h.dosTime, 2));
    HasField(bytes, at + 12, h.dosTime, 2);
    HasBoth(bytes, at, c, LE(h.method_, 2));
    HasField(bytes, at + 10, h.method_, 2);
    HasBoth(bytes, at, b, LE(h.flags, 2));
    HasField(bytes, at + 8, h.flags, 2);
    HasBoth(bytes, at, a, LE(h.versionNeeded, 2));
    HasBoth(bytes, at, CENTRAL_HEADER, LE(h.versionMadeBy, 2));
    HasField(bytes, at + 4, h.versionMadeBy, 2);
  }

  lemma SizesRead(bytes: Bytes, at: nat, h: Header)
    requires Fits(h) && Has(bytes, at, Sizes(h))
    ensures Field(bytes, at + 12, 2) == Some(|h.name|)
    ensures Field(bytes, at + 14, 2) == Some(|h.extra|) && Field(bytes, at + 16, 2) == Some(|h.comment|)
  {
    Widths();
    var a := LE(h.crc, 4) + LE(h.compressed, 4) + LE(h.size, 4);
    var b := a + LE(|h.name|, 2);
    var c := b + LE(|h.extra|, 2);
    HasBoth(bytes, at, c, LE(|h.comment|, 2));
    HasField(bytes, at + 16, |h.comment|, 2);
    HasBoth(bytes, at, b, LE(|h.extra|, 2));
    HasField(bytes, at + 14, |h.extra|, 2);
    HasBoth(bytes, at, a, LE(|h.name|, 2));
    HasField(bytes, at + 12, |h.name|, 2);
  }

  lemma PlacementReads(bytes: Bytes, at: nat, h: Header)
    requires Fits(h) && Has(bytes, at, Placement(h))
    ensures Field(bytes, at + 4, 4) == Some(h.externalAttributes)
    ensures Field(bytes, at + 8, 4) == Some(h.localHeaderOffset)
  {
    Widths();
    var a := LE(h.disk, 2) + LE(h.internal, 2);
    HasBoth(bytes, at, a + LE(h.externalAttributes, 4), LE(h.localHeaderOffset, 4));
    HasField(bytes, at + 8, h.localHeaderOffset, 4);
    HasBoth(bytes, at, a, LE(h.externalAttributes, 4));
    HasField(bytes, at + 4, h.externalAttributes, 4);
  }

  lemma HeaderReads(bytes: Bytes, at: nat, h: Header)
    requires Fits(h) && Has(bytes, at, EncodeHeader(h))
    ensures ReadHeader(bytes, at) == Done((EntryOf(h), at + |EncodeHeader(h)|))
  {
    var fixed := Stamp(h) + Sizes(h) + Placement(h);
    HasBoth(bytes, at, fixed + h.name + h.extra, h.comment);
    HasBoth(bytes, at, fixed + h.name, h.extra);
    HasBoth(bytes, at, fixed, h.name);
    HasBoth(bytes, at, Stamp(h) + Sizes(h), Placement(h));
    HasBoth(bytes, at, Stamp(h), Sizes(h));
    StampReads(bytes, at, h);
    SizesRead(bytes, at + 16, h);
    PlacementReads(bytes, at + 34, h);
  }

  ghost predicate AllFit(headers: seq<Header>) {
    forall h <- headers :: Fits(h)
  }

  lemma ReadsOneMore(bytes: Bytes, at: nat, count: nat, entry: CentralEntry, next: nat)
    requires count > 0 && ReadHeader(bytes, at) == Done((entry, next)) && ReadHeaders(bytes, next, count - 1).Done?
    ensures ReadHeaders(bytes, at, count) == Done([entry] + ReadHeaders(bytes, next, count - 1).value)
  {
  }

  lemma HeadReads(bytes: Bytes, at: nat, h: Header, rest: Bytes) returns (next: nat)
    requires Fits(h) && Has(bytes, at, EncodeHeader(h) + rest)
    ensures ReadsAs(bytes, at, EntryOf(h), next) && Has(bytes, next, rest)
  {
    next := at + |EncodeHeader(h)|;
    HasBoth(bytes, at, EncodeHeader(h), rest);
    HeaderReads(bytes, at, h);
  }

  /** Where each of a run of headers stands, and that it reads as its entry. */
  ghost predicate ReadInTurn(bytes: Bytes, at: nat, entries: seq<CentralEntry>, nexts: seq<nat>)
    decreases |entries|
  {
    |nexts| == |entries|
    && (entries != [] ==> ReadsAs(bytes, at, entries[0], nexts[0]) && ReadInTurn(bytes, nexts[0], entries[1..], nexts[1..]))
  }

  ghost predicate ReadsAs(bytes: Bytes, at: nat, entry: CentralEntry, next: nat) {
    ReadHeader(bytes, at) == Done((entry, next))
  }

  lemma {:induction false} Placed(bytes: Bytes, at: nat, headers: seq<Header>) returns (nexts: seq<nat>)
    requires AllFit(headers) && Has(bytes, at, Directory(headers))
    ensures ReadInTurn(bytes, at, Entries(headers), nexts)
    decreases |headers|
  {
    nexts := [];
    if headers != [] {
      var next := HeadReads(bytes, at, headers[0], Directory(headers[1..]));
      var rest := Placed(bytes, next, headers[1..]);
      nexts := [next] + rest;
      assert nexts[1..] == rest;
    }
  }

  lemma {:induction false} ReadTogether(bytes: Bytes, at: nat, entries: seq<CentralEntry>, nexts: seq<nat>)
    requires ReadInTurn(bytes, at, entries, nexts)
    ensures ReadHeaders(bytes, at, |entries|) == Done(entries)
    decreases |entries|
  {
    if entries != [] {
      ReadTogether(bytes, nexts[0], entries[1..], nexts[1..]);
      ReadsOneMore(bytes, at, |entries|, entries[0], nexts[0]);
      assert [entries[0]] + entries[1..] == entries;
    }
  }

  lemma DirectoryReads(bytes: Bytes, at: nat, headers: seq<Header>)
    requires AllFit(headers) && Has(bytes, at, Directory(headers))
    ensures ReadHeaders(bytes, at, |headers|) == Done(Entries(headers))
  {
    EntryOrder(headers);
    var nexts := Placed(bytes, at, headers);
    ReadTogether(bytes, at, Entries(headers), nexts);
  }

  lemma EndReads(bytes: Bytes, at: nat, count: nat, size: nat, start: nat, comment: Bytes)
    requires count <= MAX16 && start <= MAX32 && Has(bytes, at, EndRecord(count, size, start, comment))
    ensures SignatureAt(bytes, at, EOCD)
    ensures Field(bytes, at + 10, 2) == Some(count) && Field(bytes, at + 16, 4) == Some(start)
  {
    Widths();
    var a := EOCD + LE(0, 2) + LE(0, 2) + LE(count, 2);
    var b := a + LE(count, 2) + LE(size, 4);
    HasBoth(bytes, at, b + LE(start, 4) + LE(|comment|, 2), comment);
    HasBoth(bytes, at, b + LE(start, 4), LE(|comment|, 2));
    HasBoth(bytes, at, b, LE(start, 4));
    HasField(bytes, at + 16, start, 4);
    HasBoth(bytes, at, a + LE(count, 2), LE(size, 4));
    HasBoth(bytes, at, a, LE(count, 2));
    HasField(bytes, at + 10, count, 2);
    HasBoth(bytes, at, EOCD + LE(0, 2) + LE(0, 2), LE(count, 2));
    HasBoth(bytes, at, EOCD + LE(0, 2), LE(0, 2));
    HasBoth(bytes, at, EOCD, LE(0, 2));
  }

  lemma RecordReads(bytes: Bytes, at: nat, count: nat, size: nat, start: nat)
    requires count <= MAX64 && start <= MAX64 && Has(bytes, at, Zip64Record(count, size, start))
    ensures SignatureAt(bytes, at, ZIP64_EOCD)
    ensures Field(bytes, at + 32, 8) == Some(count) && Field(bytes, at + 48, 8) == Some(start)
  {
    Widths();
    var a := ZIP64_EOCD + LE(44, 8);
    var b := a + LE(45, 2) + LE(45, 2) + LE(0, 4) + LE(0, 4) + LE(count, 8);
    var c := b + LE(count, 8) + LE(size, 8);
    HasBoth(bytes, at, c, LE(start, 8));
    HasField(bytes, at + 48, start, 8);
    HasBoth(bytes, at, b + LE(count, 8), LE(size, 8));
    HasBoth(bytes, at, b, LE(count, 8));
    HasField(bytes, at + 32, count, 8);
    HasBoth(bytes, at, a + LE(45, 2) + LE(45, 2) + LE(0, 4) + LE(0, 4), LE(count, 8));
    HasBoth(bytes, at, a + LE(45, 2) + LE(45, 2) + LE(0, 4), LE(0, 4));
    HasBoth(bytes, at, a + LE(45, 2) + LE(45, 2), LE(0, 4));
    HasBoth(bytes, at, a + LE(45, 2), LE(45, 2));
    HasBoth(bytes, at, a, LE(45, 2));
    HasBoth(bytes, at, ZIP64_EOCD, LE(44, 8));
  }

  lemma LocatorReads(bytes: Bytes, at: nat, record: nat)
    requires record <= MAX64 && Has(bytes, at, Zip64Locator(record))
    ensures SignatureAt(bytes, at, ZIP64_LOCATOR) && Field(bytes, at + 8, 8) == Some(record)
  {
    Widths();
    HasBoth(bytes, at, ZIP64_LOCATOR + LE(0, 4) + LE(record, 8), LE(1, 4));
    HasBoth(bytes, at, ZIP64_LOCATOR + LE(0, 4), LE(record, 8));
    HasField(bytes, at + 8, record, 8);
    HasBoth(bytes, at, ZIP64_LOCATOR, LE(0, 4));
  }

  /** No end-record signature stands after `end` where the search looks. */
  ghost predicate NoLaterSignature(bytes: Bytes, end: nat) {
    forall p | end < p <= LastStart(bytes) :: !SignatureAt(bytes, p, EOCD)
  }

  lemma {:induction false} SearchFinds(bytes: Bytes, at: nat, tries: nat, end: nat)
    requires end <= at < end + tries && SignatureAt(bytes, end, EOCD)
    ensures FindEnd(bytes, at, tries) == Some(end) <==> forall p | end < p <= at :: !SignatureAt(bytes, p, EOCD)
    decreases tries
  {
    if at > end && !SignatureAt(bytes, at, EOCD) {
      SearchFinds(bytes, at - 1, tries - 1, end);
    }
  }

  /** The search stops at the record written, exactly when no later position it
      tries holds the signature. */
  lemma EndIsFound(bytes: Bytes, end: nat, comment: Bytes)
    requires |bytes| == end + 22 + |comment| && |comment| <= MAX16 && SignatureAt(bytes, end, EOCD)
    ensures EndOf(bytes) == Some(end) <==> NoLaterSignature(bytes, end)
  {
    SearchFinds(bytes, LastStart(bytes), MAX16 + 1, end);
  }

  ghost predicate Encodable(prefix: Bytes, headers: seq<Header>, zip64: bool, comment: Bytes) {
    && AllFit(headers) && |comment| <= MAX16
    && (Overflows(|headers|, |prefix|) ==> zip64)
    && |prefix| + |Directory(headers)| <= MAX64 && |headers| <= MAX64
  }

  /** A piece after others, and before more. */
  lemma HasMiddle(before: Bytes, piece: Bytes, after: Bytes)
    ensures Has(before + piece + after, |before|, piece)
  {
  }

  lemma EndSays(before: Bytes, count: nat, size: nat, start: nat, comment: Bytes)
    requires count <= MAX16 && start <= MAX32
    ensures var image := before + EndRecord(count, size, start, comment);
      && SignatureAt(image, |before|, EOCD)
      && Field(image, |before| + 10, 2) == Some(count)
      && Field(image, |before| + 16, 4) == Some(start)
  {
    var record := EndRecord(count, size, start, comment);
    HasMiddle(before, record, []);
    assert before + record + [] == before + record;
    EndReads(before + record, |before|, count, size, start, comment);
  }

  lemma LocatorSays(image: Bytes, before: Bytes, record: nat, after: Bytes)
    requires record <= MAX64 && image == before + Zip64Locator(record) + after
    ensures SignatureAt(image, |before|, ZIP64_LOCATOR) && Field(image, |before| + 8, 8) == Some(record)
  {
    HasMiddle(before, Zip64Locator(record), after);
    LocatorReads(image, |before|, record);
  }

  lemma RecordSays(image: Bytes, before: Bytes, count: nat, size: nat, start: nat, after: Bytes)
    requires count <= MAX64 && start <= MAX64 && image == before + Zip64Record(count, size, start) + after
    ensures SignatureAt(image, |before|, ZIP64_EOCD)
    ensures Field(image, |before| + 32, 8) == Some(count) && Field(image, |before| + 48, 8) == Some(start)
  {
    HasMiddle(before, Zip64Record(count, size, start), after);
    RecordReads(image, |before|, count, size, start);
  }

  lemma Regrouped(a: Bytes, b: Bytes, c: Bytes, d: Bytes)
    ensures a + (b + c) + d == (a + b) + c + d
    ensures a + (b + c) + d == a + b + (c + d)
    ensures a + b + c + d == a + b + (c + d)
  {
  }

  /** An overflowing end record leads to the ZIP64 record the locator names. */
  lemma LocatedExtent(bytes: Bytes, end: nat, record: nat)
    requires Marked(bytes, end)
    requires end >= 20 && SignatureAt(bytes, end - 20, ZIP64_LOCATOR) && Field(bytes, end - 12, 8) == Some(record)
    requires SignatureAt(bytes, record, ZIP64_EOCD)
    requires Field(bytes, record + 32, 8).Some? && Field(bytes, record + 48, 8).Some?
    ensures Extent(bytes, end) == Done((Field(bytes, record + 32, 8).value, Field(bytes, record + 48, 8).value))
  {
  }

  lemma ClassicExtent(bytes: Bytes, end: nat, count: nat, start: nat)
    requires Field(bytes, end + 10, 2) == Some(count) && Field(bytes, end + 16, 4) == Some(start)
    requires count != MAX16 && start != MAX32
    ensures Extent(bytes, end) == Done((count, start))
  {
  }

  /** The count and offset written are read, whatever stands between the parts:
      `before` the end record, and within it `front` before the ZIP64 record. */
  lemma ExtentOf(front: Bytes, zip64: bool, count: nat, size: nat, start: nat, comment: Bytes)
    requires (Overflows(count, start) ==> zip64) && count <= MAX64 && |front| <= MAX64 && start <= MAX64
    ensures var before := front + (if zip64 then Zip64Record(count, size, start) + Zip64Locator(|front|) else []);
      Extent(before + EndRecord(Min(count, MAX16), Min(size, MAX32), Min(start, MAX32), comment), |before|)
      == Done((count, start))
  {
    var last := EndRecord(Min(count, MAX16), Min(size, MAX32), Min(start, MAX32), comment);
    var before := front + (if zip64 then Zip64Record(count, size, start) + Zip64Locator(|front|) else []);
    EndSays(before, Min(count, MAX16), Min(size, MAX32), Min(start, MAX32), comment);
    if Overflows(count, start) {
      OverflowingExtent(front, Zip64Record(count, size, start), Zip64Locator(|front|), last, count, size, start);
    } else {
      ClassicExtent(before + last, |before|, count, start);
    }
  }

  lemma OverflowingExtent(front: Bytes, record: Bytes, locator: Bytes, last: Bytes, count: nat, size: nat, start: nat)
    requires record == Zip64Record(count, size, start) && locator == Zip64Locator(|front|)
    requires count <= MAX64 && |front| <= MAX64 && start <= MAX64
    requires Marked(front + (record + locator) + last, |front| + 76)
    ensures Extent(front + (record + locator) + last, |front| + 76) == Done((count, start))
  {
    var image := front + (record + locator) + last;
    Regrouped(front, record, locator, last);
    LocatorSays(image, front + record, |front|, last);
    RecordSays(image, front, count, size, start, locator + last);
    LocatedExtent(image, |front| + 76, |front|);
  }

  /** The end record's count or offset is all ones. */
  predicate Marked(bytes: Bytes, end: nat) {
    && Field(bytes, end + 10, 2).Some? && Field(bytes, end + 16, 4).Some?
    && (Field(bytes, end + 10, 2) == Some(MAX16) || Field(bytes, end + 16, 4) == Some(MAX32))
  }

  /** An entry gives the header's name and every field a reader is promised. */
  predicate ReadsAll(e: CentralEntry, h: Header) {
    && e.name == h.name && e.versionMadeBy == h.versionMadeBy && e.flags == h.flags && e.method_ == h.method_
    && e.dosTime == h.dosTime && e.dosDate == h.dosDate && e.externalAttributes == h.externalAttributes
    && e.extraLen == |h.extra| && e.commentLen == |h.comment| && e.localHeaderOffset == h.localHeaderOffset
  }

  /** The walk reads back exactly the directory written, in order and with
      duplicates, whatever precedes it, unless the archive comment makes a later
      position look like an end record. */
  lemma DirectoryRoundTrip(prefix: Bytes, headers: seq<Header>, zip64: bool, comment: Bytes)
    requires Encodable(prefix, headers, zip64, comment)
    requires NoLaterSignature(Encode(prefix, headers, zip64, comment), |BeforeEnd(prefix, headers, zip64)|)
    ensures var walked := Walk(Encode(prefix, headers, zip64, comment));
      && walked == Done(Entries(headers))
      && |walked.value| == |headers|
      && forall i | 0 <= i < |headers| :: ReadsAll(walked.value[i], headers[i])
  {
    EntryOrder(headers);
    var directory := Directory(headers);
    Assembled(prefix, headers, zip64, comment, directory);
    AssembledHeaders(prefix, headers, zip64, comment);
    EndIsFound(Encode(prefix, headers, zip64, comment), |BeforeEnd(prefix, headers, zip64)|, comment);
  }

  /** The parts of an image, read where they were put. */
  lemma Assembled(prefix: Bytes, headers: seq<Header>, zip64: bool, comment: Bytes, directory: Bytes)
    requires Encodable(prefix, headers, zip64, comment) && directory == Directory(headers)
    ensures var image, end := Encode(prefix, headers, zip64, comment), |BeforeEnd(prefix, headers, zip64)|;
      && |image| == end + 22 + |comment|
      && SignatureAt(image, end, EOCD)
      && Extent(image, end) == Done((|headers|, |prefix|))
  {
    var tail: Bytes :=
      if zip64 then Zip64Record(|headers|, |directory|, |prefix|) + Zip64Locator(|prefix + directory|) else [];
    EndSays(prefix + directory + tail, Min(|headers|, MAX16), Min(|directory|, MAX32), Min(|prefix|, MAX32), comment);
    ExtentOf(prefix + directory, zip64, |headers|, |directory|, |prefix|, comment);
  }

  lemma FollowsPrefix(prefix: Bytes, directory: Bytes, image: Bytes)
    requires prefix + directory <= image
    ensures Has(image, |prefix|, directory)
  {
    assert image[..|prefix + directory|][|prefix|..] == directory;
  }

  lemma AssembledHeaders(prefix: Bytes, headers: seq<Header>, zip64: bool, comment: Bytes)
    requires Encodable(prefix, headers, zip64, comment)
    ensures ReadHeaders(Encode(prefix, headers, zip64, comment), |prefix|, |headers|) == Done(Entries(headers))
  {
    FollowsPrefix(prefix, Directory(headers), Encode(prefix, headers, zip64, comment));
    DirectoryReads(Encode(prefix, headers, zip64, comment), |prefix|, headers);
  }

  /** With no archive comment nothing can stand after the end record, so the
      round trip is unconditional. */
  lemma CommentlessRoundTrip(prefix: Bytes, headers: seq<Header>, zip64: bool)
    requires Encodable(prefix, headers, zip64, [])
    ensures Walk(Encode(prefix, headers, zip64, [])) == Done(Entries(headers))
  {
    assert |Encode(prefix, headers, zip64, [])| == |BeforeEnd(prefix, headers, zip64)| + 22;
    DirectoryRoundTrip(prefix, headers, zip64, []);
  }

  lemma EmptyEndSays(before: Bytes)
    ensures Walk(before + EndRecord(0, 0, 0, [])) == Done([])
  {
    var image := before + EndRecord(0, 0, 0, []);
    EndSays(before, 0, 0, 0, []);
    EndIsFound(image, |before|, []);
    ClassicExtent(image, |before|, 0, 0);
  }

  lemma CommentStandsLast(count: nat, size: nat, start: nat, comment: Bytes)
    ensures EndRecord(count, size, start, comment) == EndRecord(count, size, start, comment)[..22] + comment
  {
  }

  /** A comment that is itself an end record hides any directory: the walk takes
      the last signature and reads no entry. */
  lemma CommentCanHideDirectory(prefix: Bytes, headers: seq<Header>, zip64: bool)
    ensures Walk(Encode(prefix, headers, zip64, EndRecord(0, 0, 0, []))) == Done([])
  {
    var comment := EndRecord(0, 0, 0, []);
    var before := BeforeEnd(prefix, headers, zip64);
    var count, size, start := Min(|headers|, MAX16), Min(|Directory(headers)|, MAX32), Min(|prefix|, MAX32);
    var record := EndRecord(count, size, start, comment);
    CommentStandsLast(count, size, start, comment);
    assert before + (record[..22] + comment) == (before + record[..22]) + comment;
    EmptyEndSays(before + record[..22]);
  }

  /** The walk's list is the written one, entry by entry. */
  lemma {:induction false} EntryOrder(headers: seq<Header>)
    ensures |Entries(headers)| == |headers|
    ensures forall i | 0 <= i < |headers| :: Entries(headers)[i] == EntryOf(headers[i])
  {
    if headers != [] {
      EntryOrder(headers[1..]);
    }
  }
}
