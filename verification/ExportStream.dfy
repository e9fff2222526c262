/** The seekable view of an append-only destination that lets an export stream
    while staying byte-identical to the buffered archive.

    `Memory` is the buffered exporter's in-memory cursor, the reference.
    `Buffer` and `Sink` are the values of the streaming pair; the classes
    `EntryBuffer` and `ChunkSink` update the same fields in place and are
    proved to move exactly as those values do. `Tracked` adds to the reference
    which entry the container writer has open, which is all the documented
    discipline speaks of. */
module ExportStream {
  import opened Basics

  /** The four bytes a ZIP local file header begins with. */
  const LOCAL_HEADER_MAGIC: Bytes := [0x50, 0x4b, 0x03, 0x04]

  /** The most bytes one queued chunk holds. */
  const BODY_CHUNK_BYTES: nat := 64 * 1024

  datatype IoError = Unsupported | InvalidInput | Rewrite | NotSent

  datatype Io<+T> = Ok(value: T) | Fail(error: IoError)

  datatype SeekFrom = Start(at: nat) | Current(delta: int) | End(delta: int)

  datatype Op = Write(buf: Bytes) | Vectored(bufs: seq<Bytes>) | Seek(to: SeekFrom) | Flush

  // ------------------------------------------------------------ destination

  /** The destination: the chunks handed over, their byte count, and how many
      more chunks the response accepts before the client leaves or stalls. */
  datatype Sink = Sink(chunks: seq<Bytes>, sent: nat, room: nat) {
    ghost predicate Valid() {
      && sent == |Flat(chunks)|
      && forall c <- chunks :: 0 < |c| <= BODY_CHUNK_BYTES
    }
  }

  function SinkWrite(s: Sink, buf: Bytes): (Io<nat>, Sink) {
    if buf == [] then (Ok(0), s)
    else if s.room == 0 then (Fail(NotSent), s)
    else
      var take := Min(|buf|, BODY_CHUNK_BYTES);
      (Ok(take), Sink(s.chunks + [buf[..take]], s.sent + take, s.room - 1))
  }

  function SinkWriteAll(s: Sink, buf: Bytes): (Io<()>, Sink)
    decreases |buf|
  {
    if buf == [] then (Ok(()), s)
    else
      var (r, s') := SinkWrite(s, buf);
      if r.Fail? then (Fail(r.error), s') else SinkWriteAll(s', buf[r.value..])
  }

  function SinkSeek(s: Sink, pos: SeekFrom): Io<nat> {
    match pos
    case Start(at) => if at == s.sent then Ok(at) else Fail(Rewrite)
    case Current(delta) => if delta == 0 then Ok(s.sent) else Fail(Unsupported)
    case End(delta) => if delta == 0 then Ok(s.sent) else Fail(Unsupported)
  }

  /** Everything offered arrives, in order and in bounded pieces, or a prefix
      of it does and the hand-off reports that it could not be sent. */
  lemma {:induction false} WriteAllAppends(s: Sink, buf: Bytes)
    requires s.Valid()
    ensures var (r, s') := SinkWriteAll(s, buf);
      && s'.Valid()
      && s.chunks <= s'.chunks
      && (r.Ok? ==> Flat(s'.chunks) == Flat(s.chunks) + buf)
      && (r.Fail? ==> r.error == NotSent && s'.room == 0 && Flat(s'.chunks) <= Flat(s.chunks) + buf)
    decreases |buf|
  {
    if buf == [] {
      assert Flat(s.chunks) + buf == Flat(s.chunks);
    } else if s.room == 0 {
    } else {
      var take := Min(|buf|, BODY_CHUNK_BYTES);
      var s' := SinkWrite(s, buf).1;
      FlatSnoc(s.chunks, buf[..take]);
      assert Flat(s'.chunks) + buf[take..] == Flat(s.chunks) + buf;
      WriteAllAppends(s', buf[take..]);
    }
  }

  // ---------------------------------------------------------- entry buffer

  datatype Buffer = Buffer(
    sink: Sink, entry: Bytes, entryAt: nat, open: bool, cursor: nat,
    delivered: nat, patching: bool, peak: nat)

  function NewBuffer(sink: Sink): Buffer {
    Buffer(sink, [], 0, false, 0, 0, false, 0)
  }

  /** `buf` written over `data` from `at` on; bytes the data does not reach
      yet are zero. */
  function Overlay(data: Bytes, at: nat, buf: Bytes): (r: Bytes) {
    var end := at + |buf|;
    var grown := if end > |data| then data + seq(end - |data|, _ => 0 as byte) else data;
    grown[..at] + buf + grown[end..]
  }

  /** Written over means: the written bytes where they were written, every other byte
      as it was, and zeros where nothing has been. */
  lemma OverlayIs(data: Bytes, at: nat, buf: Bytes)
    ensures var r := Overlay(data, at, buf);
      && |r| == Max(|data|, at + |buf|)
      && forall i | 0 <= i < |r| ::
           r[i] == if at <= i < at + |buf| then buf[i - at] else if i < |data| then data[i] else 0
  {
  }

  function Remember(b: Buffer): Buffer {
    b.(peak := Max(b.peak, |b.entry|))
  }

  function Release(b: Buffer): (Io<()>, Buffer) {
    if !b.open then (Ok(()), b)
    else
      var taken := Remember(b).(entry := []);
      var at := SinkSeek(b.sink, Start(b.delivered));
      if at.Fail? then (Fail(at.error), taken)
      else
        var (r, sink) := SinkWriteAll(b.sink, b.entry);
        if r.Fail? then (Fail(r.error), taken.(sink := sink))
        else (Ok(()), taken.(sink := sink, delivered := b.entryAt + |b.entry|, patching := false, open := false))
  }

  function BufferWrite(b: Buffer, buf: Bytes): (Io<nat>, Buffer) {
    if b.patching then
      var offset := if b.cursor >= b.entryAt then b.cursor - b.entryAt else 0;
      (Ok(|buf|), Remember(b.(entry := Overlay(b.entry, offset, buf), cursor := b.cursor + |buf|)))
    else
      var begins := !b.open || (b.cursor >= b.delivered && StartsWith(buf, LOCAL_HEADER_MAGIC));
      var (r, ready) :=
        if begins then
          var (r, released) := Release(b);
          if r.Fail? then (r, released) else (r, released.(open := true, entryAt := b.cursor))
        else (Ok(()), b);
      if r.Fail? then (Fail(r.error), ready)
      else (Ok(|buf|), Remember(ready.(entry := ready.entry + buf, cursor := ready.cursor + |buf|)))
  }

  function BufferVectored(b: Buffer, bufs: seq<Bytes>): (Io<nat>, Buffer)
    decreases |bufs|
  {
    if bufs == [] then (Ok(0), b)
    else
      var (first, b') := BufferWrite(b, bufs[0]);
      if first.Fail? then (first, b')
      else
        var (rest, b'') := BufferVectored(b', bufs[1..]);
        if rest.Fail? then (rest, b'') else (Ok(first.value + rest.value), b'')
  }

  function SeekStart(b: Buffer, at: nat): Buffer {
    b.(patching := b.open && b.entryAt <= at < b.entryAt + |b.entry|, cursor := at)
  }

  function BufferSeek(b: Buffer, pos: SeekFrom): (Io<nat>, Buffer) {
    match pos
    case Start(at) => (Ok(at), SeekStart(b, at))
    case Current(delta) =>
      if b.cursor + delta < 0 then (Fail(InvalidInput), b)
      else (Ok(b.cursor + delta), SeekStart(b, b.cursor + delta))
    case End(delta) =>
      if delta != 0 then (Fail(Unsupported), b)
      else
        var (r, released) := Release(b);
        if r.Fail? then (Fail(r.error), released)
        else (Ok(released.delivered), released.(cursor := released.delivered))
  }

  function BufferStep(b: Buffer, op: Op): (Io<nat>, Buffer) {
    match op
    case Write(buf) => BufferWrite(b, buf)
    case Vectored(bufs) => BufferVectored(b, bufs)
    case Seek(to) => BufferSeek(b, to)
    case Flush => (Ok(0), b)
  }

  /** A session runs until its first failure, as `?` propagates it. */
  function BufferRun(b: Buffer, ops: seq<Op>): (seq<Io<nat>>, Buffer)
    decreases |ops|
  {
    if ops == [] then ([], b)
    else
      var (r, b') := BufferStep(b, ops[0]);
      if r.Fail? then ([r], b')
      else
        var (rs, b'') := BufferRun(b', ops[1..]);
        ([r] + rs, b'')
  }

  // ------------------------------------------------------------- reference

  datatype Memory = Memory(data: Bytes, pos: nat)

  function MemoryWrite(m: Memory, buf: Bytes): Memory {
    Memory(Overlay(m.data, m.pos, buf), m.pos + |buf|)
  }

  function Target(m: Memory, to: SeekFrom): int {
    match to
    case Start(at) => at
    case Current(delta) => m.pos + delta
    case End(delta) => |m.data| + delta
  }

  function MemoryStep(m: Memory, op: Op): (Io<nat>, Memory) {
    match op
    case Write(buf) => (Ok(|buf|), MemoryWrite(m, buf))
    case Vectored(bufs) => (Ok(|Flat(bufs)|), MemoryWrite(m, Flat(bufs)))
    case Seek(to) =>
      if Target(m, to) < 0 then (Fail(InvalidInput), m)
      else (Ok(Target(m, to)), m.(pos := Target(m, to)))
    case Flush => (Ok(0), m)
  }

  function MemoryRun(m: Memory, ops: seq<Op>): (seq<Io<nat>>, Memory)
    decreases |ops|
  {
    if ops == [] then ([], m)
    else
      var (r, m') := MemoryStep(m, ops[0]);
      if r.Fail? then ([r], m')
      else
        var (rs, m'') := MemoryRun(m', ops[1..]);
        ([r] + rs, m'')
  }

  // ------------------------------------------------------------ discipline

  /** The reference cursor, where the open entry began, and whether the writer
      is at the end of the stream rather than inside that entry. */
  datatype Tracked = Tracked(mem: Memory, entry: Option<nat>, appending: bool)

  const FRESH := Tracked(Memory([], 0), None, true)

  /** The documented discipline: a seek lands inside the open entry or exactly
      at the end of the stream. Writes are free. */
  predicate Allowed(t: Tracked, op: Op) {
    op.Seek? ==>
      var at := Target(t.mem, op.to);
      && (op.to.End? ==> op.to.delta == 0)
      && (at == |t.mem.data| || (t.entry.Some? && t.entry.value <= at < |t.mem.data|))
  }

  function TrackWrite(t: Tracked, buf: Bytes): Tracked {
    var entry :=
      if t.appending && (t.entry.None? || StartsWith(buf, LOCAL_HEADER_MAGIC))
      then Some(t.mem.pos) else t.entry;
    Tracked(MemoryWrite(t.mem, buf), entry, t.appending)
  }

  function TrackVectored(t: Tracked, bufs: seq<Bytes>): Tracked
    decreases |bufs|
  {
    if bufs == [] then t else TrackVectored(TrackWrite(t, bufs[0]), bufs[1..])
  }

  function Track(t: Tracked, op: Op): Tracked {
    match op
    case Write(buf) => TrackWrite(t, buf)
    case Vectored(bufs) => TrackVectored(t, bufs)
    case Seek(to) =>
      var mem := MemoryStep(t.mem, op).1;
      Tracked(mem, if to.End? then None else t.entry, mem.pos == |mem.data|)
    case Flush => t
  }

  function TrackRun(t: Tracked, ops: seq<Op>): Tracked
    decreases |ops|
  {
    if ops == [] then t else TrackRun(Track(t, ops[0]), ops[1..])
  }

  predicate Disciplined(t: Tracked, ops: seq<Op>)
    decreases |ops|
  {
    ops == [] || (Allowed(t, ops[0]) && Disciplined(Track(t, ops[0]), ops[1..]))
  }

  // ------------------------------------------------------------ refinement

  /** What ties the streaming pair to the reference: delivered bytes then the
      held entry are the reference's bytes, and nothing else is held. */
  ghost predicate Agrees(b: Buffer, t: Tracked) {
    && b.sink.Valid()
    && Flat(b.sink.chunks) + b.entry == t.mem.data
    && b.delivered == b.sink.sent
    && b.cursor == t.mem.pos <= |t.mem.data|
    && b.open == t.entry.Some?
    && (b.open ==> b.entryAt == t.entry.value == b.delivered)
    && (!b.open ==> b.entry == [])
    && b.patching == !t.appending
    && (b.patching ==> b.open && b.entryAt <= b.cursor)
    && (t.appending ==> t.mem.pos == |t.mem.data|)
    && |b.entry| <= b.peak
  }

  lemma OverlayBehind(prefix: Bytes, data: Bytes, at: nat, buf: Bytes)
    requires |prefix| <= at <= |prefix| + |data|
    ensures Overlay(prefix + data, at, buf) == prefix + Overlay(data, at - |prefix|, buf)
  {
    assert (prefix + data)[..at] == prefix + data[..at - |prefix|];
    var end := at + |buf|;
    var left := Overlay(prefix + data, at, buf);
    var right := prefix + Overlay(data, at - |prefix|, buf);
    assert |left| == |right|;
    assert forall i | 0 <= i < |left| :: left[i] == right[i];
  }

  lemma OverlayAtEnd(data: Bytes, buf: Bytes)
    ensures Overlay(data, |data|, buf) == data + buf
  {
    var end := |data| + |buf|;
    var grown := if end > |data| then data + seq(end - |data|, _ => 0 as byte) else data;
    assert grown[..|data|] == data;
    assert grown[end..] == [];
  }

  /** Where the part of the archive that no later seek can reach ends. */
  function Settled(t: Tracked): nat {
    if t.entry.Some? then t.entry.value else |t.mem.data|
  }

  /** What a failed hand-off leaves: a prefix of the settled part. */
  ghost predicate CutShort(r: Io<nat>, b: Buffer, t: Tracked) {
    && r == Fail(NotSent)
    && |Flat(b.sink.chunks)| <= Settled(t) <= |t.mem.data|
    && Flat(b.sink.chunks) <= t.mem.data
  }

  lemma ReleaseDelivers(b: Buffer, t: Tracked)
    requires Agrees(b, t)
    ensures var (r, b') := Release(b);
      && (r.Ok? ==>
            && !b'.open && !b'.patching && b'.entry == [] && b'.cursor == b.cursor
            && b'.sink.Valid() && Flat(b'.sink.chunks) == t.mem.data
            && b'.delivered == b'.sink.sent)
      && (r.Fail? ==> r.error == NotSent && Flat(b'.sink.chunks) <= t.mem.data)
      && b.sink.chunks <= b'.sink.chunks
  {
    if b.open {
      WriteAllAppends(b.sink, b.entry);
      var (r, sink) := SinkWriteAll(b.sink, b.entry);
      assert SinkSeek(b.sink, Start(b.delivered)).Ok?;
      assert r.Ok? ==> Release(b).1.sink == sink;
    } else {
      assert Flat(b.sink.chunks) + b.entry == Flat(b.sink.chunks);
    }
  }

  lemma PatchAgrees(b: Buffer, t: Tracked, buf: Bytes)
    requires Agrees(b, t) && b.patching
    ensures var (r, b') := BufferWrite(b, buf);
      r == Ok(|buf|) && Agrees(b', TrackWrite(t, buf)) && b'.sink == b.sink
  {
    OverlayBehind(Flat(b.sink.chunks), b.entry, b.cursor, buf);
  }

  lemma AppendAgrees(b: Buffer, t: Tracked, buf: Bytes)
    requires Agrees(b, t) && !b.patching
    requires b.open && !StartsWith(buf, LOCAL_HEADER_MAGIC)
    ensures var (r, b') := BufferWrite(b, buf);
      r == Ok(|buf|) && Agrees(b', TrackWrite(t, buf)) && b'.sink == b.sink
  {
    OverlayAtEnd(t.mem.data, buf);
    assert (Flat(b.sink.chunks) + b.entry) + buf == Flat(b.sink.chunks) + (b.entry + buf);
  }

  lemma BeginAgrees(b: Buffer, t: Tracked, buf: Bytes)
    requires Agrees(b, t) && !b.patching
    requires !b.open || StartsWith(buf, LOCAL_HEADER_MAGIC)
    ensures var (r, b') := BufferWrite(b, buf);
      && (r.Ok? ==> r.value == |buf| && Agrees(b', TrackWrite(t, buf)))
      && (r.Fail? ==> CutShort(r, b', TrackWrite(t, buf)))
      && b.sink.chunks <= b'.sink.chunks
  {
    OverlayAtEnd(t.mem.data, buf);
    assert |Flat(b.sink.chunks)| <= |t.mem.data|;
    ReleaseDelivers(b, t);
    var (r, released) := Release(b);
    if r.Ok? {
      assert released.entry + buf == buf;
    } else {
      assert t.mem.data <= TrackWrite(t, buf).mem.data;
    }
  }

  lemma WriteAgrees(b: Buffer, t: Tracked, buf: Bytes)
    requires Agrees(b, t)
    ensures var (r, b') := BufferWrite(b, buf);
      && (r.Ok? ==> r.value == |buf| && Agrees(b', TrackWrite(t, buf)))
      && (r.Fail? ==> CutShort(r, b', TrackWrite(t, buf)))
      && b.sink.chunks <= b'.sink.chunks
  {
    if b.patching {
      PatchAgrees(b, t, buf);
    } else if b.open && !StartsWith(buf, LOCAL_HEADER_MAGIC) {
      AppendAgrees(b, t, buf);
    } else {
      BeginAgrees(b, t, buf);
    }
  }

  /** A write at a valid position moves the settled boundary only forward and
      leaves everything before it alone. */
  lemma WriteKeepsSettled(t: Tracked, buf: Bytes)
    requires Sound(t)
    ensures var t' := TrackWrite(t, buf);
      && Sound(t')
      && Settled(t) <= Settled(t') <= |t'.mem.data|
      && t'.mem.data[..Settled(t)] == t.mem.data[..Settled(t)]
  {
    if t.appending {
      OverlayAtEnd(t.mem.data, buf);
    }
  }

  ghost predicate Sound(t: Tracked) {
    && t.mem.pos <= |t.mem.data|
    && (t.entry.Some? ==> t.entry.value <= |t.mem.data|)
    && (t.appending ==> t.mem.pos == |t.mem.data|)
    && (!t.appending ==> t.entry.Some? && t.entry.value <= t.mem.pos)
  }

  lemma {:induction false} VectoredKeepsSettled(t: Tracked, bufs: seq<Bytes>)
    requires Sound(t)
    ensures var t' := TrackVectored(t, bufs);
      && Sound(t')
      && Settled(t) <= Settled(t') <= |t'.mem.data|
      && t'.mem.data[..Settled(t)] == t.mem.data[..Settled(t)]
    decreases |bufs|
  {
    if bufs != [] {
      WriteKeepsSettled(t, bufs[0]);
      var t1 := TrackWrite(t, bufs[0]);
      VectoredKeepsSettled(t1, bufs[1..]);
      var t2 := TrackVectored(t1, bufs[1..]);
      assert t2.mem.data[..Settled(t)] == t2.mem.data[..Settled(t1)][..Settled(t)];
    }
  }

  lemma StepKeepsSettled(t: Tracked, op: Op)
    requires Sound(t) && Allowed(t, op)
    ensures var t' := Track(t, op);
      && Sound(t')
      && Settled(t) <= Settled(t') <= |t'.mem.data|
      && t'.mem.data[..Settled(t)] == t.mem.data[..Settled(t)]
  {
    match op
    case Write(buf) => WriteKeepsSettled(t, buf);
    case Vectored(bufs) => VectoredKeepsSettled(t, bufs);
    case Seek(_) =>
    case Flush =>
  }

  lemma {:induction false} RunKeepsSettled(t: Tracked, ops: seq<Op>)
    requires Sound(t) && Disciplined(t, ops)
    ensures var t' := TrackRun(t, ops);
      && Sound(t')
      && Settled(t) <= Settled(t') <= |t'.mem.data|
      && t'.mem.data[..Settled(t)] == t.mem.data[..Settled(t)]
    decreases |ops|
  {
    if ops != [] {
      StepKeepsSettled(t, ops[0]);
      var t1 := Track(t, ops[0]);
      RunKeepsSettled(t1, ops[1..]);
      var t2 := TrackRun(t1, ops[1..]);
      assert t2.mem.data[..Settled(t)] == t2.mem.data[..Settled(t1)][..Settled(t)];
    }
  }

  /** Writing pieces one after another is writing their concatenation. */
  lemma OverlayTwice(data: Bytes, at: nat, a: Bytes, b: Bytes)
    requires at <= |data|
    ensures Overlay(Overlay(data, at, a), at + |a|, b) == Overlay(data, at, a + b)
  {
    var left := Overlay(Overlay(data, at, a), at + |a|, b);
    var right := Overlay(data, at, a + b);
    assert |left| == |right|;
    assert forall i | 0 <= i < |left| :: left[i] == right[i];
  }

  lemma {:induction false} VectoredWritesAll(t: Tracked, bufs: seq<Bytes>)
    requires t.mem.pos <= |t.mem.data|
    ensures TrackVectored(t, bufs).mem == MemoryWrite(t.mem, Flat(bufs))
    decreases |bufs|
  {
    if bufs == [] {
      assert Overlay(t.mem.data, t.mem.pos, []) == t.mem.data;
    } else {
      VectoredWritesAll(TrackWrite(t, bufs[0]), bufs[1..]);
      OverlayTwice(t.mem.data, t.mem.pos, bufs[0], Flat(bufs[1..]));
    }
  }

  lemma {:induction false} VectoredAgrees(b: Buffer, t: Tracked, bufs: seq<Bytes>)
    requires Agrees(b, t)
    ensures var (r, b') := BufferVectored(b, bufs);
      && (r.Ok? ==> r.value == |Flat(bufs)| && Agrees(b', TrackVectored(t, bufs)))
      && (r.Fail? ==> CutShort(r, b', TrackVectored(t, bufs)))
      && b.sink.chunks <= b'.sink.chunks
    decreases |bufs|
  {
    if bufs != [] {
      WriteAgrees(b, t, bufs[0]);
      var (r, b') := BufferWrite(b, bufs[0]);
      var t1 := TrackWrite(t, bufs[0]);
      WriteKeepsSettled(t, bufs[0]);
      if r.Ok? {
        VectoredAgrees(b', t1, bufs[1..]);
      } else {
        VectoredKeepsSettled(t1, bufs[1..]);
        PrefixStays(Flat(b'.sink.chunks), t1.mem.data, TrackVectored(t1, bufs[1..]).mem.data, Settled(t1));
      }
    }
  }

  lemma PrefixStays(p: Bytes, a: Bytes, b: Bytes, upTo: nat)
    requires |p| <= upTo <= |a| && upTo <= |b| && a[..upTo] == b[..upTo] && p <= a
    ensures p <= b
  {
    assert p == a[..upTo][..|p|];
  }

  /** One operation of a disciplined writer: the streaming pair answers what
      the in-memory cursor answers and still agrees with it, or the response
      took no more and holds a prefix of the settled archive. */
  lemma StepAgrees(b: Buffer, t: Tracked, op: Op)
    requires Agrees(b, t) && Allowed(t, op)
    ensures var (r, b') := BufferStep(b, op);
      && Track(t, op).mem == MemoryStep(t.mem, op).1
      && (r.Ok? ==> r == MemoryStep(t.mem, op).0 && Agrees(b', Track(t, op)))
      && (r.Fail? ==> CutShort(r, b', Track(t, op)))
      && b.sink.chunks <= b'.sink.chunks
  {
    match op
    case Write(buf) => WriteAgrees(b, t, buf); WriteKeepsSettled(t, buf);
    case Vectored(bufs) => VectoredAgrees(b, t, bufs); VectoredWritesAll(t, bufs);
    case Seek(to) => SeekAgrees(b, t, to);
    case Flush =>
  }

  lemma SeekAgrees(b: Buffer, t: Tracked, to: SeekFrom)
    requires Agrees(b, t) && Allowed(t, Seek(to))
    ensures var (r, b') := BufferSeek(b, to);
      && (r.Ok? ==> r == MemoryStep(t.mem, Seek(to)).0 && Agrees(b', Track(t, Seek(to))))
      && (r.Fail? ==> CutShort(r, b', Track(t, Seek(to))))
      && b.sink.chunks <= b'.sink.chunks
  {
    if to.End? {
      ReleaseDelivers(b, t);
    }
  }

  lemma {:induction false} RunAgrees(b: Buffer, t: Tracked, ops: seq<Op>)
    requires Agrees(b, t) && Disciplined(t, ops)
    ensures var (rs, b') := BufferRun(b, ops);
      var (ms, m') := MemoryRun(t.mem, ops);
      && m' == TrackRun(t, ops).mem
      && b.sink.chunks <= b'.sink.chunks
      && (|rs| > 0 && rs[|rs| - 1].Fail?
          ==> rs[|rs| - 1] == Fail(NotSent) && Flat(b'.sink.chunks) <= m'.data)
      && (|rs| == 0 || rs[|rs| - 1].Ok? ==> rs == ms && Agrees(b', TrackRun(t, ops)))
    decreases |ops|
  {
    if ops != [] {
      StepAgrees(b, t, ops[0]);
      var (r, b1) := BufferStep(b, ops[0]);
      var t1 := Track(t, ops[0]);
      if r.Ok? {
        RunAgrees(b1, t1, ops[1..]);
      } else {
        StepIsSound(t, ops[0]);
        CutShortStays(r, b1, t1, ops[1..]);
      }
    }
  }

  /** What a failed hand-off left is still a prefix when the reference goes on. */
  lemma CutShortStays(r: Io<nat>, b: Buffer, t: Tracked, ops: seq<Op>)
    requires CutShort(r, b, t) && Sound(t) && Disciplined(t, ops)
    ensures MemoryRun(t.mem, ops).1 == TrackRun(t, ops).mem
    ensures Flat(b.sink.chunks) <= TrackRun(t, ops).mem.data
  {
    RunKeepsSettled(t, ops);
    ReferenceNeverFails(t, ops);
    PrefixStays(Flat(b.sink.chunks), t.mem.data, TrackRun(t, ops).mem.data, Settled(t));
  }

  lemma StepIsSound(t: Tracked, op: Op)
    requires Sound(t) && Allowed(t, op)
    ensures Sound(Track(t, op)) && Track(t, op).mem == MemoryStep(t.mem, op).1 && MemoryStep(t.mem, op).0.Ok?
  {
    StepKeepsSettled(t, op);
    if op.Vectored? {
      VectoredWritesAll(t, op.bufs);
    }
  }

  lemma {:induction false} ReferenceNeverFails(t: Tracked, ops: seq<Op>)
    requires Sound(t) && Disciplined(t, ops)
    ensures MemoryRun(t.mem, ops).1 == TrackRun(t, ops).mem
    decreases |ops|
  {
    if ops != [] {
      StepIsSound(t, ops[0]);
      ReferenceNeverFails(Track(t, ops[0]), ops[1..]);
    }
  }

  // What `delivered` says of the destination, operation by operation.

  lemma ReleaseCounts(b: Buffer, t: Tracked)
    requires Agrees(b, t)
    ensures Release(b).1.sink.Valid() && Release(b).1.delivered <= Release(b).1.sink.sent
  {
    ReleaseDelivers(b, t);
    if b.open {
      WriteAllAppends(b.sink, b.entry);
      var more := SinkWriteAll(b.sink, b.entry).1.chunks;
      FlatAppend(b.sink.chunks, more[|b.sink.chunks|..]);
      assert more == b.sink.chunks + more[|b.sink.chunks|..];
    }
  }

  lemma WriteCounts(b: Buffer, t: Tracked, buf: Bytes)
    requires Agrees(b, t)
    ensures var b' := BufferWrite(b, buf).1; b'.sink.Valid() && b'.delivered <= b'.sink.sent
  {
    WriteAgrees(b, t, buf);
    ReleaseCounts(b, t);
  }

  lemma {:induction false} VectoredCounts(b: Buffer, t: Tracked, bufs: seq<Bytes>)
    requires Agrees(b, t)
    ensures var b' := BufferVectored(b, bufs).1; b'.sink.Valid() && b'.delivered <= b'.sink.sent
    decreases |bufs|
  {
    if bufs != [] {
      WriteCounts(b, t, bufs[0]);
      WriteAgrees(b, t, bufs[0]);
      if BufferWrite(b, bufs[0]).0.Ok? {
        VectoredCounts(BufferWrite(b, bufs[0]).1, TrackWrite(t, bufs[0]), bufs[1..]);
      }
    }
  }

  lemma StepCounts(b: Buffer, t: Tracked, op: Op)
    requires Agrees(b, t)
    ensures var b' := BufferStep(b, op).1; b'.sink.Valid() && b'.delivered <= b'.sink.sent
  {
    match op
    case Write(buf) => WriteCounts(b, t, buf);
    case Vectored(bufs) => VectoredCounts(b, t, bufs);
    case Seek(_) => ReleaseCounts(b, t);
    case Flush =>
  }

  lemma {:induction false} RunCounts(b: Buffer, t: Tracked, ops: seq<Op>)
    requires Agrees(b, t) && Disciplined(t, ops)
    ensures var (rs, b') := BufferRun(b, ops);
      && b'.sink.Valid() && b'.delivered <= b'.sink.sent
      && forall i | 0 <= i < |rs| :: rs[i].Fail? ==> i == |rs| - 1 && rs[i] == Fail(NotSent)
    decreases |ops|
  {
    if ops != [] {
      StepAgrees(b, t, ops[0]);
      StepCounts(b, t, ops[0]);
      if BufferStep(b, ops[0]).0.Ok? {
        RunCounts(BufferStep(b, ops[0]).1, Track(t, ops[0]), ops[1..]);
      }
    }
  }

  lemma {:induction false} DisciplinedSoFar(t: Tracked, ops: seq<Op>, n: nat)
    requires Disciplined(t, ops) && n <= |ops|
    ensures Disciplined(t, ops[..n])
    decreases n
  {
    if n > 0 {
      assert ops[..n][1..] == ops[1..][..n - 1];
      DisciplinedSoFar(Track(t, ops[0]), ops[1..], n - 1);
    }
  }

  /** At every point of a disciplined session: while it succeeds, the two cursors
      stand at one position, `delivered` counts exactly the bytes the sink has
      taken, and those with the entry held are the reference's bytes. The only
      failure is that the response takes no more, never a refusal to rewrite; then
      `delivered` still counts no byte the sink has not taken. */
  lemma DeliveredIsTaken(room: nat, ops: seq<Op>, n: nat)
    requires Disciplined(FRESH, ops) && n <= |ops|
    ensures var (rs, b) := BufferRun(NewBuffer(Sink([], 0, room)), ops[..n]);
      var m := MemoryRun(Memory([], 0), ops[..n]).1;
      && b.delivered <= b.sink.sent == |Flat(b.sink.chunks)|
      && (forall i | 0 <= i < |rs| :: rs[i].Fail? ==> i == |rs| - 1 && rs[i] == Fail(NotSent))
      && ((forall i | 0 <= i < |rs| :: rs[i].Ok?) ==>
            && b.delivered == b.sink.sent
            && b.cursor == m.pos
            && Flat(b.sink.chunks) + b.entry == m.data)
  {
    DisciplinedSoFar(FRESH, ops, n);
    RunAgrees(NewBuffer(Sink([], 0, room)), FRESH, ops[..n]);
    RunCounts(NewBuffer(Sink([], 0, room)), FRESH, ops[..n]);
  }

  /** Every disciplined session that the response takes in full answers each
      operation as the in-memory cursor does and, once the writer seeks to the
      end of the stream, has delivered exactly the in-memory bytes. */
  lemma StreamedEqualsBuffered(room: nat, ops: seq<Op>)
    requires Disciplined(FRESH, ops + [Seek(End(0))])
    ensures var all := ops + [Seek(End(0))];
      var (rs, b) := BufferRun(NewBuffer(Sink([], 0, room)), all);
      var (ms, m) := MemoryRun(Memory([], 0), all);
      && (forall c <- b.sink.chunks :: 0 < |c| <= BODY_CHUNK_BYTES)
      && (rs[|rs| - 1].Ok? ==>
            && rs == ms
            && Flat(b.sink.chunks) == m.data
            && b.delivered == b.sink.sent == |m.data|
            && b.entry == [])
      && (rs[|rs| - 1].Fail? ==>
            && rs[|rs| - 1] == Fail(NotSent)
            && Flat(b.sink.chunks) <= m.data)
  {
    var all := ops + [Seek(End(0))];
    var start := NewBuffer(Sink([], 0, room));
    RunAgrees(start, FRESH, all);
    RunPiecesBounded(start, all);
    EndCloses(FRESH, ops);
    var (rs, b) := BufferRun(start, all);
    if rs[|rs| - 1].Ok? {
      assert Flat(b.sink.chunks) + b.entry == Flat(b.sink.chunks);
    }
  }

  lemma {:induction false} EndCloses(t: Tracked, ops: seq<Op>)
    ensures TrackRun(t, ops + [Seek(End(0))]).entry == None
    decreases |ops|
  {
    if ops == [] {
      assert [Seek(End(0))][1..] == [];
    } else {
      assert (ops + [Seek(End(0))])[1..] == ops[1..] + [Seek(End(0))];
      EndCloses(Track(t, ops[0]), ops[1..]);
    }
  }

  // Chunk sizes hold of any session, disciplined or not.

  ghost predicate Bounded(s: Sink) {
    forall c <- s.chunks :: 0 < |c| <= BODY_CHUNK_BYTES
  }

  lemma {:induction false} WriteAllBounded(s: Sink, buf: Bytes)
    requires Bounded(s)
    ensures Bounded(SinkWriteAll(s, buf).1)
    decreases |buf|
  {
    if buf != [] && s.room > 0 {
      WriteAllBounded(SinkWrite(s, buf).1, buf[Min(|buf|, BODY_CHUNK_BYTES)..]);
    }
  }

  lemma ReleaseBounded(b: Buffer)
    requires Bounded(b.sink)
    ensures Bounded(Release(b).1.sink)
  {
    WriteAllBounded(b.sink, b.entry);
  }

  lemma {:induction false} VectoredBounded(b: Buffer, bufs: seq<Bytes>)
    requires Bounded(b.sink)
    ensures Bounded(BufferVectored(b, bufs).1.sink)
    decreases |bufs|
  {
    if bufs != [] {
      ReleaseBounded(b);
      VectoredBounded(BufferWrite(b, bufs[0]).1, bufs[1..]);
    }
  }

  lemma {:induction false} RunPiecesBounded(b: Buffer, ops: seq<Op>)
    requires Bounded(b.sink)
    ensures Bounded(BufferRun(b, ops).1.sink)
    ensures ops != [] ==> BufferRun(b, ops).0 != []
    decreases |ops|
  {
    if ops != [] {
      ReleaseBounded(b);
      if ops[0].Vectored? {
        VectoredBounded(b, ops[0].bufs);
      }
      RunPiecesBounded(BufferStep(b, ops[0]).1, ops[1..]);
    }
  }

  // ----------------------------------------------------- container sessions

  /** What the container writer does after an entry's header: it appends
      payload, or goes back to patch the entry and returns to the end. */
  datatype Piece = Append(buf: Bytes) | Patch(offset: nat, writes: seq<Bytes>)

  datatype EntryPlan = EntryPlan(header: Bytes, pieces: seq<Piece>)

  function Apply(held: Bytes, piece: Piece): Bytes {
    match piece
    case Append(buf) => held + buf
    case Patch(offset, writes) => Overlay(held, offset, Flat(writes))
  }

  /** The bytes an entry ends up with: the format's definition, without any
      cursor. */
  function Image(held: Bytes, pieces: seq<Piece>): Bytes
    decreases |pieces|
  {
    if pieces == [] then held else Image(Apply(held, pieces[0]), pieces[1..])
  }

  predicate Fits(held: Bytes, piece: Piece) {
    match piece
    case Append(buf) => !StartsWith(buf, LOCAL_HEADER_MAGIC)
    case Patch(offset, _) => offset < |held|
  }

  predicate PiecesFit(held: Bytes, pieces: seq<Piece>)
    decreases |pieces|
  {
    pieces == [] || (Fits(held, pieces[0]) && PiecesFit(Apply(held, pieces[0]), pieces[1..]))
  }

  predicate PlanFits(plan: EntryPlan) {
    StartsWith(plan.header, LOCAL_HEADER_MAGIC) && PiecesFit(plan.header, plan.pieces)
  }

  function Writes(bufs: seq<Bytes>): seq<Op> {
    if bufs == [] then [] else [Write(bufs[0])] + Writes(bufs[1..])
  }

  function PieceOps(start: nat, held: Bytes, piece: Piece): seq<Op> {
    match piece
    case Append(buf) => [Write(buf)]
    case Patch(offset, writes) =>
      [Seek(Start(start + offset))] + Writes(writes)
      + [Seek(Start(start + |Apply(held, piece)|))]
  }

  function PiecesOps(start: nat, held: Bytes, pieces: seq<Piece>): seq<Op>
    decreases |pieces|
  {
    if pieces == [] then []
    else PieceOps(start, held, pieces[0]) + PiecesOps(start, Apply(held, pieces[0]), pieces[1..])
  }

  function EntryOps(start: nat, plan: EntryPlan): seq<Op> {
    [Seek(Current(0)), Write(plan.header)] + PiecesOps(start, plan.header, plan.pieces)
  }

  function EntriesOps(start: nat, plans: seq<EntryPlan>): seq<Op>
    decreases |plans|
  {
    if plans == [] then []
    else
      EntryOps(start, plans[0])
      + EntriesOps(start + |Image(plans[0].header, plans[0].pieces)|, plans[1..])
  }

  function Images(plans: seq<EntryPlan>): seq<Bytes> {
    if plans == [] then [] else [Image(plans[0].header, plans[0].pieces)] + Images(plans[1..])
  }

  /** A whole container: its entries, the directory and end records, and the
      closing seek. */
  function ContainerOps(plans: seq<EntryPlan>, directory: seq<Bytes>): seq<Op> {
    EntriesOps(0, plans) + Writes(directory)
  }

  function Container(plans: seq<EntryPlan>, directory: seq<Bytes>): Bytes {
    Flat(Images(plans)) + Flat(directory)
  }

  lemma {:induction false} RunOn(t: Tracked, a: seq<Op>, b: seq<Op>)
    ensures TrackRun(t, a + b) == TrackRun(TrackRun(t, a), b)
    ensures Disciplined(t, a + b) == (Disciplined(t, a) && Disciplined(TrackRun(t, a), b))
    decreases |a|
  {
    if a == [] {
      assert a + b == b;
    } else {
      assert (a + b)[1..] == a[1..] + b;
      RunOn(Track(t, a[0]), a[1..], b);
    }
  }

  /** Plain writes: appended at the end, or laid over the open entry. */
  lemma {:induction false} WritesRun(t: Tracked, bufs: seq<Bytes>)
    requires Sound(t)
    ensures Disciplined(t, Writes(bufs))
    ensures TrackRun(t, Writes(bufs)) == TrackVectored(t, bufs)
    ensures TrackVectored(t, bufs).mem == MemoryWrite(t.mem, Flat(bufs))
    ensures TrackVectored(t, bufs).appending == t.appending
    ensures !t.appending || (t.entry.Some? && forall buf <- bufs :: !StartsWith(buf, LOCAL_HEADER_MAGIC))
            ==> TrackVectored(t, bufs).entry == t.entry
    decreases |bufs|
  {
    VectoredWritesAll(t, bufs);
    if bufs != [] {
      WriteKeepsSettled(t, bufs[0]);
      assert Writes(bufs)[1..] == Writes(bufs[1..]);
      WritesRun(TrackWrite(t, bufs[0]), bufs[1..]);
    }
  }

  /** The writer is at the end of the stream and `held` is what the open
      entry, begun after `before`, holds. */
  ghost predicate Holding(t: Tracked, before: Bytes, held: Bytes) {
    && t.mem == Memory(before + held, |before| + |held|)
    && t.entry == Some(|before|)
    && t.appending
  }

  lemma RunOne(t: Tracked, op: Op)
    ensures TrackRun(t, [op]) == Track(t, op)
    ensures Disciplined(t, [op]) == Allowed(t, op)
  {
    assert [op][1..] == [];
  }

  lemma PatchRuns(t: Tracked, before: Bytes, held: Bytes, offset: nat, writes: seq<Bytes>)
    requires Holding(t, before, held) && offset < |held|
    ensures var into := [Seek(Start(|before| + offset))] + Writes(writes);
      var t' := TrackRun(t, into);
      && Disciplined(t, into)
      && t'.mem.data == before + Overlay(held, offset, Flat(writes))
      && t'.entry == t.entry
  {
    var into := Seek(Start(|before| + offset));
    RunOne(t, into);
    var t1 := Track(t, into);
    WritesRun(t1, writes);
    OverlayBehind(before, held, |before| + offset, Flat(writes));
    RunOn(t, [into], Writes(writes));
  }

  lemma PieceRuns(t: Tracked, before: Bytes, held: Bytes, piece: Piece)
    requires Holding(t, before, held) && Fits(held, piece)
    ensures Disciplined(t, PieceOps(|before|, held, piece))
    ensures Holding(TrackRun(t, PieceOps(|before|, held, piece)), before, Apply(held, piece))
  {
    match piece
    case Append(buf) =>
      RunOne(t, Write(buf));
      OverlayAtEnd(t.mem.data, buf);
      assert before + held + buf == before + (held + buf);
    case Patch(offset, writes) =>
      PatchRuns(t, before, held, offset, writes);
      var into := [Seek(Start(|before| + offset))] + Writes(writes);
      var back := Seek(Start(|before| + |Apply(held, piece)|));
      RunOne(TrackRun(t, into), back);
      RunOn(t, into, [back]);
  }

  lemma {:induction false} PiecesRun(t: Tracked, before: Bytes, held: Bytes, pieces: seq<Piece>)
    requires Holding(t, before, held) && PiecesFit(held, pieces)
    ensures Disciplined(t, PiecesOps(|before|, held, pieces))
    ensures Holding(TrackRun(t, PiecesOps(|before|, held, pieces)), before, Image(held, pieces))
    decreases |pieces|
  {
    if pieces != [] {
      PieceRuns(t, before, held, pieces[0]);
      var ops := PieceOps(|before|, held, pieces[0]);
      PiecesRun(TrackRun(t, ops), before, Apply(held, pieces[0]), pieces[1..]);
      RunOn(t, ops, PiecesOps(|before|, Apply(held, pieces[0]), pieces[1..]));
    }
  }

  lemma EntryRuns(t: Tracked, plan: EntryPlan)
    requires Sound(t) && t.appending && PlanFits(plan)
    ensures var ops := EntryOps(|t.mem.data|, plan);
      && Disciplined(t, ops)
      && Holding(TrackRun(t, ops), t.mem.data, Image(plan.header, plan.pieces))
  {
    var ask, head := Seek(Current(0)), Write(plan.header);
    RunOne(t, ask);
    assert Track(t, ask) == t;
    RunOne(t, head);
    RunOn(t, [ask], [head]);
    assert [ask] + [head] == [ask, head];
    OverlayAtEnd(t.mem.data, plan.header);
    var t1 := TrackWrite(t, plan.header);
    PiecesRun(t1, t.mem.data, plan.header, plan.pieces);
    RunOn(t, [ask, head], PiecesOps(|t.mem.data|, plan.header, plan.pieces));
  }

  /** The writer is at the end of `data`, appending. */
  ghost predicate AtEnd(t: Tracked, data: Bytes) {
    Sound(t) && t.appending && t.mem.data == data
  }

  lemma EntryEnds(t: Tracked, plan: EntryPlan)
    requires AtEnd(t, t.mem.data) && PlanFits(plan)
    ensures var ops := EntryOps(|t.mem.data|, plan);
      Disciplined(t, ops) && AtEnd(TrackRun(t, ops), t.mem.data + Image(plan.header, plan.pieces))
  {
    EntryRuns(t, plan);
  }

  /** A session's operations leave the writer at the end of `data`. */
  ghost predicate EndsAt(t: Tracked, ops: seq<Op>, data: Bytes) {
    Disciplined(t, ops) && AtEnd(TrackRun(t, ops), data)
  }

  /** Two stretches of a session, one after the other. */
  lemma EndsThenEnds(t: Tracked, first: seq<Op>, t1: Tracked, second: seq<Op>, data: Bytes, image: Bytes, tail: Bytes)
    requires EndsAt(t, first, data + image) && t1 == TrackRun(t, first) && EndsAt(t1, second, (data + image) + tail)
    ensures EndsAt(t, first + second, data + (image + tail))
  {
    RunOn(t, first, second);
    assert (data + image) + tail == data + (image + tail);
  }

  lemma EntriesUnfold(start: nat, plans: seq<EntryPlan>, image: Bytes)
    requires plans != [] && image == Image(plans[0].header, plans[0].pieces)
    ensures EntriesOps(start, plans) == EntryOps(start, plans[0]) + EntriesOps(start + |image|, plans[1..])
    ensures Flat(Images(plans)) == image + Flat(Images(plans[1..]))
  {
    assert Images(plans)[1..] == Images(plans[1..]);
  }

  /** A session over `plans` and the bytes it leaves. */
  lemma {:induction false} EntriesRun(t: Tracked, plans: seq<EntryPlan>, data: Bytes) returns (ops: seq<Op>, bytes: Bytes)
    requires AtEnd(t, data) && forall p <- plans :: PlanFits(p)
    ensures ops == EntriesOps(|data|, plans) && bytes == Flat(Images(plans))
    ensures EndsAt(t, ops, data + bytes)
    decreases |plans|
  {
    if plans == [] {
      ops, bytes := [], [];
      assert data + bytes == data;
    } else {
      var first, image, t1 := OneEntryRuns(t, plans[0], data);
      var rest, tail := EntriesRun(t1, plans[1..], data + image);
      EndsThenEnds(t, first, t1, rest, data, image, tail);
      EntriesUnfold(|data|, plans, image);
      assert |data + image| == |data| + |image|;
      ops, bytes := first + rest, image + tail;
    }
  }

  lemma OneEntryRuns(t: Tracked, plan: EntryPlan, data: Bytes) returns (ops: seq<Op>, image: Bytes, t1: Tracked)
    requires AtEnd(t, data) && PlanFits(plan)
    ensures ops == EntryOps(|data|, plan) && image == Image(plan.header, plan.pieces)
    ensures EndsAt(t, ops, data + image) && t1 == TrackRun(t, ops) && AtEnd(t1, data + image)
  {
    ops, image := EntryOps(|data|, plan), Image(plan.header, plan.pieces);
    t1 := TrackRun(t, ops);
    EntryEnds(t, plan);
  }

  lemma EntriesThenDirectory(plans: seq<EntryPlan>, directory: seq<Bytes>)
    requires forall p <- plans :: PlanFits(p)
    ensures Disciplined(FRESH, ContainerOps(plans, directory))
    ensures TrackRun(FRESH, ContainerOps(plans, directory)).mem
            == Memory(Container(plans, directory), |Container(plans, directory)|)
  {
    var entries, bytes := EntriesRun(FRESH, plans, []);
    var t1 := TrackRun(FRESH, EntriesOps(0, plans));
    assert t1.mem.data == Flat(Images(plans));
    WritesRun(t1, directory);
    OverlayAtEnd(t1.mem.data, Flat(directory));
    RunOn(FRESH, EntriesOps(0, plans), Writes(directory));
  }

  /** The documented container session is disciplined, and its in-memory bytes
      are the patched entries followed by the directory. */
  lemma ContainerIsDisciplined(plans: seq<EntryPlan>, directory: seq<Bytes>)
    requires forall p <- plans :: PlanFits(p)
    ensures Disciplined(FRESH, ContainerOps(plans, directory) + [Seek(End(0))])
    ensures MemoryRun(Memory([], 0), ContainerOps(plans, directory) + [Seek(End(0))]).1.data
            == Container(plans, directory)
  {
    var ops, close := ContainerOps(plans, directory), Seek(End(0));
    EntriesThenDirectory(plans, directory);
    RunOne(TrackRun(FRESH, ops), close);
    RunOn(FRESH, ops, [close]);
    ReferenceNeverFails(FRESH, ops + [close]);
  }

  /** Streaming a container delivers its bytes, or stops at a prefix of them. */
  lemma ContainerStreams(room: nat, plans: seq<EntryPlan>, directory: seq<Bytes>)
    requires forall p <- plans :: PlanFits(p)
    ensures var (rs, b) := BufferRun(NewBuffer(Sink([], 0, room)), ContainerOps(plans, directory) + [Seek(End(0))]);
      && rs != []
      && (rs[|rs| - 1].Ok? ==> Flat(b.sink.chunks) == Container(plans, directory))
      && (rs[|rs| - 1].Fail? ==> Flat(b.sink.chunks) <= Container(plans, directory))
  {
    ContainerIsDisciplined(plans, directory);
    StreamedEqualsBuffered(room, ContainerOps(plans, directory));
    RunPiecesBounded(NewBuffer(Sink([], 0, room)), ContainerOps(plans, directory) + [Seek(End(0))]);
  }

  lemma WriteAllOnce(s: Sink, buf: Bytes)
    requires 0 < |buf| <= BODY_CHUNK_BYTES && s.room > 0
    ensures SinkWriteAll(s, buf) == (Ok(()), Sink(s.chunks + [buf], s.sent + |buf|, s.room - 1))
  {
    assert buf[..|buf|] == buf && buf[|buf|..] == [];
    var s' := SinkWrite(s, buf).1;
    assert SinkWriteAll(s', []) == (Ok(()), s');
  }

  /** Why payloads must not begin with the header magic: one that does is taken
      for a new entry, and the patch of the real header then lands on bytes
      already sent. */
  lemma MagicPayloadBreaksTheStream()
    ensures var w, back, seven, close := Write(LOCAL_HEADER_MAGIC), Seek(Start(0)), Write([7]), Seek(End(0));
      var b := BufferStep(BufferStep(BufferStep(BufferStep(BufferStep(
                 NewBuffer(Sink([], 0, 9)), w).1, w).1, back).1, seven).1, close).1;
      var m := MemoryStep(MemoryStep(MemoryStep(MemoryStep(MemoryStep(
                 Memory([], 0), w).1, w).1, back).1, seven).1, close).1;
      && !Allowed(Track(Track(FRESH, w), w), back)
      && |m.data| == 8
      && Flat(b.sink.chunks) == LOCAL_HEADER_MAGIC + LOCAL_HEADER_MAGIC + [7]
  {
    var magic := LOCAL_HEADER_MAGIC;
    var w, back, seven, close := Write(magic), Seek(Start(0)), Write([7]), Seek(End(0));
    var b1 := BufferStep(NewBuffer(Sink([], 0, 9)), w).1;
    assert b1 == Buffer(Sink([], 0, 9), magic, 0, true, 4, 0, false, 4);
    WriteAllOnce(b1.sink, magic);
    var s2 := Sink([magic], 4, 8);
    var b2 := BufferStep(b1, w).1;
    assert b2 == Buffer(s2, magic, 4, true, 8, 4, false, 4);
    var b4 := BufferStep(BufferStep(b2, back).1, seven).1;
    assert b4.entry == magic + [7] && b4.sink == s2;
    WriteAllOnce(s2, magic + [7]);
    var b5 := BufferStep(b4, close).1;
    assert b5.sink.chunks == [magic, magic + [7]];
    FlatSnoc([magic], magic + [7]);
    FlatSnoc([], magic);
    assert Flat(b5.sink.chunks) == magic + (magic + [7]);
  }
}
