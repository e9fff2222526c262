/** The streaming pair as it runs: a sink and a buffer whose fields are updated
    in place. Every method is proved to move the object exactly as the value
    functions of `ExportStream` move its abstract value, so the refinement
    proved there is a fact about these methods. */
module ExportBuffer {
  import opened Basics
  import opened ExportStream

  class ChunkSink {
    var chunks: seq<Bytes>
    var sent: nat
    var room: nat

    function View(): Sink
      reads this
    {
      Sink(chunks, sent, room)
    }

    constructor (room: nat)
      ensures View() == Sink([], 0, room)
    {
      chunks, sent, this.room := [], 0, room;
    }

    /** Queues at most one chunk of `buf` and reports how much it took. */
    method Write(buf: Bytes) returns (r: Io<nat>)
      modifies this
      ensures (r, View()) == SinkWrite(old(View()), buf)
    {
      if buf == [] {
        return Ok(0);
      }
      if room == 0 {
        return Fail(NotSent);
      }
      var take := Min(|buf|, BODY_CHUNK_BYTES);
      chunks, sent, room := chunks + [buf[..take]], sent + take, room - 1;
      return Ok(take);
    }

    /** Comes back for what one write left, until all is queued. */
    method WriteAll(buf: Bytes) returns (r: Io<()>)
      modifies this
      ensures (r, View()) == SinkWriteAll(old(View()), buf)
    {
      var rest := buf;
      while rest != []
        invariant SinkWriteAll(View(), rest) == SinkWriteAll(old(View()), buf)
        decreases |rest|
      {
        var taken := Write(rest);
        if taken.Fail? {
          return Fail(taken.error);
        }
        rest := rest[taken.value..];
      }
      return Ok(());
    }

    method Seek(pos: SeekFrom) returns (r: Io<nat>)
      ensures r == SinkSeek(View(), pos)
    {
      match pos {
        case Start(at) => r := if at == sent then Ok(at) else Fail(Rewrite);
        case Current(delta) => r := if delta == 0 then Ok(sent) else Fail(Unsupported);
        case End(delta) => r := if delta == 0 then Ok(sent) else Fail(Unsupported);
      }
    }
  }

  class EntryBuffer {
    const sink: ChunkSink
    var entry: Bytes
    var entryAt: nat
    var open: bool
    var cursor: nat
    var delivered: nat
    var patching: bool
    var peak: nat

    function View(): Buffer
      reads this, sink
    {
      Buffer(sink.View(), entry, entryAt, open, cursor, delivered, patching, peak)
    }

    constructor (sink: ChunkSink)
      ensures View() == NewBuffer(sink.View())
      ensures this.sink == sink
    {
      this.sink := sink;
      entry, entryAt, open := [], 0, false;
      cursor, delivered, patching, peak := 0, 0, false, 0;
    }

    method RememberPeak()
      modifies this
      ensures View() == Remember(old(View()))
    {
      peak := Max(peak, |entry|);
    }

    /** Hands the open entry to the destination and closes it. */
    method ReleaseEntry() returns (r: Io<()>)
      modifies this, sink
      ensures (r, View()) == Release(old(View()))
    {
      if !open {
        return Ok(());
      }
      RememberPeak();
      var taken := entry;
      entry := [];
      var at := sink.Seek(Start(delivered));
      if at.Fail? {
        return Fail(at.error);
      }
      r := sink.WriteAll(taken);
      if r.Fail? {
        return;
      }
      delivered := entryAt + |taken|;
      patching := false;
      open := false;
      return Ok(());
    }

    method Write(buf: Bytes) returns (r: Io<nat>)
      modifies this, sink
      ensures (r, View()) == BufferWrite(old(View()), buf)
    {
      if patching {
        var offset := if cursor >= entryAt then cursor - entryAt else 0;
        var end := offset + |buf|;
        if end > |entry| {
          entry := entry + seq(end - |entry|, _ => 0 as byte);
        }
        entry := entry[..offset] + buf + entry[end..];
        cursor := cursor + |buf|;
        RememberPeak();
        return Ok(|buf|);
      }
      if !open || (cursor >= delivered && StartsWith(buf, LOCAL_HEADER_MAGIC)) {
        var released := ReleaseEntry();
        if released.Fail? {
          return Fail(released.error);
        }
        open := true;
        entryAt := cursor;
      }
      entry := entry + buf;
      cursor := cursor + |buf|;
      RememberPeak();
      return Ok(|buf|);
    }

    method WriteVectored(bufs: seq<Bytes>) returns (r: Io<nat>)
      modifies this, sink
      ensures (r, View()) == BufferVectored(old(View()), bufs)
    {
      var total := 0;
      var i := 0;
      while i < |bufs|
        invariant 0 <= i <= |bufs|
        invariant var (whole, after) := BufferVectored(old(View()), bufs);
                  var (rest, after') := BufferVectored(View(), bufs[i..]);
                  after == after' && whole == if rest.Fail? then rest else Ok(total + rest.value)
      {
        assert bufs[i..][1..] == bufs[i + 1..];
        var written := Write(bufs[i]);
        if written.Fail? {
          return written;
        }
        total := total + written.value;
        i := i + 1;
      }
      return Ok(total);
    }

    method Seek(pos: SeekFrom) returns (r: Io<nat>)
      modifies this, sink
      ensures (r, View()) == BufferSeek(old(View()), pos)
    {
      match pos {
        case Start(at) =>
          patching := open && entryAt <= at < entryAt + |entry|;
          cursor := at;
          return Ok(at);
        case Current(delta) =>
          if cursor + delta < 0 {
            return Fail(InvalidInput);
          }
          var at: nat := cursor + delta;
          patching := open && entryAt <= at < entryAt + |entry|;
          cursor := at;
          return Ok(at);
        case End(delta) =>
          if delta != 0 {
            return Fail(Unsupported);
          }
          var released := ReleaseEntry();
          if released.Fail? {
            return Fail(released.error);
          }
          cursor := delivered;
          return Ok(delivered);
      }
    }

    /** The sink behind the buffer, once nothing is held: what an unfinished
        container left open is released first. */
    method IntoInner() returns (r: Io<ChunkSink>)
      modifies this, sink
      ensures r.Ok? == Release(old(View())).0.Ok?
      ensures View() == Release(old(View())).1
      ensures r.Ok? ==> r.value == sink
    {
      var released := ReleaseEntry();
      return if released.Fail? then Fail(released.error) else Ok(sink);
    }

    /** One operation of the writer, as the trait methods dispatch it. */
    method Step(op: Op) returns (r: Io<nat>)
      modifies this, sink
      ensures (r, View()) == BufferStep(old(View()), op)
    {
      match op {
        case Write(buf) => r := Write(buf);
        case Vectored(bufs) => r := WriteVectored(bufs);
        case Seek(to) => r := Seek(to);
        case Flush => r := Ok(0);
      }
    }
  }

  /** No operation of the session failed. */
  predicate Complete(rs: seq<Io<nat>>) {
    rs == [] || rs[|rs| - 1].Ok?
  }

  /** The rest of a session, run from here, ends as the whole one does. */
  ghost predicate Remaining(begun: Buffer, all: seq<Op>, now: Buffer, rest: seq<Op>) {
    && BufferRun(begun, all).1 == BufferRun(now, rest).1
    && Complete(BufferRun(begun, all).0) == Complete(BufferRun(now, rest).0)
  }

  lemma RemainingStep(b: Buffer, ops: seq<Op>)
    requires ops != []
    ensures var (r, b') := BufferStep(b, ops[0]);
      && (r.Ok? ==> Remaining(b, ops, b', ops[1..]))
      && (r.Fail? ==> BufferRun(b, ops).1 == b' && !Complete(BufferRun(b, ops).0))
  {
  }

  /** Drives a fresh pair through a container session; what the response has
      received is the container, or a prefix of it when the response stopped
      taking bytes. */
  method StreamContainer(room: nat, plans: seq<EntryPlan>, directory: seq<Bytes>) returns (sink: ChunkSink, complete: bool)
    requires forall p <- plans :: PlanFits(p)
    ensures fresh(sink)
    ensures complete ==> Flat(sink.chunks) == Container(plans, directory)
    ensures !complete ==> Flat(sink.chunks) <= Container(plans, directory)
  {
    sink := new ChunkSink(room);
    var buffer := new EntryBuffer(sink);
    ghost var begun := buffer.View();
    var ops := ContainerOps(plans, directory) + [Op.Seek(End(0))];
    ContainerStreams(room, plans, directory);
    var i := 0;
    assert ops[0..] == ops;
    while i < |ops|
      invariant 0 <= i <= |ops|
      invariant buffer.sink == sink && fresh(buffer) && fresh(sink)
      invariant Remaining(begun, ops, buffer.View(), ops[i..])
    {
      assert ops[i..][1..] == ops[i + 1..];
      RemainingStep(buffer.View(), ops[i..]);
      var r := buffer.Step(ops[i]);
      if r.Fail? {
        return sink, false;
      }
      i := i + 1;
    }
    return sink, true;
  }
}
