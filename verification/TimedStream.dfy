/**
 The read simulator as functions of a cursor, and the flat timed byte string it stands for.
 Times are in nanoseconds, chunk intervals in milliseconds.
 */
module TimedStream {
  import opened Wrappers
  import opened ByteOrder

  /** The nanoseconds of a chunk interval, which is given in milliseconds. */
  function Nanos(milliseconds: int): int {
    1_000_000 * milliseconds
  }

  const REAL_INTERVAL := 1
  const AFTER_INTERVAL := 2
  const BEFORE_INTERVAL := 3

  datatype Chunk = Chunk(interval: int, data: seq<byte>)

  datatype ReadBuffer = ReadBuffer(mode: int, chunks: seq<Chunk>)

  predicate KnownMode(mode: int) {
    mode == REAL_INTERVAL || mode == AFTER_INTERVAL || mode == BEFORE_INTERVAL
  }

  /** The mutable part of a read_item, with the buffer it walks over. */
  datatype Cursor = Cursor(buf: ReadBuffer, chunkId: nat, bytesRead: nat, lastTime: int, interval: int)
  {
    predicate Valid() {
      && chunkId <= |buf.chunks|
      && (chunkId < |buf.chunks| ==> bytesRead <= |buf.chunks[chunkId].data|)
      && (chunkId == |buf.chunks| ==> bytesRead == 0)
    }

    predicate AtEnd() {
      chunkId >= |buf.chunks|
    }
  }

  /**
   One call: the room in the caller's buffer, MSG_DONTWAIT, the clock at the start of the call,
   and by how much a sleep, if there is one, overshoots.
   */
  datatype Call = Call(len: nat, dontWait: bool, now: int, oversleep: nat)

  /** WouldBlock is -1 with EAGAIN; BadMode is the bare -1 of an unknown mode. */
  datatype Outcome = WouldBlock | BadMode | Got(bytes: seq<byte>)

  function Min(a: int, b: int): int {
    if a < b then a else b
  }

  // ------------------------------------------------------------------ what one call does

  datatype Drained = Drained(chunkId: nat, bytesRead: nat, interval: int, bytes: seq<byte>)

  /** The copying loop of the REAL mode, started in chunk k after br of its bytes. */
  function Drain(chunks: seq<Chunk>, k: nat, br: nat, interval: int, len: nat): (d: Drained)
    requires k < |chunks| ==> br <= |chunks[k].data|
    decreases |chunks| - k
  {
    if k >= |chunks| || len == 0 then Drained(k, br, interval, [])
    else
      var data := chunks[k].data;
      if br + len < |data| then Drained(k, br + len, interval, data[br..br + len])
      else if k + 1 == |chunks| then Drained(k + 1, 0, interval, data[br..])
      else
        var wait := interval + Nanos(chunks[k + 1].interval);
        if wait > 0 then Drained(k + 1, 0, wait, data[br..])
        else
          var rest := Drain(chunks, k + 1, 0, wait, len - (|data| - br));
          rest.(bytes := data[br..] + rest.bytes)
  }

  function RealRead(c: Cursor, call: Call, callInterval: int): (Cursor, Outcome)
    requires c.Valid() && !c.AtEnd()
  {
    var interval := c.interval - callInterval;
    if interval > 0 && call.dontWait then
      (c.(interval := interval), WouldBlock)
    else
      var c' := if interval > 0 then c.(interval := 0, lastTime := call.now + interval + call.oversleep)
                else c.(interval := interval);
      var d := Drain(c.buf.chunks, c.chunkId, c.bytesRead, c'.interval, call.len);
      (c'.(chunkId := d.chunkId, bytesRead := d.bytesRead, interval := d.interval), Got(d.bytes))
  }

  /** The time a BEFORE or AFTER read has to sleep first. */
  function SleepTime(c: Cursor, callInterval: int): int
    requires !c.AtEnd()
  {
    if c.bytesRead != 0 then 0
    else if c.buf.mode == BEFORE_INTERVAL then Nanos(c.buf.chunks[c.chunkId].interval)
    else Nanos(c.buf.chunks[c.chunkId].interval) - callInterval
  }

  function ChunkRead(c: Cursor, call: Call, callInterval: int): (Cursor, Outcome)
    requires c.Valid() && !c.AtEnd()
  {
    var sleep := SleepTime(c, callInterval);
    if sleep > 0 && call.dontWait then
      (c, WouldBlock)
    else
      var c' := if sleep > 0 then c.(lastTime := call.now + sleep + call.oversleep) else c;
      var data := c.buf.chunks[c.chunkId].data;
      var n := Min(call.len, |data| - c.bytesRead);
      var got := Got(data[c.bytesRead..c.bytesRead + n]);
      if c.bytesRead + n >= |data| then
        (c'.(chunkId := c.chunkId + 1, bytesRead := 0), got)
      else
        (c'.(bytesRead := c.bytesRead + n), got)
  }

  lemma ChunkReadRefuses(c: Cursor, call: Call, callInterval: int)
    requires c.Valid() && !c.AtEnd() && SleepTime(c, callInterval) > 0 && call.dontWait
    ensures ChunkRead(c, call, callInterval) == (c, WouldBlock)
  {
  }

  /** A BEFORE or AFTER read that is not refused, field by field. */
  lemma ChunkReadTakes(c: Cursor, call: Call, callInterval: int)
    requires c.Valid() && !c.AtEnd()
    requires SleepTime(c, callInterval) > 0 ==> !call.dontWait
    ensures var sleep, data := SleepTime(c, callInterval), c.buf.chunks[c.chunkId].data;
            var n := Min(call.len, |data| - c.bytesRead);
            var usedUp := c.bytesRead + n >= |data|;
            ChunkRead(c, call, callInterval)
            == (Cursor(c.buf, if usedUp then c.chunkId + 1 else c.chunkId, if usedUp then 0 else c.bytesRead + n,
                       if sleep > 0 then call.now + sleep + call.oversleep else c.lastTime, c.interval),
                Got(data[c.bytesRead..c.bytesRead + n]))
  {
  }

  /** One call to read_handle_buffer on a registered descriptor. */
  function Read(c: Cursor, call: Call): (Cursor, Outcome)
    requires c.Valid()
  {
    var callInterval := call.now - c.lastTime;
    var c' := c.(lastTime := call.now);
    if c.AtEnd() then (c', Got([]))
    else if c.buf.mode == BEFORE_INTERVAL || c.buf.mode == AFTER_INTERVAL then ChunkRead(c', call, callInterval)
    else if c.buf.mode == REAL_INTERVAL then RealRead(c', call, callInterval)
    else (c', BadMode)
  }

  /** The cursor that set_read_buffer installs at time now. */
  function Fresh(buf: ReadBuffer, now: int): (c: Cursor)
    ensures c.Valid()
  {
    Cursor(buf, 0, 0, now,
           if buf.mode == REAL_INTERVAL && |buf.chunks| > 0 then Nanos(buf.chunks[0].interval) else 0)
  }

  // ------------------------------------------------------------------ conservation of the byte stream

  /** The bytes of chunks k and after, glued together. */
  function FlatFrom(chunks: seq<Chunk>, k: nat): seq<byte>
    decreases |chunks| - k
  {
    if k >= |chunks| then [] else chunks[k].data + FlatFrom(chunks, k + 1)
  }

  function Flat(chunks: seq<Chunk>): seq<byte> {
    FlatFrom(chunks, 0)
  }

  /** What is left from byte br of chunk k on. */
  function Rest(chunks: seq<Chunk>, k: nat, br: nat): seq<byte>
    requires k < |chunks| ==> br <= |chunks[k].data|
  {
    if k >= |chunks| then [] else chunks[k].data[br..] + FlatFrom(chunks, k + 1)
  }

  /** What is still to be delivered. */
  function Remaining(c: Cursor): seq<byte>
    requires c.Valid()
  {
    Rest(c.buf.chunks, c.chunkId, c.bytesRead)
  }

  /** Total length of the first k chunks. */
  function LengthBefore(chunks: seq<Chunk>, k: nat): nat
    requires k <= |chunks|
  {
    if k == 0 then 0 else LengthBefore(chunks, k - 1) + |chunks[k - 1].data|
  }

  /** The position that get_bytes_read reports. */
  function BytesRead(c: Cursor): nat
    requires c.Valid()
  {
    LengthBefore(c.buf.chunks, c.chunkId) + c.bytesRead
  }

  function Delivered(o: Outcome): seq<byte> {
    if o.Got? then o.bytes else []
  }

  lemma {:induction false} FlatSplits(chunks: seq<Chunk>, k: nat)
    requires k <= |chunks|
    ensures LengthBefore(chunks, k) <= |Flat(chunks)|
    ensures Flat(chunks)[LengthBefore(chunks, k)..] == FlatFrom(chunks, k)
  {
    if k > 0 {
      FlatSplits(chunks, k - 1);
      var n, d := LengthBefore(chunks, k - 1), chunks[k - 1].data;
      assert Flat(chunks)[n..] == d + FlatFrom(chunks, k);
      assert Flat(chunks)[n + |d|..] == Flat(chunks)[n..][|d|..];
    }
  }

  /** get_bytes_read is the position in the glued stream: exactly what is left comes after it. */
  lemma BytesReadIsPosition(c: Cursor)
    requires c.Valid()
    ensures BytesRead(c) <= |Flat(c.buf.chunks)|
    ensures Flat(c.buf.chunks)[BytesRead(c)..] == Remaining(c)
  {
    FlatSplits(c.buf.chunks, c.chunkId);
    var n := LengthBefore(c.buf.chunks, c.chunkId);
    assert Flat(c.buf.chunks)[BytesRead(c)..] == Flat(c.buf.chunks)[n..][c.bytesRead..];
    if !c.AtEnd() {
      assert FlatFrom(c.buf.chunks, c.chunkId)[c.bytesRead..] == Remaining(c);
    }
  }

  lemma RestSplits(chunks: seq<Chunk>, k: nat, br: nat, n: nat)
    requires k < |chunks| && br + n <= |chunks[k].data|
    ensures Rest(chunks, k, br) == chunks[k].data[br..br + n] + Rest(chunks, k, br + n)
  {
    SliceThenRest(chunks[k].data, br, br + n, FlatFrom(chunks, k + 1));
  }

  lemma SliceThenRest(data: seq<byte>, i: nat, j: nat, tail: seq<byte>)
    requires i <= j <= |data|
    ensures data[i..] + tail == data[i..j] + (data[j..] + tail)
  {
    assert data[i..] == data[i..j] + data[j..];
  }

  lemma RestAtChunkEnd(chunks: seq<Chunk>, k: nat)
    requires k < |chunks|
    ensures Rest(chunks, k, |chunks[k].data|) == Rest(chunks, k + 1, 0)
  {
    assert chunks[k].data[|chunks[k].data|..] == [];
    assert [] + FlatFrom(chunks, k + 1) == FlatFrom(chunks, k + 1);
    if k + 1 < |chunks| {
      assert chunks[k + 1].data[0..] == chunks[k + 1].data;
    }
  }

  /** Where the copying loop may stand: inside a chunk, or after the last one. */
  ghost predicate Position(chunks: seq<Chunk>, k: nat, br: nat) {
    k <= |chunks| && if k < |chunks| then br <= |chunks[k].data| else br == 0
  }

  lemma RestOfChunk(chunks: seq<Chunk>, k: nat, br: nat)
    requires k < |chunks| && br <= |chunks[k].data|
    ensures Rest(chunks, k, br) == chunks[k].data[br..] + Rest(chunks, k + 1, 0)
  {
    if k + 1 < |chunks| {
      assert chunks[k + 1].data[0..] == chunks[k + 1].data;
    }
  }

  /** What the loop hands over and what is left then make up what was left before. */
  ghost predicate Splits(rest: seq<byte>, chunks: seq<Chunk>, d: Drained, len: nat) {
    && Position(chunks, d.chunkId, d.bytesRead)
    && |d.bytes| <= len
    && rest == d.bytes + Rest(chunks, d.chunkId, d.bytesRead)
  }

  /** The copying loop when the room ends inside chunk k. */
  lemma DrainWithin(chunks: seq<Chunk>, k: nat, br: nat, interval: int, len: nat)
    requires k < |chunks| && 0 < len && br + len < |chunks[k].data|
    ensures Drain(chunks, k, br, interval, len) == Drained(k, br + len, interval, chunks[k].data[br..br + len])
  {
  }

  lemma WithinSplits(chunks: seq<Chunk>, k: nat, br: nat, interval: int, len: nat)
    requires k < |chunks| && br + len < |chunks[k].data|
    ensures Splits(Rest(chunks, k, br), chunks, Drained(k, br + len, interval, chunks[k].data[br..br + len]), len)
  {
    SliceThenRest(chunks[k].data, br, br + len, FlatFrom(chunks, k + 1));
  }

  lemma NothingSplits(rest: seq<byte>)
    ensures rest == [] + rest
  {
  }

  /** The copying loop without a chunk or without room. */
  lemma DrainNothing(chunks: seq<Chunk>, k: nat, br: nat, interval: int, len: nat)
    requires Position(chunks, k, br) && (k == |chunks| || len == 0)
    ensures Drain(chunks, k, br, interval, len) == Drained(k, br, interval, [])
    ensures Splits(Rest(chunks, k, br), chunks, Drain(chunks, k, br, interval, len), len)
  {
    NothingSplits(Rest(chunks, k, br));
  }

  lemma {:induction false} DrainConserves(chunks: seq<Chunk>, k: nat, br: nat, interval: int, len: nat)
    requires Position(chunks, k, br)
    ensures Splits(Rest(chunks, k, br), chunks, Drain(chunks, k, br, interval, len), len)
    decreases |chunks| - k, 1
  {
    if k == |chunks| || len == 0 {
      DrainNothing(chunks, k, br, interval, len);
    } else if br + len < |chunks[k].data| {
      DrainWithin(chunks, k, br, interval, len);
      WithinSplits(chunks, k, br, interval, len);
    } else {
      DrainConservesAtChunkEnd(chunks, k, br, interval, len);
    }
  }

  /** The copying loop when it empties chunk k: it ends, or stops at a chunk that is not due, or goes on. */
  lemma DrainAtChunkEnd(chunks: seq<Chunk>, k: nat, br: nat, interval: int, len: nat)
    requires k < |chunks| && br <= |chunks[k].data| <= br + len && len > 0
    ensures var d, bytes := Drain(chunks, k, br, interval, len), chunks[k].data[br..];
            if k + 1 == |chunks| then d == Drained(k + 1, 0, interval, bytes)
            else
              var wait := interval + Nanos(chunks[k + 1].interval);
              if wait > 0 then d == Drained(k + 1, 0, wait, bytes)
              else
                var rest := Drain(chunks, k + 1, 0, wait, len - |bytes|);
                d == rest.(bytes := bytes + rest.bytes)
  {
  }

  lemma StopSplits(bytes: seq<byte>, chunks: seq<Chunk>, k: nat, interval: int, len: nat)
    requires k <= |chunks| && |bytes| <= len
    ensures Splits(bytes + Rest(chunks, k, 0), chunks, Drained(k, 0, interval, bytes), len)
  {
  }

  lemma PrependSplits(bytes: seq<byte>, rest: seq<byte>, chunks: seq<Chunk>, d: Drained, len: nat)
    requires Splits(rest, chunks, d, len)
    ensures Splits(bytes + rest, chunks, d.(bytes := bytes + d.bytes), |bytes| + len)
  {
    Regroup(bytes, d.bytes, Rest(chunks, d.chunkId, d.bytesRead));
  }

  lemma {:induction false} DrainConservesAtChunkEnd(chunks: seq<Chunk>, k: nat, br: nat, interval: int, len: nat)
    requires k < |chunks| && br <= |chunks[k].data| <= br + len && len > 0
    ensures Splits(Rest(chunks, k, br), chunks, Drain(chunks, k, br, interval, len), len)
    decreases |chunks| - k, 0
  {
    var bytes := chunks[k].data[br..];
    DrainAtChunkEnd(chunks, k, br, interval, len);
    RestOfChunk(chunks, k, br);
    if k + 1 == |chunks| {
      StopSplits(bytes, chunks, k + 1, interval, len);
    } else {
      var wait := interval + Nanos(chunks[k + 1].interval);
      if wait > 0 {
        StopSplits(bytes, chunks, k + 1, wait, len);
      } else {
        var room := len - |bytes|;
        DrainConserves(chunks, k + 1, 0, wait, room);
        PrependSplits(bytes, Rest(chunks, k + 1, 0), chunks, Drain(chunks, k + 1, 0, wait, room), room);
      }
    }
  }

  lemma RealReadConserves(c: Cursor, call: Call, callInterval: int)
    requires c.Valid() && !c.AtEnd()
    ensures var (c', out) := RealRead(c, call, callInterval);
            && c'.buf == c.buf && c'.Valid() && |Delivered(out)| <= call.len
            && Remaining(c) == Delivered(out) + Remaining(c')
  {
    var wait := c.interval - callInterval;
    DrainConserves(c.buf.chunks, c.chunkId, c.bytesRead, if wait > 0 then 0 else wait, call.len);
  }

  lemma ChunkReadConserves(c: Cursor, call: Call, callInterval: int)
    requires c.Valid() && !c.AtEnd()
    ensures var (c', out) := ChunkRead(c, call, callInterval);
            && c'.buf == c.buf && c'.Valid() && |Delivered(out)| <= call.len
            && Remaining(c) == Delivered(out) + Remaining(c')
  {
    if SleepTime(c, callInterval) > 0 && call.dontWait {
      ChunkReadRefuses(c, call, callInterval);
      NothingSplits(Remaining(c));
    } else {
      var chunks, k, br := c.buf.chunks, c.chunkId, c.bytesRead;
      var n := Min(call.len, |chunks[k].data| - br);
      ChunkReadTakes(c, call, callInterval);
      if br + n == |chunks[k].data| {
        assert chunks[k].data[br..br + n] == chunks[k].data[br..];
        RestOfChunk(chunks, k, br);
      } else {
        RestSplits(chunks, k, br, n);
      }
    }
  }

  /**
   Conservation: in every mode and whatever the clock shows, a read hands over exactly the
   next bytes of the glued stream and the cursor keeps exactly the others.
   */
  lemma ReadConserves(c: Cursor, call: Call)
    requires c.Valid()
    ensures Read(c, call).0.Valid() && Read(c, call).0.buf == c.buf
    ensures |Delivered(Read(c, call).1)| <= call.len
    ensures Remaining(c) == Delivered(Read(c, call).1) + Remaining(Read(c, call).0)
  {
    var callInterval := call.now - c.lastTime;
    var c' := c.(lastTime := call.now);
    if c.AtEnd() {
      assert Read(c, call) == (c', Got([]));
    } else if c.buf.mode == REAL_INTERVAL {
      assert Read(c, call) == RealRead(c', call, callInterval);
      RealReadConserves(c', call, callInterval);
    } else if KnownMode(c.buf.mode) {
      assert Read(c, call) == ChunkRead(c', call, callInterval);
      ChunkReadConserves(c', call, callInterval);
    }
  }

  /** The interval field when a REAL read that does not refuse starts copying. */
  function DueAtRead(c: Cursor, call: Call): int {
    var wait := c.interval - (call.now - c.lastTime);
    if wait > 0 then 0 else wait
  }

  /** A call that refuses to block, or meets an unknown mode, moves no byte. */
  lemma RefusalMovesNothing(c: Cursor, call: Call)
    requires c.Valid() && !Read(c, call).1.Got?
    ensures Read(c, call).0.chunkId == c.chunkId && Read(c, call).0.bytesRead == c.bytesRead
    ensures call.dontWait || !KnownMode(c.buf.mode)
  {
  }

  predicate NonEmptyChunks(chunks: seq<Chunk>) {
    forall i :: 0 <= i < |chunks| ==> chunks[i].data != []
  }

  /** The cursor has not used up its chunk; it may stand at the start of an empty one. */
  predicate Inside(c: Cursor) {
    c.Valid() && (c.bytesRead > 0 ==> c.bytesRead < |c.buf.chunks[c.chunkId].data|)
  }

  lemma {:induction false} DrainStaysInside(chunks: seq<Chunk>, k: nat, br: nat, interval: int, len: nat)
    requires k < |chunks| ==> br == 0 || br < |chunks[k].data|
    ensures var d := Drain(chunks, k, br, interval, len);
            d.chunkId < |chunks| ==> d.bytesRead == 0 || d.bytesRead < |chunks[d.chunkId].data|
    decreases |chunks| - k
  {
    if k < |chunks| && len > 0 && len >= |chunks[k].data| - br && k + 1 < |chunks| {
      var wait := interval + Nanos(chunks[k + 1].interval);
      if wait <= 0 {
        DrainStaysInside(chunks, k + 1, 0, wait, len - (|chunks[k].data| - br));
      }
    }
  }

  /** No call leaves a cursor behind the last byte of its chunk. */
  lemma ReadStaysInside(c: Cursor, call: Call)
    requires Inside(c)
    ensures Inside(Read(c, call).0) && Read(c, call).0.buf == c.buf
  {
    ReadConserves(c, call);
    if !c.AtEnd() && c.buf.mode == REAL_INTERVAL {
      DrainStaysInside(c.buf.chunks, c.chunkId, c.bytesRead, DueAtRead(c, call), call.len);
    }
  }

  /** The loop never goes back, and with room it gets bytes or past an empty chunk. */
  lemma {:induction false} DrainAdvances(chunks: seq<Chunk>, k: nat, br: nat, interval: int, len: nat)
    requires k < |chunks| && (br == 0 || br < |chunks[k].data|)
    ensures Drain(chunks, k, br, interval, len).chunkId >= k
    ensures var d := Drain(chunks, k, br, interval, len);
            len > 0 ==> d.bytes != [] || d.chunkId > k
    decreases |chunks| - k
  {
    if len > 0 {
      if br + len < |chunks[k].data| {
        DrainWithin(chunks, k, br, interval, len);
      } else {
        DrainAtChunkEnd(chunks, k, br, interval, len);
        if k + 1 < |chunks| {
          DrainAdvances(chunks, k + 1, 0, interval + Nanos(chunks[k + 1].interval), len - (|chunks[k].data| - br));
        }
      }
    } else {
      DrainNothing(chunks, k, br, interval, len);
    }
  }

  /** A read that is not refused gets bytes or past an empty chunk, unless nothing is left or there is no room. */
  lemma ReadAdvances(c: Cursor, call: Call)
    requires Inside(c)
    ensures Read(c, call).0.chunkId >= c.chunkId
    ensures call.len > 0 && Read(c, call).1.Got? && !c.AtEnd() ==>
              Read(c, call).1.bytes != [] || Read(c, call).0.chunkId > c.chunkId
  {
    if !c.AtEnd() && c.buf.mode == REAL_INTERVAL {
      DrainAdvances(c.buf.chunks, c.chunkId, c.bytesRead, DueAtRead(c, call), call.len);
    }
  }

  /** Without empty chunks, a successful read with room returns nothing only at the end of the stream. */
  lemma ReadMakesProgress(c: Cursor, call: Call)
    requires Inside(c) && NonEmptyChunks(c.buf.chunks)
    requires call.len > 0 && Read(c, call).1 == Got([])
    ensures Remaining(c) == []
  {
  }

  /** The cursor after one call; unlike Read, total on valid cursors and staying valid. */
  function Advanced(c: Cursor, call: Call): (c': Cursor)
    requires c.Valid()
    ensures c'.Valid() && c'.buf == c.buf
  {
    ReadConserves(c, call);
    Read(c, call).0
  }

  /** The cursor after a run of calls. */
  function RunEnd(c: Cursor, calls: seq<Call>): (c': Cursor)
    requires c.Valid()
    ensures c'.Valid() && c'.buf == c.buf
    decreases |calls|
  {
    if calls == [] then c else RunEnd(Advanced(c, calls[0]), calls[1..])
  }

  /** Everything that a run of calls hands over. */
  function RunBytes(c: Cursor, calls: seq<Call>): seq<byte>
    requires c.Valid()
    decreases |calls|
  {
    if calls == [] then [] else Delivered(Read(c, calls[0]).1) + RunBytes(Advanced(c, calls[0]), calls[1..])
  }

  lemma {:induction false} RunConserves(c: Cursor, calls: seq<Call>)
    requires c.Valid()
    ensures Remaining(c) == RunBytes(c, calls) + Remaining(RunEnd(c, calls))
    decreases |calls|
  {
    if calls != [] {
      ReadConserves(c, calls[0]);
      RunConserves(Advanced(c, calls[0]), calls[1..]);
    }
  }

  /**
   Stream conservation over whole runs: from the registration of a buffer, any calls in any mode
   together return the prefix of the glued chunks whose length get_bytes_read reports.
   */
  lemma StreamConservation(buf: ReadBuffer, now: int, calls: seq<Call>)
    ensures var c, bytes := RunEnd(Fresh(buf, now), calls), RunBytes(Fresh(buf, now), calls);
            && BytesRead(c) == |bytes| <= |Flat(buf.chunks)|
            && bytes == Flat(buf.chunks)[..BytesRead(c)]
  {
    var c0 := Fresh(buf, now);
    RunConserves(c0, calls);
    BytesReadIsPosition(c0);
    BytesReadIsPosition(RunEnd(c0, calls));
    assert Flat(buf.chunks)[0..] == Flat(buf.chunks);
  }

  // ------------------------------------------------------------------ the other two modes

  /** When the current chunk becomes readable: counted from this call in BEFORE mode, from the last in AFTER mode. */
  function Deadline(c: Cursor, now: int): int
    requires c.Valid() && !c.AtEnd()
  {
    (if c.buf.mode == BEFORE_INTERVAL then now else c.lastTime) + Nanos(c.buf.chunks[c.chunkId].interval)
  }

  /**
   BEFORE and AFTER hand over at most one chunk per call, and the start of a chunk only at its deadline: a call that
   comes earlier is refused if it must not block, and otherwise sleeps until then.
   */
  lemma ChunkModesMeetDeadline(c: Cursor, call: Call)
    requires c.Valid() && !c.AtEnd() && (c.buf.mode == BEFORE_INTERVAL || c.buf.mode == AFTER_INTERVAL)
    ensures var early := c.bytesRead == 0 && Deadline(c, call.now) > call.now;
            var data := c.buf.chunks[c.chunkId].data;
            Read(c, call).1 == (if early && call.dontWait then WouldBlock
                                else Got(data[c.bytesRead..c.bytesRead + Min(call.len, |data| - c.bytesRead)]))
    ensures var early := c.bytesRead == 0 && Deadline(c, call.now) > call.now;
            Read(c, call).0.lastTime
            == (if early && !call.dontWait then Deadline(c, call.now) + call.oversleep else call.now)
  {
    assert SleepTime(c.(lastTime := call.now), call.now - c.lastTime)
        == if c.bytesRead != 0 then 0 else Deadline(c, call.now) - call.now;
  }

  ghost predicate Polls(calls: seq<Call>) {
    forall i :: 0 <= i < |calls| ==> calls[i].dontWait && calls[i].len > 0
  }

  /** Each call comes less than gap after the one before, the first less than gap after since. */
  ghost predicate Within(calls: seq<Call>, since: int, gap: int)
    decreases |calls|
  {
    calls != [] ==> calls[0].now - since < gap && Within(calls[1..], calls[0].now, gap)
  }

  /** A poll at the start of a chunk that is not empty: refused iff it comes before the deadline. */
  lemma PollAtChunkStart(c: Cursor, poll: Call)
    requires c.Valid() && !c.AtEnd() && c.bytesRead == 0 && c.buf.chunks[c.chunkId].data != []
    requires c.buf.mode == BEFORE_INTERVAL || c.buf.mode == AFTER_INTERVAL
    requires poll.dontWait && poll.len > 0
    ensures if Deadline(c, poll.now) > poll.now then Read(c, poll) == (c.(lastTime := poll.now), WouldBlock)
            else Delivered(Read(c, poll).1) != []
  {
    ChunkModesMeetDeadline(c, poll);
  }

  /**
   Unlike REAL, AFTER lets polling postpone data. At the start of a chunk that is not empty, polls with room get
   nothing iff each of them comes within the interval of the call before it.
   */
  lemma {:induction false} PollingStarves(c: Cursor, calls: seq<Call>)
    requires c.Valid() && !c.AtEnd() && c.bytesRead == 0 && c.buf.chunks[c.chunkId].data != []
    requires c.buf.mode == AFTER_INTERVAL && Polls(calls)
    ensures RunBytes(c, calls) == [] <==> Within(calls, c.lastTime, Nanos(c.buf.chunks[c.chunkId].interval))
    decreases |calls|
  {
    if calls != [] {
      PollAtChunkStart(c, calls[0]);
      if Deadline(c, calls[0].now) > calls[0].now {
        PollingStarves(Advanced(c, calls[0]), calls[1..]);
      }
    }
  }

  /** BEFORE is worse: polls get nothing iff the interval is positive, however far apart they are. */
  lemma {:induction false} PollingBeforeStarves(c: Cursor, calls: seq<Call>)
    requires c.Valid() && !c.AtEnd() && c.bytesRead == 0 && c.buf.chunks[c.chunkId].data != []
    requires c.buf.mode == BEFORE_INTERVAL && Polls(calls) && calls != []
    ensures RunBytes(c, calls) == [] <==> c.buf.chunks[c.chunkId].interval > 0
    decreases |calls|
  {
    PollAtChunkStart(c, calls[0]);
    if c.buf.chunks[c.chunkId].interval > 0 && |calls| > 1 {
      PollingBeforeStarves(Advanced(c, calls[0]), calls[1..]);
    }
  }

  /** n polls with room for one byte, step nanoseconds apart. */
  function PollsEvery(step: int, since: int, n: nat): seq<Call>
    decreases n
  {
    if n == 0 then [] else [Call(1, true, since + step, 0)] + PollsEvery(step, since + step, n - 1)
  }

  lemma {:induction false} PollsEveryWithin(step: int, since: int, n: nat, gap: int)
    requires step < gap
    ensures |PollsEvery(step, since, n)| == n && Polls(PollsEvery(step, since, n))
    ensures Within(PollsEvery(step, since, n), since, gap)
    ensures n > 0 ==> PollsEvery(step, since, n)[n - 1].now == since + n * step
    decreases n
  {
    if n > 0 {
      PollsEveryWithin(step, since + step, n - 1, gap);
    }
  }

  /**
   An input on which AFTER departs from its documentation: a byte that is readable 10 ms after time 0 is never
   delivered to a program that polls every 9 ms, although the last of n polls comes at 9 * n ms.
   */
  lemma PollingEveryNineStarves(n: nat)
    requires n > 0
    ensures var c, calls := Fresh(ReadBuffer(2, [Chunk(10, [0])]), 0), PollsEvery(9_000_000, 0, n);
            RunBytes(c, calls) == [] && |calls| == n && calls[n - 1].now == n * 9_000_000
  {
    var c := Fresh(ReadBuffer(AFTER_INTERVAL, [Chunk(10, [0])]), 0);
    PollsEveryWithin(9_000_000, 0, n, Nanos(10));
    PollingStarves(c, PollsEvery(9_000_000, 0, n));
  }

  /**
   The waits in nanoseconds, with the numbers of the modes: the first poll of a buffer registered at time start, t
   later, is refused iff the first interval, in milliseconds, is not over (1, 2), or is positive (3).
   */
  lemma FirstPoll(buf: ReadBuffer, start: int, t: int, poll: Call)
    requires buf.chunks != [] && poll.dontWait && poll.now == start + t
    ensures var out, interval := Read(Fresh(buf, start), poll).1, buf.chunks[0].interval;
            && (buf.mode == 1 || buf.mode == 2 ==> (out == WouldBlock <==> t < 1_000_000 * interval))
            && (buf.mode == 3 ==> (out == WouldBlock <==> interval > 0))
            && (out == BadMode <==> buf.mode != 1 && buf.mode != 2 && buf.mode != 3)
  {
  }

  /** When the start of a chunk can be read in these modes, in nanoseconds: counted from the last call, or this one. */
  lemma DeadlineInNanoseconds(c: Cursor, now: int)
    requires c.Valid() && !c.AtEnd()
    ensures c.buf.mode == 2 ==> Deadline(c, now) == c.lastTime + 1_000_000 * c.buf.chunks[c.chunkId].interval
    ensures c.buf.mode == 3 ==> Deadline(c, now) == now + 1_000_000 * c.buf.chunks[c.chunkId].interval
  {
  }

  /** A read with room in one of these modes returns nothing iff nothing is left or the current chunk is empty. */
  lemma EmptyReadInChunkModes(c: Cursor, call: Call)
    requires Inside(c) && (c.buf.mode == BEFORE_INTERVAL || c.buf.mode == AFTER_INTERVAL)
    requires call.len > 0 && Read(c, call).1.Got?
    ensures Read(c, call).1.bytes == [] <==> c.AtEnd() || c.buf.chunks[c.chunkId].data == []
  {
    if !c.AtEnd() {
      ChunkModesMeetDeadline(c, call);
    }
  }
}
