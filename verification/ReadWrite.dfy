/** One simulated descriptor in memory: the cursor that its calls update in place, and the memory of the caller. */
module ReadWrite {
  import opened ByteOrder
  import opened TimedStream

  // ------------------------------------------------------------------ memory of the caller

  function Overwrite(mem: seq<byte>, at: nat, bytes: seq<byte>): (r: seq<byte>)
    requires at + |bytes| <= |mem|
    ensures |r| == |mem|
  {
    mem[..at] + bytes + mem[at + |bytes|..]
  }

  lemma OverwriteTwice(mem: seq<byte>, at: nat, a: seq<byte>, b: seq<byte>)
    requires at + |a| + |b| <= |mem|
    ensures Overwrite(Overwrite(mem, at, a), at + |a|, b) == Overwrite(mem, at, a + b)
  {
  }

  lemma OverwriteNothing(mem: seq<byte>, at: nat)
    requires at <= |mem|
    ensures Overwrite(mem, at, []) == mem
  {
  }

  /** memmove of bytes to address at of mem. */
  method CopyTo(mem: array<byte>, at: nat, bytes: seq<byte>)
    requires at + |bytes| <= mem.Length
    modifies mem
    ensures mem[..] == Overwrite(old(mem[..]), at, bytes)
  {
    forall i | 0 <= i < |bytes| {
      mem[at + i] := bytes[i];
    }
  }

  /** memmove of more bytes after those that were already copied over the initial memory mem0. */
  method CopyMore(mem: array<byte>, at: nat, total: nat, bytes: seq<byte>, ghost mem0: seq<byte>, ghost got: seq<byte>)
    requires total == |got| && at + |got| + |bytes| <= mem.Length == |mem0|
    requires mem[..] == Overwrite(mem0, at, got)
    modifies mem
    ensures mem[..] == Overwrite(mem0, at, got + bytes)
  {
    CopyTo(mem, at + total, bytes);
    OverwriteTwice(mem0, at, got, bytes);
  }

  /** How a call reports an outcome: the return value, and the caller's memory before and after. */
  ghost predicate Reports(out: Outcome, r: int, before: seq<byte>, at: nat, after: seq<byte>) {
    if out.Got? then r == |out.bytes| && at + r <= |before| && after == Overwrite(before, at, out.bytes)
    else r == -1 && after == before
  }

  // ------------------------------------------------------------------ one descriptor

  class ReadItem {
    var fd: int
    var buf: ReadBuffer
    var chunkId: nat
    var bytesRead: nat
    var lastTime: int
    var interval: int

    constructor ()
    {
      fd, buf, chunkId, bytesRead, lastTime, interval := 0, ReadBuffer(0, []), 0, 0, 0, 0;
    }

    function State(): Cursor
      reads this
    {
      Cursor(buf, chunkId, bytesRead, lastTime, interval)
    }

    /** The initialisation at the end of set_read_buffer. */
    method Start(fd: int, buf: ReadBuffer, now: int)
      modifies this
      ensures this.fd == fd && State() == Fresh(buf, now)
    {
      this.fd, this.buf, chunkId, bytesRead, lastTime := fd, buf, 0, 0, now;
      if buf.mode == REAL_INTERVAL && |buf.chunks| > 0 {
        interval := Nanos(buf.chunks[0].interval);
      } else {
        interval := 0;
      }
    }

    method HandleBufferNoRt(dst: array<byte>, at: nat, call: Call, callInterval: int) returns (r: int)
      requires State().Valid() && !State().AtEnd() && at + call.len <= dst.Length
      modifies this, dst
      ensures fd == old(fd) && State() == ChunkRead(old(State()), call, callInterval).0
      ensures Reports(ChunkRead(old(State()), call, callInterval).1, r, old(dst[..]), at, dst[..])
    {
      ghost var c := State();
      var refused := WaitForChunk(call, callInterval);
      if refused {
        ChunkReadRefuses(c, call, callInterval);
        return -1;
      }
      ChunkReadTakes(c, call, callInterval);
      r := TakeFromChunk(dst, at, call.len);
    }

    /** The wait at the start of a chunk, unless the call must not block. */
    method WaitForChunk(call: Call, callInterval: int) returns (refused: bool)
      requires !State().AtEnd()
      modifies `lastTime
      ensures var sleep := SleepTime(old(State()), callInterval);
              && (refused <==> sleep > 0 && call.dontWait)
              && lastTime == if sleep > 0 && !refused then call.now + sleep + call.oversleep else old(lastTime)
    {
      refused := false;
      if bytesRead == 0 {
        var sleeptime := 0;
        if buf.mode == BEFORE_INTERVAL {
          sleeptime := Nanos(buf.chunks[chunkId].interval);
        } else {
          sleeptime := Nanos(buf.chunks[chunkId].interval) - callInterval;
        }
        if sleeptime > 0 {
          if call.dontWait {
            return true;
          }
          lastTime := call.now + sleeptime + call.oversleep;
        }
      }
    }

    /** The copy out of the current chunk, which is used up or not. */
    method TakeFromChunk(dst: array<byte>, at: nat, len: nat) returns (transferred: nat)
      requires State().Valid() && !State().AtEnd() && at + len <= dst.Length
      modifies `chunkId, `bytesRead, dst
      ensures var data, br := buf.chunks[old(chunkId)].data, old(bytesRead);
              && transferred == Min(len, |data| - br)
              && dst[..] == Overwrite(old(dst[..]), at, data[br..br + transferred])
              && chunkId == (if br + transferred >= |data| then old(chunkId) + 1 else old(chunkId))
              && bytesRead == (if br + transferred >= |data| then 0 else br + transferred)
    {
      var curchunk := buf.chunks[chunkId];
      var bytesLeft := |curchunk.data| - bytesRead;
      transferred := Min(len, bytesLeft);
      CopyTo(dst, at, curchunk.data[bytesRead..bytesRead + transferred]);
      bytesRead := bytesRead + transferred;
      if bytesRead >= |curchunk.data| {
        chunkId := chunkId + 1;
        bytesRead := 0;
      }
    }

    method HandleBufferRt(dst: array<byte>, at: nat, call: Call, callInterval: int) returns (r: int)
      requires State().Valid() && !State().AtEnd() && at + call.len <= dst.Length
      modifies this, dst
      ensures fd == old(fd) && State() == RealRead(old(State()), call, callInterval).0
      ensures Reports(RealRead(old(State()), call, callInterval).1, r, old(dst[..]), at, dst[..])
    {
      interval := interval - callInterval;
      if interval > 0 {
        if call.dontWait {
          return -1;
        }
        lastTime := call.now + interval + call.oversleep;
        interval := 0;
      }
      ghost var got;
      r, got := DrainChunks(dst, at, call.len);
    }

    /** The copying loop of REAL mode. The loop index i stays equal to chunkId until the room is used up. */
    method DrainChunks(dst: array<byte>, at: nat, room: nat) returns (total: nat, ghost got: seq<byte>)
      requires State().Valid() && at + room <= dst.Length
      modifies `chunkId, `bytesRead, `interval, dst
      ensures Drained(chunkId, bytesRead, interval, got)
           == Drain(buf.chunks, old(chunkId), old(bytesRead), old(interval), room)
      ensures total == |got| <= room && dst[..] == Overwrite(old(dst[..]), at, got)
    {
      ghost var all, mem0 := ToDrain(room), dst[..];
      got := [];
      var len := room;
      total := 0;
      NoPrefix(all);
      var i := chunkId;
      while i < |buf.chunks|
        invariant State().Valid() && 0 <= len
        invariant i == chunkId || len == 0
        invariant total == |got| && total + len == room
        invariant dst[..] == Overwrite(mem0, at, got)
        invariant all == Prefixed(got, ToDrain(len))
        decreases |buf.chunks| - i
      {
        if len <= 0 {
          break;
        }
        var transferred, stop;
        transferred, stop, got := CopyChunk(dst, at, total, len, mem0, got);
        len := len - transferred;
        total := total + transferred;
        if stop {
          return;
        }
        i := i + 1;
      }
      NoMoreTurns(got, buf.chunks, chunkId, bytesRead, interval, len);
    }

    /** One turn of the loop: copy what fits of the current chunk behind what was copied over mem0, and advance. */
    method CopyChunk(dst: array<byte>, at: nat, total: nat, len: nat, ghost mem0: seq<byte>, ghost got: seq<byte>)
      returns (transferred: nat, stop: bool, ghost got': seq<byte>)
      requires State().Valid() && !State().AtEnd() && len > 0
      requires total == |got| && at + total + len <= dst.Length == |mem0| && dst[..] == Overwrite(mem0, at, got)
      modifies `chunkId, `bytesRead, `interval, dst
      ensures State().Valid() && transferred <= len && |got'| == |got| + transferred
      ensures dst[..] == Overwrite(mem0, at, got')
      ensures old(Prefixed(got, ToDrain(len))) == if stop then Drained(chunkId, bytesRead, interval, got')
                                                  else Prefixed(got', ToDrain(len - transferred))
      ensures !stop ==> chunkId == old(chunkId) + 1 || transferred == len
    {
      var data := buf.chunks[chunkId].data;
      transferred := Min(len, |data| - bytesRead);
      var bytes := data[bytesRead..bytesRead + transferred];
      CopyMore(dst, at, total, bytes, mem0, got);
      stop := Advance(transferred, len, got, bytes);
      got' := got + bytes;
    }

    function ToDrain(len: nat): Drained
      requires State().Valid()
      reads this
    {
      Drain(buf.chunks, chunkId, bytesRead, interval, len)
    }

    /** The cursor updates of one turn of the loop; stop is the break on a chunk that is not due. */
    method Advance(transferred: nat, len: nat, ghost got: seq<byte>, ghost bytes: seq<byte>) returns (stop: bool)
      requires State().Valid() && !State().AtEnd() && len > 0
      requires transferred == |bytes| == Min(len, |buf.chunks[chunkId].data| - bytesRead)
      requires bytes == buf.chunks[chunkId].data[bytesRead..bytesRead + transferred]
      modifies `chunkId, `bytesRead, `interval
      ensures State().Valid()
      ensures old(Prefixed(got, ToDrain(len))) == if stop then Drained(chunkId, bytesRead, interval, got + bytes)
                                                  else Prefixed(got + bytes, ToDrain(len - transferred))
      ensures !stop ==> chunkId == old(chunkId) + 1 || transferred == len
    {
      OneTurn(got, bytes, buf.chunks, chunkId, bytesRead, interval, len);
      stop := false;
      bytesRead := bytesRead + transferred;
      if bytesRead >= |buf.chunks[chunkId].data| {
        chunkId := chunkId + 1;
        bytesRead := 0;
        if chunkId < |buf.chunks| {
          interval := interval + Nanos(buf.chunks[chunkId].interval);
          stop := interval > 0;
        }
      }
    }
  }

  function Prefixed(got: seq<byte>, d: Drained): Drained {
    d.(bytes := got + d.bytes)
  }

  lemma NoPrefix(d: Drained)
    ensures Prefixed([], d) == d
  {
    assert [] + d.bytes == d.bytes;
  }

  /** One turn of the copying loop, seen from its specification. */
  lemma OneTurn(got: seq<byte>, bytes: seq<byte>, chunks: seq<Chunk>, k: nat, br: nat, interval: int, len: nat)
    requires k < |chunks| && br <= |chunks[k].data| && len > 0
    requires bytes == chunks[k].data[br..br + Min(len, |chunks[k].data| - br)]
    ensures var all, n := Prefixed(got, Drain(chunks, k, br, interval, len)), |bytes|;
            if br + n < |chunks[k].data| then
              n == len && all == Prefixed(got + bytes, Drain(chunks, k, br + n, interval, 0))
            else if k + 1 == |chunks| then
              all == Prefixed(got + bytes, Drain(chunks, k + 1, 0, interval, len - n))
            else
              var wait := interval + Nanos(chunks[k + 1].interval);
              all == if wait > 0 then Drained(k + 1, 0, wait, got + bytes)
                     else Prefixed(got + bytes, Drain(chunks, k + 1, 0, wait, len - n))
  {
    assert got + bytes + [] == got + bytes;
    if br + |bytes| == |chunks[k].data| && k + 1 < |chunks| && interval + Nanos(chunks[k + 1].interval) <= 0 {
      var d := Drain(chunks, k + 1, 0, interval + Nanos(chunks[k + 1].interval), len - |bytes|);
      assert got + (bytes + d.bytes) == (got + bytes) + d.bytes;
    }
  }

  /** The loop has no room or no chunk left. */
  lemma NoMoreTurns(got: seq<byte>, chunks: seq<Chunk>, k: nat, br: nat, interval: int, len: nat)
    requires k >= |chunks| || (len == 0 && br <= |chunks[k].data|)
    ensures Prefixed(got, Drain(chunks, k, br, interval, len)) == Drained(k, br, interval, got)
  {
    assert got + [] == got;
  }
}
