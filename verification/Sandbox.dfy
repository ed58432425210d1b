/** What the wrapped system calls do to a program under test: injected failures, replayed reads, accounting. */
module Sandbox {
  import opened Wrappers
  import opened ByteOrder
  import opened FailureMask
  import opened TimedStream
  import opened ReadWrite
  import opened FdEntries
  import opened FdTable

  /** A C object: its bytes, and whether its storage still exists. */
  class Block {
    const bytes: array<byte>
    var live: bool

    constructor (size: nat)
      ensures live && fresh(bytes) && bytes.Length == size && bytes[..] == seq(size, i => 0)
    {
      bytes := new byte[size](i => 0);
      live := true;
    }

    method StoreWord(at: nat, x: uint32)
      requires live && at + 4 <= bytes.Length
      modifies bytes
      ensures bytes[..] == Overwrite(old(bytes[..]), at, Store(x))
    {
      CopyTo(bytes, at, Store(x));
    }

    method LoadWord(at: nat) returns (x: uint32)
      requires live && at + 4 <= bytes.Length
      ensures x == Load(bytes[..][at..at + 4]) == Load(bytes[at..at + 4])
    {
      assert bytes[..][at..at + 4] == bytes[at..at + 4];
      x := Load(bytes[at..at + 4]);
    }
  }

  /** No call among the next n is injected to fail. */
  predicate NoneScheduled(mask: uint32, n: nat) {
    n == 0 || (NoneScheduled(mask, n - 1) && !Scheduled(mask, n - 1))
  }

  lemma {:induction false} NoneScheduledMeans(mask: uint32, n: nat)
    ensures NoneScheduled(mask, n) <==> forall j: nat :: j < n ==> !Scheduled(mask, j)
  {
    if n > 0 {
      NoneScheduledMeans(mask, n - 1);
    }
  }

  /** The mask after n calls none of which failed, and what the test of the next one tells. */
  lemma OneMoreCall(mask: uint32, n: nat)
    ensures Fail(After(mask, n)) <==> Scheduled(mask, n)
    ensures NoneScheduled(mask, n + 1) <==> NoneScheduled(mask, n) && !Fail(After(mask, n))
    ensures Next(After(mask, n)) == After(mask, n + 1)
  {
    MaskMeaning(mask, n);
  }

  lemma {:induction false} AfterAfter(mask: uint32, a: nat, b: nat)
    ensures After(After(mask, a), b) == After(mask, a + b)
  {
    if b > 0 {
      AfterAfter(mask, a, b - 1);
    }
  }

  /** The failures among a + b calls are those among the first a and those among the next b. */
  lemma {:induction false} NoneScheduledAmong(mask: uint32, a: nat, b: nat)
    ensures NoneScheduled(mask, a + b) <==> NoneScheduled(mask, a) && NoneScheduled(After(mask, a), b)
  {
    if b > 0 {
      NoneScheduledAmong(mask, a, b - 1);
      AfterAfter(mask, a, b - 1);
      MaskMeaning(After(mask, a), b - 1);
      MaskMeaning(mask, a + b - 1);
    }
  }

  /** Where a replayed descriptor stands: what it has delivered, what is still to come, and in how many chunks. */
  datatype Stream = Stream(past: seq<byte>, incoming: seq<byte>, pieces: nat)

  /** A cursor of a buffer that the sandbox accepts. */
  ghost predicate Live(c: Cursor) {
    Inside(c) && KnownMode(c.buf.mode)
  }

  /** A stream is the glued chunks cut at the position that get_bytes_read reports. */
  ghost predicate StreamOf(c: Cursor, s: Stream) {
    && Live(c)
    && s.past + s.incoming == Flat(c.buf.chunks)
    && |s.past| == BytesRead(c)
    && s.incoming == Remaining(c) && s.pieces == |c.buf.chunks| - c.chunkId
  }

  /** Only a mention of StreamOf opens this quantifier: the protocol proofs do not look into the chunks. */
  ghost predicate StreamsOf(cursors: map<int, Cursor>, streams: map<int, Stream>) {
    && cursors.Keys == streams.Keys
    && forall fd {:trigger StreamOf(cursors[fd], streams[fd])} :: fd in cursors ==> StreamOf(cursors[fd], streams[fd])
  }

  /** fd delivered the next bytes of its stream, and no other descriptor moved. */
  ghost predicate Delivers(before: map<int, Stream>, fd: int, got: seq<byte>, after: map<int, Stream>) {
    && fd in before && fd in after
    && before[fd].incoming == got + after[fd].incoming
    && before[fd].pieces >= after[fd].pieces
    && after == before[fd := Stream(before[fd].past + got, after[fd].incoming, after[fd].pieces)]
  }

  lemma DeliversNothing(streams: map<int, Stream>, fd: int)
    requires fd in streams
    ensures Delivers(streams, fd, [], streams)
  {
    assert streams[fd].past + [] == streams[fd].past;
  }

  lemma DeliversTwice(s: map<int, Stream>, fd: int, a: seq<byte>, s': map<int, Stream>,
                      b: seq<byte>, s'': map<int, Stream>)
    requires Delivers(s, fd, a, s') && Delivers(s', fd, b, s'')
    ensures Delivers(s, fd, a + b, s'')
  {
    Regroup(a, b, s''[fd].incoming);
    Regroup(s[fd].past, a, b);
  }

  /** A read of a live cursor, without the details of the modes. */
  lemma ReadStep(c: Cursor, call: Call) returns (got: seq<byte>)
    requires Live(c)
    ensures Read(c, call).1 == Got(got) || (Read(c, call).1 == WouldBlock && got == [] && call.dontWait)
    ensures |got| <= call.len
    ensures var c' := Read(c, call).0;
            Live(c') && c'.buf == c.buf && Remaining(c) == got + Remaining(c')
    ensures Read(c, call).0.chunkId >= c.chunkId
    ensures call.len > 0 && Remaining(c) != [] && !call.dontWait ==> got != [] || Read(c, call).0.chunkId > c.chunkId
  {
    ReadConserves(c, call);
    ReadStaysInside(c, call);
    ReadAdvances(c, call);
    got := Delivered(Read(c, call).1);
    if !Read(c, call).1.Got? {
      RefusalMovesNothing(c, call);
    }
  }

  lemma StreamAdvances(c: Cursor, c': Cursor, s: Stream, got: seq<byte>)
    requires StreamOf(c, s) && Live(c') && c'.buf == c.buf && Remaining(c) == got + Remaining(c')
    ensures StreamOf(c', Stream(s.past + got, Remaining(c'), |c'.buf.chunks| - c'.chunkId))
  {
    BytesReadIsPosition(c);
    BytesReadIsPosition(c');
    Regroup(s.past, got, Remaining(c'));
  }

  /** The failure masks of the monitored calls. */
  datatype Failures = Failures(accept: uint32, recv: uint32, send: uint32, malloc: uint32, close: uint32)

  /** How often each monitored call was made. */
  datatype Stats = Stats(accept: nat, recv: nat, send: nat, malloc: nat, close: nat)

  /** What the monitored calls return when a failure is injected; malloc returns NULL then. */
  datatype Injected = Injected(accept: int, recv: int, send: int, close: int)

  /** A byte that went out on a descriptor. */
  datatype Output = Output(fd: int, value: byte)

  function On(fd: int, bytes: seq<byte>): (out: seq<Output>)
    ensures |out| == |bytes|
  {
    seq(|bytes|, i requires 0 <= i < |bytes| => Output(fd, bytes[i]))
  }

  lemma OnAppend(sent: seq<Output>, fd: int, a: seq<byte>, b: seq<byte>)
    ensures sent + On(fd, a) + On(fd, b) == sent + On(fd, a + b)
  {
  }

  /** What went out on fd. */
  function BytesOn(sent: seq<Output>, fd: int): seq<byte> {
    if sent == [] then []
    else
      var last := sent[|sent| - 1];
      BytesOn(sent[..|sent| - 1], fd) + if last.fd == fd then [last.value] else []
  }

  lemma OneOutput(sent: seq<Output>, o: Output, fd: int)
    ensures BytesOn(sent + [o], fd) == BytesOn(sent, fd) + if o.fd == fd then [o.value] else []
  {
    assert (sent + [o])[..|sent|] == sent;
  }

  lemma OnLast(sent: seq<Output>, fd: int, bytes: seq<byte>, x: byte)
    ensures sent + On(fd, bytes + [x]) == sent + On(fd, bytes) + [Output(fd, x)]
  {
  }

  /** Output on fd adds to what went out on fd, and to no other descriptor. */
  lemma {:induction false} OutputOn(sent: seq<Output>, fd: int, bytes: seq<byte>, other: int)
    ensures BytesOn(sent + On(fd, bytes), other) == BytesOn(sent, other) + if other == fd then bytes else []
    decreases |bytes|
  {
    if bytes == [] {
      assert sent + On(fd, bytes) == sent;
    } else {
      var front, x := bytes[..|bytes| - 1], bytes[|bytes| - 1];
      assert bytes == front + [x];
      OutputOn(sent, fd, front, other);
      OnLast(sent, fd, front, x);
      OneOutput(sent + On(fd, front), Output(fd, x), other);
      Regroup(BytesOn(sent, other), front, [x]);
    }
  }

  /** A proper prefix of message went out on fd. */
  ghost predicate SentPart(before: seq<Output>, fd: int, message: seq<byte>, after: seq<Output>) {
    exists j :: 0 <= j < |message| && after == before + On(fd, message[..j])
  }

  lemma NothingSent(sent: seq<Output>, fd: int, message: seq<byte>)
    requires message != []
    ensures SentPart(sent, fd, message, sent)
  {
    assert sent == sent + On(fd, message[..0]);
  }

  /**
   What the outside world sees: the bytes that the real send has accepted, the open descriptors, the
   descriptors in the order of the close calls, how often a real call has failed, and how often malloc returned NULL.
   */
  datatype World = World(sent: seq<Output>, open: set<int>, closed: seq<int>, realErrors: nat, nulls: nat)

  class Kernel {
    const table: ReadFdTable
    const injected: Injected

    /** The descriptors that the next successful calls of accept return. */
    var pending: seq<nat>
    var failures: Failures
    var stats: Stats
    var world: World
    /** The heap blocks that are not freed yet. */
    ghost var heap: set<Block>
    /** The replayed descriptors and their streams. */
    ghost var streams: map<int, Stream>

    constructor (table: ReadFdTable, pending: seq<nat>, injected: Injected)
      requires table.Valid() && table.contents == []
      ensures Valid() && this.table == table && this.pending == pending && this.injected == injected
    {
      this.table, this.pending, this.injected := table, pending, injected;
      failures, stats, world := Failures(0, 0, 0, 0, 0), Stats(0, 0, 0, 0, 0), World([], {}, [], 0, 0);
      heap, streams := {}, map[];
    }

    /** Injected failures of recv, send and close look like errors of the real calls. */
    predicate InjectsErrors() {
      injected == Injected(injected.accept, -1, -1, -1)
    }

    /** What the next accept returns if no real error meets it: an injected result may be a descriptor, too. */
    function NextClient(): int
      reads `failures, `pending
    {
      if Fail(failures.accept) || pending == [] then injected.accept else pending[0]
    }

    /** Every registered descriptor has a live cursor, and streams tells where it stands. */
    ghost predicate Valid()
      reads `streams, table, table.repr
    {
      table.Valid() && StreamsOf(AsMap(table.contents), streams)
    }

    /** set_read_buffer for fd: its stream is the glued chunks, from the start. */
    method Register(fd: int, buf: ReadBuffer, now: int)
      requires Valid() && KnownMode(buf.mode)
      modifies `streams, table, table.repr
      ensures Valid() && fresh(table.repr - old(table.repr))
      ensures streams == old(streams)[fd := Stream([], Flat(buf.chunks), |buf.chunks|)]
    {
      ghost var c := Fresh(buf, now);
      BytesReadIsPosition(c);
      assert [] + Flat(buf.chunks) == Flat(buf.chunks)[0..] == Flat(buf.chunks);
      PutIsMapUpdate(table.contents, fd, c);
      var r := table.SetReadBuffer(fd, Some(buf), now, false);
      streams := streams[fd := Stream([], Flat(buf.chunks), |buf.chunks|)];
    }

    /** get_bytes_read tells how much of its stream fd has delivered. */
    method GetBytesRead(fd: int) returns (r: int)
      requires Valid()
      ensures r == if fd in streams then |streams[fd].past| else -1
    {
      assert fd in streams ==> StreamOf(AsMap(table.contents)[fd], streams[fd]);
      r := table.GetBytesRead(fd);
    }

    /**
     recv. When no failure is injected, a replayed descriptor returns the next bytes of its stream, or refuses if it
     must not block; any other one returns what the real call returns, and no stream moves. A blocking call with room
     gets bytes or past an empty chunk as long as bytes are left.
     */
    method Recv(fd: int, dst: Block, at: nat, len: nat, dontWait: bool) returns (r: int, ghost got: seq<byte>)
      requires Valid() && dst.live && at + len <= dst.bytes.Length
      modifies `failures, `stats, `streams, `world, table`contents, table.repr, dst.bytes
      ensures Valid()
      ensures if fd in old(streams) then Delivers(old(streams), fd, got, streams) else streams == old(streams)
      ensures stats == old(stats).(recv := old(stats).recv + 1)
      ensures failures == old(failures).(recv := Next(old(failures).recv))
      ensures |got| <= len && dst.bytes[..] == Overwrite(old(dst.bytes[..]), at, got)
      ensures if Fail(old(failures).recv) then r == injected.recv && got == [] else r == |got| || r == -1
      ensures r == -1 && !Fail(old(failures).recv) ==> got == [] && (fd !in old(streams) || dontWait)
      ensures world == if r == -1 && !Fail(old(failures).recv) && fd !in old(streams)
                       then old(world).(realErrors := old(world).realErrors + 1) else old(world)
      ensures !Fail(old(failures).recv) && fd in old(streams) && !dontWait && len > 0 && old(streams)[fd].incoming != []
              ==> got != [] || streams[fd].pieces < old(streams)[fd].pieces
    {
      stats := stats.(recv := stats.recv + 1);
      got := [];
      if Fail(failures.recv) {
        failures := failures.(recv := Next(failures.recv));
        assert dst.bytes[..] == Overwrite(dst.bytes[..], at, []);
        if fd in streams {
          DeliversNothing(streams, fd);
        }
        return injected.recv, got;
      }
      failures := failures.(recv := Next(failures.recv));
      var replayed := table.IsReadBuffered(fd);
      if replayed {
        r, got := Replay(fd, dst, at, len, dontWait);
      } else {
        r, got := RealRecv(dst, at, len);
      }
    }

    /** A real recv: it fails, or returns arbitrary bytes. */
    method RealRecv(dst: Block, at: nat, len: nat) returns (r: int, ghost got: seq<byte>)
      requires at + len <= dst.bytes.Length
      modifies `world, dst.bytes
      ensures |got| <= len && dst.bytes[..] == Overwrite(old(dst.bytes[..]), at, got)
      ensures r == |got| || (r == -1 && got == [])
      ensures world == old(world).(realErrors := old(world).realErrors + if r == -1 then 1 else 0)
    {
      var bytes: seq<byte>, failed: bool := *, *;
      if failed || |bytes| > len {
        world := world.(realErrors := world.realErrors + 1);
        got := [];
        assert dst.bytes[..] == Overwrite(dst.bytes[..], at, []);
        return -1, got;
      }
      CopyTo(dst.bytes, at, bytes);
      return |bytes|, bytes;
    }

    /** A read of the replayed stream, at any time and with any delay of the sleep. */
    method Replay(fd: int, dst: Block, at: nat, len: nat, dontWait: bool) returns (r: int, ghost got: seq<byte>)
      requires Valid() && fd in streams && at + len <= dst.bytes.Length
      modifies `streams, table`contents, table.repr, dst.bytes
      ensures Valid() && Delivers(old(streams), fd, got, streams)
      ensures |got| <= len && dst.bytes[..] == Overwrite(old(dst.bytes[..]), at, got)
      ensures r == |got| || (r == -1 && got == [] && dontWait)
      ensures len > 0 && old(streams)[fd].incoming != [] && !dontWait ==>
                got != [] || streams[fd].pieces < old(streams)[fd].pieces
    {
      var now: int, oversleep: nat := *, *;
      var call := Call(len, dontWait, now, oversleep);
      ghost var c := table.CursorOf(fd);
      assert StreamOf(AsMap(table.contents)[fd], streams[fd]);
      got := ReadStep(c, call);
      ghost var c' := Read(c, call).0;
      PutIsMapUpdate(table.contents, fd, c');
      StreamAdvances(c, c', streams[fd], got);
      OverwriteNothing(dst.bytes[..], at);
      r := table.HandleBuffer(fd, dst.bytes, at, call);
      streams := streams[fd := Stream(streams[fd].past + got, Remaining(c'), |c'.buf.chunks| - c'.chunkId)];
    }

    /** send: the injected result, or -1 when the real send fails, as on a closed descriptor, or at least one byte. */
    method Send(fd: int, src: Block, at: nat, len: nat) returns (r: int)
      requires src.live && at + len <= src.bytes.Length
      modifies `failures, `stats, `world
      ensures stats == old(stats).(send := old(stats).send + 1)
      ensures failures == old(failures).(send := Next(old(failures).send))
      ensures if Fail(old(failures).send) then r == injected.send
              else r == -1 || (fd in world.open && 0 <= r <= len && (len > 0 ==> r > 0))
      ensures world == if Fail(old(failures).send) then old(world)
                       else if r == -1 then old(world).(realErrors := old(world).realErrors + 1)
                       else old(world).(sent := old(world).sent + On(fd, src.bytes[at..at + r]))
    {
      stats := stats.(send := stats.send + 1);
      if Fail(failures.send) {
        failures := failures.(send := Next(failures.send));
        return injected.send;
      }
      failures := failures.(send := Next(failures.send));
      var refused: bool, accepted: nat := *, *;
      if refused || fd !in world.open {
        world := world.(realErrors := world.realErrors + 1);
        return -1;
      }
      r := if accepted > len then len else if accepted == 0 && len > 0 then 1 else accepted;
      world := world.(sent := world.sent + On(fd, src.bytes[at..at + r]));
    }

    /** accept: the injected result, or -1 when the real call fails, or the next descriptor, which is open then. */
    method Accept(sockfd: int) returns (fd: int)
      modifies `failures, `stats, `world, `pending
      ensures stats == old(stats).(accept := old(stats).accept + 1)
      ensures failures == old(failures).(accept := Next(old(failures).accept))
      ensures Fail(old(failures).accept) ==> fd == injected.accept && world == old(world) && pending == old(pending)
      ensures !Fail(old(failures).accept) && fd == -1 ==>
                world == old(world).(realErrors := old(world).realErrors + 1) && pending == old(pending)
      ensures !Fail(old(failures).accept) && fd != -1 ==>
                && old(pending) != [] && fd == old(pending)[0] && pending == old(pending)[1..]
                && world == old(world).(open := old(world).open + {fd})
    {
      stats := stats.(accept := stats.accept + 1);
      if Fail(failures.accept) {
        failures := failures.(accept := Next(failures.accept));
        return injected.accept;
      }
      failures := failures.(accept := Next(failures.accept));
      var refused: bool := *;
      if refused || pending == [] {
        world := world.(realErrors := world.realErrors + 1);
        return -1;
      }
      fd := pending[0];
      pending := pending[1..];
      world := world.(open := world.open + {fd});
    }

    /** malloc: a new block with arbitrary contents, or NULL. */
    method Malloc(size: nat) returns (b: Block?)
      modifies `failures, `stats, `world, `heap
      ensures stats == old(stats).(malloc := old(stats).malloc + 1)
      ensures failures == old(failures).(malloc := Next(old(failures).malloc))
      ensures Fail(old(failures).malloc) ==> b == null
      ensures world == old(world).(
                         nulls := old(world).nulls + if b == null then 1 else 0,
                         realErrors := old(world).realErrors +
                                       if b == null && !Fail(old(failures).malloc) then 1 else 0)
      ensures b == null ==> heap == old(heap)
      ensures b != null ==> fresh(b) && fresh(b.bytes) && b.live && b.bytes.Length == size && heap == old(heap) + {b}
    {
      stats := stats.(malloc := stats.malloc + 1);
      if Fail(failures.malloc) {
        failures := failures.(malloc := Next(failures.malloc));
        world := world.(nulls := world.nulls + 1);
        return null;
      }
      failures := failures.(malloc := Next(failures.malloc));
      var refused: bool := *;
      if refused {
        world := world.(realErrors := world.realErrors + 1, nulls := world.nulls + 1);
        return null;
      }
      b := new Block(size);
      var garbage: seq<byte> := *;
      if |garbage| <= size {
        CopyTo(b.bytes, 0, garbage);
      }
      heap := heap + {b};
    }

    /** free ends the life of a heap block; it may be called only once for each. */
    method Free(b: Block)
      requires b.live && b in heap
      modifies `heap, b`live
      ensures !b.live && heap == old(heap) - {b}
    {
      b.live := false;
      heap := heap - {b};
    }

    /** close: an injected failure leaves the descriptor open; after a real call it is gone. Closed ones are errors. */
    method Close(fd: int) returns (r: int)
      modifies `failures, `stats, `world
      ensures stats == old(stats).(close := old(stats).close + 1)
      ensures failures == old(failures).(close := Next(old(failures).close))
      ensures if Fail(old(failures).close) then r == injected.close
              else r == -1 || (r == 0 && fd in old(world).open)
      ensures world == old(world).(
                         closed := old(world).closed + [fd],
                         open := if Fail(old(failures).close) then old(world).open else old(world).open - {fd},
                         realErrors := old(world).realErrors + if r == -1 && !Fail(old(failures).close) then 1 else 0)
    {
      stats := stats.(close := stats.close + 1);
      world := world.(closed := world.closed + [fd]);
      if Fail(failures.close) {
        failures := failures.(close := Next(failures.close));
        return injected.close;
      }
      failures := failures.(close := Next(failures.close));
      var refused: bool := *;
      refused := refused || fd !in world.open;
      world := world.(open := world.open - {fd});
      if refused {
        world := world.(realErrors := world.realErrors + 1);
        return -1;
      }
      r := 0;
    }
  }
}
