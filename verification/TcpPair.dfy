/** The TCP client and server of the exercise, run inside the sandbox. */
module TcpPair {
  import opened ByteOrder
  import opened FailureMask
  import opened TimedStream
  import opened ReadWrite
  import opened SumOfInts
  import opened Sandbox
  import FdTable

  /** An integer that the caller passes by address. */
  class Cell {
    var value: uint32

    constructor (value: uint32)
      ensures this.value == value
    {
      this.value := value;
    }
  }

  // ------------------------------------------------------------------ the loops around send and recv

  /**
   The do-while loops that send count bytes of src. They stop at the first -1; the peer has then been sent a proper
   prefix, which may be empty.
   */
  method SendAll(k: Kernel, fd: int, src: Block, count: nat) returns (ok: bool, ghost calls: nat)
    requires fd in k.world.open && src.live && 0 < count <= src.bytes.Length && k.injected.send == -1
    modifies k`failures, k`stats, k`world
    ensures calls > 0 && k.stats == old(k.stats).(send := old(k.stats).send + calls)
    ensures k.failures == old(k.failures).(send := After(old(k.failures).send, calls))
    ensures k.world == old(k.world).(sent := k.world.sent, realErrors := k.world.realErrors)
    ensures k.world.realErrors >= old(k.world).realErrors
    ensures ok <==> NoneScheduled(old(k.failures).send, calls) && k.world.realErrors == old(k.world).realErrors
    ensures if ok then k.world.sent == old(k.world).sent + On(fd, src.bytes[..count])
            else SentPart(old(k.world).sent, fd, src.bytes[..count], k.world.sent)
  {
    var sentBytes := 0;
    calls := 0;
    ghost var mask, sent0, message := k.failures.send, k.world.sent, src.bytes[..count];
    assert sent0 == sent0 + On(fd, message[..0]);
    while true
      invariant 0 <= sentBytes < count
      invariant k.stats == old(k.stats).(send := old(k.stats).send + calls)
      invariant k.failures == old(k.failures).(send := After(mask, calls))
      invariant k.world == old(k.world).(sent := sent0 + On(fd, message[..sentBytes]))
      invariant NoneScheduled(mask, calls)
      decreases count - sentBytes
    {
      OneMoreCall(mask, calls);
      var s := k.Send(fd, src, sentBytes, count - sentBytes);
      calls := calls + 1;
      if s == -1 {
        return false, calls;
      }
      SliceOfPrefix(src.bytes[..], count, sentBytes, sentBytes + s);
      SentMore(sent0, fd, message, sentBytes, sentBytes + s);
      sentBytes := sentBytes + s;
      if sentBytes == count {
        assert message[..count] == message;
        return true, calls;
      }
    }
  }

  lemma SentMore(sent: seq<Output>, fd: int, message: seq<byte>, i: nat, j: nat)
    requires i <= j <= |message|
    ensures sent + On(fd, message[..i]) + On(fd, message[i..j]) == sent + On(fd, message[..j])
  {
    OnAppend(sent, fd, message[..i], message[i..j]);
    assert message[..i] + message[i..j] == message[..j];
  }

  /** One turn of a receiving loop, which has put got at the start of dst, over the memory mem0. */
  method RecvMore(k: Kernel, fd: int, dst: Block, at: nat, len: nat, ghost streams0: map<int, Stream>,
                  ghost mem0: seq<byte>, ghost got: seq<byte>, ghost mask: uint32, ghost calls: nat)
    returns (r: int, ghost got': seq<byte>)
    requires k.Valid() && Delivers(streams0, fd, got, k.streams) && fd in k.world.open
    requires dst.live && at == |got| && at + len <= dst.bytes.Length == |mem0|
    requires dst.bytes[..] == Overwrite(mem0, 0, got)
    requires k.injected.recv == -1
    requires k.failures.recv == After(mask, calls) && NoneScheduled(mask, calls)
    modifies k`failures, k`stats, k`streams, k`world, k.table`contents, k.table.repr, dst.bytes
    ensures k.Valid() && Delivers(streams0, fd, got', k.streams)
    ensures |got'| <= at + len && dst.bytes[..] == Overwrite(mem0, 0, got')
    ensures k.stats == old(k.stats).(recv := old(k.stats).recv + 1)
    ensures k.failures == old(k.failures).(recv := After(mask, calls + 1))
    ensures k.world == old(k.world)
    ensures r == -1 <==> !NoneScheduled(mask, calls + 1)
    ensures if r == -1 then got' == got else 0 <= r <= len && |got'| == at + r
    ensures k.streams[fd].pieces <= old(k.streams)[fd].pieces
    ensures r != -1 && len > 0 && |got| < |streams0[fd].incoming| ==>
              r > 0 || k.streams[fd].pieces < old(k.streams)[fd].pieces
  {
    OneMoreCall(mask, calls);
    ghost var more;
    r, more := k.Recv(fd, dst, at, len, false);
    OverwriteTwice(mem0, 0, got, more);
    DeliversTwice(streams0, fd, got, old(k.streams), more, k.streams);
    got' := got + more;
  }

  /**
   The do-while loops that receive count bytes into dst, while at least that many are outstanding.
   A count of 0 takes exactly one call. When an injected failure stops the loop, the stream has
   advanced by what the earlier calls returned.
   */
  method RecvAll(k: Kernel, fd: int, dst: Block, count: nat)
    returns (ok: bool, ghost got: seq<byte>, ghost calls: nat)
    requires k.Valid() && fd in k.streams && fd in k.world.open && dst.live && count <= dst.bytes.Length
    requires |k.streams[fd].incoming| >= count && k.injected.recv == -1
    modifies k`failures, k`stats, k`streams, k`world, k.table`contents, k.table.repr, dst.bytes
    ensures k.Valid() && Delivers(old(k.streams), fd, got, k.streams)
    ensures |got| <= dst.bytes.Length && dst.bytes[..] == Overwrite(old(dst.bytes[..]), 0, got)
    ensures calls > 0 && k.stats == old(k.stats).(recv := old(k.stats).recv + calls)
    ensures k.failures == old(k.failures).(recv := After(old(k.failures).recv, calls))
    ensures k.world == old(k.world)
    ensures ok <==> NoneScheduled(old(k.failures).recv, calls)
    ensures if ok then |got| == count else |got| < count || count == |got| == 0
  {
    got := [];
    var recvBytes := 0;
    calls := 0;
    ghost var mask, streams0, mem0 := k.failures.recv, k.streams, dst.bytes[..];
    DeliversNothing(k.streams, fd);
    while true
      invariant recvBytes == |got| && (recvBytes < count || count == recvBytes == 0)
      invariant k.Valid() && Delivers(streams0, fd, got, k.streams)
      invariant dst.bytes[..] == Overwrite(mem0, 0, got)
      invariant k.stats == old(k.stats).(recv := old(k.stats).recv + calls)
      invariant k.failures == old(k.failures).(recv := After(mask, calls))
      invariant k.world == old(k.world) && NoneScheduled(mask, calls)
      decreases count - recvBytes, k.streams[fd].pieces
    {
      var r;
      r, got := RecvMore(k, fd, dst, recvBytes, count - recvBytes, streams0, mem0, got, mask, calls);
      calls := calls + 1;
      if r == -1 {
        return false, got, calls;
      }
      recvBytes := recvBytes + r;
      if recvBytes == count {
        return true, got, calls;
      }
    }
  }

  /**
   The first turns of a receiving loop that waits for more bytes than the peer will ever send, when no failure is
   injected: after any number of turns the loop has not ended, and recv has returned all there is, or each turn has
   got bytes or past a chunk. So RecvAll's demand on the stream is what the loop needs to end.
   */
  method RecvNeverEnds(k: Kernel, fd: int, dst: Block, count: nat, turns: nat)
    returns (recvBytes: nat, ghost got: seq<byte>)
    requires k.Valid() && fd in k.streams && fd in k.world.open && dst.live && count <= dst.bytes.Length
    requires |k.streams[fd].incoming| < count && k.injected.recv == -1 && NoneScheduled(k.failures.recv, turns)
    modifies k`failures, k`stats, k`streams, k`world, k.table`contents, k.table.repr, dst.bytes
    ensures k.Valid() && Delivers(old(k.streams), fd, got, k.streams)
    ensures recvBytes == |got| < count
    ensures got == old(k.streams)[fd].incoming || turns <= |got| + old(k.streams)[fd].pieces
    ensures k.stats == old(k.stats).(recv := old(k.stats).recv + turns)
  {
    recvBytes, got := 0, [];
    ghost var mask, streams0, mem0 := k.failures.recv, k.streams, dst.bytes[..];
    DeliversNothing(k.streams, fd);
    for turn := 0 to turns
      invariant k.Valid() && Delivers(streams0, fd, got, k.streams) && k.world == old(k.world)
      invariant recvBytes == |got| <= |streams0[fd].incoming|
      invariant |got| == |streams0[fd].incoming| || turn <= |got| + (streams0[fd].pieces - k.streams[fd].pieces)
      invariant dst.bytes[..] == Overwrite(mem0, 0, got)
      invariant k.stats == old(k.stats).(recv := old(k.stats).recv + turn)
      invariant k.failures.recv == After(mask, turn) && NoneScheduled(mask, turn)
    {
      NoneScheduledMeans(mask, turns);
      NoneScheduledMeans(mask, turn + 1);
      var r;
      r, got := RecvMore(k, fd, dst, recvBytes, count - recvBytes, streams0, mem0, got, mask, turn);
      recvBytes := recvBytes + r;
    }
  }

  // ------------------------------------------------------------------ client

  /** The encoding loop of the client. */
  method FillRequest(newtab: Block, tab: array<uint32>)
    requires newtab.live && tab.Length < WORD_LIMIT && newtab.bytes.Length == 4 * (tab.Length + 1)
    modifies newtab.bytes
    ensures newtab.bytes[..] == Request(tab[..])
  {
    newtab.StoreWord(0, Htonl(tab.Length));
    StoreHtonl(tab.Length);
    var i := 0;
    while i < tab.Length
      invariant i <= tab.Length
      invariant newtab.bytes[..4 * (i + 1)] == BigEndian(tab.Length) + EncodeWords(tab[..i])
    {
      ghost var before := newtab.bytes[..4 * (i + 1)];
      newtab.StoreWord(4 * (i + 1), Htonl(tab[i]));
      StoreHtonl(tab[i]);
      assert newtab.bytes[..4 * (i + 2)] == before + BigEndian(tab[i]);
      assert tab[..i + 1][..i] == tab[..i];
      i := i + 1;
    }
    assert tab[..i] == tab[..] && newtab.bytes[..4 * (i + 1)] == newtab.bytes[..];
  }

  /** Up to the first free: allocate, encode, send. */
  method SendRequest(k: Kernel, sockfd: int, tab: array<uint32>) returns (r: int, ghost sends: nat)
    requires tab.Length < WORD_LIMIT && sockfd in k.world.open && k.InjectsErrors()
    modifies k`failures, k`stats, k`world, k`heap
    ensures k.stats == old(k.stats).(malloc := old(k.stats).malloc + 1, send := old(k.stats).send + sends)
    ensures k.failures.recv == old(k.failures).recv
    ensures k.world == old(k.world).(sent := k.world.sent, realErrors := k.world.realErrors, nulls := k.world.nulls)
    ensures k.world.realErrors >= old(k.world).realErrors && k.heap == old(k.heap)
    ensures r == 0 || r == -1 || r == -2
    ensures r == -1 <==> sends == 0
    ensures k.world.nulls == old(k.world).nulls + if r == -1 then 1 else 0
    ensures r == 0 <==> && NoneScheduled(old(k.failures).malloc, 1)
                        && NoneScheduled(old(k.failures).send, sends)
                        && k.world.realErrors == old(k.world).realErrors
    ensures if r == 0 then k.world.sent == old(k.world).sent + On(sockfd, Request(tab[..]))
            else SentPart(old(k.world).sent, sockfd, Request(tab[..]), k.world.sent)
  {
    sends := 0;
    NothingSent(k.world.sent, sockfd, Request(tab[..]));
    OneMoreCall(k.failures.malloc, 0);
    var newtab := k.Malloc(4 * (tab.Length + 1));
    if newtab == null {
      return -1, sends;
    }
    FillRequest(newtab, tab);
    var ok;
    ok, sends := SendAll(k, sockfd, newtab, 4 * (tab.Length + 1));
    assert newtab.bytes[..4 * (tab.Length + 1)] == newtab.bytes[..];
    k.Free(newtab);
    r := if ok then 0 else -2;
  }

  /** After the first free: receive and decode. */
  method ReceiveAnswer(k: Kernel, sockfd: int, rep: Cell) returns (r: int, ghost recvs: nat, ghost got: seq<byte>)
    requires k.Valid() && sockfd in k.world.open && sockfd in k.streams && |k.streams[sockfd].incoming| >= 4
    requires k.InjectsErrors()
    modifies k`failures, k`stats, k`streams, k`world, k.table`contents, k.table.repr, rep
    ensures k.Valid() && Delivers(old(k.streams), sockfd, got, k.streams)
    ensures recvs > 0 && k.stats == old(k.stats).(recv := old(k.stats).recv + recvs)
    ensures k.world == old(k.world)
    ensures r == 0 || r == -2
    ensures r == 0 <==> NoneScheduled(old(k.failures).recv, recvs)
    ensures if r == 0 then |got| == 4 && rep.value == FromBigEndian(got) else |got| < 4 && rep.value == old(rep.value)
  {
    var answer := new Block(4);
    var ok;
    ok, got, recvs := RecvAll(k, sockfd, answer, 4);
    if !ok {
      return -2, recvs, got;
    }
    assert answer.bytes[0..4] == got;
    var w := answer.LoadWord(0);
    NtohlLoad(got);
    rep.value := Ntohl(w);
    r := 0;
  }

  /**
   Why the injected result of recv has to be -1: when it is 4 and falls on the first call, the loop of the client ends
   after that call, and what was never received is taken for the answer.
   */
  method BelieveInjectedCount(k: Kernel, sockfd: int, rep: Cell) returns (r: int, ghost got: seq<byte>)
    requires k.Valid() && sockfd in k.streams && k.injected.recv == 4 && Fail(k.failures.recv)
    modifies k`failures, k`stats, k`streams, k`world, k.table`contents, k.table.repr, rep
    ensures r == 0 && got == [] && Delivers(old(k.streams), sockfd, got, k.streams)
    ensures k.stats == old(k.stats).(recv := old(k.stats).recv + 1)
  {
    var answer := new Block(4);
    var recvBytes, calls := 0, 0;
    got := [];
    while recvBytes != 4
      invariant calls <= 1 && recvBytes == 4 * calls && got == []
      invariant k.Valid() && sockfd in k.streams && answer.live && answer.bytes.Length == 4
      invariant calls == 0 ==> k.streams == old(k.streams) && k.failures == old(k.failures)
      invariant calls == 1 ==> Delivers(old(k.streams), sockfd, got, k.streams)
      invariant k.stats == old(k.stats).(recv := old(k.stats).recv + calls)
      decreases 1 - calls
    {
      var n;
      n, got := k.Recv(sockfd, answer, recvBytes, 4 - recvBytes, false);
      calls := calls + 1;
      if n == -1 {
        return -2, got;
      }
      recvBytes := recvBytes + n;
    }
    var w := answer.LoadWord(0);
    rep.value := Ntohl(w);
    r := 0;
  }

  /**
   get_sum_of_ints_tcp under an arbitrary failure schedule. It succeeds iff no injected failure and no real one
   falls on the calls it makes; -1 says that malloc returned NULL. Whatever the outcome, it frees what it allocated
   and leaves descriptors alone; unless it succeeds, *rep keeps its value. The request has gone out in full iff it
   came to receive, and otherwise a proper prefix of it. got is what its recv calls returned.
   */
  method GetSumOfIntsTcp(k: Kernel, sockfd: int, tab: array<uint32>, rep: Cell)
    returns (r: int, ghost sends: nat, ghost recvs: nat, ghost got: seq<byte>)
    requires tab.Length < WORD_LIMIT && k.InjectsErrors()
    requires k.Valid() && sockfd in k.world.open && sockfd in k.streams && |k.streams[sockfd].incoming| >= 4
    modifies k`failures, k`stats, k`streams, k`world, k`heap, k.table`contents, k.table.repr, rep
    ensures k.Valid() && Delivers(old(k.streams), sockfd, got, k.streams)
    ensures k.stats == old(k.stats).(malloc := old(k.stats).malloc + 1,
                                     send := old(k.stats).send + sends, recv := old(k.stats).recv + recvs)
    ensures k.world == old(k.world).(sent := k.world.sent, realErrors := k.world.realErrors, nulls := k.world.nulls)
    ensures k.heap == old(k.heap)
    ensures r == 0 || r == -1 || r == -2
    ensures k.world.nulls == old(k.world).nulls + if r == -1 then 1 else 0
    ensures r == 0 <==> && NoneScheduled(old(k.failures).malloc, 1)
                        && NoneScheduled(old(k.failures).send, sends)
                        && NoneScheduled(old(k.failures).recv, recvs)
                        && k.world.realErrors == old(k.world).realErrors
    ensures r == -1 <==> sends == 0
    ensures r == 0 ==> recvs > 0
    ensures if recvs > 0 then k.world.sent == old(k.world).sent + On(sockfd, Request(tab[..]))
            else SentPart(old(k.world).sent, sockfd, Request(tab[..]), k.world.sent)
    ensures if r == 0 then |got| == 4 && rep.value == FromBigEndian(got) else |got| < 4 && rep.value == old(rep.value)
    ensures !NoneScheduled(old(k.failures).recv, recvs) ==> r == -2
  {
    recvs, got := 0, [];
    DeliversNothing(k.streams, sockfd);
    r, sends := SendRequest(k, sockfd, tab);
    if r == 0 {
      r, recvs, got := ReceiveAnswer(k, sockfd, rep);
    }
  }

  /**
   The client between two calls of get_bytes_read: under any failure schedule the position grows by exactly what its
   recv calls returned, which is the whole answer iff it succeeds.
   */
  method BytesReadAdvances(k: Kernel, sockfd: int, tab: array<uint32>, rep: Cell)
    returns (r: int, before: int, after: int, ghost got: seq<byte>)
    requires tab.Length < WORD_LIMIT && k.InjectsErrors()
    requires k.Valid() && sockfd in k.world.open && sockfd in k.streams && |k.streams[sockfd].incoming| >= 4
    modifies k`failures, k`stats, k`streams, k`world, k`heap, k.table`contents, k.table.repr, rep
    ensures k.Valid() && Delivers(old(k.streams), sockfd, got, k.streams)
    ensures before == |old(k.streams)[sockfd].past| && after == before + |got|
    ensures r == 0 <==> after == before + 4
    ensures r != 0 ==> after < before + 4
  {
    before := k.GetBytesRead(sockfd);
    ghost var sends, recvs;
    r, sends, recvs, got := GetSumOfIntsTcp(k, sockfd, tab, rep);
    after := k.GetBytesRead(sockfd);
  }

  // ------------------------------------------------------------------ server

  /** The header, received into the low bytes of a zeroed size_t. */
  method ReceiveLength(k: Kernel, fd: int) returns (ok: bool, length: nat, ghost got: seq<byte>, ghost calls: nat)
    requires k.injected.recv == -1 && k.Valid() && fd in k.world.open
    requires fd in k.streams && |k.streams[fd].incoming| >= 4
    modifies k`failures, k`stats, k`streams, k`world, k.table`contents, k.table.repr
    ensures k.Valid() && Delivers(old(k.streams), fd, got, k.streams)
    ensures calls > 0 && k.stats == old(k.stats).(recv := old(k.stats).recv + calls)
    ensures k.failures == old(k.failures).(recv := After(old(k.failures).recv, calls))
    ensures k.world == old(k.world)
    ensures ok <==> NoneScheduled(old(k.failures).recv, calls)
    ensures ok ==> |got| == 4 && length == FromBigEndian(got)
  {
    var size := new Block(8);
    ok, got, calls := RecvAll(k, fd, size, 4);
    length := 0;
    if ok {
      assert size.bytes[..][..4] == got && size.bytes[..][4..] == [0, 0, 0, 0];
      HeaderInSize(size.bytes[..]);
      length := Ntohl(LoadSize(size.bytes[..]));
    }
  }

  /** The summing loop: the 32-bit sum wraps around. */
  method SumWords(buf: Block, length: nat) returns (sum: uint32)
    requires buf.live && 4 * length <= buf.bytes.Length
    ensures sum == Sum32(DecodeWords(buf.bytes[..4 * length]))
  {
    ghost var mem := buf.bytes[..];
    ghost var v := DecodeWords(mem[..4 * length]);
    assert mem[..4 * length] == buf.bytes[..4 * length];
    sum := 0;
    var i := 0;
    while i < length
      invariant i <= length
      invariant sum == Sum32(v[..i])
    {
      var w := buf.LoadWord(4 * i);
      WordStep(mem, length, i);
      sum := (sum + Ntohl(w)) % WORD_LIMIT;
      i := i + 1;
    }
    assert v[..i] == v;
  }

  /** Fill buf with words of the stream and add them up. */
  method ReceiveWords(k: Kernel, fd: int, buf: Block, length: nat)
    returns (ok: bool, sum: uint32, ghost got: seq<byte>, ghost calls: nat)
    requires k.injected.recv == -1 && k.Valid() && fd in k.world.open
    requires fd in k.streams && |k.streams[fd].incoming| >= 4 * length
    requires buf.live && buf.bytes.Length == 4 * length
    modifies k`failures, k`stats, k`streams, k`world, k.table`contents, k.table.repr, buf.bytes
    ensures k.Valid() && Delivers(old(k.streams), fd, got, k.streams)
    ensures calls > 0 && k.stats == old(k.stats).(recv := old(k.stats).recv + calls)
    ensures k.failures == old(k.failures).(recv := After(old(k.failures).recv, calls))
    ensures k.world == old(k.world)
    ensures ok <==> NoneScheduled(old(k.failures).recv, calls)
    ensures ok ==> |got| == 4 * length && sum == Sum32(DecodeWords(got))
  {
    sum := 0;
    ok, got, calls := RecvAll(k, fd, buf, 4 * length);
    if ok {
      assert buf.bytes[..4 * length] == got;
      sum := SumWords(buf, length);
    }
  }

  /** The world after close was called on fd; an injected failure leaves fd open, and a real one is counted. */
  ghost predicate ClosedIn(before: World, fd: int, injected: bool, after: World) {
    && after == before.(realErrors := after.realErrors, closed := before.closed + [fd],
                        nulls := after.nulls,
                        open := if injected then before.open else before.open - {fd})
    && after.realErrors >= before.realErrors
  }

  /** The body, once its buffer exists. On a failure fd is closed and then the buffer freed. */
  method ReceiveInto(k: Kernel, fd: int, buf: Block, length: nat)
    returns (ok: bool, sum: uint32, ghost got: seq<byte>, ghost calls: nat)
    requires k.InjectsErrors() && k.Valid() && fd in k.world.open && fd in k.streams
    requires |k.streams[fd].incoming| >= 4 * length
    requires buf.live && buf in k.heap && buf.bytes.Length == 4 * length
    modifies k`failures, k`stats, k`streams, k`world, k`heap, k.table`contents, k.table.repr, buf.bytes, buf`live
    ensures k.Valid() && Delivers(old(k.streams), fd, got, k.streams)
    ensures calls > 0
    ensures k.stats == old(k.stats).(recv := old(k.stats).recv + calls,
                                     close := old(k.stats).close + if ok then 0 else 1)
    ensures k.failures.send == old(k.failures).send && (ok ==> k.failures.close == old(k.failures).close)
    ensures k.heap == old(k.heap) - {buf}
    ensures if ok then k.world == old(k.world) else ClosedIn(old(k.world), fd, Fail(old(k.failures).close), k.world)
    ensures k.world.nulls == old(k.world).nulls
    ensures ok <==> NoneScheduled(old(k.failures).recv, calls)
    ensures ok ==> |got| == 4 * length && sum == Sum32(DecodeWords(got))
  {
    ok, sum, got, calls := ReceiveWords(k, fd, buf, length);
    if !ok {
      var ignored := k.Close(fd);
    }
    k.Free(buf);
  }

  /** The body: allocate, receive, add up, free. On a failure fd is closed. */
  method ReceiveAndSum(k: Kernel, fd: int, length: nat)
    returns (r: int, sum: uint32, ghost got: seq<byte>, ghost calls: nat)
    requires k.InjectsErrors() && k.Valid() && fd in k.world.open && fd in k.streams
    requires |k.streams[fd].incoming| >= 4 * length
    modifies k`failures, k`stats, k`streams, k`world, k`heap, k.table`contents, k.table.repr
    ensures k.Valid() && Delivers(old(k.streams), fd, got, k.streams)
    ensures r == 0 || r == -1 || r == -2
    ensures k.stats == old(k.stats).(malloc := old(k.stats).malloc + 1, recv := old(k.stats).recv + calls,
                                     close := old(k.stats).close + if r == 0 then 0 else 1)
    ensures k.failures.send == old(k.failures).send && (r == 0 ==> k.failures.close == old(k.failures).close)
    ensures k.heap == old(k.heap)
    ensures if r == 0 then k.world == old(k.world) else ClosedIn(old(k.world), fd, Fail(old(k.failures).close), k.world)
    ensures k.world.nulls == old(k.world).nulls + if r == -1 then 1 else 0
    ensures r == -1 <==> calls == 0
    ensures r == 0 ==> NoneScheduled(old(k.failures).malloc, 1) && NoneScheduled(old(k.failures).recv, calls)
    ensures NoneScheduled(old(k.failures).malloc, 1) && NoneScheduled(old(k.failures).recv, calls)
            ==> r == 0 || k.world.realErrors > old(k.world).realErrors
    ensures r == 0 ==> |got| == 4 * length && sum == Sum32(DecodeWords(got))
  {
    sum, got, calls := 0, [], 0;
    DeliversNothing(k.streams, fd);
    OneMoreCall(k.failures.malloc, 0);
    var buf := k.Malloc(4 * length);
    if buf == null {
      var ignored := k.Close(fd);
      return -1, sum, got, calls;
    }
    var ok;
    ok, sum, got, calls := ReceiveInto(k, fd, buf, length);
    r := if ok then 0 else -2;
  }

  /** The answer: a word on the stack, in network order. */
  method SendSum(k: Kernel, fd: int, sum: uint32) returns (ok: bool, ghost calls: nat)
    requires fd in k.world.open && k.InjectsErrors()
    modifies k`failures, k`stats, k`world
    ensures calls > 0 && k.stats == old(k.stats).(send := old(k.stats).send + calls)
    ensures k.failures.close == old(k.failures).close
    ensures k.world == old(k.world).(sent := k.world.sent, realErrors := k.world.realErrors)
    ensures k.world.realErrors >= old(k.world).realErrors
    ensures ok <==> NoneScheduled(old(k.failures).send, calls) && k.world.realErrors == old(k.world).realErrors
    ensures if ok then k.world.sent == old(k.world).sent + On(fd, BigEndian(sum))
            else SentPart(old(k.world).sent, fd, BigEndian(sum), k.world.sent)
  {
    var word := new Block(4);
    word.StoreWord(0, Htonl(sum));
    StoreHtonl(sum);
    assert word.bytes[..4] == BigEndian(sum);
    ok, calls := SendAll(k, fd, word, 4);
  }

  /** The end of the server: send the sum, and close whether or not that worked. */
  method ReplyAndClose(k: Kernel, fd: int, sum: uint32) returns (r: int, ghost sends: nat)
    requires fd in k.world.open && k.InjectsErrors()
    modifies k`failures, k`stats, k`world
    ensures sends > 0
    ensures k.stats == old(k.stats).(send := old(k.stats).send + sends, close := old(k.stats).close + 1)
    ensures ClosedIn(old(k.world).(sent := k.world.sent), fd, Fail(old(k.failures).close), k.world)
    ensures k.world.nulls == old(k.world).nulls
    ensures r == 0 || r == -2
    ensures r == 0 <==> && NoneScheduled(old(k.failures).send, sends)
                        && NoneScheduled(old(k.failures).close, 1)
                        && k.world.realErrors == old(k.world).realErrors
    ensures Answered(old(k.world).sent, fd, sum, r == 0, k.world.sent)
  {
    OneMoreCall(k.failures.close, 0);
    var ok;
    ok, sends := SendSum(k, fd, sum);
    var c := k.Close(fd);
    r := if ok && c == 0 then 0 else -2;
  }

  /** The sum went out on fd, or, unless all is well, a proper prefix of it. */
  ghost predicate Answered(before: seq<Output>, fd: int, sum: uint32, well: bool, after: seq<Output>) {
    after == before + On(fd, BigEndian(sum)) || (!well && SentPart(before, fd, BigEndian(sum), after))
  }

  /** From the accepted descriptor to the sum: header, then body. On a failure fd is closed. */
  method ReceiveRequest(k: Kernel, fd: int, ghost v: seq<uint32>, ghost tail: seq<byte>)
    returns (r: int, sum: uint32, ghost got: seq<byte>, ghost recvs: nat, ghost mallocs: nat)
    requires |v| < WORD_LIMIT
    requires k.InjectsErrors() && k.Valid() && fd in k.world.open
    requires fd in k.streams && k.streams[fd].incoming == Request(v) + tail
    modifies k`failures, k`stats, k`streams, k`world, k`heap, k.table`contents, k.table.repr
    ensures k.Valid() && Delivers(old(k.streams), fd, got, k.streams)
    ensures recvs > 0
    ensures r == 0 || r == -1 || r == -2
    ensures k.stats == old(k.stats).(malloc := old(k.stats).malloc + mallocs, recv := old(k.stats).recv + recvs,
                                     close := old(k.stats).close + if r == 0 then 0 else 1)
    ensures k.failures.send == old(k.failures).send
    ensures k.heap == old(k.heap)
    ensures if r == 0 then k.world == old(k.world) && k.failures.close == old(k.failures).close
            else ClosedIn(old(k.world), fd, Fail(old(k.failures).close), k.world)
    ensures k.world.nulls == old(k.world).nulls + if r == -1 then 1 else 0
    ensures r == 0 ==> NoneScheduled(old(k.failures).malloc, mallocs) && NoneScheduled(old(k.failures).recv, recvs)
    ensures NoneScheduled(old(k.failures).malloc, mallocs) && NoneScheduled(old(k.failures).recv, recvs)
            ==> r == 0 || k.world.realErrors > old(k.world).realErrors
    ensures r == 0 ==> sum == Sum32(v) && got == Request(v)
  {
    mallocs, sum, r := 0, 0, -2;
    RequestParts(v, tail);
    var ok, length;
    ok, length, got, recvs := ReceiveLength(k, fd);
    if !ok {
      var ignored := k.Close(fd);
    } else {
      HeaderGot(v, tail, got, k.streams[fd].incoming);
      ghost var body, more;
      ghost var streams1, mask, a := k.streams, old(k.failures).recv, recvs;
      r, sum, body, more := ReceiveAndSum(k, fd, length);
      DeliversTwice(old(k.streams), fd, got, streams1, body, k.streams);
      NoneScheduledAmong(mask, a, more);
      got, recvs, mallocs := got + body, recvs + more, 1;
      if r == 0 {
        BodyGot(v, tail, body, k.streams[fd].incoming);
      }
    }
  }

  lemma HeaderGot(v: seq<uint32>, tail: seq<byte>, got: seq<byte>, rest: seq<byte>)
    requires |v| < WORD_LIMIT && |got| == 4 && Request(v) + tail == got + rest
    ensures got == BigEndian(|v|) && FromBigEndian(got) == |v| && rest == EncodeWords(v) + tail
  {
    RequestParts(v, tail);
    assert (got + rest)[..4] == got && (got + rest)[4..] == rest;
    BigEndianRoundTrip(|v|);
  }

  lemma BodyGot(v: seq<uint32>, tail: seq<byte>, body: seq<byte>, rest: seq<byte>)
    requires |body| == 4 * |v| && EncodeWords(v) + tail == body + rest
    ensures body == EncodeWords(v) && DecodeWords(body) == v && rest == tail
  {
    assert (body + rest)[..4 * |v|] == body && (body + rest)[4 * |v|..] == rest;
    assert (EncodeWords(v) + tail)[..4 * |v|] == EncodeWords(v) && (EncodeWords(v) + tail)[4 * |v|..] == tail;
    assert EncodeWords(v) + [] == EncodeWords(v);
    DecodeEncode(v, []);
  }

  /** Everything after accept. close is called exactly once, whatever happens. */
  method ServeClient(k: Kernel, fd: int, ghost v: seq<uint32>, ghost tail: seq<byte>)
    returns (r: int, ghost got: seq<byte>, ghost recvs: nat, ghost mallocs: nat, ghost sends: nat)
    requires |v| < WORD_LIMIT && k.InjectsErrors()
    requires k.Valid() && fd in k.world.open && fd in k.streams && k.streams[fd].incoming == Request(v) + tail
    modifies k`failures, k`stats, k`streams, k`world, k`heap, k.table`contents, k.table.repr
    ensures k.Valid() && Delivers(old(k.streams), fd, got, k.streams)
    ensures recvs > 0
    ensures k.stats == old(k.stats).(malloc := old(k.stats).malloc + mallocs, recv := old(k.stats).recv + recvs,
                                     send := old(k.stats).send + sends, close := old(k.stats).close + 1)
    ensures ClosedIn(old(k.world).(sent := k.world.sent), fd, Fail(old(k.failures).close), k.world)
    ensures k.heap == old(k.heap)
    ensures r == 0 || r == -1 || r == -2
    ensures k.world.nulls == old(k.world).nulls + if r == -1 then 1 else 0
    ensures r == 0 <==> && NoneScheduled(old(k.failures).malloc, mallocs)
                        && NoneScheduled(old(k.failures).recv, recvs)
                        && NoneScheduled(old(k.failures).send, sends)
                        && NoneScheduled(old(k.failures).close, 1)
                        && k.world.realErrors == old(k.world).realErrors
    ensures r == 0 ==> got == Request(v)
    ensures if sends == 0 then k.world.sent == old(k.world).sent
            else Answered(old(k.world).sent, fd, Sum32(v), r == 0, k.world.sent)
    ensures r == 0 ==> sends > 0
  {
    sends := 0;
    var sum;
    r, sum, got, recvs, mallocs := ReceiveRequest(k, fd, v, tail);
    if r == 0 {
      r, sends := ReplyAndClose(k, fd, sum);
    }
  }

  /** How many calls of each kind a run of the server makes; recvs is 0 iff accept failed. */
  datatype Made = Made(recvs: nat, mallocs: nat, sends: nat, closes: nat)

  /** No injected failure falls on the calls made; an accept that is injected to return a descriptor is none. */
  ghost predicate Unscathed(f: Failures, accepted: int, m: Made) {
    && (Fail(f.accept) ==> accepted != -1)
    && NoneScheduled(f.recv, m.recvs) && NoneScheduled(f.malloc, m.mallocs)
    && NoneScheduled(f.send, m.sends) && NoneScheduled(f.close, m.closes)
  }

  /** accept: the next client, injected or not, or -1 for an injected or a real error. */
  method AcceptClient(k: Kernel, sockfd: int) returns (fd: int)
    requires if Fail(k.failures.accept) then k.NextClient() == -1 || k.NextClient() in k.world.open else k.pending != []
    modifies k`failures, k`stats, k`world, k`pending
    ensures k.stats == old(k.stats).(accept := old(k.stats).accept + 1)
    ensures k.failures == old(k.failures).(accept := k.failures.accept)
    ensures if fd == -1 then
              && k.pending == old(k.pending)
              && k.world == old(k.world).(realErrors := k.world.realErrors)
              && (if !Fail(old(k.failures).accept) then k.world.realErrors > old(k.world).realErrors
                  else k.world.realErrors == old(k.world).realErrors && old(k.NextClient()) == -1)
            else
              && fd == old(k.NextClient())
              && k.pending == (if Fail(old(k.failures).accept) then old(k.pending) else old(k.pending)[1..])
              && k.world == old(k.world).(open := old(k.world).open + {fd})
  {
    fd := k.Accept(sockfd);
    assert fd in old(k.world).open ==> old(k.world).open == old(k.world).open + {fd};
  }

  /**
   server_tcp under an arbitrary failure schedule, when the stream of the descriptor that accept returns starts with
   the request for v, cut in any way; an injected result of accept may be such a descriptor, too. It succeeds iff no
   injected failure and no real one falls on the calls it makes, and returns -1 iff malloc returned NULL. On success
   it has consumed exactly the request and sent exactly the sum on that descriptor. Whatever the outcome, close is
   called exactly once on an accepted descriptor, which stays open only if that failure was injected, and every
   allocated block is freed.
   */
  method ServerTcp(k: Kernel, sockfd: int, ghost v: seq<uint32>, ghost tail: seq<byte>)
    returns (r: int, ghost got: seq<byte>, ghost m: Made)
    requires |v| < WORD_LIMIT && k.InjectsErrors() && k.Valid()
    requires if Fail(k.failures.accept) then k.NextClient() == -1 || k.NextClient() in k.world.open else k.pending != []
    requires k.NextClient() != -1 ==>
               k.NextClient() in k.streams && k.streams[k.NextClient()].incoming == Request(v) + tail
    modifies k, k.table`contents, k.table.repr
    ensures k.Valid()
    ensures if m.recvs > 0 then Delivers(old(k.streams), old(k.NextClient()), got, k.streams)
            else got == [] && k.streams == old(k.streams)
    ensures k.stats == Stats(old(k.stats).accept + 1, old(k.stats).recv + m.recvs, old(k.stats).send + m.sends,
                             old(k.stats).malloc + m.mallocs, old(k.stats).close + m.closes)
    ensures k.pending == if m.recvs > 0 && !Fail(old(k.failures).accept) then old(k.pending)[1..] else old(k.pending)
    ensures r == 0 || r == -1 || r == -2
    ensures r == 0 <==> && Unscathed(old(k.failures), old(k.NextClient()), m)
                        && k.world.realErrors == old(k.world).realErrors
    ensures k.world.nulls == old(k.world).nulls + if r == -1 then 1 else 0
    ensures r == 0 ==> got == Request(v) && m.sends > 0
    ensures if m.sends == 0 then k.world.sent == old(k.world).sent
            else Answered(old(k.world).sent, old(k.NextClient()), Sum32(v), r == 0, k.world.sent)
    ensures k.heap == old(k.heap)
    ensures m.closes == if m.recvs > 0 then 1 else 0
    ensures k.world.closed == old(k.world).closed + if m.recvs > 0 then [old(k.NextClient())] else []
    ensures k.world.open == if m.recvs == 0 then old(k.world).open
                            else if Fail(old(k.failures).close) then old(k.world).open + {old(k.NextClient())}
                            else old(k.world).open - {old(k.NextClient())}
  {
    got, m := [], Made(0, 0, 0, 0);
    var clientfd := AcceptClient(k, sockfd);
    if clientfd == -1 {
      r := -2;
    } else {
      ghost var recvs, mallocs, sends;
      r, got, recvs, mallocs, sends := ServeClient(k, clientfd, v, tail);
      m := Made(recvs, mallocs, sends, 1);
    }
  }

  lemma {:induction false} NoFailureInZero(n: nat)
    ensures NoneScheduled(0, n)
  {
    if n > 0 {
      NoFailureInZero(n - 1);
      ZeroDividedBy(Pow2(n - 1));
    }
  }

  lemma ZeroDividedBy(d: int)
    requires d > 0
    ensures 0 / d == 0
  {
  }

  /**
   Fragmentation independence: for every vector, every cut of its request into chunks, each mode and any timing, the
   server without injected or real failures answers with the sum and reads 4 * (n + 1) bytes.
   */
  method ServeFragmented(k: Kernel, sockfd: int, v: seq<uint32>,
                         mode: int, lengths: seq<nat>, intervals: seq<int>, now: int)
    returns (r: int, bytesRead: int)
    requires |v| < WORD_LIMIT && KnownMode(mode) && |lengths| == |intervals|
    requires FdTable.Total(lengths) == 4 * (|v| + 1)
    requires k.Valid() && k.pending != []
    requires k.InjectsErrors() && k.failures == Failures(0, 0, 0, 0, 0)
    modifies k, k.table, k.table.repr
    ensures r == 0 <==> k.world.realErrors == old(k.world).realErrors
    ensures r == 0 ==> && bytesRead == 4 * (|v| + 1)
                       && k.world.sent == old(k.world).sent + On(old(k.pending)[0], BigEndian(Sum32(v)))
    ensures r == 0 ==> forall fd :: BytesOn(k.world.sent, fd)
                                    == BytesOn(old(k.world).sent, fd)
                                       + if fd == old(k.pending)[0] then BigEndian(Sum32(v)) else []
  {
    var fd := k.pending[0];
    var data := Request(v);
    var buf := FdTable.CreatePartialReadBuffer(data, mode, lengths, intervals);
    assert data[..FdTable.Total(lengths)] == data == data + [];
    k.Register(fd, buf, now);
    ghost var got, m;
    r, got, m := ServerTcp(k, sockfd, v, []);
    NoFailureInZero(1);
    NoFailureInZero(m.recvs);
    NoFailureInZero(m.mallocs);
    NoFailureInZero(m.sends);
    NoFailureInZero(m.closes);
    bytesRead := k.GetBytesRead(fd);
    forall other {
      OutputOn(old(k.world).sent, fd, BigEndian(Sum32(v)), other);
    }
  }
}
