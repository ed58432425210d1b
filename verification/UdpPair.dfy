/** The UDP client and server of the exercise: one datagram each way, no length header. */
module UdpPair {
  import opened Wrappers
  import opened ByteOrder
  import opened TimedStream
  import opened ReadWrite
  import opened SumOfInts
  import opened FailureMask
  import opened Sandbox
  import TcpPair

  const MAX_SIZE := 16000

  /** The bytes of the server's receive buffer. */
  const BUFFER_SIZE := 64000

  /**
   A datagram socket: the datagram that arrives next, if the call works, those that were sent, and how many calls of
   send failed or sent less than they were asked to.
   */
  class Socket {
    var inbox: Option<seq<byte>>
    var outbox: seq<seq<byte>>
    var badSends: nat

    constructor (inbox: Option<seq<byte>>)
      ensures this.inbox == inbox && outbox == [] && badSends == 0
    {
      this.inbox, outbox, badSends := inbox, [], 0;
    }

    /** recv and recvfrom: the datagram, cut off at the room of the caller; -1 on an error. */
    method Recv(dst: Block, room: nat) returns (r: int)
      requires dst.live && room <= dst.bytes.Length
      modifies dst.bytes
      ensures r == if inbox.None? then -1 else Min(|inbox.value|, room)
      ensures inbox.Some? ==> dst.bytes[..r] == inbox.value[..r]
    {
      if inbox.None? {
        return -1;
      }
      r := Min(|inbox.value|, room);
      CopyTo(dst.bytes, 0, inbox.value[..r]);
    }

    /** send and sendto: the whole datagram, or an error, or (which the programs treat as an error) a part of it. */
    method Send(src: Block, len: nat) returns (s: int)
      requires src.live && len <= src.bytes.Length
      modifies `outbox, `badSends
      ensures -1 <= s <= len
      ensures badSends == old(badSends) + if s == len then 0 else 1
      ensures outbox == if s == -1 then old(outbox) else old(outbox) + [src.bytes[..s]]
    {
      var sent: int := *;
      s := if -1 <= sent <= len then sent else len;
      if s != -1 {
        outbox := outbox + [src.bytes[..s]];
      }
      if s != len {
        badSends := badSends + 1;
      }
    }
  }

  /** What the server answers to a datagram. */
  function Reply(datagram: seq<byte>): seq<byte> {
    BigEndian(Sum32(DecodeWords(datagram[..Min(|datagram|, BUFFER_SIZE)])))
  }

  /** A datagram went out in part, or not at all. */
  ghost predicate Short(before: seq<seq<byte>>, datagram: seq<byte>, after: seq<seq<byte>>) {
    after == before || exists n :: 0 <= n < |datagram| && after == before + [datagram[..n]]
  }

  /**
   server_udp: it succeeds iff malloc works, a datagram arrives and the whole answer goes out; -1 iff malloc does not
   work. No block is left allocated.
   */
  method ServerUdp(k: Kernel, socket: Socket) returns (r: int)
    modifies k`failures, k`stats, k`world, k`heap, socket`outbox, socket`badSends
    ensures k.heap == old(k.heap)
    ensures r == 0 || r == -1 || r == -2
    ensures var gotMemory := !Fail(old(k.failures).malloc) && k.world.realErrors == old(k.world).realErrors;
            && (r == -1 <==> !gotMemory)
            && (r == 0 <==> gotMemory && socket.inbox.Some? && socket.badSends == old(socket.badSends))
    ensures r == 0 ==> socket.outbox == old(socket.outbox) + [Reply(socket.inbox.value)]
    ensures r == -1 || socket.inbox.None? ==> socket.outbox == old(socket.outbox)
    ensures r == -2 && socket.inbox.Some? ==> Short(old(socket.outbox), Reply(socket.inbox.value), socket.outbox)
  {
    var buf := k.Malloc(BUFFER_SIZE);
    if buf == null {
      return -1;
    }
    var received := socket.Recv(buf, BUFFER_SIZE);
    if received == -1 {
      k.Free(buf);
      return -2;
    }
    var sum := SumDatagram(buf, received);
    k.Free(buf);
    r := SendReply(socket, sum);
  }

  /** Add up the whole words of what was received. */
  method SumDatagram(buf: Block, received: nat) returns (sum: uint32)
    requires buf.live && received <= buf.bytes.Length
    ensures sum == Sum32(DecodeWords(buf.bytes[..received]))
  {
    var nint := received / 4;
    WholeWords(buf.bytes[..received]);
    assert buf.bytes[..received][..4 * nint] == buf.bytes[..4 * nint];
    sum := TcpPair.SumWords(buf, nint);
  }

  method SendReply(socket: Socket, sum: uint32) returns (r: int)
    modifies socket`outbox, socket`badSends
    ensures r == if socket.badSends == old(socket.badSends) then 0 else -2
    ensures if r == 0 then socket.outbox == old(socket.outbox) + [BigEndian(sum)]
            else Short(old(socket.outbox), BigEndian(sum), socket.outbox)
  {
    var word := new Block(4);
    word.StoreWord(0, Htonl(sum));
    StoreHtonl(sum);
    ghost var answer := BigEndian(sum);
    assert word.bytes[..4] == answer == answer[..4];
    var s := socket.Send(word, 4);
    assert 0 <= s < 4 ==> word.bytes[..s] == answer[..s];
    r := if s != 4 then -2 else 0;
  }

  /** The server answers the datagram of a vector that the client may send as the TCP server answers its request. */
  method ServeVector(k: Kernel, socket: Socket, v: seq<uint32>) returns (r: int)
    requires |v| <= MAX_SIZE && socket.inbox == Some(EncodeWords(v))
    modifies k`failures, k`stats, k`world, k`heap, socket`outbox, socket`badSends
    ensures r == 0 <==> && !Fail(old(k.failures).malloc) && k.world.realErrors == old(k.world).realErrors
                        && socket.badSends == old(socket.badSends)
    ensures r == 0 ==> socket.outbox == old(socket.outbox) + [BigEndian(Sum32(v))]
  {
    r := ServerUdp(k, socket);
    UdpTcpAgree(v);
  }

  /**
   get_sum_of_ints_udp: -3 iff the vector is too long, and nothing else happens then; -1 iff malloc does not work; and
   success iff malloc works, the whole datagram goes out and at least a word comes back.
   */
  method GetSumOfIntsUdp(k: Kernel, socket: Socket, tab: array<uint32>, rep: TcpPair.Cell) returns (r: int)
    modifies k`failures, k`stats, k`world, k`heap, socket`outbox, socket`badSends, rep
    ensures k.heap == old(k.heap)
    ensures r == 0 || r == -1 || r == -2 || r == -3
    ensures r == -3 <==> tab.Length > 16_000
    ensures r == -3 ==> k.stats == old(k.stats)
    ensures r != -3 ==>
              var gotMemory := !Fail(old(k.failures).malloc) && k.world.realErrors == old(k.world).realErrors;
              && (r == -1 <==> !gotMemory)
              && (r == 0 <==> && gotMemory && socket.badSends == old(socket.badSends)
                              && socket.inbox.Some? && |socket.inbox.value| >= 4)
    ensures r == -3 || r == -1 ==> socket.outbox == old(socket.outbox)
    ensures r == -2 ==> if socket.badSends > old(socket.badSends)
                        then Short(old(socket.outbox), EncodeWords(tab[..]), socket.outbox)
                        else socket.outbox == old(socket.outbox) + [EncodeWords(tab[..])]
    ensures r == 0 ==> && socket.outbox == old(socket.outbox) + [EncodeWords(tab[..])]
                       && rep.value == FromBigEndian(socket.inbox.value[..4])
    ensures r == 0 && socket.inbox.value == Reply(EncodeWords(tab[..])) ==> rep.value == Sum32(tab[..])
    ensures r != 0 ==> rep.value == old(rep.value)
  {
    if tab.Length > MAX_SIZE {
      return -3;
    }
    var newtab := k.Malloc(4 * tab.Length);
    if newtab == null {
      return -1;
    }
    FillWords(newtab, tab);
    assert newtab.bytes[..4 * tab.Length] == newtab.bytes[..];
    var sentBytes := socket.Send(newtab, 4 * tab.Length);
    assert 0 <= sentBytes ==> newtab.bytes[..sentBytes] == EncodeWords(tab[..])[..sentBytes];
    k.Free(newtab);
    if sentBytes != 4 * tab.Length {
      return -2;
    }
    var answer := new Block(4);
    var recvBytes := socket.Recv(answer, 4);
    if recvBytes != 4 {
      return -2;
    }
    assert answer.bytes[0..4] == answer.bytes[..4];
    var w := answer.LoadWord(0);
    NtohlLoad(answer.bytes[0..4]);
    rep.value := Ntohl(w);
    UdpTcpAgree(tab[..]);
    BigEndianRoundTrip(Sum32(tab[..]));
    r := 0;
  }

  /** The encoding loop of the client. */
  method FillWords(newtab: Block, tab: array<uint32>)
    requires newtab.live && newtab.bytes.Length == 4 * tab.Length
    modifies newtab.bytes
    ensures newtab.bytes[..] == EncodeWords(tab[..])
  {
    var i := 0;
    while i < tab.Length
      invariant i <= tab.Length
      invariant newtab.bytes[..4 * i] == EncodeWords(tab[..i])
    {
      ghost var before := newtab.bytes[..4 * i];
      newtab.StoreWord(4 * i, Htonl(tab[i]));
      StoreHtonl(tab[i]);
      assert newtab.bytes[..4 * (i + 1)] == before + BigEndian(tab[i]);
      assert tab[..i + 1][..i] == tab[..i];
      i := i + 1;
    }
    assert tab[..i] == tab[..] && newtab.bytes[..4 * i] == newtab.bytes[..];
  }

  /** Bytes after the last whole word do not matter. */
  lemma {:induction false} WholeWords(bs: seq<byte>)
    ensures DecodeWords(bs[..4 * (|bs| / 4)]) == DecodeWords(bs)
    decreases |bs|
  {
    if |bs| >= 4 {
      WholeWords(bs[4..]);
      var n := 4 * (|bs| / 4);
      assert bs[..n][..4] == bs[..4];
      assert bs[..n][4..] == bs[4..][..n - 4];
    }
  }

  lemma ReplyWhenItFits(v: seq<uint32>, tail: seq<byte>)
    requires |tail| < 4 && |EncodeWords(v) + tail| <= BUFFER_SIZE
    ensures Reply(EncodeWords(v) + tail) == BigEndian(Sum32(v))
  {
    var datagram := EncodeWords(v) + tail;
    assert datagram[..|datagram|] == datagram;
    DecodeEncode(v, tail);
  }

  lemma ReplyWhenCut(v: seq<uint32>, tail: seq<byte>)
    requires |v| >= MAX_SIZE
    ensures Reply(EncodeWords(v) + tail) == BigEndian(Sum32(v[..MAX_SIZE]))
  {
    var words := EncodeWords(v);
    EncodePrefix(v, MAX_SIZE);
    CutBeforeTail(words, tail, BUFFER_SIZE);
    DecodeEncode(v[..MAX_SIZE], []);
    assert EncodeWords(v[..MAX_SIZE]) + [] == EncodeWords(v[..MAX_SIZE]);
  }

  lemma CutBeforeTail(a: seq<byte>, b: seq<byte>, n: nat)
    requires n <= |a|
    ensures (a + b)[..n] == a[..n]
  {
  }

  /**
   The UDP server adds up the first 16000 integers of any request: what does not fit its buffer is lost, and
   fewer than four bytes behind the last integer change nothing.
   */
  lemma ReplyToVector(v: seq<uint32>, tail: seq<byte>)
    requires |tail| < 4
    ensures Reply(EncodeWords(v) + tail) == BigEndian(Sum32(v[..Min(|v|, 16_000)]))
  {
    if |v| < MAX_SIZE {
      ReplyWhenItFits(v, tail);
      assert v[..|v|] == v;
    } else {
      ReplyWhenCut(v, tail);
    }
  }

  /**
   The two servers agree: for every vector that the UDP client accepts to send, its datagram fits the UDP server's
   buffer, and the reply is the one that the TCP server gives under any fragmentation. For longer vectors it is
   that reply iff the integers beyond the 16000th add up to 0 modulo 2^32.
   */
  lemma UdpTcpAgree(v: seq<uint32>)
    ensures |v| <= MAX_SIZE ==> |EncodeWords(v)| <= BUFFER_SIZE
    ensures Reply(EncodeWords(v)) == BigEndian(Sum32(v))
       <==> |v| <= MAX_SIZE || Sum32(v[MAX_SIZE..]) == 0
  {
    ReplyToVector(v, []);
    assert EncodeWords(v) + [] == EncodeWords(v);
    if |v| <= MAX_SIZE {
      assert v[..|v|] == v;
    } else {
      SumsAgree(v, MAX_SIZE);
      SameBigEndian(Sum32(v[..MAX_SIZE]), Sum32(v));
    }
  }

  lemma SameBigEndian(x: uint32, y: uint32)
    ensures BigEndian(x) == BigEndian(y) <==> x == y
  {
    BigEndianRoundTrip(x);
    BigEndianRoundTrip(y);
  }

  lemma SumsAgree(v: seq<uint32>, i: nat)
    requires i <= |v|
    ensures Sum32(v[..i]) == Sum32(v) <==> Sum32(v[i..]) == 0
  {
    TotalSplits(v, i);
    SameRemainder(Total(v[..i]), Total(v[i..]));
  }

  lemma SameRemainder(a: nat, b: nat)
    ensures a % WORD_LIMIT == (a + b) % WORD_LIMIT <==> b % WORD_LIMIT == 0
  {
  }
}
