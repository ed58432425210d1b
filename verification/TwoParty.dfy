/**
 The TCP client and server as two processes over two bounded FIFO channels. Every send and every recv
 moves an arbitrary non-zero number of bytes; the steps of the two interleave in any way; no call fails.
 */
module TwoParty {
  import opened Wrappers
  import opened ByteOrder
  import opened SumOfInts

  /** The vector that the client sends, and how many bytes each direction can hold. */
  datatype Config = Config(tab: seq<uint32>, toServer: nat, toClient: nat)

  datatype Client = Sending(sent: nat) | Awaiting(answer: seq<byte>) | ClientReturned(r: int, rep: uint32)

  datatype Server = ReadingHeader(header: seq<byte>)
                  | ReadingBody(length: nat, body: seq<byte>)
                  | Replying(word: seq<byte>, replied: nat)
                  | ServerReturned(r: int)

  datatype State = State(client: Client, server: Server, c2s: seq<byte>, s2c: seq<byte>)

  /** One call of one process, and how many bytes it moves. */
  datatype Step = ClientSend(n: nat) | ClientRecv(n: nat) | ServerRecv(n: nat) | ServerSend(n: nat)

  ghost predicate Valid(cfg: Config) {
    |cfg.tab| < WORD_LIMIT && cfg.toServer >= 1 && cfg.toClient >= 1
  }

  function Init(): State {
    State(Sending(0), ReadingHeader([]), [], [])
  }

  /** What the server asks for in its next recv; 0 for the body of an empty vector. */
  function Wanted(server: Server): int {
    match server
    case ReadingHeader(header) => 4 - |header|
    case ReadingBody(length, body) => 4 * length - |body|
    case _ => 0
  }

  ghost predicate Can(cfg: Config, s: State, step: Step)
    requires Valid(cfg)
  {
    match step
    case ClientSend(n) =>
      s.client.Sending? && 1 <= n <= |Request(cfg.tab)| - s.client.sent && |s.c2s| + n <= cfg.toServer
    case ClientRecv(n) =>
      s.client.Awaiting? && 1 <= n <= 4 - |s.client.answer| && n <= |s.s2c|
    case ServerRecv(n) =>
      && (s.server.ReadingHeader? || s.server.ReadingBody?)
      && n <= Wanted(s.server) && n <= |s.c2s| && (n == 0 ==> Wanted(s.server) == 0)
    case ServerSend(n) =>
      s.server.Replying? && 1 <= n <= |s.server.word| - s.server.replied && |s.s2c| + n <= cfg.toClient
  }

  /** The server after a recv that returned bytes. */
  function Received(server: Server, bytes: seq<byte>): Server
    requires server.ReadingHeader? || server.ReadingBody?
    requires |bytes| <= Wanted(server)
  {
    match server
    case ReadingHeader(header) =>
      if |header + bytes| < 4 then ReadingHeader(header + bytes)
      else ReadingBody(Ntohl(Load(header + bytes)), [])
    case ReadingBody(length, body) =>
      if |body + bytes| < 4 * length then ReadingBody(length, body + bytes)
      else Replying(Store(Htonl(Sum32(DecodeWords(body + bytes)))), 0)
  }

  ghost function Do(cfg: Config, s: State, step: Step): State
    requires Valid(cfg) && Can(cfg, s, step)
  {
    match step
    case ClientSend(n) =>
      var sent := s.client.sent;
      s.(c2s := s.c2s + Request(cfg.tab)[sent..sent + n],
         client := if sent + n == |Request(cfg.tab)| then Awaiting([]) else Sending(sent + n))
    case ClientRecv(n) =>
      var answer := s.client.answer + s.s2c[..n];
      s.(s2c := s.s2c[n..],
         client := if |answer| < 4 then Awaiting(answer) else ClientReturned(0, Ntohl(Load(answer))))
    case ServerRecv(n) =>
      s.(c2s := s.c2s[n..], server := Received(s.server, s.c2s[..n]))
    case ServerSend(n) =>
      var replied := s.server.replied;
      s.(s2c := s.s2c + s.server.word[replied..replied + n],
         server := if replied + n == |s.server.word| then ServerReturned(0) else Replying(s.server.word, replied + n))
  }

  // ------------------------------------------------------------------ safety

  ghost function SentBytes(cfg: Config, client: Client): int
    requires Valid(cfg)
  {
    if client.Sending? then client.sent else |Request(cfg.tab)|
  }

  /** The part of the request that the server has taken from its channel. */
  ghost function Consumed(cfg: Config, server: Server): seq<byte>
    requires Valid(cfg)
  {
    match server
    case ReadingHeader(header) => header
    case ReadingBody(_, body) => BigEndian(|cfg.tab|) + body
    case _ => Request(cfg.tab)
  }

  /** The part of the answer that the server has put into its channel. */
  ghost function Replied(cfg: Config, server: Server): seq<byte> {
    match server
    case Replying(_, replied) => BigEndian(Sum32(cfg.tab))[..if replied <= 4 then replied else 4]
    case ServerReturned(_) => BigEndian(Sum32(cfg.tab))
    case _ => []
  }

  ghost predicate ClientInv(cfg: Config, client: Client, s2c: seq<byte>, replied: seq<byte>)
    requires Valid(cfg)
  {
    match client
    case Sending(sent) => sent < |Request(cfg.tab)| && s2c == replied
    case Awaiting(answer) => |answer| < 4 && answer + s2c == replied
    case ClientReturned(r, rep) => r == 0 && rep == Sum32(cfg.tab) && s2c == [] && |replied| == 4
  }

  ghost predicate ServerInv(cfg: Config, server: Server)
    requires Valid(cfg)
  {
    match server
    case ReadingHeader(header) => |header| < 4
    case ReadingBody(length, body) => length == |cfg.tab| && (|body| < 4 * length || length == |body| == 0)
    case Replying(word, replied) => word == BigEndian(Sum32(cfg.tab)) && replied < 4
    case ServerReturned(r) => r == 0
  }

  /** Nothing is lost, duplicated, reordered or invented, and both ends compute what they should. */
  ghost predicate Inv(cfg: Config, s: State)
    requires Valid(cfg)
  {
    && ServerInv(cfg, s.server)
    && ClientInv(cfg, s.client, s.s2c, Replied(cfg, s.server))
    && Prefix(Consumed(cfg, s.server) + s.c2s, Request(cfg.tab), SentBytes(cfg, s.client))
    && |s.c2s| <= cfg.toServer && |s.s2c| <= cfg.toClient
  }

  /** a is the prefix of b of length n. */
  ghost predicate Prefix(a: seq<byte>, b: seq<byte>, n: int) {
    0 <= n <= |b| && a == b[..n]
  }

  lemma InitInv(cfg: Config)
    requires Valid(cfg)
    ensures Inv(cfg, Init())
  {
  }

  /** Moving bytes from what is not sent yet to a channel. */
  lemma PutIntoChannel(taken: seq<byte>, channel: seq<byte>, whole: seq<byte>, sent: nat, n: nat)
    requires Prefix(taken + channel, whole, sent) && sent + n <= |whole|
    ensures Prefix(taken + (channel + whole[sent..sent + n]), whole, sent + n)
  {
    Regroup(taken, channel, whole[sent..sent + n]);
    assert whole[..sent] + whole[sent..sent + n] == whole[..sent + n];
  }

  lemma ClientSendInv(cfg: Config, s: State, n: nat)
    requires Valid(cfg) && Inv(cfg, s) && Can(cfg, s, ClientSend(n))
    ensures Inv(cfg, Do(cfg, s, ClientSend(n)))
  {
    PutIntoChannel(Consumed(cfg, s.server), s.c2s, Request(cfg.tab), s.client.sent, n);
    if s.client.sent + n == |Request(cfg.tab)| {
      assert [] + s.s2c == s.s2c;
    }
  }

  lemma ClientRecvInv(cfg: Config, s: State, n: nat)
    requires Valid(cfg) && Inv(cfg, s) && Can(cfg, s, ClientRecv(n))
    ensures Inv(cfg, Do(cfg, s, ClientRecv(n)))
  {
    var answer := s.client.answer + s.s2c[..n];
    assert answer + s.s2c[n..] == s.client.answer + s.s2c;
    if |answer| == 4 {
      assert answer == BigEndian(Sum32(cfg.tab)) && s.s2c[n..] == [];
      NtohlLoad(answer);
      BigEndianRoundTrip(Sum32(cfg.tab));
    }
  }

  lemma ServerSendInv(cfg: Config, s: State, n: nat)
    requires Valid(cfg) && Inv(cfg, s) && Can(cfg, s, ServerSend(n))
    ensures Inv(cfg, Do(cfg, s, ServerSend(n)))
  {
    var word, replied := s.server.word, s.server.replied;
    assert word[..replied] + word[replied..replied + n] == word[..replied + n];
    assert replied + n == 4 ==> word[..replied + n] == word;
    if s.client.Awaiting? {
      Regroup(s.client.answer, s.s2c, word[replied..replied + n]);
    }
  }

  lemma HeaderExtends(cfg: Config, header: seq<byte>, bytes: seq<byte>)
    requires Valid(cfg) && |header| < 4 && |header + bytes| <= 4 && header + bytes <= Request(cfg.tab)
    ensures var server := Received(ReadingHeader(header), bytes);
            ServerInv(cfg, server) && Consumed(cfg, server) == header + bytes && Replied(cfg, server) == []
  {
    var all := header + bytes;
    RequestParts(cfg.tab, []);
    assert Request(cfg.tab) + [] == Request(cfg.tab);
    if |all| == 4 {
      assert all == Request(cfg.tab)[..4];
      NtohlLoad(all);
      BigEndianRoundTrip(|cfg.tab|);
      assert BigEndian(|cfg.tab|) + [] == all;
    }
  }

  lemma BodyExtends(cfg: Config, body: seq<byte>, bytes: seq<byte>)
    requires Valid(cfg) && |body + bytes| <= 4 * |cfg.tab|
    requires BigEndian(|cfg.tab|) + (body + bytes) <= Request(cfg.tab)
    ensures var server := Received(ReadingBody(|cfg.tab|, body), bytes);
            && ServerInv(cfg, server) && Replied(cfg, server) == []
            && Consumed(cfg, server) == BigEndian(|cfg.tab|) + (body + bytes)
  {
    if |body + bytes| == 4 * |cfg.tab| {
      BodyIsEncoding(cfg.tab, body + bytes);
      StoreHtonl(Sum32(cfg.tab));
    }
  }

  /** What the server has consumed grows by the bytes of a recv. */
  lemma ReceivedExtends(cfg: Config, server: Server, bytes: seq<byte>)
    requires Valid(cfg) && ServerInv(cfg, server) && (server.ReadingHeader? || server.ReadingBody?)
    requires |bytes| <= Wanted(server)
    requires Consumed(cfg, server) + bytes <= Request(cfg.tab)
    ensures ServerInv(cfg, Received(server, bytes))
    ensures Consumed(cfg, Received(server, bytes)) == Consumed(cfg, server) + bytes
    ensures Replied(cfg, Received(server, bytes)) == []
  {
    match server
    case ReadingHeader(header) =>
      HeaderExtends(cfg, header, bytes);
    case ReadingBody(_, body) =>
      Regroup(BigEndian(|cfg.tab|), body, bytes);
      BodyExtends(cfg, body, bytes);
  }

  lemma BodyIsEncoding(v: seq<uint32>, body: seq<byte>)
    requires |v| < WORD_LIMIT && |body| == 4 * |v| && BigEndian(|v|) + body <= Request(v)
    ensures body == EncodeWords(v) && DecodeWords(body) == v
  {
    assert (BigEndian(|v|) + body)[4..] == body && Request(v)[4..] == EncodeWords(v);
    assert EncodeWords(v) + [] == EncodeWords(v);
    DecodeEncode(v, []);
  }

  /** Moving bytes from a channel to what was taken from it. */
  lemma TakeFromChannel(taken: seq<byte>, channel: seq<byte>, n: nat, whole: seq<byte>, sent: int)
    requires Prefix(taken + channel, whole, sent) && n <= |channel|
    ensures taken + channel[..n] <= whole
    ensures Prefix((taken + channel[..n]) + channel[n..], whole, sent)
  {
    assert (taken + channel[..n]) + channel[n..] == taken + channel;
  }

  lemma ServerRecvInv(cfg: Config, s: State, n: nat)
    requires Valid(cfg) && Inv(cfg, s) && Can(cfg, s, ServerRecv(n))
    ensures Inv(cfg, Do(cfg, s, ServerRecv(n)))
  {
    TakeFromChannel(Consumed(cfg, s.server), s.c2s, n, Request(cfg.tab), SentBytes(cfg, s.client));
    ReceivedExtends(cfg, s.server, s.c2s[..n]);
  }

  lemma StepInv(cfg: Config, s: State, step: Step)
    requires Valid(cfg) && Inv(cfg, s) && Can(cfg, s, step)
    ensures Inv(cfg, Do(cfg, s, step))
  {
    match step
    case ClientSend(n) => ClientSendInv(cfg, s, n);
    case ClientRecv(n) => ClientRecvInv(cfg, s, n);
    case ServerRecv(n) => ServerRecvInv(cfg, s, n);
    case ServerSend(n) => ServerSendInv(cfg, s, n);
  }

  // ------------------------------------------------------------------ liveness

  ghost predicate Finished(cfg: Config, s: State) {
    s.client == ClientReturned(0, Sum32(cfg.tab)) && s.server == ServerReturned(0) && s.c2s == [] && s.s2c == []
  }

  /** No deadlock: a consistent state is finished or some process can move. */
  lemma NeverStuck(cfg: Config, s: State)
    requires Valid(cfg) && Inv(cfg, s)
    ensures Finished(cfg, s) || exists step :: Can(cfg, s, step)
  {
    var request := Request(cfg.tab);
    if s.s2c != [] && s.client.Awaiting? {
      assert Can(cfg, s, ClientRecv(1));
    } else if s.server.Replying? && s.s2c == [] {
      assert Can(cfg, s, ServerSend(1));
    } else if s.server.ReadingHeader? || s.server.ReadingBody? {
      if Wanted(s.server) == 0 {
        assert Can(cfg, s, ServerRecv(0));
      } else if s.c2s != [] {
        assert Can(cfg, s, ServerRecv(1));
      } else {
        assert |Consumed(cfg, s.server)| < |request|;
        assert Can(cfg, s, ClientSend(1));
      }
    } else {
      assert Consumed(cfg, s.server) == request;
      assert |request + s.c2s| == SentBytes(cfg, s.client) <= |request|;
    }
  }

  /** Unsent bytes count twice and bytes in flight once, both ways; one more until the server starts to reply. */
  ghost function Measure(cfg: Config, s: State): int
    requires Valid(cfg)
  {
    2 * (|Request(cfg.tab)| - SentBytes(cfg, s.client)) + |s.c2s|
    + 2 * (4 - |Replied(cfg, s.server)|) + |s.s2c|
    + if s.server.ReadingHeader? || s.server.ReadingBody? then 1 else 0
  }

  lemma MeasureIsNatural(cfg: Config, s: State)
    requires Valid(cfg) && Inv(cfg, s)
    ensures Measure(cfg, s) >= 0
  {
  }

  lemma ClientSendMoves(cfg: Config, s: State, n: nat)
    requires Valid(cfg) && Inv(cfg, s) && Can(cfg, s, ClientSend(n))
    ensures Measure(cfg, Do(cfg, s, ClientSend(n))) == Measure(cfg, s) - n
  {
  }

  lemma ClientRecvMoves(cfg: Config, s: State, n: nat)
    requires Valid(cfg) && Inv(cfg, s) && Can(cfg, s, ClientRecv(n))
    ensures Measure(cfg, Do(cfg, s, ClientRecv(n))) == Measure(cfg, s) - n
  {
  }

  /** The recv that completes the request counts one more: then the server starts to reply. */
  lemma ServerRecvMoves(cfg: Config, s: State, n: nat)
    requires Valid(cfg) && Inv(cfg, s) && Can(cfg, s, ServerRecv(n))
    ensures var s' := Do(cfg, s, ServerRecv(n));
            Measure(cfg, s') == Measure(cfg, s) - n - if s'.server.Replying? then 1 else 0
    ensures n == 0 ==> Do(cfg, s, ServerRecv(n)).server.Replying?
  {
    var server, bytes := s.server, s.c2s[..n];
    assert Replied(cfg, server) == [] && Replied(cfg, Received(server, bytes)) == [];
  }

  lemma ServerSendMoves(cfg: Config, s: State, n: nat)
    requires Valid(cfg) && Inv(cfg, s) && Can(cfg, s, ServerSend(n))
    ensures Measure(cfg, Do(cfg, s, ServerSend(n))) == Measure(cfg, s) - n
  {
  }

  lemma MeasureDecreases(cfg: Config, s: State, step: Step)
    requires Valid(cfg) && Inv(cfg, s) && Can(cfg, s, step)
    ensures 0 <= Measure(cfg, Do(cfg, s, step)) < Measure(cfg, s)
  {
    StepInv(cfg, s, step);
    MeasureIsNatural(cfg, Do(cfg, s, step));
    match step
    case ClientSend(n) => ClientSendMoves(cfg, s, n);
    case ClientRecv(n) => ClientRecvMoves(cfg, s, n);
    case ServerRecv(n) => ServerRecvMoves(cfg, s, n);
    case ServerSend(n) => ServerSendMoves(cfg, s, n);
  }

  // ------------------------------------------------------------------ whole runs

  ghost predicate IsRun(cfg: Config, s: State, steps: seq<Step>)
    requires Valid(cfg)
    decreases |steps|
  {
    steps != [] ==> Can(cfg, s, steps[0]) && IsRun(cfg, Do(cfg, s, steps[0]), steps[1..])
  }

  ghost function End(cfg: Config, s: State, steps: seq<Step>): State
    requires Valid(cfg) && IsRun(cfg, s, steps)
    decreases |steps|
  {
    if steps == [] then s else End(cfg, Do(cfg, s, steps[0]), steps[1..])
  }

  lemma {:induction false} RunInv(cfg: Config, s: State, steps: seq<Step>)
    requires Valid(cfg) && Inv(cfg, s) && IsRun(cfg, s, steps)
    ensures Inv(cfg, End(cfg, s, steps))
    ensures |steps| <= Measure(cfg, s) - Measure(cfg, End(cfg, s, steps))
    ensures Measure(cfg, End(cfg, s, steps)) >= 0
    decreases |steps|
  {
    if steps != [] {
      StepInv(cfg, s, steps[0]);
      MeasureDecreases(cfg, s, steps[0]);
      RunInv(cfg, Do(cfg, s, steps[0]), steps[1..]);
    }
  }

  /**
   Every interleaving terminates with the right answer: a run has at most 8 * (n + 1) + 9 steps, and one that cannot
   be continued has both processes returned 0 and the client holding the sum modulo 2^32.
   */
  lemma EveryRunEndsWell(cfg: Config, steps: seq<Step>)
    requires Valid(cfg) && IsRun(cfg, Init(), steps)
    ensures |steps| <= 8 * (|cfg.tab| + 1) + 9
    ensures (forall step :: !Can(cfg, End(cfg, Init(), steps), step)) <==> Finished(cfg, End(cfg, Init(), steps))
  {
    InitInv(cfg);
    RunInv(cfg, Init(), steps);
    NeverStuck(cfg, End(cfg, Init(), steps));
  }
}
