/** The mock peer: a receiver that compares a whole stream with the expected one, a sender, and transactions of both. */
module MockPeer {
  import opened Wrappers
  import opened ByteOrder
  import opened TimedStream
  import opened ReadWrite

  /** What one poll of the socket and of the control pipe reports. The pipe is looked at first. */
  datatype PollEvent = PollFailed | PipeReadable | PipeBroken | SocketReadable | SocketBroken

  /** What goes to the output pipe. */
  datatype Message = Ok | TooFew(bytes: nat) | TooMuch(bytes: nat) | NotSameData | RecvError | SendError

  /** The result of a receiver that an event interrupts. */
  function Code(event: PollEvent): int {
    match event
    case PollFailed => -3
    case PipeReadable => 1
    case PipeBroken => -2
    case _ => -1
  }

  /** The verdict on a whole stream. */
  function Verdict(stream: seq<byte>, expected: seq<byte>): int {
    if |stream| < |expected| then 2
    else if |stream| > |expected| then 3
    else if stream != expected then 4
    else 0
  }

  function Report(stream: seq<byte>, expected: seq<byte>): seq<Message> {
    if |stream| < |expected| then [TooFew(|stream|)]
    else if |stream| > |expected| then [TooMuch(|expected| + 1)]
    else []
  }

  /** What is left of the stream, what the polls reported, the bytes sent, and how many calls of each kind failed. */
  datatype Status = Status(stream: seq<byte>, events: seq<PollEvent>, sent: seq<byte>,
                           recvErrors: nat, sendErrors: nat, mallocErrors: nat)

  class Connection {
    /** The bytes that recv has still to return before it returns 0. */
    var stream: seq<byte>
    /** What the polls have reported so far. */
    var events: seq<PollEvent>
    /** How many recv calls have failed. */
    var recvErrors: nat
    /** What the peer has been sent, and how many send calls have failed. */
    var sent: seq<byte>
    var sendErrors: nat
    /** How many calls of malloc have failed. */
    var mallocErrors: nat

    constructor (stream: seq<byte>)
      ensures Now() == Status(stream, [], [], 0, 0, 0)
    {
      this.stream, events, sent := stream, [], [];
      recvErrors, sendErrors, mallocErrors := 0, 0, 0;
    }

    function Now(): Status
      reads this
    {
      Status(stream, events, sent, recvErrors, sendErrors, mallocErrors)
    }

    /** malloc: a new buffer, or NULL. */
    method Malloc(size: nat) returns (buf: array?<byte>)
      modifies `mallocErrors
      ensures buf != null ==> fresh(buf) && buf.Length == size
      ensures mallocErrors == old(mallocErrors) + if buf == null then 1 else 0
    {
      var failed: bool := *;
      if failed {
        mallocErrors := mallocErrors + 1;
        return null;
      }
      buf := new byte[size];
    }

    /** send: at least one byte if there is one, or -1. */
    method Send(bytes: seq<byte>) returns (s: int)
      modifies `sent, `sendErrors
      ensures s == -1 ==> sendErrors == old(sendErrors) + 1 && sent == old(sent)
      ensures s != -1 ==> 0 <= s <= |bytes| && (bytes != [] ==> s > 0) && sendErrors == old(sendErrors)
      ensures s != -1 ==> sent == old(sent) + bytes[..s]
    {
      var failed: bool, n: nat := *, *;
      if failed {
        sendErrors := sendErrors + 1;
        return -1;
      }
      s := if 1 <= n <= |bytes| then n else |bytes|;
      sent := sent + bytes[..s];
    }

    /** recv with room for at least one byte: any part of the stream, 0 at its end, -1 on an error. */
    method Recv(buf: array<byte>, at: nat, room: nat) returns (r: int)
      requires room > 0 && at + room <= buf.Length
      modifies `stream, `recvErrors, buf
      ensures r == -1 ==> recvErrors == old(recvErrors) + 1 && stream == old(stream)
      ensures r != -1 ==> 0 <= r <= Min(room, |old(stream)|) && recvErrors == old(recvErrors)
      ensures r == 0 ==> old(stream) == []
      ensures r >= 0 ==> stream == old(stream)[r..] && buf[..] == Overwrite(old(buf[..]), at, old(stream)[..r])
    {
      var failed: bool, n: nat := *, *;
      if failed {
        recvErrors := recvErrors + 1;
        return -1;
      }
      r := if stream == [] then 0 else if 1 <= n <= Min(room, |stream|) then n else 1;
      CopyTo(buf, at, stream[..r]);
      stream := stream[r..];
    }

    /** poll without a time limit: something happens. */
    method Poll() returns (event: PollEvent)
      modifies `events
      ensures events == old(events) + [event]
    {
      event := *;
      events := events + [event];
    }
  }

  ghost predicate AllReadable(events: seq<PollEvent>) {
    forall i :: 0 <= i < |events| ==> events[i] == SocketReadable
  }

  /** What a receiver does: malloc fails or not, it polls the given events, recv fails or not, and it faces a stream. */
  ghost predicate Receives(noMemory: bool, polled: seq<PollEvent>, recvFailed: bool,
                           stream: seq<byte>, expected: seq<byte>, r: int, pipeOut: seq<Message>)
  {
    if noMemory then
      polled == [] && r == -3 && pipeOut == []
    else
      && polled != [] && AllReadable(polled[..|polled| - 1])
      && if polled[|polled| - 1] != SocketReadable then r == Code(polled[|polled| - 1]) && pipeOut == []
         else if recvFailed then r == -1 && pipeOut == []
         else r == Verdict(stream, expected) && pipeOut == Report(stream, expected)
  }

  /** The verdict in numbers, and what is written with it. */
  ghost predicate Judges(stream: seq<byte>, expected: seq<byte>, r: int, pipeOut: seq<Message>) {
    && (r == 0 <==> stream == expected)
    && (r == 2 <==> |stream| < |expected|)
    && (r == 3 <==> |stream| > |expected|)
    && (r == 4 <==> |stream| == |expected| && stream != expected)
    && pipeOut == (if r == 2 then [TooFew(|stream|)] else if r == 3 then [TooMuch(|expected| + 1)] else [])
  }

  /** The results of a disturbed receiver or sender in numbers. */
  ghost predicate Interrupts(s: Status, s': Status, r: int)
    requires |s.events| <= |s'.events|
  {
    && (PollFailed in Polled(s, s') || s'.mallocErrors > s.mallocErrors ==> r == -3)
    && (PipeBroken in Polled(s, s') ==> r == -2)
    && (SocketBroken in Polled(s, s') || s'.recvErrors > s.recvErrors || s'.sendErrors > s.sendErrors ==> r == -1)
    && (PipeReadable in Polled(s, s') ==> r == 1)
  }

  lemma OnlyTheLast(polled: seq<PollEvent>, event: PollEvent)
    requires polled != [] && AllReadable(polled[..|polled| - 1]) && event in polled && event != SocketReadable
    ensures polled[|polled| - 1] == event
  {
    var front, last := polled[..|polled| - 1], polled[|polled| - 1];
    assert polled == front + [last];
    assert forall e :: e in front ==> e == SocketReadable;
  }

  lemma ReceiverInterrupted(s: Status, s': Status, polled: seq<PollEvent>,
                            expected: seq<byte>, r: int, pipeOut: seq<Message>)
    requires s'.events == s.events + polled && s'.sendErrors == s.sendErrors && s'.recvErrors >= s.recvErrors
    requires polled == [] || polled[|polled| - 1] != SocketReadable || s'.mallocErrors > s.mallocErrors
             ==> s'.recvErrors == s.recvErrors
    requires Receives(s'.mallocErrors > s.mallocErrors, polled, s'.recvErrors > s.recvErrors,
                      s.stream, expected, r, pipeOut)
    ensures Interrupts(s, s', r)
  {
    TailOfAppend(s.events, polled);
    forall e | e in polled && e != SocketReadable
      ensures polled[|polled| - 1] == e
    {
      OnlyTheLast(polled, e);
    }
  }

  lemma SenderInterrupted(s: Status, s': Status, polled: seq<PollEvent>, data: seq<byte>, r: int)
    requires s'.events == s.events + polled && s'.recvErrors == s.recvErrors && s'.mallocErrors == s.mallocErrors
    requires polled == [] || polled[|polled| - 1] != SocketReadable ==> s'.sendErrors == s.sendErrors
    requires Sends(polled, s'.sendErrors > s.sendErrors, s.sent, data, s'.sent, r)
    ensures Interrupts(s, s', r)
  {
    TailOfAppend(s.events, polled);
    forall e | e in polled && e != SocketReadable
      ensures polled[|polled| - 1] == e
    {
      OnlyTheLast(polled, e);
    }
  }

  lemma CalmJudges(s: Status, s': Status, polled: seq<PollEvent>, expected: seq<byte>, r: int, pipeOut: seq<Message>)
    requires s'.events == s.events + polled
    requires Receives(s'.mallocErrors > s.mallocErrors, polled, s'.recvErrors > s.recvErrors,
                      s.stream, expected, r, pipeOut)
    ensures Calm(s, s') ==> Judges(s.stream, expected, r, pipeOut)
  {
    TailOfAppend(s.events, polled);
  }

  /**
   wait_recv_tcp. Whatever the polls report and however the stream is cut, a receiver that no event and no error
   disturbs returns the verdict on the whole stream; it never holds more than one byte beyond what it expects.
   */
  method WaitRecvTcp(c: Connection, expected: seq<byte>)
    returns (r: int, pipeOut: seq<Message>, buffered: nat, ghost polled: seq<PollEvent>)
    modifies c
    ensures Calm(old(c.Now()), c.Now()) ==> Judges(old(c.stream), expected, r, pipeOut)
    ensures old(c.events) <= c.events && Interrupts(old(c.Now()), c.Now(), r)
    ensures c.sent == old(c.sent) && c.sendErrors == old(c.sendErrors)
    ensures c.recvErrors >= old(c.recvErrors) && c.mallocErrors >= old(c.mallocErrors)
    ensures c.events == old(c.events) + polled
    ensures Receives(c.mallocErrors > old(c.mallocErrors), polled, c.recvErrors > old(c.recvErrors),
                     old(c.stream), expected, r, pipeOut)
    ensures buffered <= |expected| + 1
    ensures buffered <= |old(c.stream)| && c.stream == old(c.stream)[buffered..]
    ensures r == 0 || r == 2 || r == 4 ==> c.stream == []
  {
    r, pipeOut, buffered, polled := ReceiveAndCompare(c, expected);
    CalmJudges(old(c.Now()), c.Now(), polled, expected, r, pipeOut);
    ReceiverInterrupted(old(c.Now()), c.Now(), polled, expected, r, pipeOut);
  }

  /** The loop and the comparison. */
  method ReceiveAndCompare(c: Connection, expected: seq<byte>)
    returns (r: int, pipeOut: seq<Message>, buffered: nat, ghost polled: seq<PollEvent>)
    modifies c
    ensures c.sent == old(c.sent) && c.sendErrors == old(c.sendErrors)
    ensures c.recvErrors >= old(c.recvErrors) && c.mallocErrors >= old(c.mallocErrors)
    ensures c.events == old(c.events) + polled
    ensures Receives(c.mallocErrors > old(c.mallocErrors), polled, c.recvErrors > old(c.recvErrors),
                     old(c.stream), expected, r, pipeOut)
    ensures buffered <= |expected| + 1
    ensures buffered <= |old(c.stream)| && c.stream == old(c.stream)[buffered..]
    ensures r == 0 || r == 2 || r == 4 ==> c.stream == []
    ensures polled == [] || polled[|polled| - 1] != SocketReadable || c.mallocErrors > old(c.mallocErrors)
            ==> c.recvErrors == old(c.recvErrors)
  {
    pipeOut, buffered, polled := [], 0, [];
    var requiredBytes, recvBytes, totalBytes := |expected|, 0, |expected| + 1;
    var buf := c.Malloc(totalBytes);
    if buf == null {
      return -3, pipeOut, buffered, polled;
    }
    while true
      invariant 0 <= recvBytes <= requiredBytes && recvBytes <= |old(c.stream)|
      invariant buf.Length == totalBytes && buf[..recvBytes] == old(c.stream)[..recvBytes]
      invariant c.stream == old(c.stream)[recvBytes..]
      invariant c.sent == old(c.sent) && c.sendErrors == old(c.sendErrors) && c.mallocErrors == old(c.mallocErrors)
      invariant c.events == old(c.events) + polled && AllReadable(polled) && c.recvErrors == old(c.recvErrors)
      decreases totalBytes - recvBytes
    {
      var event := c.Poll();
      polled := polled + [event];
      match event {
        case PollFailed =>
          return -3, pipeOut, recvBytes, polled;
        case PipeReadable =>
          return 1, pipeOut, recvBytes, polled;
        case PipeBroken =>
          return -2, pipeOut, recvBytes, polled;
        case SocketBroken =>
          return -1, pipeOut, recvBytes, polled;
        case SocketReadable =>
      }
      var got := c.Recv(buf, recvBytes, totalBytes - recvBytes);
      if got == -1 {
        return -1, pipeOut, recvBytes, polled;
      }
      recvBytes := recvBytes + got;
      if !(recvBytes <= requiredBytes && got != 0) {
        break;
      }
    }
    buffered := recvBytes;
    if recvBytes < requiredBytes {
      return 2, [TooFew(recvBytes)], buffered, polled;
    }
    if recvBytes > requiredBytes {
      return 3, [TooMuch(recvBytes)], buffered, polled;
    }
    r := if buf[..requiredBytes] != expected then 4 else 0;
  }

  /** The verdict 0 is given to the expected stream and to no other. */
  lemma VerdictIsExact(stream: seq<byte>, expected: seq<byte>)
    ensures Verdict(stream, expected) == 0 <==> stream == expected
  {
  }

  // ------------------------------------------------------------------ sending, and whole transactions

  /** data went out in part: not all of it, unless there is nothing to send. */
  ghost predicate PartSent(before: seq<byte>, data: seq<byte>, after: seq<byte>) {
    exists j :: 0 <= j <= |data| && (j == |data| ==> data == []) && after == before + data[..j]
  }

  /** What a sender does when it polls the given events and meets an error of send or not. */
  ghost predicate Sends(polled: seq<PollEvent>, sendFailed: bool,
                        before: seq<byte>, data: seq<byte>, after: seq<byte>, r: int)
  {
    && polled != [] && AllReadable(polled[..|polled| - 1])
    && r == (if polled[|polled| - 1] != SocketReadable then Code(polled[|polled| - 1])
             else if sendFailed then -1
             else 0)
    && (if r == 0 then after == before + data else PartSent(before, data, after))
  }

  /**
   wait_send_tcp. The socket events stand for writability here. It returns 0 iff nothing disturbed it, and then
   the peer has been sent exactly data; otherwise a proper prefix.
   */
  method WaitSendTcp(c: Connection, data: seq<byte>)
    returns (r: int, pipeOut: seq<Message>, ghost polled: seq<PollEvent>)
    modifies c
    ensures c.events == old(c.events) + polled
    ensures c.stream == old(c.stream) && c.recvErrors == old(c.recvErrors) && c.mallocErrors == old(c.mallocErrors)
    ensures c.sendErrors >= old(c.sendErrors)
    ensures Sends(polled, c.sendErrors > old(c.sendErrors), old(c.sent), data, c.sent, r)
    ensures old(c.events) <= c.events && Interrupts(old(c.Now()), c.Now(), r)
    ensures pipeOut == if r == -1 then [SendError] else []
  {
    r, pipeOut, polled := SendChunk(c, data);
    SenderInterrupted(old(c.Now()), c.Now(), polled, data, r);
  }

  /** The loop that sends. */
  method SendChunk(c: Connection, data: seq<byte>)
    returns (r: int, pipeOut: seq<Message>, ghost polled: seq<PollEvent>)
    modifies c
    ensures c.events == old(c.events) + polled
    ensures c.stream == old(c.stream) && c.recvErrors == old(c.recvErrors) && c.mallocErrors == old(c.mallocErrors)
    ensures c.sendErrors >= old(c.sendErrors)
    ensures Sends(polled, c.sendErrors > old(c.sendErrors), old(c.sent), data, c.sent, r)
    ensures pipeOut == if r == -1 then [SendError] else []
    ensures polled == [] || polled[|polled| - 1] != SocketReadable ==> c.sendErrors == old(c.sendErrors)
  {
    polled, pipeOut := [], [];
    var sentBytes := 0;
    assert old(c.sent) + data[..0] == old(c.sent);
    while true
      invariant 0 <= sentBytes <= |data| && (sentBytes == |data| ==> data == [])
      invariant c.sent == old(c.sent) + data[..sentBytes] && c.sendErrors == old(c.sendErrors)
      invariant c.stream == old(c.stream) && c.recvErrors == old(c.recvErrors) && c.mallocErrors == old(c.mallocErrors)
      invariant c.events == old(c.events) + polled && AllReadable(polled)
      decreases |data| - sentBytes
    {
      var event := c.Poll();
      polled := polled + [event];
      match event {
        case PollFailed =>
          return -3, pipeOut, polled;
        case PipeReadable =>
          return 1, pipeOut, polled;
        case PipeBroken =>
          return -2, pipeOut, polled;
        case SocketBroken =>
          return -1, [SendError], polled;
        case SocketReadable =>
      }
      var s := c.Send(data[sentBytes..]);
      if s == -1 {
        return -1, [SendError], polled;
      }
      assert data[..sentBytes] + data[sentBytes..][..s] == data[..sentBytes + s];
      sentBytes := sentBytes + s;
      if sentBytes == |data| {
        assert data[..sentBytes] == data;
        return 0, pipeOut, polled;
      }
    }
  }

  datatype Chunk = ToReceive(data: seq<byte>) | ToSend(data: seq<byte>)

  /** A chunk result that ends the transaction: the receiver is told to stop, or a call or the pipe broke. */
  predicate Fatal(result: int) {
    result < -1 || result == 1
  }

  /** What the pipe gets for a chunk that a stream is compared with. */
  function PipeFor(chunk: Chunk, stream: seq<byte>, result: int): seq<Message> {
    match result
    case -1 => [if chunk.ToReceive? then RecvError else SendError]
    case 2 => [TooFew(|stream|)]
    case 3 => [TooMuch(|chunk.data| + 1)]
    case 4 => [NotSameData]
    case _ => []
  }

  /** s' is s or comes later. */
  ghost predicate Follows(s: Status, s': Status) {
    && s.events <= s'.events && s.recvErrors <= s'.recvErrors && s.sendErrors <= s'.sendErrors
    && s.mallocErrors <= s'.mallocErrors
  }

  function Polled(s: Status, s': Status): seq<PollEvent>
    requires |s.events| <= |s'.events|
  {
    s'.events[|s.events|..]
  }

  /** How a receive chunk takes a connection from s to s', with its result and what the pipe gets for it. */
  ghost predicate Received(data: seq<byte>, s: Status, s': Status, result: int, pipe: seq<Message>)
    requires Follows(s, s')
  {
    && s'.sent == s.sent && s'.sendErrors == s.sendErrors
    && Receives(s'.mallocErrors > s.mallocErrors, Polled(s, s'), s'.recvErrors > s.recvErrors, s.stream, data, result,
                if result == 2 || result == 3 then pipe else [])
    && (result == 0 || result == 2 || result == 4 ==> s'.stream == [])
  }

  /** How a send chunk does. */
  ghost predicate Sent(data: seq<byte>, s: Status, s': Status, result: int)
    requires Follows(s, s')
  {
    && s'.stream == s.stream && s'.recvErrors == s.recvErrors && s'.mallocErrors == s.mallocErrors
    && Sends(Polled(s, s'), s'.sendErrors > s.sendErrors, s.sent, data, s'.sent, result)
  }

  ghost predicate Handled(chunk: Chunk, s: Status, s': Status, result: int, pipe: seq<Message>) {
    && Follows(s, s') && pipe == PipeFor(chunk, s.stream, result)
    && if chunk.ToSend? then Sent(chunk.data, s, s', result) else Received(chunk.data, s, s', result, pipe)
  }

  lemma TailOfAppend(events: seq<PollEvent>, polled: seq<PollEvent>)
    ensures (events + polled)[|events|..] == polled
  {
  }

  /** One chunk of a transaction. */
  method HandleChunk(c: Connection, chunk: Chunk) returns (result: int, pipeOut: seq<Message>)
    modifies c
    ensures Handled(chunk, old(c.Now()), c.Now(), result, pipeOut)
    ensures chunk.ToReceive? && result == -1 ==> pipeOut == [RecvError]
    ensures chunk.ToSend? && result == -1 ==> pipeOut == [SendError]
    ensures result == 2 ==> pipeOut == [TooFew(|old(c.stream)|)]
    ensures result == 3 ==> pipeOut == [TooMuch(|chunk.data| + 1)]
    ensures result == 4 ==> pipeOut == [NotSameData]
    ensures result == 0 || result == 1 || result < -1 ==> pipeOut == []
  {
    ghost var polled;
    if chunk.ToReceive? {
      var buffered;
      result, pipeOut, buffered, polled := WaitRecvTcp(c, chunk.data);
      if result == -1 {
        pipeOut := pipeOut + [RecvError];
      } else if result == 4 {
        pipeOut := pipeOut + [NotSameData];
      }
    } else {
      result, pipeOut, polled := WaitSendTcp(c, chunk.data);
    }
    TailOfAppend(old(c.events), polled);
  }

  // ------------------------------------------------------------------ what success means

  /** Nothing disturbed the connection between s and s'. */
  ghost predicate Calm(s: Status, s': Status) {
    && s.events <= s'.events && AllReadable(Polled(s, s'))
    && s'.recvErrors == s.recvErrors && s'.sendErrors == s.sendErrors && s'.mallocErrors == s.mallocErrors
  }

  /** What the first j chunks send. */
  function SentBy(chunks: seq<Chunk>, j: nat): seq<byte>
    requires j <= |chunks|
  {
    if j == 0 then [] else SentBy(chunks, j - 1) + if chunks[j - 1].ToSend? then chunks[j - 1].data else []
  }

  /** What the first j chunks leave of a stream: a receive chunk reads to its end. */
  function LeftBy(chunks: seq<Chunk>, j: nat, stream: seq<byte>): seq<byte>
    requires j <= |chunks|
  {
    if j == 0 then stream else if chunks[j - 1].ToReceive? then [] else LeftBy(chunks, j - 1, stream)
  }

  /** Each of the first j receive chunks expects what is left of the stream. */
  predicate Expected(chunks: seq<Chunk>, j: nat, stream: seq<byte>)
    requires j <= |chunks|
  {
    j > 0 ==> && Expected(chunks, j - 1, stream)
              && (chunks[j - 1].ToReceive? ==> chunks[j - 1].data == LeftBy(chunks, j - 1, stream))
  }

  lemma {:induction false} LeftAfterReceive(chunks: seq<Chunk>, i: nat, j: nat, stream: seq<byte>)
    requires i < j <= |chunks| && chunks[i].ToReceive?
    ensures LeftBy(chunks, j, stream) == []
  {
    if i < j - 1 {
      LeftAfterReceive(chunks, i, j - 1, stream);
    }
  }

  lemma {:induction false} ExpectedAt(chunks: seq<Chunk>, j: nat, stream: seq<byte>, i: nat)
    requires i < j <= |chunks| && chunks[i].ToReceive? && Expected(chunks, j, stream)
    ensures chunks[i].data == LeftBy(chunks, i, stream)
  {
    if i < j - 1 {
      ExpectedAt(chunks, j - 1, stream, i);
    }
  }

  /** A transaction that receives twice, something the second time, succeeds on no stream. */
  lemma SecondReceiveFails(chunks: seq<Chunk>, stream: seq<byte>, i: nat, j: nat)
    requires i < j < |chunks| && chunks[i].ToReceive? && chunks[j].ToReceive? && chunks[j].data != []
    ensures !Expected(chunks, |chunks|, stream)
  {
    LeftAfterReceive(chunks, i, j, stream);
    if Expected(chunks, |chunks|, stream) {
      ExpectedAt(chunks, |chunks|, stream, j);
    }
  }

  /** The first chunks all went well: they sent and received what they should. */
  ghost predicate AllWell(chunks: seq<Chunk>, j: nat, s: Status, s': Status)
    requires j <= |chunks|
  {
    && Expected(chunks, j, s.stream)
    && s'.stream == LeftBy(chunks, j, s.stream)
    && s'.sent == s.sent + SentBy(chunks, j)
  }

  /** An undisturbed receive chunk gives the verdict on what is left of the stream. */
  lemma CalmReceive(data: seq<byte>, s: Status, s': Status, result: int, pipe: seq<Message>)
    requires Follows(s, s') && Received(data, s, s', result, pipe) && Calm(s, s')
    ensures result == Verdict(s.stream, data)
  {
  }

  lemma CalmSend(data: seq<byte>, s: Status, s': Status, result: int)
    requires Follows(s, s') && Sent(data, s, s', result) && Calm(s, s')
    ensures result == 0
  {
  }

  lemma OneMoreReceive(chunks: seq<Chunk>, j: nat, s0: Status, s: Status, s': Status, result: int, pipe: seq<Message>)
    requires j < |chunks| && chunks[j].ToReceive? && AllWell(chunks, j, s0, s)
    requires Follows(s, s') && Received(chunks[j].data, s, s', result, pipe)
    ensures result == 0 ==> AllWell(chunks, j + 1, s0, s')
    ensures Calm(s, s') ==> (result == 0 <==> Expected(chunks, j + 1, s0.stream))
  {
    VerdictIsExact(s.stream, chunks[j].data);
    assert SentBy(chunks, j + 1) == SentBy(chunks, j);
    if Calm(s, s') {
      CalmReceive(chunks[j].data, s, s', result, pipe);
    }
  }

  lemma OneMoreSend(chunks: seq<Chunk>, j: nat, s0: Status, s: Status, s': Status, result: int)
    requires j < |chunks| && chunks[j].ToSend? && AllWell(chunks, j, s0, s)
    requires Follows(s, s') && Sent(chunks[j].data, s, s', result)
    ensures result == 0 ==> AllWell(chunks, j + 1, s0, s')
    ensures Calm(s, s') ==> (result == 0 <==> Expected(chunks, j + 1, s0.stream))
  {
    Regroup(s0.sent, SentBy(chunks, j), chunks[j].data);
    if Calm(s, s') {
      CalmSend(chunks[j].data, s, s', result);
    }
  }

  /** One more chunk after chunks that all went well. */
  lemma OneMoreChunk(chunks: seq<Chunk>, j: nat, s0: Status, s: Status, s': Status, result: int, pipe: seq<Message>)
    requires j < |chunks| && AllWell(chunks, j, s0, s) && Handled(chunks[j], s, s', result, pipe)
    ensures result == 0 ==> AllWell(chunks, j + 1, s0, s')
    ensures Calm(s, s') ==> (result == 0 <==> Expected(chunks, j + 1, s0.stream))
  {
    if chunks[j].ToSend? {
      OneMoreSend(chunks, j, s0, s, s', result);
    } else {
      OneMoreReceive(chunks, j, s0, s, s', result, pipe);
    }
  }

  lemma CalmParts(s: Status, s': Status, s'': Status)
    requires Follows(s, s') && Follows(s', s'') && Calm(s, s'')
    ensures Calm(s, s') && Calm(s', s'')
  {
    var all := Polled(s, s'');
    forall i | 0 <= i < |Polled(s, s')|
      ensures Polled(s, s')[i] == SocketReadable
    {
      assert Polled(s, s')[i] == all[i];
    }
    forall i | 0 <= i < |Polled(s', s'')|
      ensures Polled(s', s'')[i] == SocketReadable
    {
      assert Polled(s', s'')[i] == all[|Polled(s, s')| + i];
    }
  }

  /** A chunk that nothing disturbs is not fatal, and leaves no message iff its result is 0. */
  lemma CalmChunk(chunk: Chunk, s: Status, s': Status, result: int, pipe: seq<Message>)
    requires Handled(chunk, s, s', result, pipe) && Calm(s, s')
    ensures !Fatal(result)
    ensures pipe == [] <==> result == 0
  {
    if chunk.ToSend? {
      CalmSend(chunk.data, s, s', result);
    } else {
      CalmReceive(chunk.data, s, s', result, pipe);
    }
  }

  /** How a transaction went: the connection at its start, and after each chunk with its result and messages. */
  datatype Course = Start(status: Status) | Then(before: Course, result: int, pipe: seq<Message>, status: Status)

  function Length(t: Course): nat {
    if t.Start? then 0 else Length(t.before) + 1
  }

  function First(t: Course): Status {
    if t.Start? then t.status else First(t.before)
  }

  function Pipe(t: Course): seq<Message> {
    if t.Start? then [] else Pipe(t.before) + t.pipe
  }

  predicate Stopped(t: Course) {
    t.Then? && Fatal(t.result)
  }

  /** The chunks were handled one after the other, up to the first fatal result. */
  ghost predicate Runs(chunks: seq<Chunk>, t: Course) {
    t.Then? ==> && Runs(chunks, t.before) && !Stopped(t.before) && Length(t.before) < |chunks|
                && Handled(chunks[Length(t.before)], t.before.status, t.status, t.result, t.pipe)
  }

  lemma {:induction false} LaterStatus(chunks: seq<Chunk>, t: Course)
    requires Runs(chunks, t)
    ensures Follows(First(t), t.status) && Ok !in Pipe(t)
  {
    if t.Then? {
      LaterStatus(chunks, t.before);
      assert Ok !in PipeFor(chunks[Length(t.before)], t.before.status.stream, t.result);
    }
  }

  /** A chunk that is not fatal and leaves no message has the result 0. */
  lemma SilentChunk(chunk: Chunk, s: Status, s': Status, result: int, pipe: seq<Message>)
    requires Handled(chunk, s, s', result, pipe) && !Fatal(result) && pipe == []
    ensures result == 0
  {
    assert -3 <= result <= 4;
  }

  /** When every chunk so far left no message and none was fatal, all went well. */
  lemma {:induction false} SilenceIsSuccess(chunks: seq<Chunk>, t: Course)
    requires Runs(chunks, t) && !Stopped(t) && Length(t) <= |chunks|
    ensures Pipe(t) == [] ==> AllWell(chunks, Length(t), First(t), t.status)
  {
    if t.Start? {
      assert t.status.sent + [] == t.status.sent;
    } else if Pipe(t) == [] {
      var n, b := Length(t.before), t.before;
      SilenceIsSuccess(chunks, b);
      SilentChunk(chunks[n], b.status, t.status, t.result, t.pipe);
      OneMoreChunk(chunks, n, First(b), b.status, t.status, t.result, t.pipe);
    }
  }

  /** What nothing disturbs goes through all its chunks, and is silent iff the stream is what they expect. */
  lemma {:induction false} CalmIsExact(chunks: seq<Chunk>, t: Course)
    requires Runs(chunks, t) && Calm(First(t), t.status) && Length(t) <= |chunks|
    ensures !Stopped(t)
    ensures Pipe(t) == [] <==> Expected(chunks, Length(t), First(t).stream)
  {
    if t.Then? {
      LaterStatus(chunks, t.before);
      CalmParts(First(t), t.before.status, t.status);
      CalmIsExact(chunks, t.before);
      CalmStep(chunks, t);
    }
  }

  lemma CalmStep(chunks: seq<Chunk>, t: Course)
    requires Runs(chunks, t) && t.Then? && Calm(t.before.status, t.status)
    requires Pipe(t.before) == [] <==> Expected(chunks, Length(t.before), First(t).stream)
    ensures !Stopped(t)
    ensures Pipe(t) == [] <==> Expected(chunks, Length(t), First(t).stream)
  {
    var n, b := Length(t.before), t.before;
    CalmChunk(chunks[n], b.status, t.status, t.result, t.pipe);
    if Pipe(b) == [] {
      SilenceIsSuccess(chunks, b);
      OneMoreChunk(chunks, n, First(t), b.status, t.status, t.result, t.pipe);
    }
  }

  /** What ends a transaction: the control pipe gets a message, or breaks, or poll or malloc fails. */
  ghost predicate ToldToStop(s: Status, s': Status)
    requires |s.events| <= |s'.events|
  {
    PipeReadable in Polled(s, s')
  }

  ghost predicate Broken(s: Status, s': Status)
    requires |s.events| <= |s'.events|
  {
    PollFailed in Polled(s, s') || PipeBroken in Polled(s, s') || s'.mallocErrors > s.mallocErrors
  }

  lemma ChunkEnds(chunk: Chunk, s: Status, s': Status, result: int, pipe: seq<Message>)
    requires Handled(chunk, s, s', result, pipe)
    ensures result == 1 <==> ToldToStop(s, s')
    ensures result < -1 <==> Broken(s, s')
  {
    var polled := Polled(s, s');
    if polled != [] {
      var front, last := polled[..|polled| - 1], polled[|polled| - 1];
      assert polled == front + [last];
      assert forall e :: e in front ==> e == SocketReadable;
    }
  }

  /** A transaction stops exactly at what ends it. */
  lemma {:induction false} CourseEnds(chunks: seq<Chunk>, t: Course)
    requires Runs(chunks, t)
    ensures Follows(First(t), t.status)
    ensures ToldToStop(First(t), t.status) <==> Stopped(t) && t.result == 1
    ensures Broken(First(t), t.status) <==> Stopped(t) && t.result != 1
  {
    LaterStatus(chunks, t);
    if t.Then? {
      var s0, s, s' := First(t), t.before.status, t.status;
      LaterStatus(chunks, t.before);
      CourseEnds(chunks, t.before);
      ChunkEnds(chunks[Length(t.before)], s, s', t.result, t.pipe);
      assert Polled(s0, s') == Polled(s0, s) + Polled(s, s');
    }
  }

  /** The end of a transaction: 0 iff every chunk was handled and none was fatal, 3 when told to stop, 2 otherwise. */
  ghost predicate Ended(chunks: seq<Chunk>, t: Course, r: int) {
    && Length(t) <= |chunks|
    && if Stopped(t) then r == if t.result == 1 then 3 else 2 else r == 0 && Length(t) == |chunks|
  }

  /**
   handle_tcp_transaction. It goes on after a chunk that went wrong and reports Ok at its end all the same. What Ok
   alone in the pipe means: everything was sent, the first receive chunk expected the whole stream, and any later one
   nothing. If nothing disturbs the transaction, it means exactly that. The result is 3 iff the control pipe got a
   message, 2 iff it broke or poll or malloc failed, and otherwise 0.
   */
  method HandleTransaction(c: Connection, chunks: seq<Chunk>)
    returns (r: int, pipeOut: seq<Message>, ghost t: Course)
    modifies c
    ensures Runs(chunks, t) && First(t) == old(c.Now()) && t.status == c.Now() && Ended(chunks, t, r)
    ensures pipeOut == Pipe(t) + if r == 0 then [Ok] else []
    ensures Ok in pipeOut <==> r == 0
    ensures r == 0 || r == 2 || r == 3
    ensures old(c.events) <= c.events
    ensures r == 3 <==> PipeReadable in c.events[|old(c.events)|..]
    ensures r == 2 <==> || PollFailed in c.events[|old(c.events)|..] || PipeBroken in c.events[|old(c.events)|..]
                        || c.mallocErrors > old(c.mallocErrors)
    ensures pipeOut == [Ok] ==> AllWell(chunks, |chunks|, old(c.Now()), c.Now())
    ensures Calm(old(c.Now()), c.Now()) ==>
              r == 0 && (pipeOut == [Ok] <==> Expected(chunks, |chunks|, old(c.stream)))
  {
    r, pipeOut, t := HandleChunks(c, chunks);
    LaterStatus(chunks, t);
    CourseEnds(chunks, t);
    if Calm(First(t), t.status) {
      CalmIsExact(chunks, t);
    }
    if r == 0 {
      SilenceIsSuccess(chunks, t);
      pipeOut := pipeOut + [Ok];
    }
  }

  /** The loop over the chunks. */
  method HandleChunks(c: Connection, chunks: seq<Chunk>)
    returns (r: int, pipeOut: seq<Message>, ghost t: Course)
    modifies c
    ensures Runs(chunks, t) && First(t) == old(c.Now()) && t.status == c.Now() && Ended(chunks, t, r)
    ensures pipeOut == Pipe(t)
  {
    pipeOut, t := [], Start(c.Now());
    var j := 0;
    while j < |chunks|
      invariant j == Length(t) <= |chunks| && !Stopped(t)
      invariant Runs(chunks, t) && First(t) == old(c.Now()) && t.status == c.Now()
      invariant pipeOut == Pipe(t)
    {
      var result, messages := HandleChunk(c, chunks[j]);
      t := Then(t, result, messages, c.Now());
      pipeOut := pipeOut + messages;
      if result < -1 {
        return 2, pipeOut, t;
      }
      if result == 1 {
        return 3, pipeOut, t;
      }
      j := j + 1;
    }
    r := 0;
  }

  /** A transaction that ends with Ok although a chunk went wrong: it expects a byte from a peer that sends nothing. */
  method OkAfterTooFew(c: Connection) returns (r: int, pipeOut: seq<Message>)
    requires c.stream == []
    modifies c
    ensures Calm(old(c.Now()), c.Now()) ==> r == 0 && pipeOut == [TooFew(0), Ok]
  {
    ghost var t;
    r, pipeOut, t := HandleTransaction(c, [ToReceive([7])]);
    if Calm(First(t), t.status) {
      assert Length(t) == 1 && t.before.Start?;
      assert Handled(ToReceive([7]), t.before.status, t.status, t.result, t.pipe);
      assert t.result == Verdict([], [7]);
    }
  }
}
