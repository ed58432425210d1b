/**
 REAL mode against its reference: one queue of bytes, each with the time at which it becomes
 readable. There are no chunks, no cursor and no time debt in the reference. An empty chunk is
 an item without a byte: a reader has to wait for it, and gets nothing for it.
 */
module RealTime {
  import opened ByteOrder
  import opened TimedStream

  /** Bytes in the order of delivery, each with the time from which it can be read, and blanks for empty chunks. */
  datatype Queue = Empty | Byte(value: byte, due: int, rest: Queue) | Blank(due: int, rest: Queue)

  datatype Taken = Taken(bytes: seq<byte>, left: Queue)

  // ------------------------------------------------------------------ the reference

  /** Pop readable bytes as long as there is room. */
  function Take(q: Queue, len: nat, t: int): Taken {
    if q.Empty? || len == 0 || q.due > t then Taken([], q)
    else if q.Blank? then Take(q.rest, len, t)
    else
      var more := Take(q.rest, len - 1, t);
      Taken([q.value] + more.bytes, more.left)
  }

  /** Everything that is still queued arrives d later. */
  function Delay(q: Queue, d: int): Queue {
    match q
    case Empty => Empty
    case Byte(value, due, rest) => Byte(value, due + d, Delay(rest, d))
    case Blank(due, rest) => Blank(due + d, Delay(rest, d))
  }

  predicate MustWait(q: Queue, now: int) {
    !q.Empty? && q.due > now
  }

  /** A read of the flat timed byte string. Only a sleep that overshoots moves what is queued. */
  function QueueRead(q: Queue, call: Call): (Queue, Outcome) {
    if !MustWait(q, call.now) then
      var taken := Take(q, call.len, call.now);
      (taken.left, Got(taken.bytes))
    else if call.dontWait then
      (q, WouldBlock)
    else
      var taken := Take(Delay(q, call.oversleep), call.len, q.due + call.oversleep);
      (taken.left, Got(taken.bytes))
  }

  // ------------------------------------------------------------------ the abstraction

  /** Bytes i and after of data, all due at the same time, in front of rest. */
  function Stamp(data: seq<byte>, i: nat, due: int, rest: Queue): Queue
    decreases |data| - i
  {
    if i >= |data| then rest else Byte(data[i], due, Stamp(data, i + 1, due, rest))
  }

  /** The bytes of chunks k and after, when chunk k - 1 was due at time t. */
  function Schedule(chunks: seq<Chunk>, k: nat, t: int): Queue
    decreases |chunks| - k
  {
    if k >= |chunks| then Empty else Queued(chunks, k, 0, t + Nanos(chunks[k].interval))
  }

  /** What is left from byte br of chunk k on, when chunk k is due at time due. */
  function Queued(chunks: seq<Chunk>, k: nat, br: nat, due: int): Queue
    decreases |chunks| - k, 0
  {
    if k >= |chunks| then Empty
    else if chunks[k].data == [] then Blank(due, Schedule(chunks, k + 1, due))
    else Stamp(chunks[k].data, br, due, Schedule(chunks, k + 1, due))
  }

  /** The queue that a cursor stands for: last_time + interval is when its chunk is due. */
  function Pending(c: Cursor): Queue {
    Queued(c.buf.chunks, c.chunkId, c.bytesRead, c.lastTime + c.interval)
  }

  // ------------------------------------------------------------------ the copying loop pops the queue

  /** A position in front of a byte or an empty chunk, or after the last chunk. */
  ghost predicate Ahead(chunks: seq<Chunk>, k: nat, br: nat) {
    Position(chunks, k, br) && (br > 0 ==> br < |chunks[k].data|)
  }

  lemma {:induction false} TakeAcross(data: seq<byte>, i: nat, due: int, rest: Queue, len: nat, t: int)
    requires i <= |data| <= i + len && due <= t
    ensures var more := Take(rest, len - (|data| - i), t);
            Take(Stamp(data, i, due, rest), len, t) == Taken(data[i..] + more.bytes, more.left)
    decreases |data| - i
  {
    var more := Take(rest, len - (|data| - i), t);
    if i == |data| {
      assert data[i..] + more.bytes == more.bytes;
    } else {
      TakeAcross(data, i + 1, due, rest, len - 1, t);
      assert [data[i]] + (data[i + 1..] + more.bytes) == data[i..] + more.bytes;
    }
  }

  lemma {:induction false} TakeWithin(data: seq<byte>, i: nat, due: int, rest: Queue, len: nat, t: int)
    requires i + len <= |data| && due <= t
    ensures Take(Stamp(data, i, due, rest), len, t) == Taken(data[i..i + len], Stamp(data, i + len, due, rest))
    decreases len
  {
    if len > 0 {
      TakeWithin(data, i + 1, due, rest, len - 1, t);
      assert [data[i]] + data[i + 1..i + len] == data[i..i + len];
    }
  }

  /** What the loop, started at time t with chunk k due at time due, hands over and leaves. */
  function DrainTaken(chunks: seq<Chunk>, k: nat, br: nat, due: int, len: nat, t: int): Taken
    requires Position(chunks, k, br)
  {
    var d := Drain(chunks, k, br, due - t, len);
    Taken(d.bytes, Queued(chunks, d.chunkId, d.bytesRead, t + d.interval))
  }

  lemma {:induction false} DrainIsTake(chunks: seq<Chunk>, k: nat, br: nat, due: int, len: nat, t: int)
    requires Ahead(chunks, k, br) && due <= t
    ensures DrainTaken(chunks, k, br, due, len, t) == Take(Queued(chunks, k, br, due), len, t)
    decreases |chunks| - k
  {
    var d := Drain(chunks, k, br, due - t, len);
    if k == |chunks| || len == 0 {
      assert d == Drained(k, br, due - t, []);
    } else {
      var data, rest := chunks[k].data, Schedule(chunks, k + 1, due);
      if data == [] {
        DrainIsTakeAtChunkEnd(chunks, k, br, due, len, t);
      } else if len < |data| - br {
        assert d == Drained(k, br + len, due - t, data[br..br + len]);
        TakeWithin(data, br, due, rest, len, t);
      } else {
        TakeAcross(data, br, due, rest, len, t);
        DrainIsTakeAtChunkEnd(chunks, k, br, due, len, t);
      }
    }
  }

  /** The loop has emptied chunk k: it stops if the next one is not due, and goes on otherwise. */
  lemma {:induction false} DrainIsTakeAtChunkEnd(chunks: seq<Chunk>, k: nat, br: nat, due: int, len: nat, t: int)
    requires k < |chunks| && due <= t
    requires br <= |chunks[k].data| <= br + len && len > 0
    ensures var more := Take(Schedule(chunks, k + 1, due), len - (|chunks[k].data| - br), t);
            DrainTaken(chunks, k, br, due, len, t) == Taken(chunks[k].data[br..] + more.bytes, more.left)
    decreases |chunks| - k, 0
  {
    var bytes := chunks[k].data[br..];
    DrainAtChunkEnd(chunks, k, br, due - t, len);
    assert bytes + [] == bytes;
    if k + 1 < |chunks| {
      var due' := due + Nanos(chunks[k + 1].interval);
      if due' <= t {
        DrainIsTake(chunks, k + 1, 0, due', len - |bytes|, t);
      }
    }
  }

  // ------------------------------------------------------------------ one call

  lemma {:induction false} DelayMovesStamp(data: seq<byte>, i: nat, due: int, rest: Queue, d: int)
    ensures Delay(Stamp(data, i, due, rest), d) == Stamp(data, i, due + d, Delay(rest, d))
    decreases |data| - i
  {
    if i < |data| {
      DelayMovesStamp(data, i + 1, due, rest, d);
    }
  }

  lemma {:induction false} DelayMovesQueued(chunks: seq<Chunk>, k: nat, br: nat, due: int, d: int)
    ensures Delay(Queued(chunks, k, br, due), d) == Queued(chunks, k, br, due + d)
    decreases |chunks| - k
  {
    if k < |chunks| {
      if chunks[k].data != [] {
        DelayMovesStamp(chunks[k].data, br, due, Schedule(chunks, k + 1, due), d);
      }
      if k + 1 < |chunks| {
        DelayMovesQueued(chunks, k + 1, 0, due + Nanos(chunks[k + 1].interval), d);
      }
    }
  }

  /** A REAL read that finds its chunk released. */
  lemma ReadWhenReleased(c: Cursor, call: Call)
    requires Inside(c) && c.buf.mode == REAL_INTERVAL && !c.AtEnd() && c.lastTime + c.interval <= call.now
    ensures (Pending(Read(c, call).0), Read(c, call).1) == QueueRead(Pending(c), call)
  {
    DrainIsTake(c.buf.chunks, c.chunkId, c.bytesRead, c.lastTime + c.interval, call.len, call.now);
  }

  /** A REAL read that sleeps until its chunk is released, and maybe longer. */
  lemma ReadAfterSleep(c: Cursor, call: Call)
    requires Inside(c) && c.buf.mode == REAL_INTERVAL && !c.AtEnd()
    requires c.lastTime + c.interval > call.now && !call.dontWait
    ensures (Pending(Read(c, call).0), Read(c, call).1) == QueueRead(Pending(c), call)
  {
    var due := c.lastTime + c.interval;
    var wake := due + call.oversleep;
    DelayMovesQueued(c.buf.chunks, c.chunkId, c.bytesRead, due, call.oversleep);
    DrainIsTake(c.buf.chunks, c.chunkId, c.bytesRead, wake, call.len, wake);
  }

  /**
   Refinement: a REAL read of the cursor is the reference read of the queue it stands for, in its result
   and in the queue it leaves, for any clock value, any length, blocking or not, and any overshoot of the sleep.
   */
  lemma RealReadRefinesQueue(c: Cursor, call: Call)
    requires Inside(c) && c.buf.mode == REAL_INTERVAL
    ensures (Pending(Read(c, call).0), Read(c, call).1) == QueueRead(Pending(c), call)
  {
    var due := c.lastTime + c.interval;
    var c' := c.(lastTime := call.now);
    if c.AtEnd() {
      assert Read(c, call) == (c', Got([]));
    } else if due <= call.now {
      ReadWhenReleased(c, call);
    } else if call.dontWait {
      assert Read(c, call) == (c'.(interval := due - call.now), WouldBlock);
    } else {
      ReadAfterSleep(c, call);
    }
  }

  // ------------------------------------------------------------------ how many bytes

  /** How many bytes stand in front of the first item that is not released at time t. */
  function Available(q: Queue, t: int): nat {
    if q.Empty? || q.due > t then 0 else (if q.Byte? then 1 else 0) + Available(q.rest, t)
  }

  /** How many queued bytes are released at time t, wherever they stand in the queue. */
  function Released(q: Queue, t: int): nat {
    if q.Empty? then 0 else (if q.Byte? && q.due <= t then 1 else 0) + Released(q.rest, t)
  }

  ghost predicate Sorted(q: Queue) {
    !q.Empty? ==> Sorted(q.rest) && (!q.rest.Empty? ==> q.due <= q.rest.due)
  }

  lemma {:induction false} NothingReleasedLater(q: Queue, t: int)
    requires Sorted(q) && MustWait(q, t)
    ensures Released(q, t) == 0
  {
    if !q.rest.Empty? {
      NothingReleasedLater(q.rest, t);
    }
  }

  lemma {:induction false} AvailableIsReleased(q: Queue, t: int)
    requires Sorted(q)
    ensures Available(q, t) == Released(q, t)
  {
    if MustWait(q, t) {
      NothingReleasedLater(q, t);
    } else if !q.Empty? {
      AvailableIsReleased(q.rest, t);
    }
  }

  /** A read at time t takes min(len, number of available bytes). */
  lemma {:induction false} TakesWhatIsAvailable(q: Queue, len: nat, t: int)
    ensures |Take(q, len, t).bytes| == Min(len, Available(q, t))
  {
    if !q.Empty? && len > 0 && q.due <= t {
      TakesWhatIsAvailable(q.rest, if q.Byte? then len - 1 else len, t);
    }
  }

  lemma {:induction false} StampSorted(data: seq<byte>, i: nat, due: int, rest: Queue)
    requires Sorted(rest) && (!rest.Empty? ==> due <= rest.due)
    ensures Sorted(Stamp(data, i, due, rest))
    ensures !Stamp(data, i, due, rest).Empty? ==> due <= Stamp(data, i, due, rest).due
    decreases |data| - i
  {
    if i < |data| {
      StampSorted(data, i + 1, due, rest);
    }
  }

  ghost predicate NonNegativeIntervals(chunks: seq<Chunk>) {
    forall i :: 0 <= i < |chunks| ==> chunks[i].interval >= 0
  }

  lemma {:induction false} QueuedSorted(chunks: seq<Chunk>, k: nat, br: nat, due: int)
    requires NonNegativeIntervals(chunks)
    ensures Sorted(Queued(chunks, k, br, due))
    ensures !Queued(chunks, k, br, due).Empty? ==> due <= Queued(chunks, k, br, due).due
    decreases |chunks| - k
  {
    if k < |chunks| {
      if k + 1 < |chunks| {
        QueuedSorted(chunks, k + 1, 0, due + Nanos(chunks[k + 1].interval));
      }
      StampSorted(chunks[k].data, br, due, Schedule(chunks, k + 1, due));
    }
  }

  /** When a read that is not refused takes bytes: at the call, or at the end of the sleep for the first item. */
  function EffectiveTime(c: Cursor, call: Call): int {
    if MustWait(Pending(c), call.now) then Pending(c).due + call.oversleep else call.now
  }

  /** What is queued then: an overshoot of the sleep moves it. */
  function QueuedThen(c: Cursor, call: Call): Queue {
    if MustWait(Pending(c), call.now) then Delay(Pending(c), call.oversleep) else Pending(c)
  }

  /**
   A REAL read that is not refused returns min(len, bytes available at the effective time) bytes; a blocking one is
   never refused. When no interval is negative, the available bytes are all the bytes released by then.
   */
  lemma BlockingReadReturnsReleased(c: Cursor, call: Call)
    requires Inside(c) && c.buf.mode == REAL_INTERVAL
    ensures Read(c, call).1 != BadMode
    ensures Read(c, call).1 == WouldBlock <==> call.dontWait && MustWait(Pending(c), call.now)
    ensures Read(c, call).1.Got? ==>
              |Read(c, call).1.bytes| == Min(call.len, Available(QueuedThen(c, call), EffectiveTime(c, call)))
    ensures NonNegativeIntervals(c.buf.chunks) ==>
              Available(QueuedThen(c, call), EffectiveTime(c, call))
              == Released(QueuedThen(c, call), EffectiveTime(c, call))
  {
    var q, t, due := QueuedThen(c, call), EffectiveTime(c, call), c.lastTime + c.interval;
    RealReadRefinesQueue(c, call);
    TakesWhatIsAvailable(q, call.len, t);
    if NonNegativeIntervals(c.buf.chunks) {
      DelayMovesQueued(c.buf.chunks, c.chunkId, c.bytesRead, due, call.oversleep);
      QueuedSorted(c.buf.chunks, c.chunkId, c.bytesRead, due);
      QueuedSorted(c.buf.chunks, c.chunkId, c.bytesRead, due + call.oversleep);
      AvailableIsReleased(q, t);
    }
  }

  /**
   When a REAL read with room returns 0 although bytes are left: exactly when only empty chunks stand in front of the
   first item that is not released. Without empty chunks this cannot happen.
   */
  lemma EmptyRead(c: Cursor, call: Call)
    requires Inside(c) && c.buf.mode == REAL_INTERVAL && call.len > 0 && Read(c, call).1.Got?
    ensures Read(c, call).1.bytes == [] <==> Available(QueuedThen(c, call), EffectiveTime(c, call)) == 0
    ensures Read(c, call).1.bytes == [] && Remaining(c) != [] ==> !NonEmptyChunks(c.buf.chunks)
  {
    BlockingReadReturnsReleased(c, call);
    if NonEmptyChunks(c.buf.chunks) && Read(c, call).1.bytes == [] {
      ReadMakesProgress(c, call);
    }
  }

  // ------------------------------------------------------------------ whole runs

  /** The scheduled release time of chunk k for a buffer registered at time start. */
  function ReleaseTime(chunks: seq<Chunk>, start: int, k: nat): int
    requires k < |chunks|
  {
    (if k == 0 then start else ReleaseTime(chunks, start, k - 1)) + Nanos(chunks[k].interval)
  }

  /** The intervals of the first k chunks together, in milliseconds. */
  function IntervalSum(chunks: seq<Chunk>, k: nat): int
    requires k <= |chunks|
  {
    if k == 0 then 0 else IntervalSum(chunks, k - 1) + chunks[k - 1].interval
  }

  /** A chunk is released when its interval and all those before it are over, in nanoseconds. */
  lemma {:induction false} ReleaseTimeInNanoseconds(chunks: seq<Chunk>, start: int, k: nat)
    requires k < |chunks|
    ensures ReleaseTime(chunks, start, k) == start + 1_000_000 * IntervalSum(chunks, k + 1)
  {
    if k > 0 {
      ReleaseTimeInNanoseconds(chunks, start, k - 1);
    }
  }

  /** The copying loop adds to the interval field what lies between the release times of the chunks it moves over. */
  lemma {:induction false} DrainKeepsDue(chunks: seq<Chunk>, start: int, k: nat, br: nat, interval: int, len: nat)
    requires k < |chunks| && br <= |chunks[k].data|
    ensures var d := Drain(chunks, k, br, interval, len);
            d.chunkId < |chunks| ==>
              d.interval - interval == ReleaseTime(chunks, start, d.chunkId) - ReleaseTime(chunks, start, k)
    decreases |chunks| - k
  {
    if len > 0 && len >= |chunks[k].data| - br && k + 1 < |chunks| {
      var wait := interval + Nanos(chunks[k + 1].interval);
      if wait <= 0 {
        DrainKeepsDue(chunks, start, k + 1, 0, wait, len - (|chunks[k].data| - br));
      }
    }
  }

  /** By how much a call moves what is queued: only a sleep that overshoots does. */
  function Slip(c: Cursor, call: Call): nat {
    if MustWait(Pending(c), call.now) && !call.dontWait then call.oversleep else 0
  }

  function TotalSlip(c: Cursor, calls: seq<Call>): nat
    requires c.Valid()
    decreases |calls|
  {
    if calls == [] then 0 else Slip(c, calls[0]) + TotalSlip(Advanced(c, calls[0]), calls[1..])
  }

  /** last_time + interval is when the current chunk was scheduled, moved by d. */
  ghost predicate OnSchedule(c: Cursor, start: int, d: int) {
    c.chunkId < |c.buf.chunks| ==> c.lastTime + c.interval == ReleaseTime(c.buf.chunks, start, c.chunkId) + d
  }

  lemma StepKeepsSchedule(c: Cursor, call: Call, start: int, d: int)
    requires Inside(c) && c.buf.mode == REAL_INTERVAL && OnSchedule(c, start, d)
    ensures OnSchedule(Advanced(c, call), start, d + Slip(c, call))
  {
    if !c.AtEnd() {
      assert Pending(c).due == c.lastTime + c.interval;
      DrainKeepsDue(c.buf.chunks, start, c.chunkId, c.bytesRead, DueAtRead(c, call), call.len);
    }
  }

  lemma {:induction false} RunKeepsSchedule(c: Cursor, calls: seq<Call>, start: int, d: int)
    requires Inside(c) && c.buf.mode == REAL_INTERVAL && OnSchedule(c, start, d)
    ensures Inside(RunEnd(c, calls)) && OnSchedule(RunEnd(c, calls), start, d + TotalSlip(c, calls))
    decreases |calls|
  {
    if calls != [] {
      ReadStaysInside(c, calls[0]);
      StepKeepsSchedule(c, calls[0], start, d);
      RunKeepsSchedule(Advanced(c, calls[0]), calls[1..], start, d + Slip(c, calls[0]));
    }
  }

  function Drop(q: Queue, n: nat): Queue {
    if q.Empty? || n == 0 then q else Drop(q.rest, n - 1)
  }

  /** How many items the first k chunks are in the queue: a byte each, or a blank for an empty chunk. */
  function ItemsBefore(chunks: seq<Chunk>, k: nat): nat
    requires k <= |chunks|
  {
    if k == 0 then 0 else ItemsBefore(chunks, k - 1) + if chunks[k - 1].data == [] then 1 else |chunks[k - 1].data|
  }

  /** The position of a cursor in the queue. */
  function ItemsPassed(c: Cursor): nat
    requires c.Valid()
  {
    ItemsBefore(c.buf.chunks, c.chunkId) + c.bytesRead
  }

  lemma {:induction false} ItemsAreBytes(chunks: seq<Chunk>, k: nat)
    requires NonEmptyChunks(chunks) && k <= |chunks|
    ensures ItemsBefore(chunks, k) == LengthBefore(chunks, k)
  {
    if k > 0 {
      ItemsAreBytes(chunks, k - 1);
    }
  }

  lemma {:induction false} DropStamp(data: seq<byte>, i: nat, due: int, rest: Queue, n: nat)
    requires i + n <= |data|
    ensures Drop(Stamp(data, i, due, rest), n) == Stamp(data, i + n, due, rest)
    decreases n
  {
    if n > 0 {
      DropStamp(data, i + 1, due, rest, n - 1);
    }
  }

  lemma {:induction false} DropTwice(q: Queue, m: nat, n: nat)
    ensures Drop(Drop(q, m), n) == Drop(q, m + n)
  {
    if !q.Empty? && m > 0 {
      DropTwice(q.rest, m - 1, n);
    }
  }

  /** The schedule without the items of the first k chunks is the schedule of the others. */
  lemma {:induction false} DropChunks(chunks: seq<Chunk>, start: int, k: nat)
    requires k <= |chunks|
    ensures Drop(Schedule(chunks, 0, start), ItemsBefore(chunks, k))
         == Schedule(chunks, k, if k == 0 then start else ReleaseTime(chunks, start, k - 1))
  {
    if k > 0 {
      var data, due := chunks[k - 1].data, ReleaseTime(chunks, start, k - 1);
      DropChunks(chunks, start, k - 1);
      DropTwice(Schedule(chunks, 0, start), ItemsBefore(chunks, k - 1), if data == [] then 1 else |data|);
      DropStamp(data, 0, due, Schedule(chunks, k, due), |data|);
    }
  }

  lemma PositionInSchedule(chunks: seq<Chunk>, start: int, k: nat, br: nat)
    requires k < |chunks| && Ahead(chunks, k, br)
    ensures Drop(Schedule(chunks, 0, start), ItemsBefore(chunks, k) + br)
         == Queued(chunks, k, br, ReleaseTime(chunks, start, k))
  {
    var due := ReleaseTime(chunks, start, k);
    DropChunks(chunks, start, k);
    DropTwice(Schedule(chunks, 0, start), ItemsBefore(chunks, k), br);
    DropStamp(chunks[k].data, 0, due, Schedule(chunks, k + 1, due), br);
  }

  /** A cursor that is on schedule stands for the original schedule without the items it has passed, moved by d. */
  lemma QueueOnSchedule(c: Cursor, start: int, d: int)
    requires Inside(c) && OnSchedule(c, start, d)
    ensures Pending(c) == Delay(Drop(Schedule(c.buf.chunks, 0, start), ItemsPassed(c)), d)
  {
    if c.AtEnd() {
      DropChunks(c.buf.chunks, start, c.chunkId);
    } else {
      PositionInSchedule(c.buf.chunks, start, c.chunkId, c.bytesRead);
      DelayMovesQueued(c.buf.chunks, c.chunkId, c.bytesRead, ReleaseTime(c.buf.chunks, start, c.chunkId), d);
    }
  }

  /**
   The schedule never drifts: after any calls (reads that crossed chunks, sleeps, refused polls), last_time + interval
   is the scheduled release time of the current chunk, and what is queued is the original schedule without what was
   passed, both moved only by the overshoot of the sleeps. In particular polling never postpones data.
   */
  lemma ScheduleNeverDrifts(buf: ReadBuffer, start: int, calls: seq<Call>)
    requires buf.mode == REAL_INTERVAL
    ensures var c0 := Fresh(buf, start);
            var c, slip := RunEnd(c0, calls), TotalSlip(c0, calls);
            && Inside(c) && OnSchedule(c, start, slip)
            && Pending(c) == Delay(Drop(Schedule(buf.chunks, 0, start), ItemsPassed(c)), slip)
            && |RunBytes(c0, calls)| == BytesRead(c)
            && (NonEmptyChunks(buf.chunks) ==> ItemsPassed(c) == BytesRead(c))
  {
    var c0 := Fresh(buf, start);
    var c := RunEnd(c0, calls);
    RunKeepsSchedule(c0, calls, start, 0);
    QueueOnSchedule(c, start, TotalSlip(c0, calls));
    StreamConservation(buf, start, calls);
    if NonEmptyChunks(buf.chunks) {
      ItemsAreBytes(buf.chunks, c.chunkId);
    }
  }

  /**
   After any calls, a MSG_DONTWAIT read fails iff the next item of the original schedule, moved by the overshoot of
   the sleeps so far, is not released yet; and then it moves no cursor.
   */
  lemma PollFailsIffNotReleased(buf: ReadBuffer, start: int, calls: seq<Call>, poll: Call)
    requires buf.mode == REAL_INTERVAL && poll.dontWait
    ensures var c0 := Fresh(buf, start);
            var c := RunEnd(c0, calls);
            && (Read(c, poll).1 == WouldBlock
                <==> MustWait(Delay(Drop(Schedule(buf.chunks, 0, start), ItemsPassed(c)), TotalSlip(c0, calls)),
                              poll.now))
            && (Read(c, poll).1 == WouldBlock ==>
                  Read(c, poll).0.chunkId == c.chunkId && Read(c, poll).0.bytesRead == c.bytesRead
                  && Pending(Read(c, poll).0) == Pending(c))
  {
    var c := RunEnd(Fresh(buf, start), calls);
    ScheduleNeverDrifts(buf, start, calls);
    RealReadRefinesQueue(c, poll);
    if Read(c, poll).1 == WouldBlock {
      RefusalMovesNothing(c, poll);
    }
  }

  lemma PollByCursor(c: Cursor, poll: Call)
    requires Inside(c) && c.buf.mode == REAL_INTERVAL && !c.AtEnd() && poll.dontWait
    ensures Read(c, poll).1 == WouldBlock <==> c.lastTime + c.interval > poll.now
  {
  }

  /**
   The same by the cursor alone: a poll inside or in front of chunk k fails iff the intervals of chunks 0 to k, and the
   overshoot of the sleeps so far, are not over since the registration.
   */
  lemma PollFailsInNanoseconds(buf: ReadBuffer, start: int, calls: seq<Call>, poll: Call)
    requires buf.mode == 1 && poll.dontWait && !RunEnd(Fresh(buf, start), calls).AtEnd()
    ensures var c := RunEnd(Fresh(buf, start), calls);
            Read(c, poll).1 == WouldBlock
            <==> poll.now - start
                 < 1_000_000 * IntervalSum(buf.chunks, c.chunkId + 1) + TotalSlip(Fresh(buf, start), calls)
  {
    var c := RunEnd(Fresh(buf, start), calls);
    RunKeepsSchedule(Fresh(buf, start), calls, start, 0);
    PollByCursor(c, poll);
    ReleaseTimeInNanoseconds(buf.chunks, start, c.chunkId);
  }

  ghost predicate ExactSleeps(calls: seq<Call>) {
    forall i :: 0 <= i < |calls| ==> calls[i].oversleep == 0
  }

  lemma {:induction false} ExactSleepsDoNotSlip(c: Cursor, calls: seq<Call>)
    requires c.Valid() && ExactSleeps(calls)
    ensures TotalSlip(c, calls) == 0
    decreases |calls|
  {
    if calls != [] {
      ExactSleepsDoNotSlip(Advanced(c, calls[0]), calls[1..]);
    }
  }

  lemma {:induction false} NoDelay(q: Queue)
    ensures Delay(q, 0) == q
  {
    if !q.Empty? {
      NoDelay(q.rest);
    }
  }

  /** With exact sleeps: a poll fails iff the next item of the original schedule is not released. */
  lemma PollWithExactSleeps(buf: ReadBuffer, start: int, calls: seq<Call>, poll: Call)
    requires buf.mode == REAL_INTERVAL && poll.dontWait && ExactSleeps(calls)
    ensures var c := RunEnd(Fresh(buf, start), calls);
            Read(c, poll).1 == WouldBlock <==> MustWait(Drop(Schedule(buf.chunks, 0, start), ItemsPassed(c)), poll.now)
  {
    var c := RunEnd(Fresh(buf, start), calls);
    PollFailsIffNotReleased(buf, start, calls, poll);
    ExactSleepsDoNotSlip(Fresh(buf, start), calls);
    NoDelay(Drop(Schedule(buf.chunks, 0, start), ItemsPassed(c)));
  }
}
