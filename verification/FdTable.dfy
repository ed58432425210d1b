/** The table of simulated descriptors as a value: a sequence of entries, and the map it stands for. */
module FdEntries {
  import opened TimedStream

  datatype Entry = Entry(fd: int, cursor: Cursor)

  type Entries = seq<Entry>

  /** The first position of fd, or the length of the table. */
  function Find(es: Entries, fd: int): (i: nat)
    ensures i <= |es|
    ensures i < |es| ==> es[i].fd == fd
  {
    if es == [] || es[0].fd == fd then 0 else 1 + Find(es[1..], fd)
  }

  function AsMap(es: Entries): map<int, Cursor> {
    if es == [] then map[] else AsMap(es[1..])[es[0].fd := es[0].cursor]
  }

  predicate Distinct(es: Entries) {
    es != [] ==> es[0].fd !in AsMap(es[1..]) && Distinct(es[1..])
  }

  /** Overwrite the entry of fd where it stands, or append one. */
  function Put(es: Entries, fd: int, c: Cursor): Entries {
    if es == [] then [Entry(fd, c)]
    else if es[0].fd == fd then [Entry(fd, c)] + es[1..]
    else [es[0]] + Put(es[1..], fd, c)
  }

  /** Close the gap that the entry of fd leaves. */
  function Without(es: Entries, fd: int): Entries {
    if es == [] then []
    else if es[0].fd == fd then es[1..]
    else [es[0]] + Without(es[1..], fd)
  }

  /** The entries of the other descriptors, in their order. */
  function Others(es: Entries, fd: int): Entries {
    if es == [] then []
    else if es[0].fd == fd then Others(es[1..], fd)
    else [es[0]] + Others(es[1..], fd)
  }

  lemma {:induction false} MapLookup(es: Entries, fd: int)
    ensures fd in AsMap(es) <==> Find(es, fd) < |es|
    ensures fd in AsMap(es) ==> AsMap(es)[fd] == es[Find(es, fd)].cursor
  {
    if es != [] {
      MapLookup(es[1..], fd);
    }
  }

  /** Registering a buffer is a map update; the other entries keep their order and their cursor. */
  lemma {:induction false} PutIsMapUpdate(es: Entries, fd: int, c: Cursor)
    ensures AsMap(Put(es, fd, c)) == AsMap(es)[fd := c]
    ensures Distinct(es) ==> Distinct(Put(es, fd, c))
    ensures Others(Put(es, fd, c), fd) == Others(es, fd)
  {
    if es != [] {
      PutIsMapUpdate(es[1..], fd, c);
      assert Put(es, fd, c)[1..] == if es[0].fd == fd then es[1..] else Put(es[1..], fd, c);
    }
  }

  /** Removing a descriptor is map removal; the other entries keep their order and their cursor. */
  lemma {:induction false} WithoutIsMapRemoval(es: Entries, fd: int)
    requires Distinct(es)
    ensures AsMap(Without(es, fd)) == AsMap(es) - {fd}
    ensures Distinct(Without(es, fd))
    ensures Others(Without(es, fd), fd) == Others(es, fd)
  {
    if es != [] {
      WithoutIsMapRemoval(es[1..], fd);
      assert es[0].fd != fd ==> Without(es, fd)[1..] == Without(es[1..], fd);
      assert AsMap(es[1..]) - {es[0].fd} == AsMap(es[1..]) by {
        assert es[0].fd !in AsMap(es[1..]);
      }
    }
  }

  /** The same updates by index. */
  lemma {:induction false} PutByIndex(es: Entries, fd: int, c: Cursor)
    ensures var i := Find(es, fd);
            Put(es, fd, c) == if i < |es| then es[i := Entry(fd, c)] else es + [Entry(fd, c)]
  {
    if es != [] && es[0].fd != fd {
      PutByIndex(es[1..], fd, c);
      assert es == [es[0]] + es[1..];
    }
  }

  ghost predicate CursorsValid(es: Entries) {
    forall i :: 0 <= i < |es| ==> es[i].cursor.Valid()
  }

  lemma PutKeepsValid(es: Entries, fd: int, c: Cursor)
    requires CursorsValid(es) && c.Valid()
    ensures CursorsValid(Put(es, fd, c))
  {
    PutByIndex(es, fd, c);
  }

  lemma {:induction false} WithoutByIndex(es: Entries, fd: int)
    ensures var i := Find(es, fd);
            Without(es, fd) == if i < |es| then es[..i] + es[i + 1..] else es
  {
    if es != [] && es[0].fd != fd {
      WithoutByIndex(es[1..], fd);
      var i := Find(es[1..], fd);
      if i < |es| - 1 {
        assert es[..i + 1] == [es[0]] + es[1..][..i] && es[i + 2..] == es[1..][i + 1..];
      } else {
        assert es == [es[0]] + es[1..];
      }
    }
  }

  lemma {:induction false} FindIsFirst(es: Entries, fd: int, i: nat)
    requires i < |es|
    ensures es[i].fd == fd ==> Find(es, fd) <= i
    ensures es[i].fd == fd && Distinct(es) ==> Find(es, fd) == i
  {
    if i > 0 {
      FindIsFirst(es[1..], fd, i - 1);
      MapLookup(es[1..], fd);
    }
  }

  lemma WithoutKeepsValid(es: Entries, fd: int)
    requires CursorsValid(es)
    ensures CursorsValid(Without(es, fd))
  {
    WithoutByIndex(es, fd);
  }
}

/** The table in memory. */
module FdTable {
  import opened Wrappers
  import opened ByteOrder
  import opened TimedStream
  import opened ReadWrite
  import opened FdEntries

  function RemoveAt<T>(s: seq<T>, k: nat): seq<T> {
    if k < |s| then s[..k] + s[k + 1..] else s
  }

  lemma RemoveAtIndex<T>(s: seq<T>, k: nat)
    ensures |RemoveAt(s, k)| == if k < |s| then |s| - 1 else |s|
    ensures forall i :: 0 <= i < |RemoveAt(s, k)| ==> RemoveAt(s, k)[i] == s[if i < k then i else i + 1]
  {
  }

  class ReadFdTable {
    var items: seq<ReadItem>
    /** The table as a value. */
    ghost var contents: Entries
    /** The storage of the entries. */
    ghost var repr: set<ReadItem>

    constructor ()
      ensures Valid() && contents == [] && repr == {}
    {
      items, contents, repr := [], [], {};
    }

    /** No two entries share their storage, and contents mirrors it. */
    ghost predicate Mirrored()
      reads this, repr
    {
      && |contents| == |items|
      && (forall i :: 0 <= i < |items| ==> items[i] in repr && contents[i] == Entry(items[i].fd, items[i].State()))
      && (forall i, j :: 0 <= i < j < |items| ==> items[i] != items[j])
    }

    ghost predicate Valid()
      reads this, repr
    {
      Mirrored() && CursorsValid(contents) && Distinct(contents)
    }

    ghost function CursorOf(fd: int): (c: Cursor)
      requires Valid() && fd in AsMap(contents)
      reads this, repr
      ensures c.Valid() && c == AsMap(contents)[fd]
    {
      MapLookup(contents, fd);
      AsMap(contents)[fd]
    }

    /** read_get_entry: the index of the entry of fd, or the number of entries. */
    method GetEntry(fd: int) returns (i: nat)
      requires Mirrored()
      ensures i == Find(contents, fd)
    {
      i := 0;
      while i < |items|
        invariant i <= |items|
        invariant Find(contents, fd) >= i
      {
        if items[i].fd == fd {
          FindIsFirst(contents, fd, i);
          return;
        }
        i := i + 1;
      }
    }

    /** fd_is_read_buffered. */
    method IsReadBuffered(fd: int) returns (found: bool)
      requires Mirrored()
      ensures found <==> fd in AsMap(contents)
    {
      MapLookup(contents, fd);
      var i := GetEntry(fd);
      found := i < |items|;
    }

    /** The scan of read_remove_entry. It goes on after a match, over the shifted entries. */
    method DeleteMatches(fd: int) returns (found: bool)
      requires Valid()
      modifies `items
      ensures found <==> Find(contents, fd) < |old(items)|
      ensures items == RemoveAt(old(items), Find(contents, fd))
    {
      ghost var before, es := items, contents;
      ghost var k := Find(es, fd);
      found := false;
      var i := 0;
      while i < |items|
        invariant i <= |items|
        invariant !found ==> items == before && i <= k
        invariant found ==> k < |before| && items == RemoveAt(before, k) && k < i
        decreases |items| - i
      {
        ghost var j := if found then i + 1 else i;
        assert items[i] == before[j] && es[j].fd == before[j].fd;
        FindIsFirst(es, fd, j);
        if items[i].fd == fd {
          found := true;
          items := items[..i] + items[i + 1..];
          if i == |items| {
            break;
          }
        }
        i := i + 1;
      }
    }

    /** The scan, with its effect on the table as a value. */
    method DeleteAt(fd: int) returns (found: bool)
      requires Valid()
      modifies `items, `contents
      ensures Mirrored()
      ensures contents == RemoveAt(old(contents), Find(old(contents), fd))
      ensures found <==> Find(old(contents), fd) < |old(contents)|
    {
      ghost var k := Find(contents, fd);
      RemoveAtIndex(items, k);
      RemoveAtIndex(contents, k);
      found := DeleteMatches(fd);
      contents := RemoveAt(contents, k);
    }

    /** read_remove_entry. */
    method RemoveEntry(fd: int) returns (r: int)
      requires Valid()
      modifies `items, `contents
      ensures Valid()
      ensures contents == Without(old(contents), fd)
      ensures r == if fd in AsMap(old(contents)) then 1 else 0
    {
      WithoutByIndex(contents, fd);
      MapLookup(contents, fd);
      WithoutIsMapRemoval(contents, fd);
      WithoutKeepsValid(contents, fd);
      var found := DeleteAt(fd);
      r := if found then 1 else 0;
    }

    /** read_get_new_entry: a place for fd, an existing one if there is one; None when realloc fails. */
    method GetNewEntry(fd: int, outOfMemory: bool) returns (item: Option<ReadItem>)
      requires Valid()
      modifies this, repr
      ensures contents == old(contents) && fresh(repr - old(repr))
      ensures item.None? ==> Valid()
      ensures item.None? <==> outOfMemory && fd !in AsMap(contents)
      ensures item.Some? ==>
                var k := Find(contents, fd);
                && k < |items| && item.value == items[k]
                && |items| == (if k < |contents| then |contents| else |contents| + 1)
                && (forall i :: 0 <= i < |items| ==> items[i] in repr)
                && (forall i :: 0 <= i < |contents| && i != k ==> contents[i] == Entry(items[i].fd, items[i].State()))
                && (forall i, j :: 0 <= i < j < |items| ==> items[i] != items[j])
    {
      MapLookup(contents, fd);
      var i := GetEntry(fd);
      if i < |items| {
        items[i].chunkId, items[i].interval, items[i].lastTime := 0, 0, 0;
      } else {
        if outOfMemory {
          return None;
        }
        var tmp := new ReadItem();
        items, repr := items + [tmp], repr + {tmp};
      }
      item := Some(items[i]);
    }

    /** Write a fresh cursor into the entry of fd, or append one: the part of set_read_buffer that updates the table. */
    method Install(fd: int, buf: ReadBuffer, now: int, outOfMemory: bool) returns (ok: bool)
      requires Valid()
      modifies this, repr
      ensures Valid() && fresh(repr - old(repr))
      ensures ok <==> !outOfMemory || fd in AsMap(old(contents))
      ensures contents == if ok then Put(old(contents), fd, Fresh(buf, now)) else old(contents)
    {
      ghost var c := Fresh(buf, now);
      PutIsMapUpdate(contents, fd, c);
      PutByIndex(contents, fd, c);
      PutKeepsValid(contents, fd, c);
      var entry := GetNewEntry(fd, outOfMemory);
      ok := entry.Some?;
      if ok {
        entry.value.Start(fd, buf, now);
        contents := Put(contents, fd, c);
      }
    }

    /**
     set_read_buffer: a map update with a fresh cursor, or map removal for NULL. The result says whether
     fd was there, or -1 when memory runs out, or -2 for an unknown mode; then nothing changes.
     */
    method SetReadBuffer(fd: int, source: Option<ReadBuffer>, now: int, outOfMemory: bool) returns (r: int)
      requires Valid()
      modifies this, repr
      ensures Valid() && fresh(repr - old(repr))
      ensures r == (if source.Some? && !KnownMode(source.value.mode) then -2
                    else if fd in AsMap(old(contents)) then 1
                    else if source.Some? && outOfMemory then -1
                    else 0)
      ensures contents == (if r < 0 then old(contents)
                           else if source.None? then Without(old(contents), fd)
                           else Put(old(contents), fd, Fresh(source.value, now)))
    {
      if source.None? {
        r := RemoveEntry(fd);
        return;
      }
      var buf := source.value;
      if buf.mode != REAL_INTERVAL && buf.mode != AFTER_INTERVAL && buf.mode != BEFORE_INTERVAL {
        return -2;
      }
      MapLookup(contents, fd);
      var i := GetEntry(fd);
      var alreadyThere := i < |items|;
      var ok := Install(fd, buf, now, outOfMemory);
      if !ok {
        return -1;
      }
      r := if alreadyThere then 1 else 0;
    }

    /** read_handle_buffer: the read of the cursor of fd, and of no other one; -1 for an unknown descriptor. */
    method HandleBuffer(fd: int, dst: array<byte>, at: nat, call: Call) returns (r: int)
      requires Valid() && at + call.len <= dst.Length
      modifies `contents, repr, dst
      ensures Valid()
      ensures fd !in AsMap(old(contents)) ==> r == -1 && contents == old(contents) && dst[..] == old(dst[..])
      ensures fd in AsMap(old(contents)) ==>
                var c := old(CursorOf(fd));
                && contents == Put(old(contents), fd, Read(c, call).0)
                && Reports(Read(c, call).1, r, old(dst[..]), at, dst[..])
    {
      MapLookup(contents, fd);
      var i := GetEntry(fd);
      if i == |items| {
        return -1;
      }
      var cur := items[i];
      ghost var c := cur.State();
      ReadConserves(c, call);
      PutIsMapUpdate(contents, fd, Read(c, call).0);
      PutByIndex(contents, fd, Read(c, call).0);
      PutKeepsValid(contents, fd, Read(c, call).0);
      r := HandleItem(cur, dst, at, call);
      contents := Put(contents, fd, Read(c, call).0);
    }

    /** The dispatch on the mode of the buffer. */
    method HandleItem(cur: ReadItem, dst: array<byte>, at: nat, call: Call) returns (r: int)
      requires cur.State().Valid() && at + call.len <= dst.Length
      modifies cur, dst
      ensures cur.fd == old(cur.fd) && cur.State() == Read(old(cur.State()), call).0
      ensures Reports(Read(old(cur.State()), call).1, r, old(dst[..]), at, dst[..])
    {
      var callInterval := call.now - cur.lastTime;
      cur.lastTime := call.now;
      if cur.chunkId >= |cur.buf.chunks| {
        assert dst[..] == Overwrite(dst[..], at, []);
        return 0;
      }
      if cur.buf.mode == BEFORE_INTERVAL || cur.buf.mode == AFTER_INTERVAL {
        r := cur.HandleBufferNoRt(dst, at, call, callInterval);
      } else if cur.buf.mode == REAL_INTERVAL {
        r := cur.HandleBufferRt(dst, at, call, callInterval);
      } else {
        r := -1;
      }
    }

    /** get_bytes_read: the position of the cursor of fd in the glued stream, or -1. */
    method GetBytesRead(fd: int) returns (r: int)
      requires Valid()
      ensures r == if fd in AsMap(contents) then BytesRead(CursorOf(fd)) else -1
    {
      MapLookup(contents, fd);
      var i := GetEntry(fd);
      if i == |items| {
        return -1;
      }
      var cur := items[i];
      r := 0;
      var k := 0;
      while k < cur.chunkId
        invariant k <= cur.chunkId
        invariant r == LengthBefore(cur.buf.chunks, k)
      {
        r := r + |cur.buf.chunks[k].data|;
        k := k + 1;
      }
      if cur.chunkId < |cur.buf.chunks| {
        r := r + cur.bytesRead;
      }
    }
  }

  /** The chunks have the first of the given lengths and intervals. */
  ghost predicate Shaped(chunks: seq<Chunk>, lengths: seq<nat>, intervals: seq<int>)
    requires |lengths| == |intervals|
  {
    && |chunks| <= |lengths|
    && forall j :: 0 <= j < |chunks| ==> |chunks[j].data| == lengths[j] && chunks[j].interval == intervals[j]
  }

  lemma PrefixThenSlice(data: seq<byte>, i: nat, j: nat)
    requires i <= j <= |data|
    ensures data[..i] + data[i..j] == data[..j]
  {
  }

  /** create_partial_read_buffer: cut the first bytes of data into chunks of the given lengths and intervals. */
  method CreatePartialReadBuffer(data: seq<byte>, mode: int, lengths: seq<nat>, intervals: seq<int>)
    returns (buf: ReadBuffer)
    requires |lengths| == |intervals| && Total(lengths) <= |data|
    ensures buf.mode == mode && |buf.chunks| == |lengths|
    ensures Shaped(buf.chunks, lengths, intervals)
    ensures Flat(buf.chunks) == data[..Total(lengths)]
  {
    var chunks := new Chunk[|lengths|](_ => Chunk(0, []));
    var cumOffset := 0;
    for i := 0 to |lengths|
      invariant cumOffset == Total(lengths[..i]) <= Total(lengths)
      invariant Shaped(chunks[..i], lengths, intervals) && Flat(chunks[..i]) == data[..cumOffset]
    {
      ghost var done := chunks[..i];
      TotalGrows(lengths, i);
      chunks[i] := Chunk(intervals[i], data[cumOffset..cumOffset + lengths[i]]);
      assert chunks[..i + 1] == done + [chunks[i]];
      FlatAppend(done, chunks[i]);
      PrefixThenSlice(data, cumOffset, cumOffset + lengths[i]);
      cumOffset := cumOffset + lengths[i];
    }
    assert lengths[..|lengths|] == lengths && chunks[..|lengths|] == chunks[..];
    buf := ReadBuffer(mode, chunks[..]);
  }

  function Total(lengths: seq<nat>): nat {
    if lengths == [] then 0 else Total(lengths[..|lengths| - 1]) + lengths[|lengths| - 1]
  }

  lemma {:induction false} TotalGrows(lengths: seq<nat>, i: nat)
    requires i < |lengths|
    ensures Total(lengths[..i]) + lengths[i] == Total(lengths[..i + 1]) <= Total(lengths)
    decreases |lengths|
  {
    assert lengths[..i + 1][..i] == lengths[..i];
    if i + 1 < |lengths| {
      var front := lengths[..|lengths| - 1];
      TotalGrows(front, i);
      assert front[..i + 1] == lengths[..i + 1];
    } else {
      assert lengths[..i + 1] == lengths;
    }
  }

  lemma {:induction false} FlatFromAppend(chunks: seq<Chunk>, last: Chunk, k: nat)
    requires k <= |chunks|
    ensures FlatFrom(chunks + [last], k) == FlatFrom(chunks, k) + last.data
    decreases |chunks| - k
  {
    if k < |chunks| {
      FlatFromAppend(chunks, last, k + 1);
    }
  }

  lemma FlatAppend(chunks: seq<Chunk>, last: Chunk)
    ensures Flat(chunks + [last]) == Flat(chunks) + last.data
  {
    FlatFromAppend(chunks, last, 0);
  }
}
