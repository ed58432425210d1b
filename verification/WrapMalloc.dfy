/** The log of the monitored allocations and its running total. */
module WrapMalloc {
  import opened ByteOrder
  import opened FailureMask

  const MAX_LOG: nat := 1000

  const NULL: int := 0

  /** (size_t) -1: the size that free leaves in a cleared slot, and that the search reports for an unknown address. */
  const SIZE_MAX: int := 0xFFFF_FFFF_FFFF_FFFF

  datatype Slot = Slot(ptr: int, size: int)

  /** The globals: logs.malloc and stats.memory.used. */
  datatype Account = Account(n: nat, log: seq<Slot>, used: int)

  // ------------------------------------------------------------------ what the wrappers do to the account

  /** The first slot of ptr, or the length of the log. */
  function Find(log: seq<Slot>, ptr: int): (i: nat)
    ensures i <= |log|
    ensures i < |log| ==> log[i].ptr == ptr
    ensures forall j :: 0 <= j < i ==> log[j].ptr != ptr
  {
    if log == [] || log[0].ptr == ptr then 0
    else
      var i := Find(log[1..], ptr);
      assert forall j :: 0 < j < i + 1 ==> log[j] == log[1..][j - 1];
      i + 1
  }

  predicate Holds(log: seq<Slot>, ptr: int) {
    Find(log, ptr) < |log|
  }

  function FindSize(log: seq<Slot>, ptr: int): int {
    var i := Find(log, ptr);
    if i < |log| then log[i].size else SIZE_MAX
  }

  /** A malloc or calloc of size bytes for which the real call returned ptr. */
  function Alloc(a: Account, ptr: int, size: int): Account
    requires a.n <= |a.log| == MAX_LOG
  {
    var a' := a.(used := Int32(a.used + size));
    if ptr != NULL && a.n < MAX_LOG then a'.(n := a.n + 1, log := a.log[a.n := Slot(ptr, size)]) else a'
  }

  /** A realloc of ptr to size bytes. */
  function Resize(a: Account, ptr: int, size: int): Account {
    if ptr == NULL then a
    else
      var i := Find(a.log, ptr);
      Account(a.n, if i < |a.log| then a.log[i := Slot(ptr, size)] else a.log,
              Int32(a.used + size - Int32(FindSize(a.log, ptr))))
  }

  /** A free of ptr. */
  function Release(a: Account, ptr: int): Account {
    var i := Find(a.log, ptr);
    if ptr == NULL || i == |a.log| then a
    else Account(a.n, a.log[i := Slot(NULL, SIZE_MAX)], Int32(a.used - Int32(a.log[i].size)))
  }

  // ------------------------------------------------------------------ accounting

  function LiveSize(s: Slot): int {
    if s.ptr == NULL then 0 else s.size
  }

  /** Sum of the sizes of the live blocks; what malloc_allocated computes. */
  function LiveTotal(log: seq<Slot>): int {
    if log == [] then 0 else LiveSize(log[0]) + LiveTotal(log[1..])
  }

  ghost predicate DistinctLive(log: seq<Slot>) {
    forall i, j :: 0 <= i < j < |log| && log[i].ptr != NULL ==> log[i].ptr != log[j].ptr
  }

  /** Slots from n on were never used, live sizes are natural, live addresses differ, and the total fits an int. */
  ghost predicate Sound(a: Account) {
    && a.n <= |a.log| == MAX_LOG
    && (forall i :: a.n <= i < |a.log| ==> a.log[i].ptr == NULL)
    && (forall i :: 0 <= i < |a.log| ==> LiveSize(a.log[i]) >= 0)
    && DistinctLive(a.log)
    && LiveTotal(a.log) < 0x8000_0000
  }

  /** The running total is the total of the log. */
  ghost predicate Accounted(a: Account) {
    a.used == LiveTotal(a.log)
  }

  lemma {:induction false} LiveTotalUpdate(log: seq<Slot>, i: nat, s: Slot)
    requires i < |log|
    ensures LiveTotal(log[i := s]) == LiveTotal(log) - LiveSize(log[i]) + LiveSize(s)
  {
    if i == 0 {
      assert log[i := s][1..] == log[1..];
    } else {
      LiveTotalUpdate(log[1..], i - 1, s);
      assert log[i := s][1..] == log[1..][i - 1 := s];
    }
  }

  lemma {:induction false} LiveTotalBounds(log: seq<Slot>)
    requires forall j :: 0 <= j < |log| ==> LiveSize(log[j]) >= 0
    ensures LiveTotal(log) >= 0
    ensures forall i :: 0 <= i < |log| ==> LiveSize(log[i]) <= LiveTotal(log)
  {
    if log != [] {
      LiveTotalBounds(log[1..]);
      assert forall i :: 0 < i < |log| ==> log[i] == log[1..][i - 1];
    }
  }

  lemma {:induction false} AllFree(log: seq<Slot>)
    requires forall i :: 0 <= i < |log| ==> log[i].ptr == NULL
    ensures LiveTotal(log) == 0
  {
    if log != [] {
      AllFree(log[1..]);
    }
  }

  /** A block of size bytes at a fresh address keeps the log sound; the total stays exact iff it was logged or empty. */
  lemma AllocAccounts(a: Account, ptr: int, size: nat)
    requires Sound(a) && Accounted(a) && LiveTotal(a.log) + size < 0x8000_0000
    requires ptr != NULL ==> !Holds(a.log, ptr)
    ensures Sound(Alloc(a, ptr, size))
    ensures Accounted(Alloc(a, ptr, size)) <==> size == 0 || (ptr != NULL && a.n < MAX_LOG)
  {
    LiveTotalBounds(a.log);
    if a.n < MAX_LOG {
      LiveTotalUpdate(a.log, a.n, Slot(ptr, size));
    }
  }

  /** The total stays exact iff the address is NULL (then nothing is counted) or is in the log. */
  lemma ResizeAccounts(a: Account, ptr: int, size: nat)
    requires Sound(a) && Accounted(a)
    requires size < 0x8000_0000 && LiveTotal(Resize(a, ptr, size).log) < 0x8000_0000
    ensures Sound(Resize(a, ptr, size))
    ensures Accounted(Resize(a, ptr, size)) <==> ptr == NULL || Holds(a.log, ptr)
  {
    LiveTotalBounds(a.log);
    var i := Find(a.log, ptr);
    if ptr != NULL && i < |a.log| {
      LiveTotalUpdate(a.log, i, Slot(ptr, size));
      assert Int32(a.log[i].size) == LiveSize(a.log[i]);
    }
  }

  /** A realloc of an address that is not in the log counts one byte too many: the search reports the size -1. */
  lemma ResizeUnknown(a: Account, ptr: int, size: nat)
    requires ptr != NULL && !Holds(a.log, ptr)
    ensures Resize(a, ptr, size) == a.(used := Int32(a.used + size + 1))
  {
  }

  /** A free keeps the total exact, also for an address that was never logged. */
  lemma ReleaseAccounts(a: Account, ptr: int)
    requires Sound(a) && Accounted(a)
    ensures Sound(Release(a, ptr)) && Accounted(Release(a, ptr))
    ensures ptr != NULL ==> !Holds(Release(a, ptr).log, ptr)
  {
    LiveTotalBounds(a.log);
    var i := Find(a.log, ptr);
    if ptr != NULL && i < |a.log| {
      LiveTotalUpdate(a.log, i, Slot(NULL, SIZE_MAX));
      assert Int32(a.log[i].size) == LiveSize(a.log[i]);
      assert forall j :: 0 <= j < |a.log| && j != i ==> a.log[j].ptr != ptr;
    }
  }

  // ------------------------------------------------------------------ the blocks that really exist

  /** The blocks that the real calls have left allocated, with their sizes. */
  type Heap = map<int, int>

  function RealAlloc(heap: Heap, obtained: int, size: nat): Heap {
    if obtained == NULL then heap else heap[obtained := size]
  }

  /** The real realloc: NULL for a failure, and for a block that was freed because the new size is 0. */
  function RealRealloc(heap: Heap, ptr: int, size: nat, obtained: int): Heap {
    if obtained != NULL then (heap - {ptr})[obtained := size]
    else if size == 0 then heap - {ptr}
    else heap
  }

  /** The sum of the values of a map. */
  ghost function Sum<K>(m: map<K, int>): int
    decreases |m|
  {
    if m == map[] then 0
    else
      var k :| k in m;
      m[k] + Sum(m - {k})
  }

  lemma {:induction false} SumWithout<K>(m: map<K, int>, k: K)
    requires k in m
    ensures Sum(m) == m[k] + Sum(m - {k})
    decreases |m|
  {
    var l :| l in m && Sum(m) == m[l] + Sum(m - {l});
    if k != l {
      SumWithout(m - {l}, k);
      SumWithout(m - {k}, l);
      assert m - {l} - {k} == m - {k} - {l};
    }
  }

  /** The total size of the blocks. */
  ghost function HeapTotal(heap: Heap): int {
    Sum(heap)
  }

  /** The live blocks according to the log. */
  function LogMap(log: seq<Slot>): Heap {
    if log == [] then map[]
    else if log[0].ptr == NULL then LogMap(log[1..])
    else LogMap(log[1..])[log[0].ptr := log[0].size]
  }

  lemma {:induction false} LogMapLookup(log: seq<Slot>, p: int)
    requires p != NULL
    ensures p in LogMap(log) <==> Holds(log, p)
    ensures p in LogMap(log) ==> LogMap(log)[p] == log[Find(log, p)].size
    ensures NULL !in LogMap(log)
  {
    if log != [] {
      LogMapLookup(log[1..], p);
    }
  }

  lemma {:induction false} LogMapAdd(log: seq<Slot>, n: nat, p: int, size: int)
    requires n < |log| && log[n].ptr == NULL && p != NULL && p !in LogMap(log)
    ensures LogMap(log[n := Slot(p, size)]) == LogMap(log)[p := size]
  {
    if n == 0 {
      assert log[n := Slot(p, size)][1..] == log[1..];
    } else {
      LogMapAdd(log[1..], n - 1, p, size);
      assert log[n := Slot(p, size)][1..] == log[1..][n - 1 := Slot(p, size)];
    }
  }

  lemma {:induction false} LogMapResize(log: seq<Slot>, p: int, size: int)
    requires p != NULL && Holds(log, p)
    ensures LogMap(log[Find(log, p) := Slot(p, size)]) == LogMap(log)[p := size]
  {
    var i := Find(log, p);
    if i == 0 {
      assert log[i := Slot(p, size)][1..] == log[1..];
    } else {
      LogMapResize(log[1..], p, size);
      assert log[i := Slot(p, size)][1..] == log[1..][i - 1 := Slot(p, size)];
    }
  }

  lemma {:induction false} LogMapClear(log: seq<Slot>, p: int)
    requires p != NULL && Holds(log, p) && DistinctLive(log)
    ensures LogMap(log[Find(log, p) := Slot(NULL, SIZE_MAX)]) == LogMap(log) - {p}
  {
    var i := Find(log, p);
    if i == 0 {
      assert log[i := Slot(NULL, SIZE_MAX)][1..] == log[1..];
      LogMapLookup(log[1..], p);
      assert forall j :: 0 <= j < |log[1..]| ==> log[1..][j] == log[j + 1];
    } else {
      LogMapClear(log[1..], p);
      assert log[i := Slot(NULL, SIZE_MAX)][1..] == log[1..][i - 1 := Slot(NULL, SIZE_MAX)];
    }
  }

  /** What malloc_allocated computes is the total size of the blocks in the log. */
  lemma {:induction false} LiveTotalIsHeapTotal(log: seq<Slot>)
    requires DistinctLive(log)
    ensures LiveTotal(log) == HeapTotal(LogMap(log))
  {
    if log != [] {
      var p := log[0].ptr;
      LiveTotalIsHeapTotal(log[1..]);
      if p != NULL {
        LogMapLookup(log[1..], p);
        assert forall j :: 0 <= j < |log[1..]| ==> log[1..][j] == log[j + 1];
        SumWithout(LogMap(log), p);
        assert LogMap(log) - {p} == LogMap(log[1..]);
      }
    }
  }

  // ------------------------------------------------------------------ monitored calls

  datatype Masks = Masks(malloc: uint32, calloc: uint32, realloc: uint32, free: uint32)

  datatype System = System(account: Account, heap: Heap, masks: Masks)

  /** A call, with what the real call returns if it is made. */
  datatype Op = MallocOp(size: nat, obtained: int)
              | CallocOp(nmemb: nat, each: nat, obtained: int)
              | ReallocOp(ptr: int, size: nat, obtained: int)
              | FreeOp(ptr: int)

  predicate Sized(s: System) {
    s.account.n <= |s.account.log| == MAX_LOG
  }

  function Do(s: System, op: Op): (s': System)
    requires Sized(s)
    ensures Sized(s')
  {
    var a, heap, masks := s.account, s.heap, s.masks;
    match op
    case MallocOp(size, obtained) =>
      var masks' := masks.(malloc := Next(masks.malloc));
      if Fail(masks.malloc) then s.(masks := masks')
      else System(Alloc(a, obtained, size), RealAlloc(heap, obtained, size), masks')
    case CallocOp(nmemb, each, obtained) =>
      var masks' := masks.(calloc := Next(masks.calloc));
      if Fail(masks.calloc) then s.(masks := masks')
      else System(Alloc(a, obtained, nmemb * each), RealAlloc(heap, obtained, nmemb * each), masks')
    case ReallocOp(ptr, size, obtained) =>
      var masks' := masks.(realloc := Next(masks.realloc));
      if Fail(masks.realloc) then s.(masks := masks')
      else System(Resize(a, ptr, size), RealRealloc(heap, ptr, size, obtained), masks')
    case FreeOp(ptr) =>
      if ptr == NULL then s
      else System(Release(a, ptr), if Fail(masks.free) then heap else heap - {ptr},
                  masks.(free := NextOfFree(masks.free)))
  }

  /** The account tells the truth: the live slots are the blocks that exist, and used is their total size. */
  ghost predicate Agrees(a: Account, heap: Heap) {
    && Sound(a) && LogMap(a.log) == heap
    && a.used == LiveTotal(a.log) == HeapTotal(heap)
  }

  ghost predicate Matches(s: System) {
    Agrees(s.account, s.heap)
  }

  ghost function SizeOf(heap: Heap, ptr: int): int {
    if ptr in heap then heap[ptr] else 0
  }

  /**
   What the program and the real allocator see to: blocks are at new addresses, only existing blocks are resized or
   freed, and the total size fits an int.
   */
  ghost predicate Legal(heap: Heap, op: Op) {
    match op
    case MallocOp(size, obtained) => obtained !in heap && HeapTotal(heap) + size < 0x8000_0000
    case CallocOp(nmemb, each, obtained) => obtained !in heap && HeapTotal(heap) + nmemb * each < 0x8000_0000
    case ReallocOp(ptr, size, obtained) =>
      && (ptr == NULL || ptr in heap) && (obtained == ptr || obtained !in heap)
      && size < 0x8000_0000 && HeapTotal(heap) - SizeOf(heap, ptr) + size < 0x8000_0000
    case FreeOp(ptr) => ptr == NULL || ptr in heap
  }

  /**
   When a call keeps the account true: an allocation that was injected to fail, or is logged, or is of size 0; a
   realloc that was injected to fail, or is in place, or fails on an unchanged size; a free that really happens.
   */
  ghost predicate Keeps(s: System, op: Op) {
    match op
    case MallocOp(size, obtained) =>
      Fail(s.masks.malloc) || if obtained == NULL then size == 0 else s.account.n < 1000
    case CallocOp(nmemb, each, obtained) =>
      Fail(s.masks.calloc) || if obtained == NULL then nmemb * each == 0 else s.account.n < 1000
    case ReallocOp(ptr, size, obtained) =>
      Fail(s.masks.realloc) || obtained == ptr
      || (obtained == NULL && size > 0 && SizeOf(s.heap, ptr) == size)
    case FreeOp(ptr) => ptr == NULL || !Fail(s.masks.free)
  }

  lemma AllocMatches(a: Account, heap: Heap, obtained: int, size: nat)
    requires Agrees(a, heap) && obtained !in heap && HeapTotal(heap) + size < 0x8000_0000
    ensures Agrees(Alloc(a, obtained, size), RealAlloc(heap, obtained, size))
       <==> if obtained == NULL then size == 0 else a.n < MAX_LOG
  {
    if obtained != NULL {
      LogMapLookup(a.log, obtained);
      if a.n < MAX_LOG {
        LogMapAdd(a.log, a.n, obtained, size);
      }
    }
    AllocAccounts(a, obtained, size);
    var a' := Alloc(a, obtained, size);
    LiveTotalIsHeapTotal(a'.log);
  }

  lemma ResizeMatches(a: Account, heap: Heap, ptr: int, size: nat, obtained: int)
    requires Agrees(a, heap) && Legal(heap, ReallocOp(ptr, size, obtained))
    ensures Agrees(Resize(a, ptr, size), RealRealloc(heap, ptr, size, obtained))
       <==> obtained == ptr || (obtained == NULL && size > 0 && SizeOf(heap, ptr) == size)
  {
    var a' := Resize(a, ptr, size);
    LogMapLookup(a.log, if ptr == NULL then 1 else ptr);
    if ptr == NULL {
      assert heap - {NULL} == heap;
    } else {
      var i := Find(a.log, ptr);
      LogMapResize(a.log, ptr, size);
      LiveTotalUpdate(a.log, i, Slot(ptr, size));
      ResizeAccounts(a, ptr, size);
      LiveTotalIsHeapTotal(a'.log);
      assert ptr in LogMap(a'.log) && LogMap(a'.log)[ptr] == size;
      if obtained == ptr {
        assert (heap - {ptr})[ptr := size] == heap[ptr := size];
      } else if obtained == NULL && size > 0 && heap[ptr] == size {
        assert heap[ptr := size] == heap;
      }
    }
  }

  lemma ReleaseMatches(a: Account, heap: Heap, ptr: int, injected: bool)
    requires Agrees(a, heap) && ptr in heap
    ensures Agrees(Release(a, ptr), if injected then heap else heap - {ptr}) <==> !injected
  {
    LogMapLookup(a.log, if ptr == NULL then 1 else ptr);
    LogMapClear(a.log, ptr);
    ReleaseAccounts(a, ptr);
    LiveTotalIsHeapTotal(Release(a, ptr).log);
  }

  /** From a true account, a call leads to a true account iff it is one of those that keep it. */
  lemma StepMatches(s: System, op: Op)
    requires Matches(s) && Legal(s.heap, op)
    ensures Matches(Do(s, op)) <==> Keeps(s, op)
  {
    var a, heap := s.account, s.heap;
    match op
    case MallocOp(size, obtained) => AllocMatches(a, heap, obtained, size);
    case CallocOp(nmemb, each, obtained) => AllocMatches(a, heap, obtained, nmemb * each);
    case ReallocOp(ptr, size, obtained) => ResizeMatches(a, heap, ptr, size, obtained);
    case FreeOp(ptr) =>
      if ptr != NULL {
        ReleaseMatches(a, heap, ptr, Fail(s.masks.free));
      }
  }

  // ------------------------------------------------------------------ whole runs

  ghost predicate LegalRun(s: System, ops: seq<Op>)
    requires Sized(s)
    decreases |ops|
  {
    ops != [] ==> Legal(s.heap, ops[0]) && LegalRun(Do(s, ops[0]), ops[1..])
  }

  ghost predicate KeepsThroughout(s: System, ops: seq<Op>)
    requires Sized(s)
    decreases |ops|
  {
    ops != [] ==> Keeps(s, ops[0]) && KeepsThroughout(Do(s, ops[0]), ops[1..])
  }

  ghost predicate MatchesThroughout(s: System, ops: seq<Op>)
    requires Sized(s)
    decreases |ops|
  {
    Matches(s) && (ops != [] ==> MatchesThroughout(Do(s, ops[0]), ops[1..]))
  }

  /**
   Over any run of monitored calls, stats.memory.used, malloc_allocated() and the total size of the blocks that exist
   agree after every call, and the log lists exactly these blocks, iff every call is one of those that keep the account.
   */
  lemma {:induction false} RunAccounts(s: System, ops: seq<Op>)
    requires Matches(s) && LegalRun(s, ops)
    ensures MatchesThroughout(s, ops) <==> KeepsThroughout(s, ops)
    decreases |ops|
  {
    if ops != [] {
      StepMatches(s, ops[0]);
      if Keeps(s, ops[0]) {
        RunAccounts(Do(s, ops[0]), ops[1..]);
      }
    }
  }

  /** How many allocations a run makes. */
  function Allocations(ops: seq<Op>): nat {
    if ops == [] then 0 else (if ops[0].MallocOp? || ops[0].CallocOp? then 1 else 0) + Allocations(ops[1..])
  }

  /** An allocation that gets an address, a realloc in place, or a free. */
  predicate Usual(op: Op) {
    match op
    case MallocOp(_, obtained) => obtained != NULL
    case CallocOp(_, _, obtained) => obtained != NULL
    case ReallocOp(ptr, _, obtained) => obtained == ptr
    case FreeOp(_) => true
  }

  lemma UsualStep(s: System, op: Op)
    requires Sized(s) && Usual(op) && !Fail(s.masks.free)
    requires op.MallocOp? || op.CallocOp? ==> s.account.n < MAX_LOG
    ensures Keeps(s, op) && !Fail(Do(s, op).masks.free)
    ensures Do(s, op).account.n <= s.account.n + Allocations([op])
  {
  }

  /**
   With fresh addresses, reallocs in place, no injected failure of free and at most 1000 allocations in all, the
   account is true after every call.
   */
  lemma {:induction false} FewAllocationsMatch(s: System, ops: seq<Op>)
    requires Matches(s) && LegalRun(s, ops)
    requires (forall op :: op in ops ==> Usual(op)) && !Fail(s.masks.free)
    requires s.account.n + Allocations(ops) <= 1000
    ensures MatchesThroughout(s, ops)
    decreases |ops|
  {
    if ops != [] {
      UsualStep(s, ops[0]);
      StepMatches(s, ops[0]);
      FewAllocationsMatch(Do(s, ops[0]), ops[1..]);
    }
  }

  /** A call that breaks a true account: after an injected failure of free the block still exists, and used is 0. */
  lemma InjectedFreeBreaks(s: System)
    requires Matches(s) && s.heap == map[4096 := 8] && s.account.log[0] == Slot(4096, 8) && Fail(s.masks.free)
    ensures s.account.used == 8
    ensures var s' := Do(s, FreeOp(4096));
            s'.account.used == 0 && s'.heap == map[4096 := 8] && !Matches(s')
  {
    SumWithout(s.heap, 4096);
    assert s.heap - {4096} == map[];
    assert Find(s.account.log, 4096) == 0;
    StepMatches(s, FreeOp(4096));
  }

  // ------------------------------------------------------------------ the wrappers

  class MallocWrappers {
    var n: nat
    const log: array<Slot>
    var used: int
    var failures: Masks
    /** The blocks that the real calls have left allocated. */
    ghost var heap: Heap

    constructor ()
      ensures Valid() && Matches(State()) && n == 0 && heap == map[] && failures == Masks(0, 0, 0, 0) && fresh(log)
    {
      n, used, failures, heap := 0, 0, Masks(0, 0, 0, 0), map[];
      log := new Slot[MAX_LOG](_ => Slot(NULL, 0));
      new;
      AllFree(log[..]);
      LogMapEmpty(log[..]);
    }

    ghost function State(): System
      reads this, log
    {
      System(Account(n, log[..], used), heap, failures)
    }

    ghost predicate Valid()
      reads this, log
    {
      n <= log.Length == MAX_LOG
    }

    /** The scan that several functions share: the first slot of ptr, or MAX_LOG. */
    method FindSlot(ptr: int) returns (i: nat)
      requires Valid()
      ensures i == Find(log[..], ptr)
    {
      i := 0;
      while i < MAX_LOG
        invariant i <= MAX_LOG
        invariant forall j :: 0 <= j < i ==> log[j].ptr != ptr
      {
        if log[i].ptr == ptr {
          return;
        }
        i := i + 1;
      }
    }

    method LogMalloc(ptr: int, size: int)
      requires Valid()
      modifies `n, log
      ensures Valid()
      ensures if ptr != NULL && old(n) < MAX_LOG
              then n == old(n) + 1 && log[..] == old(log[..])[old(n) := Slot(ptr, size)]
              else n == old(n) && log[..] == old(log[..])
    {
      if ptr != NULL && n < MAX_LOG {
        log[n] := Slot(ptr, size);
        n := n + 1;
      }
    }

    /** __wrap_malloc; obtained is the result of the real call. */
    method Malloc(size: nat, obtained: int, injectedResult: int) returns (ptr: int)
      requires Valid()
      modifies this, log
      ensures Valid() && State() == Do(old(State()), MallocOp(size, obtained))
      ensures ptr == if Fail(old(failures).malloc) then injectedResult else obtained
    {
      if Fail(failures.malloc) {
        failures := failures.(malloc := Next(failures.malloc));
        return injectedResult;
      }
      used := Int32(used + size);
      failures := failures.(malloc := Next(failures.malloc));
      ptr := obtained;
      heap := RealAlloc(heap, obtained, size);
      LogMalloc(ptr, size);
    }

    /** __wrap_calloc. */
    method Calloc(nmemb: nat, size: nat, obtained: int, injectedResult: int) returns (ptr: int)
      requires Valid()
      modifies this, log
      ensures Valid() && State() == Do(old(State()), CallocOp(nmemb, size, obtained))
      ensures ptr == if Fail(old(failures).calloc) then injectedResult else obtained
    {
      if Fail(failures.calloc) {
        failures := failures.(calloc := Next(failures.calloc));
        return injectedResult;
      }
      used := Int32(used + nmemb * size);
      failures := failures.(calloc := Next(failures.calloc));
      ptr := obtained;
      heap := RealAlloc(heap, obtained, nmemb * size);
      LogMalloc(ptr, nmemb * size);
    }

    /** __wrap_realloc. The log keeps the address that was passed, whatever the real call returns. */
    method Realloc(ptr: int, size: nat, obtained: int, injectedResult: int) returns (r: int)
      requires Valid()
      modifies this, log
      ensures Valid() && State() == Do(old(State()), ReallocOp(ptr, size, obtained))
      ensures r == if Fail(old(failures).realloc) then injectedResult else obtained
    {
      if Fail(failures.realloc) {
        failures := failures.(realloc := Next(failures.realloc));
        return injectedResult;
      }
      failures := failures.(realloc := Next(failures.realloc));
      var i := FindSlot(ptr);
      var oldSize := Int32(if i < MAX_LOG then log[i].size else SIZE_MAX);
      r := obtained;
      heap := RealRealloc(heap, ptr, size, obtained);
      if ptr != NULL {
        used := Int32(used + size - oldSize);
        if i < MAX_LOG {
          log[i] := Slot(ptr, size);
        }
      }
    }

    /** __wrap_free; released tells whether the real free ran. The account is updated even when it did not. */
    method Free(ptr: int) returns (released: bool)
      requires Valid()
      modifies this, log
      ensures Valid() && State() == Do(old(State()), FreeOp(ptr))
      ensures released <==> ptr != NULL && !Fail(old(failures).free)
    {
      released := false;
      if ptr != NULL {
        var i := FindSlot(ptr);
        if i < MAX_LOG {
          var size := Int32(log[i].size);
          log[i] := Slot(NULL, SIZE_MAX);
          used := Int32(used - size);
        }
        if Fail(failures.free) {
          failures := failures.(free := Next(failures.free));
        } else {
          released := true;
          heap := heap - {ptr};
        }
      }
    }

    /** malloc_allocated: the total of the log as an int; when the account is true, the total size of the blocks. */
    method Allocated() returns (tot: int)
      requires Valid()
      ensures tot == Int32(LiveTotal(log[..]))
      ensures Matches(State()) ==> tot == used == HeapTotal(heap)
    {
      tot := 0;
      var i := 0;
      ghost var slots := log[..];
      assert slots[0..] == slots;
      while i < MAX_LOG
        invariant i <= MAX_LOG
        invariant Int32(tot + LiveTotal(slots[i..])) == Int32(LiveTotal(slots)) && tot == Int32(tot)
      {
        assert slots[i..][0] == log[i] && slots[i..][1..] == slots[i + 1..];
        if log[i].ptr != NULL {
          Int32Step(tot, log[i].size, LiveTotal(slots[i + 1..]));
          tot := Int32(tot + Int32(log[i].size));
        }
        i := i + 1;
      }
      MatchingTotal(State());
    }
  }

  // ------------------------------------------------------------------ injected failures over whole runs

  function Mallocs(ops: seq<Op>): nat {
    if ops == [] then 0 else Mallocs(ops[..|ops| - 1]) + if ops[|ops| - 1].MallocOp? then 1 else 0
  }

  function Callocs(ops: seq<Op>): nat {
    if ops == [] then 0 else Callocs(ops[..|ops| - 1]) + if ops[|ops| - 1].CallocOp? then 1 else 0
  }

  function Reallocs(ops: seq<Op>): nat {
    if ops == [] then 0 else Reallocs(ops[..|ops| - 1]) + if ops[|ops| - 1].ReallocOp? then 1 else 0
  }

  /** The frees that do something. */
  function Frees(ops: seq<Op>): nat {
    if ops == [] then 0
    else Frees(ops[..|ops| - 1]) + if ops[|ops| - 1].FreeOp? && ops[|ops| - 1].ptr != NULL then 1 else 0
  }

  /** What a call reports: the address it returns, or whether the real free ran. */
  datatype Report = Returned(ptr: int) | Freed(released: bool)

  /**
   What the masks m announce for the next call after the calls before: the k-th malloc, calloc and realloc return the
   injected result iff a failure is scheduled for it; the k-th free of an address is suppressed iff failures are
   scheduled for every free up to it.
   */
  ghost predicate Announced(m: Masks, before: seq<Op>, op: Op, injected: int, report: Report) {
    match op
    case MallocOp(_, obtained) =>
      report == Returned(if Scheduled(m.malloc, Mallocs(before)) then injected else obtained)
    case CallocOp(_, _, obtained) =>
      report == Returned(if Scheduled(m.calloc, Callocs(before)) then injected else obtained)
    case ReallocOp(_, _, obtained) =>
      report == Returned(if Scheduled(m.realloc, Reallocs(before)) then injected else obtained)
    case FreeOp(ptr) =>
      report == Freed(ptr != NULL && !ScheduledUpTo(m.free, Frees(before)))
  }

  /** One call through the wrapper. */
  method CallWrapper(w: MallocWrappers, op: Op, injected: int) returns (report: Report)
    requires w.Valid()
    modifies w, w.log
    ensures w.Valid() && w.State() == Do(old(w.State()), op)
    ensures var m := old(w.failures);
            report == match op
                      case MallocOp(_, obtained) => Returned(if Fail(m.malloc) then injected else obtained)
                      case CallocOp(_, _, obtained) => Returned(if Fail(m.calloc) then injected else obtained)
                      case ReallocOp(_, _, obtained) => Returned(if Fail(m.realloc) then injected else obtained)
                      case FreeOp(ptr) => Freed(ptr != NULL && !Fail(m.free))
  {
    match op {
      case MallocOp(size, obtained) =>
        var ptr := w.Malloc(size, obtained, injected);
        report := Returned(ptr);
      case CallocOp(nmemb, each, obtained) =>
        var ptr := w.Calloc(nmemb, each, obtained, injected);
        report := Returned(ptr);
      case ReallocOp(ptr, size, obtained) =>
        var r := w.Realloc(ptr, size, obtained, injected);
        report := Returned(r);
      case FreeOp(ptr) =>
        var released := w.Free(ptr);
        report := Freed(released);
    }
  }

  /** The masks after a run. */
  ghost predicate MasksAfter(m: Masks, ops: seq<Op>, now: Masks) {
    now == Masks(After(m.malloc, Mallocs(ops)), After(m.calloc, Callocs(ops)),
                 After(m.realloc, Reallocs(ops)), AfterFrees(m.free, Frees(ops)))
  }

  lemma MasksStep(m: Masks, ops: seq<Op>, op: Op, s: System)
    requires Sized(s) && MasksAfter(m, ops, s.masks)
    ensures MasksAfter(m, ops + [op], Do(s, op).masks)
  {
    assert (ops + [op])[..|ops|] == ops;
  }

  /** Over any run of calls, each report is the one that the masks at the start announce. */
  method RunWrappers(w: MallocWrappers, ops: seq<Op>, injected: int) returns (reports: seq<Report>)
    requires w.Valid()
    modifies w, w.log
    ensures w.Valid() && |reports| == |ops|
    ensures forall i :: 0 <= i < |ops| ==> Announced(old(w.failures), ops[..i], ops[i], injected, reports[i])
  {
    reports := [];
    ghost var m := w.failures;
    for i := 0 to |ops|
      invariant w.Valid() && |reports| == i && MasksAfter(m, ops[..i], w.failures)
      invariant forall j :: 0 <= j < i ==> Announced(m, ops[..j], ops[j], injected, reports[j])
    {
      ghost var before := ops[..i];
      MasksStep(m, before, ops[i], w.State());
      MaskMeaning(m.malloc, Mallocs(before));
      MaskMeaning(m.calloc, Callocs(before));
      MaskMeaning(m.realloc, Reallocs(before));
      FreeMaskMeaning(m.free, Frees(before));
      assert ops[..i + 1] == before + [ops[i]];
      var report := CallWrapper(w, ops[i], injected);
      reports := reports + [report];
    }
  }

  /** The same from the start: a new log, a malloc, and a free that is injected to fail. */
  method InjectedFreeRun() returns (w: MallocWrappers)
    ensures w.used == 0 && w.heap == map[4096 := 8] && !Matches(w.State())
  {
    w := new MallocWrappers();
    w.failures := Masks(0, 0, 0, 1);
    StepMatches(w.State(), MallocOp(8, 4096));
    var ptr := w.Malloc(8, 4096, NULL);
    InjectedFreeBreaks(w.State());
    var released := w.Free(ptr);
  }

  /** A total that fits an int is not changed by the conversion. */
  lemma MatchingTotal(s: System)
    ensures Matches(s) ==> Int32(LiveTotal(s.account.log)) == s.account.used == HeapTotal(s.heap)
  {
    if Matches(s) {
      LiveTotalBounds(s.account.log);
    }
  }

  lemma {:induction false} LogMapEmpty(log: seq<Slot>)
    requires forall i :: 0 <= i < |log| ==> log[i].ptr == NULL
    ensures LogMap(log) == map[]
  {
    if log != [] {
      LogMapEmpty(log[1..]);
    }
  }

  /** Converting to int at every step of a sum does not change the converted sum. */
  lemma Int32Step(tot: int, x: int, rest: int)
    ensures Int32(Int32(tot + Int32(x)) + rest) == Int32(tot + (x + rest))
    ensures Int32(Int32(tot + Int32(x))) == Int32(tot + Int32(x))
  {
    Int32Absorbs(tot, x);
    Int32Absorbs(rest, tot + x);
  }

  lemma Int32Absorbs(x: int, y: int)
    ensures Int32(x + Int32(y)) == Int32(x + y)
  {
  }
}
