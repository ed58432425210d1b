/** The failure scheduler of the wrappers: a 32-bit mask, one bit per future call. */
module FailureMask {
  import opened ByteOrder

  const FAIL_ALWAYS: uint32 := 0xFFFF_FFFF

  /** The macro FAIL: the next call fails when the low-order bit is set. */
  predicate Fail(v: uint32) {
    v % 2 == 1
  }

  /** The macro NEXT: shift right by one bit, except that FAIL_ALWAYS is kept. */
  function Next(v: uint32): uint32 {
    if v == FAIL_ALWAYS then FAIL_ALWAYS else v / 2
  }

  /** The mask left after k monitored calls. */
  function After(v: uint32, k: nat): uint32 {
    if k == 0 then v else Next(After(v, k - 1))
  }

  function Pow2(k: nat): (p: int)
    ensures p > 0
  {
    if k == 0 then 1 else 2 * Pow2(k - 1)
  }

  /** Bit k of a mask, bit 0 being the low-order one. */
  predicate Bit(v: uint32, k: nat) {
    v / Pow2(k) % 2 == 1
  }

  /** What a mask announces: does the k-th call (counted from 0) fail? */
  predicate Scheduled(v: uint32, k: nat) {
    v == FAIL_ALWAYS || (k < 32 && Bit(v, k))
  }

  /** Any mask but FAIL_ALWAYS is a plain shift register: it never turns into FAIL_ALWAYS. */
  lemma {:induction false} AfterIsShift(v: uint32, k: nat)
    requires v != FAIL_ALWAYS
    ensures After(v, k) == v / Pow2(k) != FAIL_ALWAYS
  {
    if k > 0 {
      AfterIsShift(v, k - 1);
      DivideTwice(v, Pow2(k - 1));
    }
  }

  lemma DivideTwice(v: nat, p: int)
    requires p > 0
    ensures v / p / 2 == v / (2 * p)
  {
    var q := v / p / 2;
    var rest := v - 2 * p * q;
    assert rest == (v - p * (v / p)) + p * (v / p - 2 * q);
    assert 0 <= v / p - 2 * q <= 1;
    assert 0 <= rest < 2 * p;
    assert v == 2 * p * q + rest;
    QuotientIsUnique(v, 2 * p, q, rest);
  }

  lemma QuotientIsUnique(v: int, d: int, q: int, rest: int)
    requires 0 <= rest < d && v == d * q + rest
    ensures v / d == q
  {
    var e := v / d - q;
    assert d * e == rest - v % d;
    assert e >= 1 ==> d * e >= d;
    assert e <= -1 ==> d * e <= -d;
  }

  lemma {:induction false} NothingAfterBit31(v: uint32, k: nat)
    requires k >= 32
    ensures v / Pow2(k) == 0
  {
    if k == 32 {
      assert Pow2(8) == 0x100;
      assert Pow2(16) == 0x1_0000;
      assert Pow2(24) == 0x100_0000;
    } else {
      NothingAfterBit31(v, k - 1);
      DivideTwice(v, Pow2(k - 1));
    }
  }

  lemma {:induction false} AlwaysStays(k: nat)
    ensures After(FAIL_ALWAYS, k) == FAIL_ALWAYS
  {
    if k > 0 {
      AlwaysStays(k - 1);
    }
  }

  /** Mask meaning: the low-order test at the k-th call reads bit k of the initial mask. */
  lemma {:induction false} MaskMeaning(v: uint32, k: nat)
    ensures Fail(After(v, k)) <==> Scheduled(v, k)
    ensures After(v, k) == FAIL_ALWAYS <==> v == FAIL_ALWAYS
  {
    if v == FAIL_ALWAYS {
      AlwaysStays(k);
    } else {
      AfterIsShift(v, k);
      if k >= 32 {
        NothingAfterBit31(v, k);
      }
    }
  }

  /** The same in numbers: 2^32 - 1 fails every call; any other mask fails the k-th call iff bit k is set. */
  lemma MaskInNumbers(v: uint32, k: nat)
    ensures Fail(After(4_294_967_295, k))
    ensures v != 4_294_967_295 ==> (Fail(After(v, k)) <==> k < 32 && v / Pow2(k) % 2 == 1)
  {
    MaskMeaning(4_294_967_295, k);
    MaskMeaning(v, k);
  }

  // free applies NEXT only on its failing path, so its mask stops moving at the first clear bit.

  function NextOfFree(v: uint32): uint32 {
    if Fail(v) then Next(v) else v
  }

  function AfterFrees(v: uint32, k: nat): uint32 {
    if k == 0 then v else NextOfFree(AfterFrees(v, k - 1))
  }

  predicate ScheduledUpTo(v: uint32, k: nat) {
    forall j: nat :: j <= k ==> Scheduled(v, j)
  }

  /** The k-th free is injected to fail iff the mask announces a failure for every call up to k. */
  lemma {:induction false} FreeMaskMeaning(v: uint32, k: nat)
    ensures Fail(AfterFrees(v, k)) <==> ScheduledUpTo(v, k)
    ensures ScheduledUpTo(v, k) ==> AfterFrees(v, k) == After(v, k)
  {
    MaskMeaning(v, k);
    if k > 0 {
      FreeMaskMeaning(v, k - 1);
      MaskMeaning(v, k - 1);
    }
  }

  /** The announced failures are an initial run of the calls. */
  ghost predicate NoGap(v: uint32) {
    forall j: nat, k: nat :: j <= k && Scheduled(v, k) ==> Scheduled(v, j)
  }

  ghost predicate FreeAsScheduled(v: uint32) {
    forall k: nat :: Fail(AfterFrees(v, k)) <==> Scheduled(v, k)
  }

  /** free keeps the announced schedule iff the failures that the mask announces have no gap before them. */
  lemma FreeFollowsSchedule(v: uint32)
    ensures FreeAsScheduled(v) <==> NoGap(v)
  {
    forall k: nat
      ensures Fail(AfterFrees(v, k)) <==> ScheduledUpTo(v, k)
    {
      FreeMaskMeaning(v, k);
    }
    if FreeAsScheduled(v) {
      forall j: nat, k: nat | j <= k && Scheduled(v, k)
        ensures Scheduled(v, j)
      {
        assert ScheduledUpTo(v, k);
      }
    }
  }

  const FAIL_SECOND: uint32 := 2

  /** An input on which it does not: FAIL_SECOND announces a failure of the second call, and free never fails. */
  lemma FreeIgnoresFailSecond(k: nat)
    ensures Scheduled(FAIL_SECOND, 1) && !Fail(AfterFrees(FAIL_SECOND, k))
  {
    assert Pow2(1) == 2;
    assert !Scheduled(FAIL_SECOND, 0);
    FreeMaskMeaning(FAIL_SECOND, k);
  }
}
