/** The messages of the sum-of-ints protocol, and the sum itself. */
module SumOfInts {
  import opened ByteOrder

  const WORD_LIMIT := 0x1_0000_0000

  /** The integers one after the other, each in network order. */
  function EncodeWords(v: seq<uint32>): (bs: seq<byte>)
    ensures |bs| == 4 * |v|
  {
    if v == [] then [] else EncodeWords(v[..|v| - 1]) + BigEndian(v[|v| - 1])
  }

  /** The TCP request: how many integers, then the integers. */
  function Request(v: seq<uint32>): (bs: seq<byte>)
    requires |v| < WORD_LIMIT
    ensures |bs| == 4 * (|v| + 1)
  {
    BigEndian(|v|) + EncodeWords(v)
  }

  /** The sum over the integers, without any bound. */
  function Total(v: seq<uint32>): nat {
    if v == [] then 0 else Total(v[..|v| - 1]) + v[|v| - 1]
  }

  /** The answer: the sum modulo 2^32. */
  function Sum32(v: seq<uint32>): uint32 {
    Total(v) % WORD_LIMIT
  }

  lemma {:induction false} TotalSplits(v: seq<uint32>, i: nat)
    requires i <= |v|
    ensures Total(v) == Total(v[..i]) + Total(v[i..])
    decreases |v|
  {
    if i == |v| {
      assert v[..i] == v;
    } else {
      var front := v[..|v| - 1];
      TotalSplits(front, i);
      assert front[..i] == v[..i] && front[i..] == v[i..][..|v[i..]| - 1];
    }
  }

  /** What the answer is: the sum of the integers, of which one alone is its own sum, as an unsigned 32-bit number. */
  lemma SumMeans(v: seq<uint32>, w: seq<uint32>, x: uint32)
    ensures Total([x]) == x && Total(v + w) == Total(v) + Total(w)
    ensures 0 <= Sum32(v) < 4_294_967_296 && (Total(v) - Sum32(v)) % 4_294_967_296 == 0
  {
    TotalSplits(v + w, |v|);
    assert (v + w)[..|v|] == v && (v + w)[|v|..] == w;
  }

  /** Adding up with 32-bit wrap-around after every step gives the same as reducing once at the end. */
  lemma SumStep(v: seq<uint32>, i: nat)
    requires i < |v|
    ensures Sum32(v[..i + 1]) == (Sum32(v[..i]) + v[i]) % WORD_LIMIT
  {
    assert v[..i + 1][..i] == v[..i];
  }

  /** The integers that words in network order stand for; bytes after the last whole word are ignored. */
  function DecodeWords(bs: seq<byte>): (v: seq<uint32>)
    ensures |v| == |bs| / 4
  {
    if |bs| < 4 then [] else [FromBigEndian(bs[..4])] + DecodeWords(bs[4..])
  }

  lemma {:induction false} WordAt(v: seq<uint32>, i: nat)
    requires i < |v|
    ensures EncodeWords(v)[4 * i..4 * i + 4] == BigEndian(v[i])
  {
    var front := v[..|v| - 1];
    if i < |front| {
      WordAt(front, i);
      assert EncodeWords(v)[4 * i..4 * i + 4] == EncodeWords(front)[4 * i..4 * i + 4];
    }
  }

  lemma {:induction false} EncodePrefix(v: seq<uint32>, i: nat)
    requires i <= |v|
    ensures EncodeWords(v)[..4 * i] == EncodeWords(v[..i])
  {
    if i == |v| {
      assert v[..i] == v;
    } else {
      var front := v[..|v| - 1];
      EncodePrefix(front, i);
      assert front[..i] == v[..i];
      assert EncodeWords(v)[..4 * i] == EncodeWords(front)[..4 * i];
    }
  }

  lemma SliceOfRest(bs: seq<byte>, n: nat, i: nat, j: nat)
    requires i <= j && n + j <= |bs|
    ensures bs[n..][i..j] == bs[n + i..n + j]
  {
  }

  lemma {:induction false} DecodeAt(bs: seq<byte>, i: nat)
    requires 4 * i + 4 <= |bs|
    ensures DecodeWords(bs)[i] == FromBigEndian(bs[4 * i..4 * i + 4])
  {
    if i > 0 {
      DecodeAt(bs[4..], i - 1);
      SliceOfRest(bs, 4, 4 * (i - 1), 4 * (i - 1) + 4);
    }
  }

  lemma SliceOfPrefix(data: seq<byte>, n: nat, i: nat, j: nat)
    requires i <= j <= n <= |data|
    ensures data[..n][i..j] == data[i..j]
  {
  }

  /** The sum of the first n words of mem: adding the i-th, as it lies in the memory of the host, to those before. */
  lemma WordStep(mem: seq<byte>, n: nat, i: nat)
    requires i < n && 4 * n <= |mem|
    ensures var v := DecodeWords(mem[..4 * n]);
            Sum32(v[..i + 1]) == (Sum32(v[..i]) + Ntohl(Load(mem[4 * i..4 * i + 4]))) % WORD_LIMIT
  {
    DecodeAt(mem[..4 * n], i);
    SliceOfPrefix(mem, 4 * n, 4 * i, 4 * i + 4);
    NtohlLoad(mem[4 * i..4 * i + 4]);
    SumStep(DecodeWords(mem[..4 * n]), i);
  }

  lemma DecodeEncodeAt(v: seq<uint32>, tail: seq<byte>, i: nat)
    requires i < |v|
    ensures DecodeWords(EncodeWords(v) + tail)[i] == v[i]
  {
    var bs := EncodeWords(v) + tail;
    WordAt(v, i);
    DecodeAt(bs, i);
    assert bs[4 * i..4 * i + 4] == BigEndian(v[i]) by {
      assert bs[4 * i..4 * i + 4] == EncodeWords(v)[4 * i..4 * i + 4];
    }
    BigEndianRoundTrip(v[i]);
  }

  /** Decoding is the inverse of encoding, also when fewer than four bytes follow. */
  lemma DecodeEncode(v: seq<uint32>, tail: seq<byte>)
    requires |tail| < 4
    ensures DecodeWords(EncodeWords(v) + tail) == v
  {
    forall i | 0 <= i < |v|
      ensures DecodeWords(EncodeWords(v) + tail)[i] == v[i]
    {
      DecodeEncodeAt(v, tail, i);
    }
  }

  lemma RequestParts(v: seq<uint32>, tail: seq<byte>)
    requires |v| < WORD_LIMIT
    ensures var stream := Request(v) + tail;
            stream[..4] == BigEndian(|v|) && stream[4..] == EncodeWords(v) + tail
  {
    ThreeParts(BigEndian(|v|), EncodeWords(v), tail);
  }

  lemma ThreeParts(a: seq<byte>, b: seq<byte>, c: seq<byte>)
    ensures (a + b + c)[..|a|] == a && (a + b + c)[|a|..] == b + c
  {
  }

  /** A stream that starts with a request tells its vector. */
  lemma RequestInStream(v: seq<uint32>, tail: seq<byte>)
    requires |v| < WORD_LIMIT
    ensures var stream := Request(v) + tail;
            FromBigEndian(stream[..4]) == |v| && DecodeWords(stream[4..4 + 4 * |v|]) == v
  {
    RequestParts(v, tail);
    BigEndianRoundTrip(|v|);
    var stream := Request(v) + tail;
    assert stream[4..4 + 4 * |v|] == stream[4..][..4 * |v|] == EncodeWords(v) == EncodeWords(v) + [];
    DecodeEncode(v, []);
  }

  /** Requests are self-delimiting: a stream starts with the request of at most one vector. */
  lemma RequestIsPrefixFree(v: seq<uint32>, w: seq<uint32>, tailV: seq<byte>, tailW: seq<byte>)
    requires |v| < WORD_LIMIT && |w| < WORD_LIMIT
    requires Request(v) + tailV == Request(w) + tailW
    ensures v == w && tailV == tailW
  {
    RequestInStream(v, tailV);
    RequestInStream(w, tailW);
    assert tailV == (Request(v) + tailV)[4 * (|v| + 1)..];
    assert tailW == (Request(w) + tailW)[4 * (|w| + 1)..];
  }
}
