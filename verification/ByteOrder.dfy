/** Bytes, 32-bit words and the conversions between host and network order on a little-endian host. */
module ByteOrder {
  type byte = x: int | 0 <= x < 0x100
  type uint32 = x: int | 0 <= x < 0x1_0000_0000

  /** The value of an integer after its conversion to a 32-bit int. */
  function Int32(x: int): int {
    (x + 0x8000_0000) % 0x1_0000_0000 - 0x8000_0000
  }

  /** Network order (Appendix B of RFC 791): most significant byte first. */
  function BigEndian(x: uint32): (bs: seq<byte>)
    ensures |bs| == 4
  {
    [x / 256 / 256 / 256, x / 256 / 256 % 256, x / 256 % 256, x % 256]
  }

  function FromBigEndian(bs: seq<byte>): uint32
    requires |bs| == 4
  {
    Pack(bs[3], bs[2], bs[1], bs[0])
  }

  /** The word whose bytes are b0 (least significant) to b3. */
  function Pack(b0: byte, b1: byte, b2: byte, b3: byte): (x: uint32)
    ensures Store(x) == [b0, b1, b2, b3]
  {
    var hi: int := b2 + 256 * b3;
    var mid: int := b1 + 256 * hi;
    var x: int := b0 + 256 * mid;
    assert x / 256 == mid && mid / 256 == hi && hi / 256 == b3;
    x
  }

  /** The bytes that a uint32_t occupies in the memory of the host: least significant first. */
  function Store(x: uint32): (bs: seq<byte>)
    ensures |bs| == 4
  {
    [x % 256, x / 256 % 256, x / 256 / 256 % 256, x / 256 / 256 / 256]
  }

  /** The uint32_t that four bytes of memory hold. */
  function Load(bs: seq<byte>): uint32
    requires |bs| == 4
  {
    Pack(bs[0], bs[1], bs[2], bs[3])
  }

  /** The size_t that eight bytes of memory hold. */
  function LoadSize(bs: seq<byte>): int
    requires |bs| == 8
  {
    Load(bs[..4]) + Load(bs[4..]) * 0x1_0000_0000
  }

  /** htonl swaps the four bytes; ntohl is the same swap. */
  function Htonl(x: uint32): uint32 {
    Pack(x / 256 / 256 / 256, x / 256 / 256 % 256, x / 256 % 256, x % 256)
  }

  function Ntohl(x: uint32): uint32 {
    Htonl(x)
  }

  /** The conversion keeps the value modulo 2^32, within the range of an int. */
  lemma Int32Means(x: int)
    ensures -0x8000_0000 <= Int32(x) < 0x8000_0000
    ensures (x - Int32(x)) % 0x1_0000_0000 == 0
  {
  }

  /** Most significant byte first in network order; least significant first in the memory of the host. */
  lemma ByteValues(x: uint32)
    ensures var net, host := BigEndian(x), Store(x);
            && x == 0x100_0000 * (net[0] as int) + 0x1_0000 * (net[1] as int) + 0x100 * (net[2] as int) + net[3]
            && x == 0x100_0000 * (host[3] as int) + 0x1_0000 * (host[2] as int) + 0x100 * (host[1] as int) + host[0]
  {
  }

  /** What htonl is for: the memory image of its result is the network-order encoding. */
  lemma StoreHtonl(x: uint32)
    ensures Store(Htonl(x)) == BigEndian(x)
  {
  }

  /** What ntohl is for: it turns a word received in network order into its value. */
  lemma NtohlLoad(bs: seq<byte>)
    requires |bs| == 4
    ensures Ntohl(Load(bs)) == FromBigEndian(bs)
  {
    assert Store(Load(bs)) == [bs[0], bs[1], bs[2], bs[3]];
  }

  lemma BigEndianRoundTrip(x: uint32)
    ensures FromBigEndian(BigEndian(x)) == x
  {
  }

  /** A size_t whose upper four bytes are zero and whose lower four hold a received word. */
  lemma HeaderInSize(bs: seq<byte>)
    requires |bs| == 8 && bs[4..] == [0, 0, 0, 0]
    ensures LoadSize(bs) < 0x1_0000_0000
    ensures Ntohl(LoadSize(bs)) == FromBigEndian(bs[..4])
  {
    assert Load(bs[4..]) == Pack(0, 0, 0, 0) == 0;
    NtohlLoad(bs[..4]);
  }
}
