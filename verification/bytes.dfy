/**
 * Byte-level vocabulary of the IPDB format: unsigned bytes, the big-endian
 * integers the file stores, and the most-significant-bit-first decomposition
 * of an address into the bits that steer the trie walk.
 */
module Bytes {

  /** An unsigned 8-bit value (`u8`). */
  type byte = b: int | 0 <= b < 256

  /** One address bit, which is also the index of the child a trie step takes. */
  type bit = b: int | 0 <= b < 2

  /** The column separator of a record (ASCII horizontal tab). */
  const Tab: byte := 0x09

  function Pow2(n: nat): (p: nat)
    ensures p >= 1
  {
    if n == 0 then 1 else 2 * Pow2(n - 1)
  }

  /** `u32::from_be_bytes`: four bytes, most significant first. */
  function BigEndian32(b: seq<byte>): (n: nat)
    requires |b| == 4
    ensures n < 0x1_0000_0000
  {
    ((b[0] as int * 256 + b[1] as int) * 256 + b[2] as int) * 256 + b[3] as int
  }

  /** `u32::to_be_bytes`, the inverse of BigEndian32. */
  function EncodeBigEndian32(n: nat): (b: seq<byte>)
    requires n < 0x1_0000_0000
    ensures |b| == 4
  {
    [n / 0x100_0000, (n / 0x1_0000) % 256, (n / 256) % 256, n % 256]
  }

  lemma DecodeEncode32(n: nat)
    requires n < 0x1_0000_0000
    ensures BigEndian32(EncodeBigEndian32(n)) == n
  {
    var q1, r0 := n / 256, n % 256;
    var q2, r1 := q1 / 256, q1 % 256;
    var q3, r2 := q2 / 256, q2 % 256;
    assert n == q1 * 256 + r0 && q1 == q2 * 256 + r1 && q2 == q3 * 256 + r2;
    assert n == q2 * 0x1_0000 + (r1 * 256 + r0);
    DivisionUnique(n, 0x1_0000, q2, r1 * 256 + r0);
    assert n == q3 * 0x100_0000 + (r2 * 0x1_0000 + r1 * 256 + r0);
    DivisionUnique(n, 0x100_0000, q3, r2 * 0x1_0000 + r1 * 256 + r0);
    assert EncodeBigEndian32(n) == [q3, r2, r1, r0];
  }

  lemma EncodeDecode32(b: seq<byte>)
    requires |b| == 4
    ensures EncodeBigEndian32(BigEndian32(b)) == b
  {
    var n := BigEndian32(b);
    var hi := b[0] as int * 256 + b[1] as int;
    var mid := hi * 256 + b[2] as int;
    assert n == mid * 256 + b[3];
    DivisionUnique(n, 256, mid, b[3]);
    DivisionUnique(mid, 256, hi, b[2]);
    DivisionUnique(hi, 256, b[0], b[1]);
    assert n / 0x1_0000 == mid / 256;
    assert n / 0x100_0000 == hi / 256;
  }

  /** The two-byte big-endian length prefix of a record, as the source reads it:
      `u32::from_be_bytes([0, 0, hi, lo])`. */
  function RecordLength(hi: byte, lo: byte): (n: nat)
    ensures n < 0x1_0000
    ensures n / 256 == hi && n % 256 == lo
  {
    BigEndian32([0, 0, hi, lo])
  }

  /** The two bytes of a record length prefix, most significant first. */
  function EncodeRecordLength(n: nat): (b: seq<byte>)
    requires n < 0x1_0000
    ensures |b| == 2 && RecordLength(b[0], b[1]) == n
  {
    [n / 256, n % 256]
  }

  /** `(b >> (7 - k)) & 1`: bit k of a byte, counting from the most significant,
      written out for each of the eight positions. */
  function BitOf(b: byte, k: nat): bit
    requires k < 8
  {
    match k
    case 0 => b / 128
    case 1 => (b / 64) % 2
    case 2 => (b / 32) % 2
    case 3 => (b / 16) % 2
    case 4 => (b / 8) % 2
    case 5 => (b / 4) % 2
    case 6 => (b / 2) % 2
    case _ => b % 2
  }

  /** The table BitOf is the shift-and-mask `(b >> (7 - k)) & 1`: the quotient
      by 2^(7-k), modulo 2. */
  lemma BitOfIsShift(b: byte, k: nat)
    requires k < 8
    ensures BitOf(b, k) == (b / Pow2(7 - k)) % 2
  {
    match k
    case 0 => assert Pow2(7) == 128;
    case 1 => assert Pow2(6) == 64;
    case 2 => assert Pow2(5) == 32;
    case 3 => assert Pow2(4) == 16;
    case 4 => assert Pow2(3) == 8;
    case 5 => assert Pow2(2) == 4;
    case 6 => assert Pow2(1) == 2;
    case _ => assert Pow2(0) == 1;
  }

  /** The bits of an address in the order the trie walk consumes them:
      bit i is bit i % 8 of octet i / 8, most significant first. */
  function AddressBits(octets: seq<byte>): (bits: seq<bit>)
    ensures |bits| == 8 * |octets|
  {
    seq(8 * |octets|, i requires 0 <= i < 8 * |octets| => BitOf(octets[i / 8], i % 8))
  }

  /** The number whose binary digits, most significant first, are `bits`. */
  function BitsValue(bits: seq<bit>): nat
  {
    if |bits| == 0 then 0 else 2 * BitsValue(bits[..|bits| - 1]) + bits[|bits| - 1]
  }

  /** The octets spelled by a bit string of whole bytes. */
  function OctetsOf(bits: seq<bit>): (octets: seq<byte>)
    requires |bits| % 8 == 0
    ensures |octets| == |bits| / 8
    decreases |bits|
  {
    if |bits| == 0 then []
    else
      ByteOfBits(bits[..8]);
      assert Pow2(8) == 256;
      [BitsValue(bits[..8])] + OctetsOf(bits[8..])
  }

  lemma {:induction false} ByteOfBits(bits: seq<bit>)
    ensures BitsValue(bits) < Pow2(|bits|)
    decreases |bits|
  {
    if |bits| > 0 {
      ByteOfBits(bits[..|bits| - 1]);
    }
  }

  /** Reading the eight bits of a byte back gives the byte: the walk sees every bit
      of every octet exactly once. */
  lemma BitsOfByteRoundTrip(b: byte)
    ensures BitsValue(AddressBits([b])) == b
  {
    var s := AddressBits([b]);
    assert s[..0] == [];
    PrefixStep(s, 0);
    PrefixHalves(s, b, 1, 64);
    PrefixHalves(s, b, 2, 32);
    PrefixHalves(s, b, 3, 16);
    PrefixHalves(s, b, 4, 8);
    PrefixHalves(s, b, 5, 4);
    PrefixHalves(s, b, 6, 2);
    PrefixHalves(s, b, 7, 1);
    assert s[..8] == s;
  }

  /** Reading one more bit of `b` turns the value of the bits above it into the
      value of the bits down to it. */
  lemma PrefixHalves(s: seq<bit>, b: byte, j: nat, d: nat)
    requires j < |s| && d >= 1
    requires BitsValue(s[..j]) == b / (2 * d) && s[j] == (b / d) % 2
    ensures BitsValue(s[..j + 1]) == b / d
  {
    PrefixStep(s, j);
    HalveQuotient(b, d);
  }

  /** One more bit doubles the value read so far and adds the bit. */
  lemma PrefixStep(s: seq<bit>, j: nat)
    requires j < |s|
    ensures BitsValue(s[..j + 1]) == 2 * BitsValue(s[..j]) + s[j]
  {
    assert s[..j + 1][..j] == s[..j];
  }

  /** Halving a quotient drops its last binary digit. */
  lemma HalveQuotient(b: nat, p: nat)
    requires p >= 1
    ensures b / (2 * p) * 2 + (b / p) % 2 == b / p
  {
    var q := b / p;
    assert b == q * p + b % p;
    var h := q / 2;
    assert q == 2 * h + q % 2;
    assert b == h * (2 * p) + ((q % 2) * p + b % p);
    assert 0 <= (q % 2) * p + b % p < 2 * p;
    DivisionUnique(b, 2 * p, h, (q % 2) * p + b % p);
  }

  lemma DivisionUnique(a: nat, d: nat, q: nat, r: nat)
    requires d >= 1 && a == q * d + r && r < d
    ensures a / d == q && a % d == r
  {
    var q', r' := a / d, a % d;
    assert a == q' * d + r';
    if q' > q {
      MultiplyMonotone(q + 1, q', d);
      assert false;
    } else if q' < q {
      MultiplyMonotone(q' + 1, q, d);
      assert false;
    }
  }

  lemma MultiplyMonotone(x: nat, y: nat, d: nat)
    ensures x <= y ==> x * d <= y * d
  {
    if x <= y {
      assert y * d == x * d + (y - x) * d;
    }
  }

  /** The address bits of a concatenation are the concatenation of the bits. */
  lemma AddressBitsAppend(a: seq<byte>, b: seq<byte>)
    ensures AddressBits(a + b) == AddressBits(a) + AddressBits(b)
  {
    var l, r, both := AddressBits(a), AddressBits(b), AddressBits(a + b);
    forall i | 0 <= i < |both|
      ensures both[i] == (l + r)[i]
    {
      if i >= 8 * |a| {
        var k := i - 8 * |a|;
        assert i / 8 == |a| + k / 8 && i % 8 == k % 8;
      }
    }
  }

  /** Decomposing octets into bits and reading them back gives the octets. */
  lemma {:induction false} AddressBitsRoundTrip(octets: seq<byte>)
    ensures OctetsOf(AddressBits(octets)) == octets
    decreases |octets|
  {
    if |octets| > 0 {
      var bits := AddressBits(octets);
      AddressBitsAppend([octets[0]], octets[1..]);
      assert [octets[0]] + octets[1..] == octets;
      assert bits[..8] == AddressBits([octets[0]]);
      assert bits[8..] == AddressBits(octets[1..]);
      BitsOfByteRoundTrip(octets[0]);
      AddressBitsRoundTrip(octets[1..]);
    }
  }
}
