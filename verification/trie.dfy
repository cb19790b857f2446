/**
 * The trie region of an IPDB database: a flat array of 8-byte nodes at the
 * start of the post-header buffer, each holding two big-endian u32 children.
 * A child value greater than the node count is a leaf value; there is no
 * tag bit. This module holds the node read and the bit-by-bit descent that
 * both the IPv4 root precompute and the address walker perform.
 */
module Trie {
  import opened Bytes
  import opened Outcomes

  /** `read_node`: child `index` of node `node`, the big-endian u32 at byte
      `node * 8 + index * 4`. Reading past the end of `data` panics in the source. */
  function ReadNode(data: seq<byte>, node: nat, index: bit): (r: Result<nat>)
    ensures r.Ok? <==> node * 8 + index * 4 + 4 <= |data|
    ensures r.Err? ==> r.error == Panic
    ensures r.Ok? ==> r.value < 0x1_0000_0000
  {
    var off := node * 8 + index * 4;
    if off + 4 <= |data| then Ok(BigEndian32(data[off..off + 4])) else Err(Panic)
  }

  /** The 8 bytes of a trie node whose children are `zero` and `one`. */
  function EncodeNode(zero: nat, one: nat): (b: seq<byte>)
    requires zero < 0x1_0000_0000 && one < 0x1_0000_0000
    ensures |b| == 8
  {
    EncodeBigEndian32(zero) + EncodeBigEndian32(one)
  }

  /** Reading a node back from a buffer that holds it at index `node` gives the
      children it was written with. */
  lemma ReadEncodedNode(data: seq<byte>, node: nat, zero: nat, one: nat)
    requires zero < 0x1_0000_0000 && one < 0x1_0000_0000
    requires 8 * node + 8 <= |data| && data[8 * node..8 * node + 8] == EncodeNode(zero, one)
    ensures ReadNode(data, node, 0) == Ok(zero)
    ensures ReadNode(data, node, 1) == Ok(one)
  {
    var at := data[8 * node..8 * node + 8];
    assert data[8 * node..8 * node + 4] == at[..4] == EncodeBigEndian32(zero);
    assert data[8 * node + 4..8 * node + 8] == at[4..] == EncodeBigEndian32(one);
    DecodeEncode32(zero);
    DecodeEncode32(one);
  }

  /**
   * The descent shared by the root precompute and `find_node`: before each
   * step, stop if the current node is at least `limit`; otherwise move to the
   * child named by the next bit. A failed read ends the descent with its error.
   */
  function Walk(data: seq<byte>, bits: seq<bit>, node: nat, limit: nat): (r: Result<nat>)
    ensures r.Err? ==> r.error == Panic
    ensures r.Ok? && r.value != node ==> r.value < 0x1_0000_0000
    decreases |bits|
  {
    if |bits| == 0 || node >= limit then Ok(node)
    else
      match ReadNode(data, node, bits[0])
      case Err(e) => Err(e)
      case Ok(child) => Walk(data, bits[1..], child, limit)
  }

  /** One step of the walk from position `i` of the bits. */
  lemma WalkStep(data: seq<byte>, bits: seq<bit>, i: nat, node: nat, limit: nat)
    requires i < |bits| && node < limit
    ensures Walk(data, bits[i..], node, limit)
            == match ReadNode(data, node, bits[i])
               case Err(e) => Err(e)
               case Ok(child) => Walk(data, bits[i + 1..], child, limit)
  {
    assert bits[i..][0] == bits[i] && bits[i..][1..] == bits[i + 1..];
  }

  /**
   * The node reached from `node` by following the first `k` bits, taking every
   * step whatever the node's value: the reference path that Walk cuts short.
   */
  function NodeAt(data: seq<byte>, bits: seq<bit>, node: nat, k: nat): Result<nat>
    requires k <= |bits|
    decreases k
  {
    if k == 0 then Ok(node)
    else
      match ReadNode(data, node, bits[0])
      case Err(e) => Err(e)
      case Ok(child) => NodeAt(data, bits[1..], child, k - 1)
  }

  /** The first `n` nodes of the full path can be read and lie below `limit`. */
  predicate ReadableBelow(data: seq<byte>, bits: seq<bit>, node: nat, limit: nat, n: nat)
    requires n <= |bits| + 1
  {
    forall j :: 0 <= j < n ==> NodeAt(data, bits, node, j).Ok? && NodeAt(data, bits, node, j).value < limit
  }

  /** Step `k` is where Walk stops: every earlier node is below `limit`, and
      step `k` is the last bit, a failed read, or a node at or above `limit`. */
  predicate StopsAt(data: seq<byte>, bits: seq<bit>, node: nat, limit: nat, k: nat)
    requires k <= |bits|
  {
    && ReadableBelow(data, bits, node, limit, k)
    && (k < |bits| ==> NodeAt(data, bits, node, k).Err? || NodeAt(data, bits, node, k).value >= limit)
  }

  /** Walk returns the node on the full path at the first step where the path
      reaches `limit`, fails to read, or runs out of bits. */
  lemma {:induction false} WalkStopsAtFirstLeaf(data: seq<byte>, bits: seq<bit>, node: nat, limit: nat)
    ensures exists k :: 0 <= k <= |bits| && StopsAt(data, bits, node, limit, k)
                        && Walk(data, bits, node, limit) == NodeAt(data, bits, node, k)
    decreases |bits|
  {
    if |bits| == 0 || node >= limit {
      assert StopsAt(data, bits, node, limit, 0);
    } else {
      match ReadNode(data, node, bits[0])
      case Err(e) =>
        assert NodeAt(data, bits, node, 1) == Err(e);
        assert NodeAt(data, bits, node, 0) == Ok(node);
        assert StopsAt(data, bits, node, limit, 1);
      case Ok(child) =>
        WalkStopsAtFirstLeaf(data, bits[1..], child, limit);
        var k :| 0 <= k <= |bits[1..]| && StopsAt(data, bits[1..], child, limit, k)
                 && Walk(data, bits[1..], child, limit) == NodeAt(data, bits[1..], child, k);
        forall j | 0 <= j <= k
          ensures NodeAt(data, bits, node, j + 1) == NodeAt(data, bits[1..], child, j)
        {
        }
        forall j | 0 <= j < k + 1
          ensures NodeAt(data, bits, node, j).Ok? && NodeAt(data, bits, node, j).value < limit
        {
          if j > 0 {
            assert NodeAt(data, bits[1..], child, j - 1).Ok?;
          }
        }
        assert StopsAt(data, bits, node, limit, k + 1);
    }
  }

  /** The walk ends below `limit` exactly when every node of the full path,
      the last one included, can be read and lies below `limit`. */
  lemma WalkEndsBelowIff(data: seq<byte>, bits: seq<bit>, node: nat, limit: nat)
    ensures Walk(data, bits, node, limit).Ok? && Walk(data, bits, node, limit).value < limit
            <==> ReadableBelow(data, bits, node, limit, |bits| + 1)
  {
    WalkStopsAtFirstLeaf(data, bits, node, limit);
    var k :| 0 <= k <= |bits| && StopsAt(data, bits, node, limit, k)
             && Walk(data, bits, node, limit) == NodeAt(data, bits, node, k);
    if ReadableBelow(data, bits, node, limit, |bits| + 1) {
      assert NodeAt(data, bits, node, k).Ok? && NodeAt(data, bits, node, k).value < limit;
    }
  }

  /** Node `k` of the full path is `v`, at or above `limit`, and it is the first
      such node: every node before it can be read and lies below `limit`. */
  predicate FirstAtOrAbove(data: seq<byte>, bits: seq<bit>, node: nat, limit: nat, k: nat, v: nat)
    requires k <= |bits|
  {
    NodeAt(data, bits, node, k) == Ok(v) && v >= limit && ReadableBelow(data, bits, node, limit, k)
  }

  /** The walk ends at `v` at or above `limit` exactly when `v` is the first node
      of the full path at or above `limit`. */
  lemma WalkReachesIff(data: seq<byte>, bits: seq<bit>, node: nat, limit: nat, v: nat)
    ensures Walk(data, bits, node, limit) == Ok(v) && v >= limit
            <==> exists k :: 0 <= k <= |bits| && FirstAtOrAbove(data, bits, node, limit, k, v)
  {
    WalkStopsAtFirstLeaf(data, bits, node, limit);
    var k :| 0 <= k <= |bits| && StopsAt(data, bits, node, limit, k)
             && Walk(data, bits, node, limit) == NodeAt(data, bits, node, k);
    if Walk(data, bits, node, limit) == Ok(v) && v >= limit {
      assert FirstAtOrAbove(data, bits, node, limit, k, v);
    }
    if exists k' :: 0 <= k' <= |bits| && FirstAtOrAbove(data, bits, node, limit, k', v) {
      var k' :| 0 <= k' <= |bits| && FirstAtOrAbove(data, bits, node, limit, k', v);
      assert NodeAt(data, bits, node, k').Ok? && NodeAt(data, bits, node, k).Ok?;
      assert k == k';
    }
  }

  /** Following `p` then `q` is walking `p` and, unless that stopped at a
      failure, walking `q` from where it ended. */
  lemma {:induction false} WalkAppend(data: seq<byte>, p: seq<bit>, q: seq<bit>, node: nat, limit: nat)
    ensures Walk(data, p + q, node, limit)
            == match Walk(data, p, node, limit)
               case Err(e) => Err(e)
               case Ok(m) => Walk(data, q, m, limit)
    decreases |p|
  {
    if |p| == 0 {
      assert p + q == q;
    } else if node < limit {
      assert (p + q)[0] == p[0] && (p + q)[1..] == p[1..] + q;
      match ReadNode(data, node, p[0])
      case Err(_) =>
      case Ok(child) => WalkAppend(data, p[1..], q, child, limit);
    }
  }

  /** Once the path reaches a node at or above `limit` after the first `k` bits,
      the remaining bits are never read: two bit strings that agree on their
      first `k` bits walk to the same result. */
  lemma {:induction false} LeafIgnoresLaterBits(data: seq<byte>, bits: seq<bit>, other: seq<bit>, node: nat, limit: nat, k: nat)
    requires k <= |bits| && k <= |other| && bits[..k] == other[..k]
    requires NodeAt(data, bits, node, k).Ok? && NodeAt(data, bits, node, k).value >= limit
    ensures Walk(data, bits, node, limit) == Walk(data, other, node, limit)
    decreases k
  {
    if k > 0 && node < limit {
      assert bits[0] == bits[..k][0] == other[0];
      match ReadNode(data, node, bits[0])
      case Ok(child) =>
        assert bits[1..][..k - 1] == bits[..k][1..] == other[..k][1..] == other[1..][..k - 1];
        LeafIgnoresLaterBits(data, bits[1..], other[1..], child, limit, k - 1);
    }
  }

  /** Stopping at `limit` or at `limit + 1` makes no difference while the full
      path never lands exactly on `limit`. */
  lemma {:induction false} WalkLimitsAgree(data: seq<byte>, bits: seq<bit>, node: nat, limit: nat)
    requires forall j :: 0 <= j <= |bits| && NodeAt(data, bits, node, j).Ok? ==> NodeAt(data, bits, node, j).value != limit
    ensures Walk(data, bits, node, limit) == Walk(data, bits, node, limit + 1)
    decreases |bits|
  {
    assert NodeAt(data, bits, node, 0) == Ok(node);
    if |bits| > 0 && node < limit {
      match ReadNode(data, node, bits[0])
      case Err(_) =>
      case Ok(child) =>
        forall j | 0 <= j <= |bits[1..]| && NodeAt(data, bits[1..], child, j).Ok?
          ensures NodeAt(data, bits[1..], child, j).value != limit
        {
          assert NodeAt(data, bits, node, j + 1) == NodeAt(data, bits[1..], child, j);
        }
        WalkLimitsAgree(data, bits[1..], child, limit);
    }
  }

  /**
   * The fixed steps of the IPv4 root precompute: child 0 for steps 0 to 79 and
   * child 1 for steps 80 to 95.
   */
  function V4Path(): (path: seq<bit>)
    ensures |path| == 96
  {
    seq(96, i => if i >= 80 then 1 else 0)
  }

  /** The first 96 bits of an IPv4-mapped IPv6 address, ::ffff:0:0/96. */
  const MappedPrefix: seq<byte> := [0, 0, 0, 0, 0, 0, 0, 0, 0, 0, 0xFF, 0xFF]

  /** The fixed precompute path is exactly the bit string of the IPv4-mapped
      prefix, so the IPv4 root is where every ::ffff:a.b.c.d lookup passes. */
  lemma V4PathIsMappedPrefix()
    ensures AddressBits(MappedPrefix) == V4Path()
  {
    var bits, path := AddressBits(MappedPrefix), V4Path();
    forall i | 0 <= i < 96
      ensures bits[i] == path[i]
    {
      assert path[i] == if i >= 80 then 1 else 0;
      assert bits[i] == BitOf(MappedPrefix[i / 8], i % 8);
      assert MappedPrefix[i / 8] == if i >= 80 then 0xFF else 0;
    }
  }
}
