/**
 * What a lookup means, stated against the full descent path of an address:
 * which node `find_node` answers with, when it reports "not found", how IPv4
 * lookups relate to the IPv4-mapped IPv6 addresses, and what a small
 * hand-built database answers.
 */
module Lookup {
  import opened Bytes
  import opened Outcomes
  import opened Trie
  import opened Record
  import opened Ipdb

  /** "not found ip" exactly when all `8 * |octets| + 1` nodes of the full path
      (NodeAt, which takes every step) can be read and none of them exceeds the
      node count. */
  lemma NotFoundIff(r: Reader, octets: seq<byte>)
    ensures NodeFor(r, octets) == Err(NotFound) <==>
            ReadableBelow(r.data, AddressBits(octets), StartNode(r, octets), r.metadata.nodeCount + 1, 8 * |octets| + 1)
  {
    WalkEndsBelowIff(r.data, AddressBits(octets), StartNode(r, octets), r.metadata.nodeCount + 1);
  }

  /** Step `k` of the full path of `octets` from its start node is `v`, the
      first node on that path that exceeds the node count; every node before it
      can be read. */
  predicate FirstLeafAt(r: Reader, octets: seq<byte>, k: nat, v: nat)
    requires k <= 8 * |octets|
  {
    FirstAtOrAbove(r.data, AddressBits(octets), StartNode(r, octets), r.metadata.nodeCount + 1, k, v)
  }

  /** `find_node` answers `v` exactly when `v` is the first node on the full path
      that exceeds the node count, every node before it being readable. */
  lemma FoundIff(r: Reader, octets: seq<byte>, v: nat)
    ensures NodeFor(r, octets) == Ok(v) <==> exists k :: 0 <= k <= 8 * |octets| && FirstLeafAt(r, octets, k, v)
  {
    var bits, start, limit := AddressBits(octets), StartNode(r, octets), r.metadata.nodeCount + 1;
    assert NodeFor(r, octets) == Ok(v) <==> Walk(r.data, bits, start, limit) == Ok(v) && v >= limit;
    WalkReachesIff(r.data, bits, start, limit, v);
    if NodeFor(r, octets) == Ok(v) {
      var k :| 0 <= k <= |bits| && FirstAtOrAbove(r.data, bits, start, limit, k, v);
      assert FirstLeafAt(r, octets, k, v);
    }
    if exists k :: 0 <= k <= 8 * |octets| && FirstLeafAt(r, octets, k, v) {
      var k :| 0 <= k <= 8 * |octets| && FirstLeafAt(r, octets, k, v);
      assert FirstAtOrAbove(r.data, bits, start, limit, k, v);
    }
  }

  /** Once the path of `a` reaches a leaf after `k` bits, any address of the same
      length that shares those `k` bits gets the same answer. */
  lemma SharedPrefixSameNode(r: Reader, a: seq<byte>, b: seq<byte>, k: nat)
    requires |a| == |b| && k <= 8 * |a|
    requires AddressBits(a)[..k] == AddressBits(b)[..k]
    requires NodeAt(r.data, AddressBits(a), StartNode(r, a), k).Ok?
             && NodeAt(r.data, AddressBits(a), StartNode(r, a), k).value > r.metadata.nodeCount
    ensures NodeFor(r, a) == NodeFor(r, b)
  {
    LeafIgnoresLaterBits(r.data, AddressBits(a), AddressBits(b), StartNode(r, a), r.metadata.nodeCount + 1, k);
    SameWalkSameNode(r, a, b);
  }

  lemma SameWalkSameNode(r: Reader, a: seq<byte>, b: seq<byte>)
    requires |a| == |b|
    requires Walk(r.data, AddressBits(a), StartNode(r, a), r.metadata.nodeCount + 1)
             == Walk(r.data, AddressBits(b), StartNode(r, a), r.metadata.nodeCount + 1)
    ensures NodeFor(r, a) == NodeFor(r, b)
  {
    assert StartNode(r, b) == StartNode(r, a);
  }

  /**
   * An IPv4 lookup answers what the lookup of the IPv4-mapped IPv6 address
   * ::ffff:a.b.c.d answers, provided no node on the precompute path equals the
   * node count (the precompute stops at such a node, the walker does not).
   */
  lemma MappedIpv4Lookup(r: Reader, a: Octets4)
    requires RootPrecomputed(r)
    requires forall j :: 0 <= j <= 96 && NodeAt(r.data, V4Path(), 0, j).Ok? ==>
               NodeAt(r.data, V4Path(), 0, j).value != r.metadata.nodeCount
    ensures NodeFor(r, a) == NodeFor(r, MappedPrefix + a)
  {
    var limit := r.metadata.nodeCount + 1;
    assert Walk(r.data, V4Path(), 0, limit) == Ok(r.v4offset) by {
      WalkLimitsAgree(r.data, V4Path(), 0, r.metadata.nodeCount);
    }
    assert Walk(r.data, AddressBits(MappedPrefix + a), 0, limit) == Walk(r.data, AddressBits(a), r.v4offset, limit) by {
      MappedWalk(r.data, a, limit, r.v4offset);
    }
    assert StartNode(r, MappedPrefix + a) == 0 && StartNode(r, a) == r.v4offset;
  }

  /** Walking the bits of ::ffff:a.b.c.d from node 0 is walking the 96 prefix
      bits and then the bits of a.b.c.d. */
  lemma MappedWalk(data: seq<byte>, a: Octets4, limit: nat, root: nat)
    requires Walk(data, V4Path(), 0, limit) == Ok(root)
    ensures Walk(data, AddressBits(MappedPrefix + a), 0, limit) == Walk(data, AddressBits(a), root, limit)
  {
    V4PathIsMappedPrefix();
    AddressBitsAppend(MappedPrefix, a);
    WalkAppend(data, V4Path(), AddressBits(a), 0, limit);
  }

  /** Two trie nodes: node 0 with both children 1, node 1 with children 5 and 6. */
  function TwoNodeData(): seq<byte>
  {
    EncodeNode(1, 1) + EncodeNode(5, 6)
  }

  lemma TwoNodeChildren()
    ensures ReadNode(TwoNodeData(), 0, 0) == Ok(1) && ReadNode(TwoNodeData(), 0, 1) == Ok(1)
    ensures ReadNode(TwoNodeData(), 1, 0) == Ok(5) && ReadNode(TwoNodeData(), 1, 1) == Ok(6)
  {
    var data := TwoNodeData();
    assert data[0..8] == EncodeNode(1, 1);
    assert data[8..16] == EncodeNode(5, 6);
    ReadEncodedNode(data, 0, 1, 1);
    ReadEncodedNode(data, 1, 5, 6);
  }

  lemma TwoNodeRoot()
    ensures Walk(TwoNodeData(), V4Path(), 0, 1) == Ok(1)
  {
    TwoNodeChildren();
    var path := V4Path();
    assert path[0] == 0;
    assert Walk(TwoNodeData(), path[1..], 1, 1) == Ok(1);
  }

  lemma TwoNodeV4()
    ensures Walk(TwoNodeData(), AddressBits([128, 0, 0, 0]), 1, 2) == Ok(6)
  {
    TwoNodeChildren();
    var bits := AddressBits([128, 0, 0, 0]);
    assert bits[0] == BitOf(128, 0) == 1;
    assert Walk(TwoNodeData(), bits[1..], 6, 2) == Ok(6);
  }

  lemma TwoNodeMapped()
    ensures Walk(TwoNodeData(), AddressBits(MappedPrefix + [128, 0, 0, 0]), 0, 2) == Ok(5)
  {
    TwoNodeChildren();
    var path := V4Path();
    assert path[0] == 0 && path[1..][0] == 0;
    assert Walk(TwoNodeData(), path[1..][1..], 5, 2) == Ok(5);
    assert Walk(TwoNodeData(), path[1..], 1, 2) == Ok(5);
    MappedWalk(TwoNodeData(), [128, 0, 0, 0], 2, 5);
  }

  /**
   * Without that proviso the two lookups can differ: here node 0's child 0 is
   * exactly the node count 1, so the precompute stops at node 1 after one
   * step, while the IPv6 walk reads node 1 with the second address bit.
   */
  lemma RootOnNodeCountSplitsLookups()
    ensures var r := Reader(TwoNodeData(), Metadata(0, 3, 1, map[], [], 0), 1);
            && RootPrecomputed(r)
            && NodeFor(r, [128, 0, 0, 0]) == Ok(6)
            && NodeFor(r, MappedPrefix + [128, 0, 0, 0]) == Ok(5)
  {
    TwoNodeRoot();
    TwoNodeV4();
    TwoNodeMapped();
  }

  /** The database with one trie node whose children are leaf values to two
      records `rec0` and `rec1`, stored after one padding byte. */
  function OneNodeData(rec0: seq<byte>, rec1: seq<byte>): seq<byte>
    requires |rec0| < 0x1_0000 && |rec1| < 0x1_0000
  {
    EncodeNode(2, 4 + |rec0|) + [0] + EncodeRecord(rec0) + EncodeRecord(rec1) + [0]
  }

  lemma OneNodeChildren(rec0: seq<byte>, rec1: seq<byte>)
    requires |rec0| < 0x1_0000 && |rec1| < 0x1_0000
    ensures ReadNode(OneNodeData(rec0, rec1), 0, 0) == Ok(2)
    ensures ReadNode(OneNodeData(rec0, rec1), 0, 1) == Ok(4 + |rec0|)
  {
    var data := OneNodeData(rec0, rec1);
    assert data[0..8] == EncodeNode(2, 4 + |rec0|);
    ReadEncodedNode(data, 0, 2, 4 + |rec0|);
  }

  lemma OneNodeRecords(rec0: seq<byte>, rec1: seq<byte>)
    requires |rec0| < 0x1_0000 && |rec1| < 0x1_0000
    ensures Resolve(OneNodeData(rec0, rec1), 1, 2) == Ok(rec0)
    ensures Resolve(OneNodeData(rec0, rec1), 1, 4 + |rec0|) == Ok(rec1)
  {
    var trie := EncodeNode(2, 4 + |rec0|);
    var data := OneNodeData(rec0, rec1);
    assert data == trie + [0] + EncodeRecord(rec0) + (EncodeRecord(rec1) + [0]);
    ResolveEncodedRecord(trie, [0], rec0, EncodeRecord(rec1) + [0], 1);
    assert data == trie + ([0] + EncodeRecord(rec0)) + EncodeRecord(rec1) + [0];
    ResolveEncodedRecord(trie, [0] + EncodeRecord(rec0), rec1, [0], 1);
  }

  lemma OneNodeRoot(rec0: seq<byte>, rec1: seq<byte>)
    requires |rec0| < 0x1_0000 && |rec1| < 0x1_0000
    ensures Walk(OneNodeData(rec0, rec1), V4Path(), 0, 1) == Ok(2)
  {
    OneNodeChildren(rec0, rec1);
    var path := V4Path();
    assert path[0] == 0;
    assert Walk(OneNodeData(rec0, rec1), path[1..], 2, 1) == Ok(2);
  }

  lemma OneNodeV6(rec0: seq<byte>, rec1: seq<byte>, a: Octets16)
    requires |rec0| < 0x1_0000 && |rec1| < 0x1_0000
    ensures Walk(OneNodeData(rec0, rec1), AddressBits(a), 0, 2)
            == Ok(if a[0] < 128 then 2 else 4 + |rec0|)
  {
    OneNodeChildren(rec0, rec1);
    var bits := AddressBits(a);
    var leaf := if a[0] < 128 then 2 else 4 + |rec0|;
    assert bits[0] == BitOf(a[0], 0);
    assert Walk(OneNodeData(rec0, rec1), bits[1..], leaf, 2) == Ok(leaf);
  }

  /**
   * In that database every IPv6 address whose first octet is below 128 finds
   * `rec0` and every other one finds `rec1`; the IPv4 root is already the first leaf, so
   * every IPv4 address finds `rec0`.
   */
  lemma OneNodeLookups(rec0: seq<byte>, rec1: seq<byte>, m: Metadata, language: string, a: Octets16, b: Octets4)
    requires |rec0| < 0x1_0000 && |rec1| < 0x1_0000
    requires m.nodeCount == 1 && m.fields != [] && language in m.languages
    requires m.ipVersion & 0x01 == 0x01 && m.ipVersion & 0x02 == 0x02
    ensures RootPrecomputed(Reader(OneNodeData(rec0, rec1), m, 2))
    ensures Find(Reader(OneNodeData(rec0, rec1), m, 2), V6(a), language)
            == Ok(Skip(Split(if a[0] < 128 then rec0 else rec1, Tab), m.languages[language]))
    ensures Find(Reader(OneNodeData(rec0, rec1), m, 2), V4(b), language)
            == Ok(Skip(Split(rec0, Tab), m.languages[language]))
  {
    var r := Reader(OneNodeData(rec0, rec1), m, 2);
    OneNodeRoot(rec0, rec1);
    OneNodeRecords(rec0, rec1);
    OneNodeV6(rec0, rec1, a);
    assert NodeFor(r, a) == Ok(if a[0] < 128 then 2 else 4 + |rec0|);
    assert Walk(r.data, AddressBits(b), 2, 2) == Ok(2);
    assert NodeFor(r, b) == Ok(2);
  }
}
