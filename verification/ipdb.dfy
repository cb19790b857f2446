/**
 * The IPDB reader: opening a database buffer (header, size check and the
 * IPv4 root precompute), walking the trie for an address, and projecting the
 * record it finds onto a language's columns and the metadata's field names.
 * A Reader never changes after it is opened.
 */
module Ipdb {
  import opened Bytes
  import opened Outcomes
  import opened Trie
  import opened Record

  /** The header's metadata, as the JSON decoder delivers it. `usize` fields are
      unbounded naturals; `ipVersion` is the bit pattern of the `i32`. */
  datatype Metadata = Metadata(
    build: int,
    ipVersion: bv32,
    nodeCount: nat,
    languages: map<string, nat>,
    fields: seq<string>,
    totalSize: nat)

  /** An opened database: the buffer after the header, the metadata, and the
      node where IPv4 lookups start. */
  datatype Reader = Reader(data: seq<byte>, metadata: Metadata, v4offset: nat)

  type Octets4 = s: seq<byte> | |s| == 4 witness [0, 0, 0, 0]

  type Octets16 = s: seq<byte> | |s| == 16 witness [0, 0, 0, 0, 0, 0, 0, 0, 0, 0, 0, 0, 0, 0, 0, 0]

  /** A parsed address, as `IpAddr` hands it over: four or sixteen octets. */
  datatype IpAddr = V4(v4: Octets4) | V6(v6: Octets16)
  {
    function Octets(): seq<byte>
    {
      match this
      case V4(a) => a
      case V6(a) => a
    }
  }

  /** `is_ipv4`: bit 0 of `ip_version`. */
  predicate IsIpv4(r: Reader)
  {
    r.metadata.ipVersion & 0x01 == 0x01
  }

  /** `is_ipv6`: bit 1 of `ip_version`. */
  predicate IsIpv6(r: Reader)
  {
    r.metadata.ipVersion & 0x02 == 0x02
  }

  /** The IPv4 root of `r` is the end of the fixed 96-step descent from node 0,
      which stops as soon as the node is at least the node count. */
  predicate RootPrecomputed(r: Reader)
  {
    Walk(r.data, V4Path(), 0, r.metadata.nodeCount) == Ok(r.v4offset)
  }

  /** The length of the header: the 4-byte metadata length prefix plus the
      metadata length it states. */
  function HeaderLength(buffer: seq<byte>): (n: nat)
    requires |buffer| >= 4
    ensures n >= 4
  {
    BigEndian32(buffer[..4]) + 4
  }

  /**
   * `Reader::new`. The first four bytes give the metadata length `L`; the
   * metadata occupies bytes 4 to `4 + L` and is decoded by `decodeMeta` (the
   * JSON decoder); the declared total size plus `4 + L` must be the buffer
   * length; the data region is everything after the header, and the IPv4
   * root is precomputed from it.
   */
  method Open(buffer: seq<byte>, decodeMeta: seq<byte> -> Option<Metadata>) returns (res: Result<Reader>)
    ensures |buffer| < 4 ==> res == Err(Panic)
    ensures |buffer| >= 4 && HeaderLength(buffer) > |buffer| ==> res == Err(Panic)
    ensures |buffer| >= 4 && HeaderLength(buffer) <= |buffer| && decodeMeta(buffer[4..HeaderLength(buffer)]).None? ==>
              res == Err(MetadataInvalid)
    ensures |buffer| >= 4 && HeaderLength(buffer) <= |buffer| && decodeMeta(buffer[4..HeaderLength(buffer)]).Some?
            && decodeMeta(buffer[4..HeaderLength(buffer)]).value.totalSize + HeaderLength(buffer) != |buffer| ==>
              res == Err(FileSizeMismatch)
    ensures res.Ok? <==>
              && |buffer| >= 4 && HeaderLength(buffer) <= |buffer|
              && decodeMeta(buffer[4..HeaderLength(buffer)]).Some?
              && decodeMeta(buffer[4..HeaderLength(buffer)]).value.totalSize + HeaderLength(buffer) == |buffer|
              && Walk(buffer[HeaderLength(buffer)..], V4Path(), 0, decodeMeta(buffer[4..HeaderLength(buffer)]).value.nodeCount).Ok?
    ensures |buffer| >= 4 && HeaderLength(buffer) <= |buffer| && decodeMeta(buffer[4..HeaderLength(buffer)]).Some?
            && decodeMeta(buffer[4..HeaderLength(buffer)]).value.totalSize + HeaderLength(buffer) == |buffer|
            && !Walk(buffer[HeaderLength(buffer)..], V4Path(), 0, decodeMeta(buffer[4..HeaderLength(buffer)]).value.nodeCount).Ok? ==>
              res == Err(Panic)
    ensures res.Err? ==> res.error in {Panic, MetadataInvalid, FileSizeMismatch}
    ensures res.Ok? ==>
              && Some(res.value.metadata) == decodeMeta(buffer[4..HeaderLength(buffer)])
              && res.value.data == buffer[HeaderLength(buffer)..]
              && RootPrecomputed(res.value)
  {
    if |buffer| < 4 {
      return Err(Panic);
    }
    var metaLen := HeaderLength(buffer);
    if metaLen > |buffer| {
      return Err(Panic);
    }
    var decoded := decodeMeta(buffer[4..metaLen]);
    if decoded.None? {
      return Err(MetadataInvalid);
    }
    var metadata := decoded.value;
    if metadata.totalSize + metaLen != |buffer| {
      return Err(FileSizeMismatch);
    }
    var data := buffer[metaLen..];
    var node: nat := 0;
    for i := 0 to 96
      invariant Walk(data, V4Path(), 0, metadata.nodeCount) == Walk(data, V4Path()[i..], node, metadata.nodeCount)
    {
      if node >= metadata.nodeCount {
        break;
      }
      WalkStep(data, V4Path(), i, node, metadata.nodeCount);
      var child;
      if i >= 80 {
        child := ReadNode(data, node, 1);
      } else {
        child := ReadNode(data, node, 0);
      }
      if child.Err? {
        return Err(child.error);
      }
      node := child.value;
    }
    return Ok(Reader(data, metadata, node));
  }

  /** The node `find_node` starts from: the IPv4 root for a 32-bit address,
      node 0 otherwise. */
  function StartNode(r: Reader, octets: seq<byte>): (start: nat)
    ensures |octets| == 4 ==> start == r.v4offset
    ensures |octets| != 4 ==> start == 0
  {
    if |octets| * 8 == 32 then r.v4offset else 0
  }

  /** What `find_node` computes: walk the address bits from the start node,
      stopping before a step at any node above the node count; a walk that
      ends at or below the node count has found no leaf. */
  function NodeFor(r: Reader, octets: seq<byte>): (res: Result<nat>)
    ensures res.Ok? ==> res.value > r.metadata.nodeCount
    ensures res.Err? ==> res.error == Panic || res.error == NotFound
  {
    Verdict(Walk(r.data, AddressBits(octets), StartNode(r, octets), r.metadata.nodeCount + 1), r.metadata.nodeCount)
  }

  /** The answer for where a walk ended: a leaf value, or "not found" at a
      node that does not exceed the node count. */
  function Verdict(walk: Result<nat>, nodeCount: nat): (res: Result<nat>)
    ensures res.Ok? <==> walk.Ok? && walk.value > nodeCount
    ensures res.Ok? ==> res == walk
    ensures walk.Err? ==> res == walk
    ensures walk.Ok? && walk.value <= nodeCount ==> res == Err(NotFound)
  {
    match walk
    case Err(e) => Err(e)
    case Ok(node) => if node > nodeCount then Ok(node) else Err(NotFound)
  }

  /** `find_node`: one trie step per address bit, most significant bit first. */
  method FindNode(r: Reader, binary: seq<byte>) returns (res: Result<nat>)
    ensures res == NodeFor(r, binary)
  {
    var node: nat := 0;
    var bit := |binary| * 8;
    if bit == 32 {
      node := r.v4offset;
    }
    ghost var bits := AddressBits(binary);
    ghost var limit := r.metadata.nodeCount + 1;
    assert bits[0..] == bits;
    for i := 0 to bit
      invariant NodeFor(r, binary) == Verdict(Walk(r.data, bits[i..], node, limit), r.metadata.nodeCount)
    {
      if node > r.metadata.nodeCount {
        return Ok(node);
      }
      WalkStep(r.data, bits, i, node, limit);
      assert bits[i] == BitOf(binary[i / 8], i % 8);
      var child := ReadNode(r.data, node, BitOf(binary[i / 8], i % 8));
      if child.Err? {
        return Err(child.error);
      }
      node := child.value;
    }
    if node > r.metadata.nodeCount {
      return Ok(node);
    } else {
      return Err(NotFound);
    }
  }

  /** The capability bit of `ip_version` for the address's family. */
  function FamilySupported(r: Reader, addr: IpAddr): (supported: bool)
    ensures supported <==> r.metadata.ipVersion & (if addr.V4? then 0x01 else 0x02) != 0
  {
    if addr.V4? then IsIpv4(r) else IsIpv6(r)
  }

  /**
   * `find`: the record's columns from the language's offset on. The checks on
   * the field list, the language and the address family come first and do not
   * look at the data; the trie walk and the record read follow.
   */
  function Find(r: Reader, addr: IpAddr, language: string): (res: Result<seq<seq<byte>>>)
    ensures r.metadata.fields == [] ==> res == Err(FieldsEmpty)
    ensures r.metadata.fields != [] && language !in r.metadata.languages ==> res == Err(UnknownLanguage)
    ensures r.metadata.fields != [] && language in r.metadata.languages && !FamilySupported(r, addr) ==>
              res == Err(if addr.V4? then Ipv4Unsupported else Ipv6Unsupported)
    ensures res.Ok? <==>
              && r.metadata.fields != [] && language in r.metadata.languages && FamilySupported(r, addr)
              && NodeFor(r, addr.Octets()).Ok?
              && Resolve(r.data, r.metadata.nodeCount, NodeFor(r, addr.Octets()).value).Ok?
    ensures r.metadata.fields != [] && language in r.metadata.languages && FamilySupported(r, addr)
            && NodeFor(r, addr.Octets()).Err? ==>
              res == Err(NodeFor(r, addr.Octets()).error)
    ensures r.metadata.fields != [] && language in r.metadata.languages && FamilySupported(r, addr)
            && NodeFor(r, addr.Octets()).Ok? && Resolve(r.data, r.metadata.nodeCount, NodeFor(r, addr.Octets()).value).Err? ==>
              res == Err(Resolve(r.data, r.metadata.nodeCount, NodeFor(r, addr.Octets()).value).error)
    ensures res.Ok? ==>
              ColumnsFrom(res.value,
                          Split(Resolve(r.data, r.metadata.nodeCount, NodeFor(r, addr.Octets()).value).value, Tab),
                          r.metadata.languages[language])
  {
    if |r.metadata.fields| == 0 then Err(FieldsEmpty)
    else if language !in r.metadata.languages then Err(UnknownLanguage)
    else
      var off := r.metadata.languages[language];
      var node :- match addr
        case V4(a) => if !IsIpv4(r) then Err(Ipv4Unsupported) else NodeFor(r, a)
        case V6(a) => if !IsIpv6(r) then Err(Ipv6Unsupported) else NodeFor(r, a);
      var context :- Resolve(r.data, r.metadata.nodeCount, node);
      Ok(Skip(Split(context, Tab), off))
  }

  /** `find_to_map`: the columns `find` returns, zipped with the field names into
      a map (a repeated name keeps its last value), without the empty values. */
  method FindToMap(r: Reader, addr: IpAddr, language: string) returns (res: Result<map<string, seq<byte>>>)
    ensures Find(r, addr, language).Err? ==> res == Err(Find(r, addr, language).error)
    ensures Find(r, addr, language).Ok? ==> res == Ok(FieldMap(r.metadata.fields, Find(r, addr, language).value))
  {
    var found := Find(r, addr, language);
    if found.Err? {
      return Err(found.error);
    }
    var values := found.value;
    var m := CollectPairs(r.metadata.fields, values);
    m := map k | k in m && m[k] != [] :: m[k];
    assert m == FieldMap(r.metadata.fields, values);
    return Ok(m);
  }

  /** `BTreeMap::from_iter(fields.zip(values))`: insert the zipped pairs in order. */
  method CollectPairs(fields: seq<string>, values: seq<seq<byte>>) returns (m: map<string, seq<byte>>)
    ensures m == ZippedMap(fields, values)
  {
    var n := Min(|fields|, |values|);
    m := map[];
    for i := 0 to n
      invariant m == ZippedMap(fields[..i], values[..i])
    {
      assert fields[..i + 1][..i] == fields[..i] && values[..i + 1][..i] == values[..i];
      m := m[fields[i] := values[i]];
    }
    assert ZippedMap(fields[..n], values[..n]) == ZippedMap(fields, values) by {
      if n > 0 {
        assert fields[..n][..n - 1] == fields[..n - 1] && values[..n][..n - 1] == values[..n - 1];
      }
    }
  }
}
