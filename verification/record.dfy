/**
 * The record side of an IPDB database: translating a leaf value into a
 * length-prefixed record in the data region, splitting the record into its
 * tab-separated columns, and pairing columns with field names.
 */
module Record {
  import opened Bytes
  import opened Outcomes

  /** Where a leaf value's record starts in the post-header buffer: leaf
      values count from the node count, and the trie occupies 8 bytes per node. */
  function LeafOffset(nodeCount: nat, node: nat): (off: nat)
    requires node > nodeCount
    ensures off > 8 * nodeCount
    ensures off - 8 * nodeCount == node - nodeCount
  {
    node - nodeCount + nodeCount * 8
  }

  /**
   * `resolve`: the record a leaf value names. Its offset must lie inside the
   * data, and the record with its 2-byte length prefix must end strictly
   * before the end of the data. The second prefix byte is read unchecked, so a
   * record offset on the very last byte panics.
   */
  function Resolve(data: seq<byte>, nodeCount: nat, node: nat): (r: Result<seq<byte>>)
    requires node > nodeCount
    ensures var off := LeafOffset(nodeCount, node);
            r.Ok? <==> off + 1 < |data| && off + 2 + RecordLength(data[off], data[off + 1]) < |data|
    ensures var off := LeafOffset(nodeCount, node);
            r.Ok? ==> |r.value| == RecordLength(data[off], data[off + 1])
                      && r.value == data[off + 2..off + 2 + |r.value|]
    ensures r.Err? ==> r.error in {ResolveOffset, Panic, ResolveSize}
    ensures LeafOffset(nodeCount, node) >= |data| ==> r == Err(ResolveOffset)
    ensures var off := LeafOffset(nodeCount, node);
            off < |data| && off + 1 >= |data| ==> r == Err(Panic)
    ensures var off := LeafOffset(nodeCount, node);
            off + 1 < |data| && off + 2 + RecordLength(data[off], data[off + 1]) >= |data| ==> r == Err(ResolveSize)
  {
    var resolved := LeafOffset(nodeCount, node);
    if resolved >= |data| then Err(ResolveOffset)
    else if resolved + 1 >= |data| then Err(Panic)
    else
      var size := RecordLength(data[resolved], data[resolved + 1]) + resolved + 2;
      if !(|data| > size) then Err(ResolveSize)
      else Ok(data[resolved + 2..size])
  }

  /** A record as the format stores it: its length in two big-endian bytes,
      then its bytes. */
  function EncodeRecord(rec: seq<byte>): (b: seq<byte>)
    requires |rec| < 0x1_0000
    ensures |b| == |rec| + 2
  {
    EncodeRecordLength(|rec|) + rec
  }

  /**
   * A record stored `|gap|` bytes past the trie is what the leaf value
   * `nodeCount + |gap|` resolves to, provided at least one byte follows it;
   * a record that ends exactly at the end of the buffer is rejected.
   */
  lemma ResolveEncodedRecord(trie: seq<byte>, gap: seq<byte>, rec: seq<byte>, rest: seq<byte>, nodeCount: nat)
    requires |trie| == 8 * nodeCount && |gap| >= 1 && |rec| < 0x1_0000
    ensures Resolve(trie + gap + EncodeRecord(rec) + rest, nodeCount, nodeCount + |gap|)
            == if |rest| > 0 then Ok(rec) else Err(ResolveSize)
  {
    var data := trie + gap + EncodeRecord(rec) + rest;
    var off := LeafOffset(nodeCount, nodeCount + |gap|);
    assert off == |trie| + |gap|;
    var prefix := EncodeRecordLength(|rec|);
    assert data[off] == prefix[0] && data[off + 1] == prefix[1];
    assert data[off + 2..off + 2 + |rec|] == rec;
  }

  /** `str::split('\t')` on the record's bytes: the pieces between separators. */
  function Split(s: seq<byte>, sep: byte): (cols: seq<seq<byte>>)
    ensures |cols| >= 1
    decreases |s|
  {
    if |s| == 0 then [[]]
    else
      var rest := Split(s[1..], sep);
      if s[0] == sep then [[]] + rest
      else [[s[0]] + rest[0]] + rest[1..]
  }

  /** There is one more column than there are separators, and no column holds
      a separator. */
  lemma {:induction false} SplitShape(s: seq<byte>, sep: byte)
    ensures |Split(s, sep)| == multiset(s)[sep] + 1
    ensures forall i :: 0 <= i < |Split(s, sep)| ==> sep !in Split(s, sep)[i]
    decreases |s|
  {
    if |s| > 0 {
      var rest := Split(s[1..], sep);
      SplitShape(s[1..], sep);
      assert s == [s[0]] + s[1..];
      assert multiset(s)[sep] == multiset(s[1..])[sep] + (if s[0] == sep then 1 else 0);
      var cols := Split(s, sep);
      if s[0] == sep {
        assert cols == [[]] + rest;
        forall i | 0 <= i < |cols|
          ensures sep !in cols[i]
        {
          if i > 0 {
            assert cols[i] == rest[i - 1];
          }
        }
      } else {
        assert cols == [[s[0]] + rest[0]] + rest[1..];
        forall i | 0 <= i < |cols|
          ensures sep !in cols[i]
        {
          if i > 0 {
            assert cols[i] == rest[i];
          } else {
            assert sep !in rest[0];
          }
        }
      }
    }
  }

  /** Pieces put back together with the separator between them. */
  function Join(cols: seq<seq<byte>>, sep: byte): seq<byte>
    requires |cols| >= 1
    decreases |cols|
  {
    if |cols| == 1 then cols[0] else cols[0] + [sep] + Join(cols[1..], sep)
  }

  /** Splitting loses nothing: joining the columns gives back the record. */
  lemma {:induction false} JoinSplit(s: seq<byte>, sep: byte)
    ensures Join(Split(s, sep), sep) == s
    decreases |s|
  {
    if |s| > 0 {
      var rest := Split(s[1..], sep);
      JoinSplit(s[1..], sep);
      var c := s[0];
      assert [c] + s[1..] == s;
      if c == sep {
        assert Split(s, sep) == [[]] + rest;
        JoinCons([], rest, sep);
        assert [] + [sep] + s[1..] == s;
      } else {
        assert Split(s, sep) == [[c] + rest[0]] + rest[1..];
        JoinExtendFirst([c], rest, sep);
      }
    }
  }

  lemma JoinCons(c: seq<byte>, cols: seq<seq<byte>>, sep: byte)
    requires |cols| >= 1
    ensures Join([c] + cols, sep) == c + [sep] + Join(cols, sep)
  {
    assert ([c] + cols)[1..] == cols;
  }

  /** Gluing `x` to the front of the first column puts it in front of the join. */
  lemma JoinExtendFirst(x: seq<byte>, cols: seq<seq<byte>>, sep: byte)
    requires |cols| >= 1
    ensures Join([x + cols[0]] + cols[1..], sep) == x + Join(cols, sep)
  {
    if |cols| > 1 {
      JoinCons(x + cols[0], cols[1..], sep);
      assert cols == [cols[0]] + cols[1..];
      JoinCons(cols[0], cols[1..], sep);
    }
  }

  /** A first piece free of the separator stays glued to whatever follows it. */
  lemma {:induction false} SplitPrefix(c: seq<byte>, t: seq<byte>, sep: byte)
    requires sep !in c
    ensures Split(c + t, sep) == [c + Split(t, sep)[0]] + Split(t, sep)[1..]
    decreases |c|
  {
    if |c| == 0 {
      var cols := Split(t, sep);
      assert c + t == t && c + cols[0] == cols[0];
      assert [cols[0]] + cols[1..] == cols;
    } else {
      assert (c + t)[0] == c[0] && (c + t)[1..] == c[1..] + t;
      SplitPrefix(c[1..], t, sep);
      assert [c[0]] + (c[1..] + Split(t, sep)[0]) == c + Split(t, sep)[0];
    }
  }

  /** Columns free of the separator survive a join and a split unchanged. */
  lemma {:induction false} SplitJoin(cols: seq<seq<byte>>, sep: byte)
    requires |cols| >= 1
    requires forall i :: 0 <= i < |cols| ==> sep !in cols[i]
    ensures Split(Join(cols, sep), sep) == cols
    decreases |cols|
  {
    var c := cols[0];
    assert sep !in c;
    if |cols| == 1 {
      SplitPrefix(c, [], sep);
      assert c + [] == c;
    } else {
      var rest := cols[1..];
      assert forall i :: 0 <= i < |rest| ==> sep !in rest[i] by {
        forall i | 0 <= i < |rest| ensures sep !in rest[i] {
          assert rest[i] == cols[i + 1];
        }
      }
      SplitJoin(rest, sep);
      SplitAfterPiece(c, Join(rest, sep), rest, sep);
      assert [c] + rest == cols;
    }
  }

  /** One more separator-free piece in front of a joined string adds one column. */
  lemma SplitAfterPiece(c: seq<byte>, t: seq<byte>, rest: seq<seq<byte>>, sep: byte)
    requires sep !in c && Split(t, sep) == rest
    ensures Split(c + [sep] + t, sep) == [c] + rest
  {
    var u := [sep] + t;
    SplitSeparatorFirst(t, sep);
    assert Split(u, sep)[0] == [] && Split(u, sep)[1..] == rest;
    SplitPrefix(c, u, sep);
    assert c + [sep] + t == c + u;
    assert c + [] == c;
  }

  lemma SplitSeparatorFirst(t: seq<byte>, sep: byte)
    ensures Split([sep] + t, sep) == [[]] + Split(t, sep)
  {
    var u := [sep] + t;
    assert u[0] == sep && u[1..] == t;
  }

  /** `cols` are the columns of `all` from position `off` on: none when `off` is
      at least the column count. */
  predicate ColumnsFrom(cols: seq<seq<byte>>, all: seq<seq<byte>>, off: nat)
  {
    && |cols| == (if off < |all| then |all| - off else 0)
    && forall j :: 0 <= j < |cols| ==> cols[j] == all[off + j]
  }

  /** Iterator `skip(n)`: the columns after the first `n`, none if there are fewer. */
  function Skip(cols: seq<seq<byte>>, n: nat): (rest: seq<seq<byte>>)
    ensures ColumnsFrom(rest, cols, n)
  {
    if n < |cols| then cols[n..] else []
  }

  function Min(a: nat, b: nat): nat
  {
    if a < b then a else b
  }

  /**
   * `BTreeMap::from_iter(fields.zip(values))`: the pairs of the zip, which
   * stops at the shorter sequence, inserted in order, so a repeated field
   * name keeps the value of its last position.
   */
  function ZippedMap(fields: seq<string>, values: seq<seq<byte>>): (m: map<string, seq<byte>>)
    ensures Min(|fields|, |values|) > 0 ==>
              var n := Min(|fields|, |values|); fields[n - 1] in m && m[fields[n - 1]] == values[n - 1]
    decreases |fields|
  {
    var n := Min(|fields|, |values|);
    if n == 0 then map[]
    else ZippedMap(fields[..n - 1], values[..n - 1])[fields[n - 1] := values[n - 1]]
  }

  /** `retain(|_, v| !v.is_empty())`: the entries whose value is not empty. */
  function RetainNonEmpty(m: map<string, seq<byte>>): (kept: map<string, seq<byte>>)
    ensures forall k :: k in kept ==> k in m && kept[k] == m[k] && kept[k] != []
    ensures forall k :: k in m && m[k] != [] ==> k in kept
  {
    map k | k in m && m[k] != [] :: m[k]
  }

  /** The map `find_to_map` returns for the columns `values`. */
  function FieldMap(fields: seq<string>, values: seq<seq<byte>>): map<string, seq<byte>>
  {
    RetainNonEmpty(ZippedMap(fields, values))
  }

  /** No later position among the first `n` repeats the field name at `i`. */
  predicate LastAt(fields: seq<string>, i: nat, n: nat)
    requires i < n <= |fields|
  {
    forall j :: i < j < n ==> fields[j] != fields[i]
  }

  /** The zipped map has a key for each of the first `n` field names and
      holds, for each, the value at its last position. */
  lemma ZippedMapContents(fields: seq<string>, values: seq<seq<byte>>)
    ensures var m, n := ZippedMap(fields, values), Min(|fields|, |values|);
            && (forall k :: k in m <==> k in fields[..n])
            && (forall i :: 0 <= i < n && LastAt(fields, i, n) ==> m[fields[i]] == values[i])
  {
    ZippedMapKeys(fields, values);
    ZippedMapLastWins(fields, values);
  }

  /** The keys of the zipped map are the first `n` field names. */
  lemma {:induction false} ZippedMapKeys(fields: seq<string>, values: seq<seq<byte>>)
    ensures forall k :: k in ZippedMap(fields, values) <==> k in fields[..Min(|fields|, |values|)]
    decreases |fields|
  {
    var n := Min(|fields|, |values|);
    if n > 0 {
      var f, v := fields[..n - 1], values[..n - 1];
      ZippedMapKeys(f, v);
      assert Min(|f|, |v|) == n - 1;
      assert f[..n - 1] == f;
      assert fields[..n] == f + [fields[n - 1]];
    }
  }

  /** A field name at its last zipped position maps to the value there. */
  lemma {:induction false} ZippedMapLastWins(fields: seq<string>, values: seq<seq<byte>>)
    ensures var m, n := ZippedMap(fields, values), Min(|fields|, |values|);
            forall i :: 0 <= i < n && LastAt(fields, i, n) ==> fields[i] in m && m[fields[i]] == values[i]
    decreases |fields|
  {
    var m, n := ZippedMap(fields, values), Min(|fields|, |values|);
    if n > 0 {
      var f, v := fields[..n - 1], values[..n - 1];
      ZippedMapLastWins(f, v);
      assert Min(|f|, |v|) == n - 1;
      forall i | 0 <= i < n && LastAt(fields, i, n)
        ensures fields[i] in m && m[fields[i]] == values[i]
      {
        if i < n - 1 {
          assert fields[n - 1] != fields[i];
          assert LastAt(f, i, n - 1);
        }
      }
    }
  }

  /**
   * The map `find_to_map` returns: every key is one of the zipped field names
   * and no value is empty; the field name at its last zipped position `i` is
   * absent when column `i` is empty and maps to column `i` otherwise.
   */
  lemma FieldMapContents(fields: seq<string>, values: seq<seq<byte>>)
    ensures var m, n := FieldMap(fields, values), Min(|fields|, |values|);
            && (forall k :: k in m ==> k in fields[..n] && m[k] != [])
            && (forall i :: 0 <= i < n && LastAt(fields, i, n) ==>
                  if values[i] == [] then fields[i] !in m
                  else fields[i] in m && m[fields[i]] == values[i])
  {
    ZippedMapContents(fields, values);
  }
}
