# IPDB decoder model

A Dafny model of the database decoder of `ipdb-server`, the part that turns an
IPDB file image into answers for IP addresses (`src/ipdb.rs`).

An IPDB file is a 4-byte big-endian metadata length, a JSON metadata block,
and a data region. The data region starts with a binary trie of 8-byte nodes.
Each node holds two big-endian `u32` children. A child greater than the node
count is a leaf value into the records that follow the trie. A record is a
2-byte big-endian length followed by tab-separated columns. A language's
columns start at the offset that the metadata's `languages` map gives it.

The model follows the source function by function:

- `Ipdb.Open` is `Reader::new`. It reads the header length and decodes the
  metadata through a caller-supplied decoder. It checks the declared total
  size, then precomputes the IPv4 root with the source's loop: 96 fixed steps,
  child 0 for the first 80 and child 1 for the last 16, stopping once the node
  is at least the node count.
- `Trie.ReadNode` is `read_node`.
- `Ipdb.FindNode` is `find_node`, a loop over the address bits. It is proved
  equal to the function `Ipdb.NodeFor`.
- `Record.Resolve` is `resolve`.
- `Ipdb.Find` is `find`.
- `Ipdb.FindToMap` is `find_to_map`. `Ipdb.CollectPairs` is its
  `BTreeMap::from_iter` loop.
- `Ipdb.IsIpv4` and `Ipdb.IsIpv6` are `is_ipv4` and `is_ipv6`. They read the
  `i32` `ip_version` as a 32-bit bit pattern.

A `Reader` never changes after it is built, so readers, addresses and results
are datatypes. The two loops of the source, the root precompute and
`find_node`, are methods. Each is proved against a function:

- The root precompute and `find_node` share one descent function, `Trie.Walk`.
  Its bound argument makes the source's two stop rules explicit. The
  precompute stops at a node that is at least the node count. `find_node`
  stops only at a node that exceeds it.
- `Trie.NodeAt` is the full path that takes every step. `Walk` is proved to
  stop at the first node of that path that reaches the bound. This gives the
  "found" and "not found" characterisations in `Lookup`.

Panics are values. Every slice or index the source would take out of bounds
gives the result `Err(Panic)` instead of a precondition:

- a buffer shorter than 4 bytes;
- a header length larger than the buffer;
- a trie node read past the end;
- a record offset on the last byte of the data.

The other failures are the source's `anyhow` errors, one constructor each, in
the order the source checks them.

Three details of the code that the model keeps as written:

- The root precompute stops when the node is at least the node count, not only
  when it exceeds it. `Lookup.RootOnNodeCountSplitsLookups` shows that this
  changes an answer.
- `resolve` requires the record to end strictly before the end of the data. A
  record that ends exactly at the end is rejected; `Record.ResolveEncodedRecord`
  states both cases.
- `find` returns every column from the language's offset on. It does not cut
  them to `fields.len()`. Only the zip in `find_to_map` stops at the shorter
  sequence.

## Model

| member | source | states |
|---|---|---|
| Bytes.BigEndian32 | src/ipdb.rs:82 | `u32::from_be_bytes` of four bytes is below 2^32 |
| Bytes.DecodeEncode32 | src/ipdb.rs:82 | decoding the big-endian encoding of any `u32` gives it back |
| Bytes.EncodeDecode32 | src/ipdb.rs:82 | encoding a decoded 4-byte value gives back the same 4 bytes, so the node encoding is a bijection |
| Bytes.RecordLength | src/ipdb.rs:65 | the length read from `[0, 0, hi, lo]` is below 2^16, and its high and low bytes are `hi` and `lo` |
| Bytes.AddressBits | src/ipdb.rs:87-95 | an address of n octets gives 8n walk bits |
| Bytes.BitOfIsShift | src/ipdb.rs:95 | the per-position table of bit k equals `(b >> (7 - k)) & 1`, the quotient by 2^(7-k) modulo 2 |
| Bytes.BitsOfByteRoundTrip | src/ipdb.rs:95 | the eight bits `(b >> (7 - k)) & 1`, read most significant first, spell `b` |
| Bytes.AddressBitsAppend | src/ipdb.rs:95 | the bits of a concatenation of octets are the concatenation of their bits |
| Bytes.AddressBitsRoundTrip | src/ipdb.rs:91-95 | the octets are recovered from their walk bits, so the walk sees each address bit exactly once |
| Trie.ReadNode | src/ipdb.rs:80-83 | the read succeeds exactly when bytes `node*8 + index*4` to `+4` lie inside the data; otherwise it panics; a child is below 2^32 |
| Trie.ReadEncodedNode | src/ipdb.rs:80-83 | a node written with children `zero` and `one` reads back those children |
| Trie.Walk | src/ipdb.rs:91-96 | the descent's only failure is the panic of a node read |
| Trie.WalkStopsAtFirstLeaf | src/ipdb.rs:91-96 | the descent returns node k of the full path, where every earlier node is below the bound and node k is the last, a failed read, or at least the bound |
| Trie.WalkEndsBelowIff | src/ipdb.rs:91-102 | the descent ends below the bound exactly when every node of the full path can be read and lies below the bound |
| Trie.WalkReachesIff | src/ipdb.rs:91-99 | the descent ends at v, at or above the bound, exactly when v is the first such node on the full path |
| Trie.WalkAppend | src/ipdb.rs:91-96 | walking p then q is walking p and then q from where p ended |
| Trie.LeafIgnoresLaterBits | src/ipdb.rs:92-94 | once the path reaches the bound after k bits, bit strings that agree on those k bits walk to the same result |
| Trie.WalkLimitsAgree | src/ipdb.rs:37-40 | the stop rules "at least the node count" and "exceeds the node count" agree on a path that never lands exactly on the node count |
| Trie.V4Path | src/ipdb.rs:37-47 | the precompute path has 96 fixed steps |
| Trie.V4PathIsMappedPrefix | src/ipdb.rs:41-47 | the precompute's fixed children, 80 zeros then 16 ones, are the bits of the IPv4-mapped prefix ::ffff:0:0/96 |
| Record.LeafOffset | src/ipdb.rs:58 | a leaf's record offset lies past the 8-byte nodes of the trie, at the leaf's distance above the node count |
| Record.Resolve | src/ipdb.rs:57-78 | the record is returned exactly when its offset and both length bytes are inside the data and the record ends strictly before the end; it is the slice after the length prefix; an offset past the end is the offset error, an offset on the last byte panics, and a record that reaches the end of the data is the size error |
| Record.ResolveEncodedRecord | src/ipdb.rs:57-78 | a record stored right after the trie, at a gap of g bytes, is what leaf value `node_count + g` resolves to if at least one byte follows it; otherwise it is the size error |
| Record.Split | src/ipdb.rs:131 | splitting on tab gives at least one column |
| Record.SplitShape | src/ipdb.rs:131 | there is one more column than tabs, and no column holds a tab |
| Record.JoinSplit | src/ipdb.rs:131 | joining the columns with tabs gives back the record |
| Record.SplitJoin | src/ipdb.rs:131 | tab-free columns survive a join and a split unchanged |
| Record.Skip | src/ipdb.rs:131 | the result is the columns from position n on, none when there are at most n |
| Record.ZippedMap | src/ipdb.rs:137-144 | the last zipped pair is in the map with its value: a later insertion of a name overrides an earlier one |
| Record.RetainNonEmpty | src/ipdb.rs:145 | exactly the entries with a non-empty value stay, with their values unchanged |
| Record.ZippedMapContents | src/ipdb.rs:137-144 | the zipped map's keys are the field names up to the shorter length, and each name keeps the value at its last position |
| Record.FieldMapContents | src/ipdb.rs:137-145 | the returned map's keys are zipped field names with non-empty values; a name at its last position is absent if its column is empty and maps to that column otherwise |
| Ipdb.HeaderLength | src/ipdb.rs:28 | the header is at least the 4 length bytes |
| Ipdb.Open | src/ipdb.rs:27-55 | short buffer or header past the end panics; undecodable metadata and a total-size mismatch are their errors; a failed precompute read panics; success exactly when these checks and the precompute reads succeed; then the metadata is the decoded one, the data is the bytes after the header, and the IPv4 root is the end of the 96-step descent |
| Ipdb.StartNode | src/ipdb.rs:86-90 | the walk starts at the IPv4 root for a 4-octet address and at node 0 otherwise |
| Ipdb.Verdict | src/ipdb.rs:98-102 | the walk's end is the answer exactly when it exceeds the node count; a failed read passes through; any other end is "not found" |
| Ipdb.NodeFor | src/ipdb.rs:85-103 | a found node exceeds the node count; the only failures are a panic and "not found" |
| Ipdb.FindNode | src/ipdb.rs:85-103 | the loop returns exactly NodeFor: the walk from the IPv4 root for 4 octets and from node 0 otherwise |
| Ipdb.FamilySupported | src/ipdb.rs:120-128 | an IPv4 lookup needs bit 0 of `ip_version` and an IPv6 lookup needs bit 1 |
| Ipdb.Find | src/ipdb.rs:113-133 | empty fields, unknown language and unsupported family fail in that order; after them an error of the trie walk or of the record read is returned unchanged; success exactly when the checks pass, the node is found and its record resolves; the result is the record's columns from the language's offset on |
| Ipdb.FindToMap | src/ipdb.rs:135-147 | the errors of `find` pass through unchanged; on success the map is FieldMap of the fields and the found columns |
| Ipdb.CollectPairs | src/ipdb.rs:137-144 | inserting the zipped pairs in order builds exactly the zipped map |
| Lookup.NotFoundIff | src/ipdb.rs:98-102 | "not found" exactly when all 8n+1 nodes of the full path can be read and none exceeds the node count |
| Lookup.FoundIff | src/ipdb.rs:91-99 | `find_node` answers v exactly when v is the first node of the full path that exceeds the node count |
| Lookup.SharedPrefixSameNode | src/ipdb.rs:91-94 | addresses of one length that share the bits before the leaf get the same answer |
| Lookup.MappedIpv4Lookup | src/ipdb.rs:36-48 | an IPv4 lookup answers what the lookup of ::ffff:a.b.c.d answers, given that the precompute path never lands exactly on the node count |
| Lookup.RootOnNodeCountSplitsLookups | src/ipdb.rs:37-40 | in a two-node trie whose root child equals the node count, the IPv4 lookup of 128.0.0.0 and the lookup of ::ffff:128.0.0.0 give different leaves |
| Lookup.OneNodeLookups | src/ipdb.rs:113-133 | in a one-node database with two records, the IPv4 root is the first leaf; IPv6 addresses whose first octet is below 128 find the first record and the rest find the second; every IPv4 address finds the first |

## Left out

- Reading the file and memory-mapping it (`Mmap`) are not modelled. `Open` receives the file image as a byte sequence.
- `serde_json` decoding is not modelled. `Open` takes the metadata decoder as a function parameter: a decoded `Metadata` or nothing.
- Error messages and `anyhow` contexts are not modelled. Each failure is one `Error` constructor.
- `usize` overflow is not modelled. Integers are unbounded, so `total_size + meta_len` and `node * 8 + index * 4` cannot wrap. This matters only for values near 2^64.
- The `try_into()?` conversions of 4-byte slices are not modelled. They cannot fail once the slice exists.
- UTF-8 is not modelled. Records and columns are bytes, and `from_utf8_unchecked` is the identity. Splitting on the tab byte equals splitting on `'\t'` in any UTF-8 text, because tab is ASCII.
- The map values in `find_to_map` stay bytes instead of becoming `String`s.
- Record.Resolve: requires a node above the node count, because `node - node_count` underflows otherwise. Only `find_node`'s answers, which always exceed it, reach `resolve`.
- Ipdb.IsIpv4, Ipdb.IsIpv6: these are the bit tests themselves and have no separate contract. `Ipdb.FamilySupported` states which bit each address family needs.
- The `build` metadata field is carried but never read, as in the source.
- Lifetimes and borrowing (`Reader<'a>` borrowing the mapped file) are not modelled.
- `src/main.rs`, `src/route.rs` and `src/log.rs` are not part of this model: the HTTP server, its routes, configuration and logging.
