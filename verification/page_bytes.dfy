/**
 The bytes of a B+Tree page: a header, one pointer and one end offset per entry, then
 the records. Entries are appended in place to a buffer, read back by position, and a
 page taken from the file is checked before anything on it is read.
 */
module PageBytes {
  import opened ByteStrings
  import opened Entries
  import opened PageNodes
  import opened Codecs

  const MAGIC: Bytes := [0x47, 0x44, 0x42, 0x54]
  const FORMAT := 2
  const NODE_INTERNAL := 1
  const NODE_LEAF := 2

  // ----- Writing into a buffer

  ghost predicate At(p: Bytes, pos: nat, b: Bytes) {
    pos + |b| <= |p| && p[pos..pos + |b|] == b
  }

  function Splice(p: Bytes, pos: nat, b: Bytes): (r: Bytes)
    requires pos + |b| <= |p|
    ensures |r| == |p|
  {
    p[..pos] + b + p[pos + |b|..]
  }

  lemma {:induction false} SpliceAt(p: Bytes, pos: nat, b: Bytes)
    requires pos + |b| <= |p|
    ensures At(Splice(p, pos, b), pos, b)
  {
  }

  lemma {:induction false} SpliceApart(p: Bytes, pos: nat, b: Bytes, q: nat, a: Bytes)
    requires pos + |b| <= |p| && At(p, q, a)
    requires q + |a| <= pos || pos + |b| <= q
    ensures At(Splice(p, pos, b), q, a)
  {
    var r := Splice(p, pos, b);
    forall k | 0 <= k < |a|
      ensures r[q..q + |a|][k] == a[k]
    {
      assert r[q + k] == p[q + k] == p[q..q + |a|][k];
    }
  }

  lemma {:induction false} SpliceTwice(p: Bytes, pos: nat, a: Bytes, b: Bytes)
    requires pos + |a| + |b| <= |p|
    ensures Splice(Splice(p, pos, a), pos + |a|, b) == Splice(p, pos, a + b)
  {
  }

  lemma {:induction false} AtJoin(p: Bytes, pos: nat, a: Bytes, b: Bytes)
    requires At(p, pos, a) && At(p, pos + |a|, b)
    ensures At(p, pos, a + b)
  {
    assert p[pos..pos + |a| + |b|] == p[pos..pos + |a|] + p[pos + |a|..pos + |a| + |b|];
  }

  lemma {:induction false} AtPart(p: Bytes, pos: nat, b: Bytes, i: nat, j: nat)
    requires At(p, pos, b) && i <= j <= |b|
    ensures At(p, pos + i, b[i..j])
  {
    forall k | i <= k < j
      ensures p[pos + i..pos + j][k - i] == b[k]
    {
      assert p[pos + k] == p[pos..pos + |b|][k];
    }
    assert p[pos + i..pos + j] == b[i..j];
  }

  method CopyInto(node: array<Byte>, pos: nat, b: Bytes)
    requires pos + |b| <= node.Length
    modifies node
    ensures node[..] == Splice(old(node[..]), pos, b)
  {
    var i := 0;
    while i < |b|
      invariant 0 <= i <= |b|
      invariant node[..] == Splice(old(node[..]), pos, b[..i])
    {
      ghost var was := node[..];
      node[pos + i] := b[i];
      assert node[..] == was[pos + i := b[i]];
      assert node[..] == Splice(was, pos + i, [b[i]]);
      SpliceTwice(old(node[..]), pos, b[..i], [b[i]]);
      TakeStep(b, i);
      i := i + 1;
    }
    TakeAll(b);
  }

  // ----- What the parts of a page are

  function Kind(leaf: bool): nat {
    if leaf then NODE_LEAF else NODE_INTERNAL
  }

  function Header(leaf: bool, count: nat): (b: Bytes)
    ensures |b| == 10
  {
    MAGIC + LE(FORMAT, 2) + LE(Kind(leaf), 2) + LE(count, 2)
  }

  function Record(e: Entry): (b: Bytes)
    ensures |b| == 4 + |e.key| + |e.value|
  {
    LE(|e.key|, 2) + LE(|e.value|, 2) + e.key + e.value
  }

  function Pointers(es: seq<Entry>): (b: Bytes)
    ensures |b| == 8 * |es|
  {
    if es == [] then [] else Pointers(es[..|es| - 1]) + LE(es[|es| - 1].ptr, 8)
  }

  function Records(es: seq<Entry>): Bytes {
    if es == [] then [] else Records(es[..|es| - 1]) + Record(es[|es| - 1])
  }

  /** For each entry, where its record ends, counted from the first record. */
  function Offsets(es: seq<Entry>): (b: Bytes)
    ensures |b| == 2 * |es|
  {
    if es == [] then [] else Offsets(es[..|es| - 1]) + LE(|Records(es)|, 2)
  }

  lemma {:induction false} RecordsSize(es: seq<Entry>)
    ensures 10 * |es| + |Records(es)| == Payload(es)
  {
    if es != [] {
      var init, last := es[..|es| - 1], es[|es| - 1];
      RecordsSize(init);
      PayloadAppend(init, [last]);
      PayloadSingle(last);
      assert es == init + [last];
    }
  }

  ghost predicate Storable(leaf: bool, i: nat, e: Entry) {
    ValidEntry(leaf, i, e) && e.ptr < Pow256(8)
  }

  ghost predicate AllStorable(leaf: bool, es: seq<Entry>) {
    forall i :: 0 <= i < |es| ==> Storable(leaf, i, es[i])
  }

  ghost predicate Parts(p: Bytes, count: nat, es: seq<Entry>) {
    && At(p, HEADER_SIZE, Pointers(es))
    && At(p, HEADER_SIZE + 8 * count, Offsets(es))
    && At(p, HEADER_SIZE + 10 * count, Records(es))
  }

  /** A buffer set up for `count` entries, of which the first ones are `es`. */
  ghost predicate Laid(p: Bytes, leaf: bool, count: nat, es: seq<Entry>) {
    && |es| <= count
    && HEADER_SIZE <= |p| < 0x1_0000
    && HEADER_SIZE + 10 * count < 0x1_0000
    && At(p, 0, Header(leaf, count))
    && AllStorable(leaf, es)
    && (es != [] ==> Parts(p, count, es))
  }

  /** The whole page of a valid node. The bytes no part covers are free. */
  ghost predicate Stored(p: Bytes, n: Node) {
    |p| == PAGE_SIZE && Laid(p, n.leaf, |n.entries|, n.entries) && ValidNode(n)
  }

  // ----- Reading

  function Word(p: Bytes, pos: nat, k: nat): nat
    requires pos + k <= |p|
  {
    FromLE(p[pos..pos + k])
  }

  lemma {:induction false} WordAt(p: Bytes, pos: nat, n: nat, k: nat)
    requires At(p, pos, LE(n, k)) && n < Pow256(k)
    ensures Word(p, pos, k) == n
  {
    LERoundTrip(n, k);
  }

  lemma {:induction false} Pow256Two()
    ensures Pow256(2) == 0x1_0000
  {
    assert Pow256(1) == 256;
  }

  function NodeType(p: Bytes): nat
    requires |p| >= HEADER_SIZE
  {
    Word(p, 6, 2)
  }

  function KeyCount(p: Bytes): nat
    requires |p| >= HEADER_SIZE
  {
    Word(p, 8, 2)
  }

  /** Whether the pointers and offsets promised by the header lie on the page. */
  predicate HasIndex(p: Bytes) {
    |p| >= HEADER_SIZE && |p| >= HEADER_SIZE + 10 * KeyCount(p)
  }

  function GetPtr(p: Bytes, i: nat): nat
    requires HasIndex(p) && i < KeyCount(p)
  {
    Word(p, HEADER_SIZE + 8 * i, 8)
  }

  function GetOffset(p: Bytes, i: nat): nat
    requires |p| >= HEADER_SIZE && i <= KeyCount(p) && (i == 0 || HasIndex(p))
  {
    if i == 0 then 0 else Word(p, HEADER_SIZE + 8 * KeyCount(p) + 2 * (i - 1), 2)
  }

  /** Sixteen-bit addition, as the page code computes it. */
  function KvPos(p: Bytes, i: nat): nat
    requires |p| >= HEADER_SIZE && i <= KeyCount(p) && (i == 0 || HasIndex(p))
  {
    ((HEADER_SIZE + 10 * KeyCount(p)) % 0x1_0000 + GetOffset(p, i)) % 0x1_0000
  }

  predicate HasRecord(p: Bytes, i: nat) {
    && HasIndex(p) && i < KeyCount(p)
    && KvPos(p, i) + 4 <= |p|
    && KvPos(p, i) + 4 + Word(p, KvPos(p, i), 2) + Word(p, KvPos(p, i) + 2, 2) <= |p|
  }

  function GetKey(p: Bytes, i: nat): Bytes
    requires HasRecord(p, i)
  {
    var pos := KvPos(p, i);
    p[pos + 4..pos + 4 + Word(p, pos, 2)]
  }

  function GetVal(p: Bytes, i: nat): Bytes
    requires HasRecord(p, i)
  {
    var pos := KvPos(p, i);
    var keySize := Word(p, pos, 2);
    p[pos + 4 + keySize..pos + 4 + keySize + Word(p, pos + 2, 2)]
  }

  /** The bytes a node uses, its header included. */
  function UsedBytes(p: Bytes): nat
    requires HasIndex(p)
  {
    KvPos(p, KeyCount(p))
  }

  // ----- The parts, entry by entry

  lemma {:induction false} NoRecords(es: seq<Entry>)
    ensures |Records(es[..0])| == 0
  {
  }

  lemma {:induction false} RecordsGrow(es: seq<Entry>, i: nat)
    requires i <= |es|
    ensures |Records(es[..i])| <= |Records(es)|
    decreases |es|
  {
    if i < |es| {
      assert es[..|es| - 1][..i] == es[..i];
      RecordsGrow(es[..|es| - 1], i);
    } else {
      TakeAll(es);
    }
  }

  lemma {:induction false} PointersPart(es: seq<Entry>, i: nat)
    requires i < |es|
    ensures Pointers(es)[8 * i..8 * i + 8] == LE(es[i].ptr, 8)
    decreases |es|
  {
    var init := es[..|es| - 1];
    if i < |init| {
      PointersPart(init, i);
      assert Pointers(es)[8 * i..8 * i + 8] == Pointers(init)[8 * i..8 * i + 8];
    }
  }

  lemma {:induction false} OffsetsPart(es: seq<Entry>, i: nat)
    requires i < |es|
    ensures Offsets(es)[2 * i..2 * i + 2] == LE(|Records(es[..i + 1])|, 2)
    decreases |es|
  {
    var init := es[..|es| - 1];
    if i < |init| {
      OffsetsPart(init, i);
      assert Offsets(es)[2 * i..2 * i + 2] == Offsets(init)[2 * i..2 * i + 2];
      assert init[..i + 1] == es[..i + 1];
    } else {
      TakeAll(es);
    }
  }

  lemma {:induction false} RecordsPart(es: seq<Entry>, i: nat)
    requires i < |es|
    ensures |Records(es[..i])| + |Record(es[i])| <= |Records(es)|
    ensures Records(es)[|Records(es[..i])|..|Records(es[..i])| + |Record(es[i])|] == Record(es[i])
    decreases |es|
  {
    var init := es[..|es| - 1];
    if i < |init| {
      RecordsPart(init, i);
      assert init[..i] == es[..i];
      var lo := |Records(es[..i])|;
      var hi := lo + |Record(es[i])|;
      assert Records(es)[lo..hi] == Records(init)[lo..hi];
    }
  }

  // ----- The accessors return what was laid out

  lemma {:induction false} HeaderReads(p: Bytes, leaf: bool, count: nat)
    requires |p| >= HEADER_SIZE && count < 0x1_0000
    requires At(p, 0, Header(leaf, count))
    ensures p[..4] == MAGIC && Word(p, 4, 2) == FORMAT
    ensures NodeType(p) == Kind(leaf) && KeyCount(p) == count
  {
    Pow256Two();
    var h := Header(leaf, count);
    AtPart(p, 0, h, 0, 4);
    AtPart(p, 0, h, 4, 6);
    AtPart(p, 0, h, 6, 8);
    AtPart(p, 0, h, 8, 10);
    assert h[..4] == MAGIC && h[4..6] == LE(FORMAT, 2) && h[6..8] == LE(Kind(leaf), 2) && h[8..10] == LE(count, 2);
    WordAt(p, 4, FORMAT, 2);
    WordAt(p, 6, Kind(leaf), 2);
    WordAt(p, 8, count, 2);
  }

  lemma {:induction false} PointerReads(p: Bytes, at: nat, es: seq<Entry>, i: nat)
    requires At(p, at, Pointers(es)) && i < |es| && es[i].ptr < Pow256(8)
    ensures Word(p, at + 8 * i, 8) == es[i].ptr
  {
    hide Pow256, LE, FromLE;
    PointersPart(es, i);
    AtPart(p, at, Pointers(es), 8 * i, 8 * i + 8);
    WordAt(p, at + 8 * i, es[i].ptr, 8);
  }

  lemma {:induction false} OffsetReads(p: Bytes, at: nat, es: seq<Entry>, i: nat)
    requires At(p, at, Offsets(es)) && i < |es| && |Records(es)| < 0x1_0000
    ensures Word(p, at + 2 * i, 2) == |Records(es[..i + 1])|
  {
    hide LE, FromLE, Records;
    Pow256Two();
    RecordsGrow(es, i + 1);
    OffsetsPart(es, i);
    AtPart(p, at, Offsets(es), 2 * i, 2 * i + 2);
    WordAt(p, at + 2 * i, |Records(es[..i + 1])|, 2);
  }

  lemma {:induction false} IndexReads(p: Bytes, leaf: bool, count: nat, es: seq<Entry>, i: nat)
    requires Laid(p, leaf, count, es) && es != [] && i <= |es|
    ensures HasIndex(p) && KeyCount(p) == count
    ensures GetOffset(p, i) == |Records(es[..i])|
    ensures KvPos(p, i) == HEADER_SIZE + 10 * count + |Records(es[..i])| <= |p|
    ensures i < |es| ==> GetPtr(p, i) == es[i].ptr
  {
    hide Pow256, Word, Records, Offsets, Pointers, Header;
    HeaderReads(p, leaf, count);
    RecordsGrow(es, i);
    if i > 0 {
      OffsetReads(p, HEADER_SIZE + 8 * count, es, i - 1);
    } else {
      assert |Records(es[..0])| == 0 by { NoRecords(es); }
    }
    if i < |es| {
      assert Storable(leaf, i, es[i]);
      PointerReads(p, HEADER_SIZE, es, i);
    }
  }

  lemma {:induction false} RecordReads(p: Bytes, pos: nat, e: Entry)
    requires At(p, pos, Record(e)) && |e.key| < 0x1_0000 && |e.value| < 0x1_0000
    ensures Word(p, pos, 2) == |e.key| && Word(p, pos + 2, 2) == |e.value|
    ensures p[pos + 4..pos + 4 + |e.key|] == e.key
    ensures p[pos + 4 + |e.key|..pos + 4 + |e.key| + |e.value|] == e.value
  {
    Pow256Two();
    var r, k := Record(e), |e.key|;
    AtPart(p, pos, r, 0, 2);
    AtPart(p, pos, r, 2, 4);
    AtPart(p, pos, r, 4, 4 + k);
    AtPart(p, pos, r, 4 + k, |r|);
    assert r[0..2] == LE(k, 2) && r[2..4] == LE(|e.value|, 2) && r[4..4 + k] == e.key && r[4 + k..] == e.value;
    WordAt(p, pos, k, 2);
    WordAt(p, pos + 2, |e.value|, 2);
  }

  /** Every appended entry is read back, whatever was appended after it. */
  lemma {:induction false} EntryReads(p: Bytes, leaf: bool, count: nat, es: seq<Entry>, i: nat)
    requires Laid(p, leaf, count, es) && i < |es|
    ensures HasRecord(p, i)
    ensures Entry(GetKey(p, i), GetVal(p, i), GetPtr(p, i)) == es[i]
  {
    hide Pow256, Word, Records, Offsets, Pointers, Header, KvPos, Record;
    IndexReads(p, leaf, count, es, i);
    RecordsPart(es, i);
    assert Storable(leaf, i, es[i]);
    var lo := |Records(es[..i])|;
    AtPart(p, HEADER_SIZE + 10 * count, Records(es), lo, lo + |Record(es[i])|);
    RecordReads(p, KvPos(p, i), es[i]);
  }

  /** A filled buffer holds one sequence of entries. */
  lemma {:induction false} LaidOnce(p: Bytes, leaf: bool, es: seq<Entry>, leaf': bool, es': seq<Entry>)
    requires Laid(p, leaf, |es|, es) && Laid(p, leaf', |es'|, es')
    ensures leaf == leaf' && es == es'
  {
    HeaderReads(p, leaf, |es|);
    HeaderReads(p, leaf', |es'|);
    forall i | 0 <= i < |es|
      ensures es[i] == es'[i]
    {
      EntryReads(p, leaf, |es|, es, i);
      EntryReads(p, leaf', |es'|, es', i);
    }
  }

  /** A page stands for at most one node, and all its accessors stay on the page. */
  lemma {:induction false} StoredReads(p: Bytes, n: Node)
    requires Stored(p, n)
    ensures HasIndex(p) && KeyCount(p) == |n.entries| && NodeType(p) == Kind(n.leaf)
    ensures UsedBytes(p) == NodeBytes(n) <= |p|
    ensures forall i :: 0 <= i < |n.entries| ==>
              HasRecord(p, i) && Entry(GetKey(p, i), GetVal(p, i), GetPtr(p, i)) == n.entries[i]
    ensures forall i, j :: 0 <= i < j < |n.entries| ==> Less(GetKey(p, i), GetKey(p, j))
    ensures forall m :: Stored(p, m) ==> m == n
  {
    var es := n.entries;
    HeaderReads(p, n.leaf, |es|);
    RecordsSize(es);
    if es != [] {
      IndexReads(p, n.leaf, |es|, es, |es|);
      TakeAll(es);
    }
    forall i | 0 <= i < |es|
      ensures HasRecord(p, i) && Entry(GetKey(p, i), GetVal(p, i), GetPtr(p, i)) == es[i]
    {
      EntryReads(p, n.leaf, |es|, es, i);
    }
    forall m | Stored(p, m)
      ensures m == n
    {
      LaidOnce(p, n.leaf, es, m.leaf, m.entries);
    }
  }

  // ----- Appending

  lemma {:induction false} PartsAppend(es: seq<Entry>, e: Entry)
    ensures Pointers(es + [e]) == Pointers(es) + LE(e.ptr, 8)
    ensures Records(es + [e]) == Records(es) + Record(e)
    ensures Offsets(es + [e]) == Offsets(es) + LE(|Records(es)| + |Record(e)|, 2)
  {
    assert (es + [e])[..|es|] == es;
  }

  /** Where the three parts of the entry after `es` go. */
  ghost predicate Next(p: Bytes, count: nat, es: seq<Entry>, e: Entry) {
    && At(p, HEADER_SIZE + 8 * |es|, LE(e.ptr, 8))
    && At(p, HEADER_SIZE + 8 * count + 2 * |es|, LE(|Records(es)| + |Record(e)|, 2))
    && At(p, HEADER_SIZE + 10 * count + |Records(es)|, Record(e))
  }

  lemma {:induction false} NextExtends(p: Bytes, leaf: bool, count: nat, es: seq<Entry>, e: Entry)
    requires Laid(p, leaf, count, es) && |es| < count
    requires Next(p, count, es, e) && Storable(leaf, |es|, e)
    ensures Laid(p, leaf, count, es + [e])
  {
    hide Pow256, LE, Header, Record, Pointers, Offsets, Records;
    PartsAppend(es, e);
    if es == [] {
      NoParts();
    }
    AtJoin(p, HEADER_SIZE, Pointers(es), LE(e.ptr, 8));
    AtJoin(p, HEADER_SIZE + 8 * count, Offsets(es), LE(|Records(es)| + |Record(e)|, 2));
    AtJoin(p, HEADER_SIZE + 10 * count, Records(es), Record(e));
  }

  lemma {:induction false} NoParts()
    ensures Pointers([]) == [] && Offsets([]) == [] && Records([]) == []
  {
  }

  /** The buffer after the pointer, the record and the end offset of `e` are written. */
  function Written(p: Bytes, count: nat, es: seq<Entry>, e: Entry): (r: Bytes)
    requires |es| < count && HEADER_SIZE + 10 * count + |Records(es)| + |Record(e)| <= |p|
  {
    var pointed := Splice(p, HEADER_SIZE + 8 * |es|, LE(e.ptr, 8));
    var recorded := Splice(pointed, HEADER_SIZE + 10 * count + |Records(es)|, Record(e));
    Splice(recorded, HEADER_SIZE + 8 * count + 2 * |es|, LE(|Records(es)| + |Record(e)|, 2))
  }

  lemma {:induction false} WrittenKeeps(p: Bytes, count: nat, es: seq<Entry>, e: Entry, at: nat, b: Bytes)
    requires |es| < count && HEADER_SIZE + 10 * count + |Records(es)| + |Record(e)| <= |p|
    requires At(p, at, b)
    requires at + |b| <= HEADER_SIZE + 8 * |es| || HEADER_SIZE + 8 * |es| + 8 <= at
    requires at + |b| <= HEADER_SIZE + 8 * count + 2 * |es| || HEADER_SIZE + 8 * count + 2 * |es| + 2 <= at
    requires at + |b| <= HEADER_SIZE + 10 * count + |Records(es)|
    ensures At(Written(p, count, es, e), at, b)
  {
    hide LE, Record, Records, Splice, At;
    var q := Splice(p, HEADER_SIZE + 8 * |es|, LE(e.ptr, 8));
    SpliceApart(p, HEADER_SIZE + 8 * |es|, LE(e.ptr, 8), at, b);
    var start := HEADER_SIZE + 10 * count + |Records(es)|;
    SpliceApart(q, start, Record(e), at, b);
    SpliceApart(Splice(q, start, Record(e)), HEADER_SIZE + 8 * count + 2 * |es|,
                LE(|Records(es)| + |Record(e)|, 2), at, b);
  }

  lemma {:induction false} WrittenNext(p: Bytes, count: nat, es: seq<Entry>, e: Entry)
    requires |es| < count && HEADER_SIZE + 10 * count + |Records(es)| + |Record(e)| <= |p|
    ensures Next(Written(p, count, es, e), count, es, e)
  {
    hide LE, Record, Records, Splice, At;
    var ptrAt, offAt, recAt := HEADER_SIZE + 8 * |es|, HEADER_SIZE + 8 * count + 2 * |es|,
        HEADER_SIZE + 10 * count + |Records(es)|;
    var ptr, off := LE(e.ptr, 8), LE(|Records(es)| + |Record(e)|, 2);
    var q := Splice(p, ptrAt, ptr);
    SpliceAt(p, ptrAt, ptr);
    SpliceApart(q, recAt, Record(e), ptrAt, ptr);
    var r := Splice(q, recAt, Record(e));
    SpliceAt(q, recAt, Record(e));
    SpliceApart(r, offAt, off, ptrAt, ptr);
    SpliceApart(r, offAt, off, recAt, Record(e));
    SpliceAt(r, offAt, off);
  }

  /** Writing an entry leaves what was laid out before it and adds the entry. */
  lemma {:induction false} WrittenLaid(p: Bytes, leaf: bool, count: nat, es: seq<Entry>, e: Entry)
    requires Laid(p, leaf, count, es) && |es| < count && Storable(leaf, |es|, e)
    requires HEADER_SIZE + 10 * count + |Records(es)| + |Record(e)| <= |p|
    ensures Laid(Written(p, count, es, e), leaf, count, es + [e])
  {
    hide Pow256, LE, Header, Record, Pointers, Offsets, Records, Splice, At;
    WrittenKeeps(p, count, es, e, 0, Header(leaf, count));
    if es != [] {
      WrittenKeeps(p, count, es, e, HEADER_SIZE, Pointers(es));
      WrittenKeeps(p, count, es, e, HEADER_SIZE + 8 * count, Offsets(es));
      WrittenKeeps(p, count, es, e, HEADER_SIZE + 10 * count, Records(es));
    }
    WrittenNext(p, count, es, e);
    var q := Written(p, count, es, e);
    assert |q| == |p|;
    NextExtends(q, leaf, count, es, e);
  }

  method SetHeader(node: array<Byte>, leaf: bool, count: nat)
    requires HEADER_SIZE <= node.Length
    modifies node
    ensures node[..] == Splice(old(node[..]), 0, Header(leaf, count))
    ensures node.Length < 0x1_0000 && HEADER_SIZE + 10 * count < 0x1_0000 ==> Laid(node[..], leaf, count, [])
  {
    CopyInto(node, 0, MAGIC);
    SpliceTwice(old(node[..]), 0, MAGIC, LE(FORMAT, 2));
    CopyInto(node, 4, LE(FORMAT, 2));
    SpliceTwice(old(node[..]), 0, MAGIC + LE(FORMAT, 2), LE(Kind(leaf), 2));
    CopyInto(node, 6, LE(Kind(leaf), 2));
    SpliceTwice(old(node[..]), 0, MAGIC + LE(FORMAT, 2) + LE(Kind(leaf), 2), LE(count, 2));
    CopyInto(node, 8, LE(count, 2));
    SpliceAt(old(node[..]), 0, Header(leaf, count));
  }

  method WriteRecord(node: array<Byte>, pos: nat, key: Bytes, value: Bytes)
    requires pos + 4 + |key| + |value| <= node.Length
    modifies node
    ensures node[..] == Splice(old(node[..]), pos, Record(Entry(key, value, 0)))
  {
    hide Splice, LE;
    ghost var p := node[..];
    CopyInto(node, pos, LE(|key|, 2));
    SpliceTwice(p, pos, LE(|key|, 2), LE(|value|, 2));
    CopyInto(node, pos + 2, LE(|value|, 2));
    SpliceTwice(p, pos, LE(|key|, 2) + LE(|value|, 2), key);
    CopyInto(node, pos + 4, key);
    SpliceTwice(p, pos, LE(|key|, 2) + LE(|value|, 2) + key, value);
    CopyInto(node, pos + 4 + |key|, value);
  }

  lemma {:induction false} LaidReads(p: Bytes, leaf: bool, count: nat, es: seq<Entry>)
    requires Laid(p, leaf, count, es)
    ensures KeyCount(p) == count && NodeType(p) == Kind(leaf)
    ensures es == [] || HasIndex(p)
    ensures GetOffset(p, |es|) == |Records(es)|
    ensures KvPos(p, |es|) == HEADER_SIZE + 10 * count + |Records(es)|
  {
    hide Word, Header, Pointers, Offsets, Records;
    HeaderReads(p, leaf, count);
    if es == [] {
      NoParts();
    } else {
      IndexReads(p, leaf, count, es, |es|);
      TakeAll(es);
    }
  }

  lemma {:induction false} PartsTake(es: seq<Entry>, i: nat)
    requires i <= |es|
    ensures Pointers(es[..i]) <= Pointers(es) && Offsets(es[..i]) <= Offsets(es) && Records(es[..i]) <= Records(es)
    decreases |es|
  {
    hide LE, Record;
    if i < |es| {
      assert es[..|es| - 1][..i] == es[..i];
      PartsTake(es[..|es| - 1], i);
    } else {
      TakeAll(es);
    }
  }

  lemma {:induction false} AtTake(p: Bytes, pos: nat, a: Bytes, b: Bytes)
    requires At(p, pos, b) && a <= b
    ensures At(p, pos, a)
  {
    AtPart(p, pos, b, 0, |a|);
  }

  /** What is laid out for some entries is laid out for the first of them. */
  lemma {:induction false} LaidTake(p: Bytes, leaf: bool, count: nat, es: seq<Entry>, i: nat)
    requires Laid(p, leaf, count, es) && i <= |es|
    ensures Laid(p, leaf, count, es[..i])
  {
    hide Pointers, Offsets, Records, Header, At, Storable;
    if i > 0 {
      PartsTake(es, i);
      AtTake(p, HEADER_SIZE, Pointers(es[..i]), Pointers(es));
      AtTake(p, HEADER_SIZE + 8 * count, Offsets(es[..i]), Offsets(es));
      AtTake(p, HEADER_SIZE + 10 * count, Records(es[..i]), Records(es));
    }
  }

  /**
   Writing entry `idx` after those before it succeeds exactly when it is admissible and fits
   the buffer; whatever was laid out from there on is given up.
   */
  method AppendKV(node: array<Byte>, idx: nat, ptr: nat, key: Bytes, value: Bytes,
                  ghost leaf: bool, ghost count: nat, ghost es: seq<Entry>) returns (ok: bool)
    requires Laid(node[..], leaf, count, es) && (idx <= |es| || idx >= count) && ptr < Pow256(8)
    modifies node
    ensures ok <==> idx < count && ValidEntry(leaf, idx, Entry(key, value, ptr))
                    && HEADER_SIZE + 10 * count + |Records(es[..idx] + [Entry(key, value, ptr)])| <= node.Length
    ensures ok ==> Laid(node[..], leaf, count, es[..idx] + [Entry(key, value, ptr)])
    ensures !ok ==> node[..] == old(node[..])
  {
    hide Pow256, LE, Word, Header, Pointers, Offsets, Records, Splice, At, GetOffset, KvPos;
    ghost var p := node[..];
    ghost var e := Entry(key, value, ptr);
    LaidReads(p, leaf, count, es);
    if idx >= KeyCount(node[..]) || |key| > MAX_KEY_SIZE {
      return false;
    }
    ghost var front := es[..idx];
    LaidTake(p, leaf, count, es, idx);
    LaidReads(p, leaf, count, front);
    PartsAppend(front, e);
    if |key| == 0 && (idx != 0 || |value| != 0) {
      return false;
    }
    if |value| > MAX_VALUE_SIZE {
      return false;
    }
    if NodeType(node[..]) == NODE_LEAF {
      if ptr != 0 {
        return false;
      }
    } else if ptr == 0 || |value| != 0 {
      return false;
    }
    var pos := KvPos(node[..], idx);
    var recordSize := 4 + |key| + |value|;
    if pos + recordSize > node.Length {
      return false;
    }
    var offset := GetOffset(node[..], idx);
    var offsetPos := HEADER_SIZE + 8 * KeyCount(node[..]) + 2 * idx;
    CopyInto(node, HEADER_SIZE + 8 * idx, LE(ptr, 8));
    WriteRecord(node, pos, key, value);
    CopyInto(node, offsetPos, LE(offset + recordSize, 2));
    assert node[..] == Written(p, count, front, e);
    WrittenLaid(p, leaf, count, front, e);
    ok := true;
  }

  // ----- Appending several entries

  ghost predicate Admissible(leaf: bool, base: nat, sub: seq<Entry>) {
    forall i :: 0 <= i < |sub| ==> ValidEntry(leaf, base + i, sub[i])
  }

  /** Whether entries `sub` can follow `es` in a buffer of `capacity` bytes set up for `count` entries. */
  ghost predicate Takes(leaf: bool, count: nat, capacity: nat, es: seq<Entry>, sub: seq<Entry>) {
    && |es| + |sub| <= count
    && Admissible(leaf, |es|, sub)
    && (sub == [] || HEADER_SIZE + 10 * count + |Records(es + sub)| <= capacity)
  }

  /** A run of entries is taken one entry at a time. */
  lemma {:induction false} TakesStep(leaf: bool, count: nat, capacity: nat, es: seq<Entry>, sub: seq<Entry>, i: nat)
    requires i < |sub| && Takes(leaf, count, capacity, es, sub[..i])
    ensures es + sub[..i + 1] == (es + sub[..i]) + [sub[i]]
    ensures Takes(leaf, count, capacity, es, sub[..i + 1]) <==>
              |es| + i < count && ValidEntry(leaf, |es| + i, sub[i])
              && HEADER_SIZE + 10 * count + |Records(es + sub[..i] + [sub[i]])| <= capacity
    ensures Takes(leaf, count, capacity, es, sub) ==> Takes(leaf, count, capacity, es, sub[..i + 1])
  {
    hide Records, ValidEntry;
    TakeStep(sub, i);
    var t := sub[..i + 1];
    assert es + t == (es + sub[..i]) + [sub[i]];
    if Admissible(leaf, |es|, t) {
      assert ValidEntry(leaf, |es| + i, t[i]);
    }
    if ValidEntry(leaf, |es| + i, sub[i]) {
      forall j | 0 <= j < |t|
        ensures ValidEntry(leaf, |es| + j, t[j])
      {
        if j < i {
          assert sub[..i][j] == t[j];
        }
      }
    }
    if Takes(leaf, count, capacity, es, sub) {
      assert (es + sub)[..|es| + i + 1] == es + t;
      RecordsGrow(es + sub, |es| + i + 1);
    }
  }

  method CopyEntry(dst: array<Byte>, src: Bytes, dstAt: nat, srcAt: nat,
                   ghost leaf: bool, ghost total: nat, ghost es: seq<Entry>, ghost sub: seq<Entry>, ghost i: nat,
                   ghost srcLeaf: bool, ghost srcEntries: seq<Entry>) returns (ok: bool)
    requires i < |sub| && dstAt == |es| + i && srcAt < |srcEntries| && sub[i] == srcEntries[srcAt]
    requires Laid(dst[..], leaf, total, es + sub[..i]) && Takes(leaf, total, dst.Length, es, sub[..i])
    requires Laid(src, srcLeaf, |srcEntries|, srcEntries)
    modifies dst
    ensures ok <==> Takes(leaf, total, dst.Length, es, sub[..i + 1])
    ensures Laid(dst[..], leaf, total, es + if ok then sub[..i + 1] else sub[..i])
    ensures Takes(leaf, total, dst.Length, es, sub) ==> ok
    ensures !ok ==> dst[..] == old(dst[..])
  {
    hide Records, Laid, ValidEntry, Takes, Pow256, HasIndex;
    EntryReads(src, srcLeaf, |srcEntries|, srcEntries, srcAt);
    PointerWide(src, srcLeaf, |srcEntries|, srcEntries, srcAt);
    TakesStep(leaf, total, dst.Length, es, sub, i);
    TakeAll(es + sub[..i]);
    ok := AppendKV(dst, dstAt, GetPtr(src, srcAt), GetKey(src, srcAt), GetVal(src, srcAt), leaf, total, es + sub[..i]);
  }

  /** Copies `count` entries of one node, from `srcStart` on, into another, after those before `dstStart`. */
  method AppendRange(dst: array<Byte>, src: Bytes, dstStart: nat, srcStart: nat, count: nat,
                     ghost leaf: bool, ghost total: nat, ghost es: seq<Entry>,
                     ghost srcLeaf: bool, ghost srcEntries: seq<Entry>)
    returns (ok: bool, ghost done: nat)
    requires Laid(dst[..], leaf, total, es) && (dstStart <= |es| || dstStart + count > total)
    requires Laid(src, srcLeaf, |srcEntries|, srcEntries)
    modifies dst
    ensures ok <==> dstStart <= |es| && srcStart + count <= |srcEntries|
                    && Takes(leaf, total, dst.Length, es[..dstStart], srcEntries[srcStart..srcStart + count])
    ensures done <= count && (ok ==> done == count)
    ensures done > 0 ==> dstStart <= |es| && srcStart + done <= |srcEntries|
                         && Laid(dst[..], leaf, total, es[..dstStart] + srcEntries[srcStart..srcStart + done])
    ensures done == 0 ==> dst[..] == old(dst[..])
  {
    hide Records, Laid, ValidEntry, Takes, HasRecord, Pow256;
    done := 0;
    LaidReads(dst[..], leaf, total, es);
    LaidReads(src, srcLeaf, |srcEntries|, srcEntries);
    LaidShape(dst[..], leaf, total, es);
    LaidShape(src, srcLeaf, |srcEntries|, srcEntries);
    if dstStart + count > KeyCount(dst[..]) || srcStart + count > KeyCount(src) {
      ok := false;
      if dstStart <= |es| {
        TooMany(leaf, total, dst.Length, es[..dstStart], srcEntries, srcStart, count);
      }
      return;
    }
    ghost var front, sub := es[..dstStart], srcEntries[srcStart..srcStart + count];
    LaidTake(dst[..], leaf, total, es, dstStart);
    TakesNone(leaf, total, dst.Length, front, sub);
    var i := 0;
    while i < count
      invariant 0 <= i <= count && done == i
      invariant Laid(dst[..], leaf, total, front + sub[..i])
      invariant Takes(leaf, total, dst.Length, front, sub[..i])
      invariant i == 0 ==> dst[..] == old(dst[..])
    {
      assert sub[i] == srcEntries[srcStart + i];
      ok := CopyEntry(dst, src, dstStart + i, srcStart + i, leaf, total, front, sub, i, srcLeaf, srcEntries);
      if !ok {
        SubSlices(srcEntries, srcStart, count, i);
        return;
      }
      i, done := i + 1, done + 1;
    }
    ok := true;
    TakeAll(sub);
    TakesNone(leaf, total, dst.Length, front, sub);
  }

  lemma {:induction false} LaidShape(p: Bytes, leaf: bool, count: nat, es: seq<Entry>)
    requires Laid(p, leaf, count, es)
    ensures |es| <= count && HEADER_SIZE <= |p| < 0x1_0000
  {
  }

  lemma {:induction false} PointerWide(p: Bytes, leaf: bool, count: nat, es: seq<Entry>, i: nat)
    requires Laid(p, leaf, count, es) && i < |es|
    ensures es[i].ptr < Pow256(8)
  {
    assert Storable(leaf, i, es[i]);
  }

  lemma {:induction false} TooMany(leaf: bool, total: nat, capacity: nat, es: seq<Entry>, from: seq<Entry>,
                                   start: nat, count: nat)
    requires |es| + count > total || start + count > |from|
    ensures start + count <= |from| ==> !Takes(leaf, total, capacity, es, from[start..start + count])
  {
  }

  lemma {:induction false} TakesNone(leaf: bool, total: nat, capacity: nat, es: seq<Entry>, sub: seq<Entry>)
    requires |es| <= total
    ensures Takes(leaf, total, capacity, es, sub[..0]) && es + sub[..0] == es
  {
  }

  lemma {:induction false} SubSlices(s: seq<Entry>, start: nat, count: nat, i: nat)
    requires i <= count && start + count <= |s|
    ensures s[start..start + count][..i] == s[start..start + i]
    ensures s[start..start + 0] == []
  {
  }

  // ----- Checking a page

  method CheckPointers(p: Bytes, leaf: bool) returns (ok: bool)
    requires HasIndex(p)
    ensures ok <==> forall i :: 0 <= i < KeyCount(p) ==> (GetPtr(p, i) == 0 <==> leaf)
  {
    var i := 0;
    while i < KeyCount(p)
      invariant 0 <= i <= KeyCount(p)
      invariant forall j :: 0 <= j < i ==> (GetPtr(p, j) == 0 <==> leaf)
    {
      if (GetPtr(p, i) == 0) != leaf {
        return false;
      }
      i := i + 1;
    }
    ok := true;
  }

  lemma {:induction false} WordIs(p: Bytes, pos: nat, k: nat)
    requires pos + k <= |p|
    ensures At(p, pos, LE(Word(p, pos, k), k)) && Word(p, pos, k) < Pow256(k)
  {
    LEExact(p[pos..pos + k]);
  }

  /** Two lengths and the bytes they announce are a record. */
  lemma {:induction false} RecordIs(p: Bytes, pos: nat, e: Entry)
    requires pos + 4 + |e.key| + |e.value| <= |p|
    requires Word(p, pos, 2) == |e.key| && Word(p, pos + 2, 2) == |e.value|
    requires p[pos + 4..pos + 4 + |e.key|] == e.key
    requires p[pos + 4 + |e.key|..pos + 4 + |e.key| + |e.value|] == e.value
    ensures At(p, pos, Record(e))
  {
    hide LE, Word;
    WordIs(p, pos, 2);
    WordIs(p, pos + 2, 2);
    AtJoin(p, pos, LE(|e.key|, 2), LE(|e.value|, 2));
    AtJoin(p, pos, LE(|e.key|, 2) + LE(|e.value|, 2), e.key);
    AtJoin(p, pos, LE(|e.key|, 2) + LE(|e.value|, 2) + e.key, e.value);
  }

  /** What entry `i` of a stored node shows at the positions a check looks at. */
  lemma {:induction false} StoredShows(p: Bytes, n: Node, i: nat)
    requires Stored(p, n) && i < |n.entries|
    ensures HasIndex(p) && KeyCount(p) == |n.entries|
    ensures HasRecord(p, i)
    ensures Entry(GetKey(p, i), GetVal(p, i), GetPtr(p, i)) == n.entries[i]
    ensures GetOffset(p, i + 1) == |Records(n.entries[..i])| + |Record(n.entries[i])|
    ensures HEADER_SIZE + 10 * |n.entries| + GetOffset(p, i + 1) <= PAGE_SIZE
    ensures KvPos(p, i) == HEADER_SIZE + 10 * |n.entries| + |Records(n.entries[..i])|
  {
    hide Records, Record, Word, Pointers, Offsets, Header, Pow256, GetOffset, KvPos;
    var es := n.entries;
    IndexReads(p, n.leaf, |es|, es, i);
    IndexReads(p, n.leaf, |es|, es, i + 1);
    EntryReads(p, n.leaf, |es|, es, i);
    TakeStep(es, i);
    PartsAppend(es[..i], es[i]);
  }

  lemma {:induction false} SortedPush(es: seq<Entry>, e: Entry)
    requires Sorted(es) && (es != [] ==> Less(es[|es| - 1].key, e.key))
    ensures Sorted(es + [e])
  {
    StrictTotalOrder();
    var r := es + [e];
    forall i, j | 0 <= i < j < |r|
      ensures Less(r[i].key, r[j].key)
    {
      if j == |es| && i < |es| - 1 {
        assert Less(es[i].key, es[|es| - 1].key);
      }
    }
  }

  /** The state of a page check after the entries `es`. */
  ghost predicate Checked(p: Bytes, leaf: bool, es: seq<Entry>, prev: nat, prevKey: Bytes) {
    && |p| == PAGE_SIZE && HasIndex(p)
    && Laid(p, leaf, KeyCount(p), es)
    && Sorted(es)
    && prev == |Records(es)|
    && HEADER_SIZE + 10 * KeyCount(p) + prev <= PAGE_SIZE
    && (es != [] ==> prevKey == es[|es| - 1].key)
  }

  lemma {:induction false} CheckedGrows(p: Bytes, leaf: bool, es: seq<Entry>, prev: nat, prevKey: Bytes, e: Entry)
    requires Checked(p, leaf, es, prev, prevKey) && |es| < KeyCount(p)
    requires ValidEntry(leaf, |es|, e) && e.ptr == GetPtr(p, |es|)
    requires GetOffset(p, |es| + 1) == prev + |Record(e)|
    requires HEADER_SIZE + 10 * KeyCount(p) + prev + |Record(e)| <= PAGE_SIZE
    requires At(p, HEADER_SIZE + 10 * KeyCount(p) + prev, Record(e))
    requires es != [] ==> Less(prevKey, e.key)
    ensures Checked(p, leaf, es + [e], prev + |Record(e)|, e.key)
  {
    hide Records, Record, LE, Word, Pointers, Offsets, Header, Pow256, Less, ValidEntry;
    WordIs(p, HEADER_SIZE + 8 * |es|, 8);
    WordIs(p, HEADER_SIZE + 8 * KeyCount(p) + 2 * |es|, 2);
    NextExtends(p, leaf, KeyCount(p), es, e);
    SortedPush(es, e);
    PartsAppend(es, e);
  }

  /** The checks made on record `i`, which starts where the record before it ended. */
  predicate Passes(p: Bytes, leaf: bool, i: nat, prev: nat, prevKey: Bytes)
    requires |p| == PAGE_SIZE && HasIndex(p) && i < KeyCount(p)
  {
    var end, start := GetOffset(p, i + 1), HEADER_SIZE + 10 * KeyCount(p);
    var pos := start + prev;
    && prev + 4 <= end && start + end <= PAGE_SIZE
    && var keySize, valueSize := Word(p, pos, 2), Word(p, pos + 2, 2);
    && (keySize == 0 ==> i == 0 && valueSize == 0)
    && keySize <= MAX_KEY_SIZE && valueSize <= MAX_VALUE_SIZE
    && (leaf || valueSize == 0)
    && pos + 4 + keySize + valueSize == start + end
    && (i > 0 ==> Less(prevKey, p[pos + 4..pos + 4 + keySize]))
  }

  function PassedEntry(p: Bytes, leaf: bool, i: nat, prev: nat, prevKey: Bytes): Entry
    requires |p| == PAGE_SIZE && HasIndex(p) && i < KeyCount(p)
    requires Passes(p, leaf, i, prev, prevKey)
  {
    var pos := HEADER_SIZE + 10 * KeyCount(p) + prev;
    var keySize, valueSize := Word(p, pos, 2), Word(p, pos + 2, 2);
    Entry(p[pos + 4..pos + 4 + keySize], p[pos + 4 + keySize..pos + 4 + keySize + valueSize], GetPtr(p, i))
  }

  lemma {:induction false} PassesGrows(p: Bytes, leaf: bool, es: seq<Entry>, prev: nat, prevKey: Bytes)
    requires Checked(p, leaf, es, prev, prevKey) && |es| < KeyCount(p)
    requires GetPtr(p, |es|) == 0 <==> leaf
    requires Passes(p, leaf, |es|, prev, prevKey)
    ensures var e := PassedEntry(p, leaf, |es|, prev, prevKey);
            Checked(p, leaf, es + [e], GetOffset(p, |es| + 1), e.key)
  {
    hide Records, LE, Word, Pointers, Offsets, Header, Pow256, Less, Laid, Checked;
    CheckedShape(p, leaf, es, prev, prevKey);
    var e := PassedEntry(p, leaf, |es|, prev, prevKey);
    RecordIs(p, HEADER_SIZE + 10 * KeyCount(p) + prev, e);
    CheckedGrows(p, leaf, es, prev, prevKey, e);
  }

  lemma {:induction false} StoredPasses(p: Bytes, n: Node, i: nat, prev: nat, prevKey: Bytes)
    requires Stored(p, n) && i < |n.entries|
    requires Checked(p, n.leaf, n.entries[..i], prev, prevKey)
    ensures i < KeyCount(p) && Passes(p, n.leaf, i, prev, prevKey)
    ensures PassedEntry(p, n.leaf, i, prev, prevKey) == n.entries[i]
  {
    hide Records, LE, Word, Pointers, Offsets, Header, Pow256, Less, Laid, GetOffset, KvPos;
    var es := n.entries;
    StoredShows(p, n, i);
    assert ValidEntry(n.leaf, i, es[i]);
    if i > 0 {
      assert es[..i][i - 1] == es[i - 1];
      assert Less(es[i - 1].key, es[i].key);
    }
    var pos := KvPos(p, i);
    assert GetKey(p, i) == es[i].key && GetVal(p, i) == es[i].value;
    assert |GetKey(p, i)| == Word(p, pos, 2) && |GetVal(p, i)| == Word(p, pos + 2, 2);
  }

  method CheckRecords(p: Bytes, leaf: bool, ghost want: Option<Node>)
    returns (ok: bool, ghost es: seq<Entry>)
    requires Checked(p, leaf, [], 0, [])
    requires forall i :: 0 <= i < KeyCount(p) ==> (GetPtr(p, i) == 0 <==> leaf)
    requires want.Some? ==> Stored(p, want.value) && want.value.leaf == leaf && |want.value.entries| == KeyCount(p)
    ensures want.Some? ==> ok
    ensures ok ==> Stored(p, Node(leaf, es))
  {
    hide Passes, PassedEntry, Checked, Stored, HasIndex, GetOffset, GetPtr;
    var i, prev, prevKey: Bytes := 0, 0, [];
    es := [];
    CheckedShape(p, leaf, es, prev, prevKey);
    while i < KeyCount(p)
      invariant 0 <= i <= KeyCount(p) && i == |es|
      invariant Checked(p, leaf, es, prev, prevKey)
      invariant want.Some? ==> es == want.value.entries[..i]
    {
      if want.Some? {
        StoredPasses(p, want.value, i, prev, prevKey);
        TakeStep(want.value.entries, i);
      }
      if !Passes(p, leaf, i, prev, prevKey) {
        ok := false;
        return;
      }
      PassesGrows(p, leaf, es, prev, prevKey);
      var e := PassedEntry(p, leaf, i, prev, prevKey);
      es := es + [e];
      prev, prevKey := GetOffset(p, i + 1), e.key;
      i := i + 1;
    }
    ok := true;
    CheckedStored(p, leaf, es, prev, prevKey);
  }

  lemma {:induction false} CheckedShape(p: Bytes, leaf: bool, es: seq<Entry>, prev: nat, prevKey: Bytes)
    requires Checked(p, leaf, es, prev, prevKey)
    ensures |p| == PAGE_SIZE && HasIndex(p)
  {
  }

  lemma {:induction false} CheckedStored(p: Bytes, leaf: bool, es: seq<Entry>, prev: nat, prevKey: Bytes)
    requires Checked(p, leaf, es, prev, prevKey) && |es| == KeyCount(p)
    ensures Stored(p, Node(leaf, es))
  {
    hide Records, Pointers, Offsets, Header, Less, Payload;
    RecordsSize(es);
    forall i | 0 <= i < |es|
      ensures ValidEntry(leaf, i, es[i])
    {
      assert Storable(leaf, i, es[i]);
    }
  }

  /** The header of a page without entries read. */
  lemma {:induction false} HeaderIs(p: Bytes, leaf: bool)
    requires |p| == PAGE_SIZE && p[..4] == MAGIC && Word(p, 4, 2) == FORMAT && NodeType(p) == Kind(leaf)
    requires HasIndex(p)
    ensures Checked(p, leaf, [], 0, [])
  {
    hide LE, Word;
    WordIs(p, 4, 2);
    WordIs(p, 6, 2);
    WordIs(p, 8, 2);
    AtJoin(p, 0, MAGIC, LE(FORMAT, 2));
    AtJoin(p, 0, MAGIC + LE(FORMAT, 2), LE(Kind(leaf), 2));
    AtJoin(p, 0, MAGIC + LE(FORMAT, 2) + LE(Kind(leaf), 2), LE(KeyCount(p), 2));
    NoParts();
  }

  lemma {:induction false} StoredHeader(p: Bytes, n: Node)
    requires Stored(p, n)
    ensures |p| == PAGE_SIZE && p[..4] == MAGIC && Word(p, 4, 2) == FORMAT && NodeType(p) == Kind(n.leaf)
    ensures KeyCount(p) == |n.entries| && HasIndex(p)
    ensures forall i :: 0 <= i < |n.entries| ==> (GetPtr(p, i) == 0 <==> n.leaf)
  {
    hide Records, Pointers, Offsets, Header, Less, Payload, Word, LE, Parts;
    HeaderReads(p, n.leaf, |n.entries|);
    RecordsSize(n.entries);
    forall i | 0 <= i < |n.entries|
      ensures GetPtr(p, i) == 0 <==> n.leaf
    {
      StoredShows(p, n, i);
      assert ValidEntry(n.leaf, i, n.entries[i]);
    }
  }

  method ScanPage(p: Bytes, ghost want: Option<Node>) returns (ok: bool, ghost n: Node)
    requires want.Some? ==> Stored(p, want.value)
    ensures want.Some? ==> ok
    ensures ok ==> Stored(p, n)
  {
    hide Stored, Checked, Word, GetPtr;
    n := Node(true, []);
    if want.Some? {
      StoredHeader(p, want.value);
    }
    if |p| != PAGE_SIZE || p[..4] != MAGIC || Word(p, 4, 2) != FORMAT {
      ok := false;
      return;
    }
    if NodeType(p) != NODE_LEAF && NodeType(p) != NODE_INTERNAL {
      ok := false;
      return;
    }
    if HEADER_SIZE + 10 * KeyCount(p) > PAGE_SIZE {
      ok := false;
      return;
    }
    var leaf := NodeType(p) == NODE_LEAF;
    ok := CheckPointers(p, leaf);
    if ok {
      HeaderIs(p, leaf);
      ghost var es;
      ok, es := CheckRecords(p, leaf, want);
      n := Node(leaf, es);
    }
  }

  /** The check accepts exactly the pages that store a valid node. */
  method ValidatePage(p: Bytes) returns (ok: bool)
    ensures ok <==> exists n :: Stored(p, n)
  {
    hide Stored;
    ghost var want := if exists n :: Stored(p, n) then (var n :| Stored(p, n); Some(n)) else None;
    ghost var n;
    ok, n := ScanPage(p, want);
  }

  /** Decoding inverts storing, and refuses every page that stores nothing. */
  method DecodePage(p: Bytes) returns (r: Option<Node>)
    ensures r.Some? ==> Stored(p, r.value)
    ensures r.None? ==> forall n :: !Stored(p, n)
  {
    hide Stored, Word, HasRecord, HasIndex;
    var ok := ValidatePage(p);
    if !ok {
      return None;
    }
    ghost var n :| Stored(p, n);
    StoredReads(p, n);
    var entries: seq<Entry> := [];
    var i := 0;
    while i < KeyCount(p)
      invariant 0 <= i <= KeyCount(p)
      invariant entries == n.entries[..i]
    {
      TakeStep(n.entries, i);
      entries := entries + [Entry(GetKey(p, i), GetVal(p, i), GetPtr(p, i))];
      i := i + 1;
    }
    TakeAll(n.entries);
    r := Some(Node(NodeType(p) == NODE_LEAF, entries));
  }

  method Fill(node: array<Byte>, leaf: bool, entries: seq<Entry>) returns (ok: bool)
    requires Laid(node[..], leaf, |entries|, [])
    requires forall e :: e in entries ==> e.ptr < Pow256(8)
    modifies node
    ensures ok <==> Takes(leaf, |entries|, node.Length, [], entries)
    ensures ok ==> Laid(node[..], leaf, |entries|, entries)
  {
    hide Laid, Takes, Pow256, Records, ValidEntry;
    TakesNone(leaf, |entries|, node.Length, [], entries);
    var i := 0;
    while i < |entries|
      invariant 0 <= i <= |entries|
      invariant Laid(node[..], leaf, |entries|, [] + entries[..i])
      invariant Takes(leaf, |entries|, node.Length, [], entries[..i])
    {
      TakesStep(leaf, |entries|, node.Length, [], entries, i);
      TakeAll([] + entries[..i]);
      ok := AppendKV(node, i, entries[i].ptr, entries[i].key, entries[i].value, leaf, |entries|, [] + entries[..i]);
      if !ok {
        return;
      }
      i := i + 1;
    }
    TakeAll(entries);
    assert [] + entries == entries;
    ok := true;
  }

  /** The node-level rule for encoding is the byte-level one. */
  lemma {:induction false} EncodeIsTakes(leaf: bool, entries: seq<Entry>, capacity: nat)
    ensures Encode(leaf, entries, capacity).Some? <==> Takes(leaf, |entries|, capacity, [], entries)
  {
    hide Records, Payload, ValidEntry;
    RecordsSize(entries);
    assert [] + entries == entries;
    assert Admissible(leaf, 0, entries) <==> forall i :: 0 <= i < |entries| ==> ValidEntry(leaf, i, entries[i]);
  }

  /** A node is encoded exactly when it is valid, on a page that stores it. */
  method EncodePage(n: Node) returns (r: Option<Bytes>)
    requires forall e :: e in n.entries ==> e.ptr < Pow256(8)
    ensures r.Some? <==> ValidNode(n)
    ensures r.Some? ==> Stored(r.value, n)
  {
    hide Laid, Takes, Pow256, Records, ValidNode, Stored;
    EncodeNeeds(n);
    if HEADER_SIZE + 10 * |n.entries| > PAGE_SIZE {
      return None;
    }
    var node := new Byte[PAGE_SIZE](_ => 0);
    SetHeader(node, n.leaf, |n.entries|);
    var ok := Fill(node, n.leaf, n.entries);
    if !ok {
      return None;
    }
    if ValidNode(n) {
      LaidStored(node[..], n);
    }
    ok := ValidatePage(node[..]);
    if !ok {
      return None;
    }
    ghost var p := node[..];
    assert exists m :: Stored(p, m);
    ghost var m :| Stored(p, m);
    LaidIs(node[..], n, m);
    r := Some(node[..]);
  }

  lemma {:induction false} EncodeNeeds(n: Node)
    ensures ValidNode(n) ==> HEADER_SIZE + 10 * |n.entries| <= PAGE_SIZE
    ensures ValidNode(n) ==> Takes(n.leaf, |n.entries|, PAGE_SIZE, [], n.entries)
  {
    hide Records, Payload, ValidEntry, Less;
    RecordsSize(n.entries);
    assert [] + n.entries == n.entries;
    if ValidNode(n) {
      assert Admissible(n.leaf, 0, n.entries);
    }
  }

  lemma {:induction false} LaidStored(p: Bytes, n: Node)
    requires |p| == PAGE_SIZE && Laid(p, n.leaf, |n.entries|, n.entries) && ValidNode(n)
    ensures Stored(p, n)
  {
  }

  lemma {:induction false} LaidIs(p: Bytes, n: Node, m: Node)
    requires Laid(p, n.leaf, |n.entries|, n.entries) && Stored(p, m)
    ensures n == m && ValidNode(n)
  {
    LaidOnce(p, n.leaf, n.entries, m.leaf, m.entries);
  }
}
