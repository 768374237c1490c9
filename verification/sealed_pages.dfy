/**
 Pages that carry a checksum of themselves: the nodes of the stored free list and the
 two metadata slots. The checksum is any function of the page with its own field zeroed.
 */
module SealedPages {
  import opened ByteStrings
  import opened Entries
  import opened Codecs
  import opened PageBytes
  import opened PageLoading
  import opened FreeLists
  import PageNodes

  const PAGE_SIZE: nat := PageNodes.PAGE_SIZE

  type Word32 = n: nat | n < 0x1_0000_0000

  type Checksum = Bytes -> Word32

  const LIST_MAGIC: Bytes := [0x47, 0x44, 0x46, 0x4C]
  const LIST_VERSION := 1
  const LIST_HEADER := 32
  const LIST_CHECKSUM := 24

  const SLOT_MAGIC: Bytes := [0x47, 0x44, 0x42, 0x4D]
  const SLOT_VERSION := 3
  const SLOT_WORDS := 8
  const SLOT_CHECKSUM := 72

  // ----- Runs of 64-bit words

  function Words(ids: seq<nat>): (b: Bytes)
    ensures |b| == 8 * |ids|
  {
    if ids == [] then [] else Words(ids[..|ids| - 1]) + LE(ids[|ids| - 1], 8)
  }

  lemma {:induction false} WordsAppend(ids: seq<nat>, id: nat)
    ensures Words(ids + [id]) == Words(ids) + LE(id, 8)
  {
    assert (ids + [id])[..|ids|] == ids;
  }

  lemma {:induction false} WordsPart(ids: seq<nat>, i: nat)
    requires i < |ids|
    ensures Words(ids)[8 * i..8 * i + 8] == LE(ids[i], 8)
    decreases |ids|
  {
    var init := ids[..|ids| - 1];
    if i < |init| {
      WordsPart(init, i);
      assert Words(ids)[8 * i..8 * i + 8] == Words(init)[8 * i..8 * i + 8];
    }
  }

  ghost predicate Wide(ids: seq<nat>) {
    forall i :: 0 <= i < |ids| ==> ids[i] < Pow256(8)
  }

  lemma {:induction false} WordsRead(p: Bytes, at: nat, ids: seq<nat>, i: nat)
    requires At(p, at, Words(ids)) && i < |ids| && Wide(ids)
    ensures Word(p, at + 8 * i, 8) == ids[i]
  {
    hide Pow256, LE, FromLE;
    WordsPart(ids, i);
    AtPart(p, at, Words(ids), 8 * i, 8 * i + 8);
    WordAt(p, at + 8 * i, ids[i], 8);
  }

  lemma {:induction false} WordsGrow(p: Bytes, at: nat, ids: seq<nat>)
    requires At(p, at, Words(ids)) && Wide(ids) && at + 8 * |ids| + 8 <= |p|
    ensures var next := Word(p, at + 8 * |ids|, 8);
            At(p, at, Words(ids + [next])) && Wide(ids + [next])
  {
    hide Pow256, LE, Word;
    var next := Word(p, at + 8 * |ids|, 8);
    WordIs(p, at + 8 * |ids|, 8);
    WordsAppend(ids, next);
    AtJoin(p, at, Words(ids), LE(next, 8));
  }

  lemma {:induction false} WordsAre(p: Bytes, at: nat, ids: seq<nat>)
    requires at + 8 * |ids| <= |p|
    requires forall i :: 0 <= i < |ids| ==> ids[i] == Word(p, at + 8 * i, 8)
    ensures At(p, at, Words(ids)) && Wide(ids)
  {
    hide Pow256, LE, Word;
    if ids != [] {
      var init := ids[..|ids| - 1];
      WordsAre(p, at, init);
      WordsGrow(p, at, init);
      assert ids == init + [ids[|ids| - 1]];
    }
  }

  // ----- The seal

  const ZEROS: Bytes := [0, 0, 0, 0]

  ghost predicate Sealed(crc: Checksum, p: Bytes, at: nat) {
    at + 4 <= |p| && At(p, at, LE(crc(Splice(p, at, ZEROS)), 4))
  }

  lemma {:induction false} Pow256Four()
    ensures Pow256(4) == 0x1_0000_0000
  {
    assert Pow256(1) == 256 && Pow256(2) == 0x1_0000 && Pow256(3) == 0x100_0000;
  }

  /** What a reader compares is what a writer wrote. */
  lemma {:induction false} SealedReads(crc: Checksum, p: Bytes, at: nat)
    requires at + 4 <= |p|
    ensures Sealed(crc, p, at) <==> Word(p, at, 4) == crc(Splice(p, at, ZEROS))
  {
    hide LE, Word, Splice;
    Pow256Four();
    WordIs(p, at, 4);
    if Sealed(crc, p, at) {
      WordAt(p, at, crc(Splice(p, at, ZEROS)), 4);
    }
  }

  /** Writing the checksum of a page whose checksum field is zero seals it. */
  lemma {:induction false} SealSeals(crc: Checksum, p: Bytes, at: nat)
    requires At(p, at, ZEROS)
    ensures Sealed(crc, Splice(p, at, LE(crc(p), 4)), at)
  {
    hide LE;
    var q := Splice(p, at, LE(crc(p), 4));
    SpliceAt(p, at, LE(crc(p), 4));
    assert p == Splice(q, at, ZEROS) by {
      assert p[at..at + 4] == ZEROS;
      forall k | 0 <= k < |p|
        ensures p[k] == Splice(q, at, ZEROS)[k]
      {
        if at <= k < at + 4 {
          assert p[at..at + 4][k - at] == ZEROS[k - at];
        }
      }
    }
  }

  // ----- Free-list nodes

  function ListHead(n: ListNode): (b: Bytes)
    ensures |b| == 24
  {
    LIST_MAGIC + LE(LIST_VERSION, 2) + LE(|n.pageIDs|, 2) + LE(n.nextPageID, 8) + LE(n.sequence, 8)
  }

  ghost predicate ListWide(n: ListNode) {
    n.nextPageID < Pow256(8) && n.sequence < Pow256(8) && Wide(n.pageIDs)
  }

  ghost predicate ListStored(crc: Checksum, p: Bytes, n: ListNode) {
    && |p| == PAGE_SIZE
    && At(p, 0, ListHead(n))
    && At(p, LIST_HEADER, Words(n.pageIDs))
    && Sealed(crc, p, LIST_CHECKSUM)
    && ValidListNode(n) && ListWide(n)
  }

  lemma {:induction false} ListHeadReads(p: Bytes, n: ListNode)
    requires At(p, 0, ListHead(n)) && ListWide(n) && |n.pageIDs| <= CAPACITY
    ensures p[..4] == LIST_MAGIC && Word(p, 4, 2) == LIST_VERSION && Word(p, 6, 2) == |n.pageIDs|
    ensures Word(p, 8, 8) == n.nextPageID && Word(p, 16, 8) == n.sequence
  {
    hide LE, Word, Pow256;
    var h := ListHead(n);
    AtPart(p, 0, h, 0, 4);
    AtPart(p, 0, h, 4, 6);
    AtPart(p, 0, h, 6, 8);
    AtPart(p, 0, h, 8, 16);
    AtPart(p, 0, h, 16, 24);
    assert h[..4] == LIST_MAGIC && h[4..6] == LE(LIST_VERSION, 2) && h[6..8] == LE(|n.pageIDs|, 2);
    assert h[8..16] == LE(n.nextPageID, 8) && h[16..24] == LE(n.sequence, 8);
    Pow256Two();
    WordAt(p, 4, LIST_VERSION, 2);
    WordAt(p, 6, |n.pageIDs|, 2);
    WordAt(p, 8, n.nextPageID, 8);
    WordAt(p, 16, n.sequence, 8);
  }

  lemma {:induction false} ListHeadIs(p: Bytes, n: ListNode)
    requires |p| == PAGE_SIZE && p[..4] == LIST_MAGIC && Word(p, 4, 2) == LIST_VERSION
    requires Word(p, 6, 2) == |n.pageIDs| && Word(p, 8, 8) == n.nextPageID && Word(p, 16, 8) == n.sequence
    ensures At(p, 0, ListHead(n)) && n.nextPageID < Pow256(8) && n.sequence < Pow256(8)
  {
    hide LE, Word, Pow256;
    WordIs(p, 4, 2);
    WordIs(p, 6, 2);
    WordIs(p, 8, 8);
    WordIs(p, 16, 8);
    var a := LIST_MAGIC + LE(LIST_VERSION, 2);
    AtJoin(p, 0, LIST_MAGIC, LE(LIST_VERSION, 2));
    AtJoin(p, 0, a, LE(|n.pageIDs|, 2));
    AtJoin(p, 0, a + LE(|n.pageIDs|, 2), LE(n.nextPageID, 8));
    AtJoin(p, 0, a + LE(|n.pageIDs|, 2) + LE(n.nextPageID, 8), LE(n.sequence, 8));
  }

  /** A page stores at most one list node, and never a list node and a tree node both. */
  lemma {:induction false} ListStoredOnce(crc: Checksum, p: Bytes, n: ListNode)
    requires ListStored(crc, p, n)
    ensures forall m :: ListStored(crc, p, m) ==> m == n
    ensures forall t :: !Stored(p, t)
  {
    hide LE, Word, Pow256, Words, Sealed, ListHead;
    ListHeadReads(p, n);
    assert LIST_MAGIC[2] != MAGIC[2];
    forall m | ListStored(crc, p, m)
      ensures m == n
    {
      ListHeadReads(p, m);
      forall i | 0 <= i < |n.pageIDs|
        ensures m.pageIDs[i] == n.pageIDs[i]
      {
        WordsRead(p, LIST_HEADER, n.pageIDs, i);
        WordsRead(p, LIST_HEADER, m.pageIDs, i);
      }
      assert m.pageIDs == n.pageIDs;
    }
    forall t | Stored(p, t)
      ensures false
    {
      StoredHeader(p, t);
    }
  }

  /** A list page holds as many ids as there is room for. */
  lemma {:induction false} ListRoom(n: nat)
    ensures LIST_HEADER + 8 * n <= PAGE_SIZE <==> n <= CAPACITY
  {
  }

  method PutWords(page: array<Byte>, at: nat, ids: seq<nat>) returns (ok: bool)
    requires at + 8 * |ids| <= page.Length
    modifies page
    ensures ok <==> forall i :: 0 <= i < |ids| ==> ids[i] != 0
    ensures ok ==> page[..] == Splice(old(page[..]), at, Words(ids))
  {
    hide LE, Splice, Words;
    var i := 0;
    assert page[..] == Splice(page[..], at, Words(ids[..0])) by { SpliceNothing(page[..], at, ids); }
    while i < |ids|
      invariant 0 <= i <= |ids|
      invariant forall j :: 0 <= j < i ==> ids[j] != 0
      invariant page[..] == Splice(old(page[..]), at, Words(ids[..i]))
    {
      if ids[i] == 0 {
        return false;
      }
      SpliceTwice(old(page[..]), at, Words(ids[..i]), LE(ids[i], 8));
      TakeStep(ids, i);
      WordsAppend(ids[..i], ids[i]);
      CopyInto(page, at + 8 * i, LE(ids[i], 8));
      i := i + 1;
    }
    TakeAll(ids);
    ok := true;
  }

  lemma {:induction false} SpliceNothing(p: Bytes, at: nat, ids: seq<nat>)
    requires at <= |p|
    ensures p == Splice(p, at, Words(ids[..0]))
  {
  }

  method PutListHead(page: array<Byte>, n: ListNode)
    requires page.Length == PAGE_SIZE
    modifies page
    ensures page[..] == Splice(old(page[..]), 0, ListHead(n))
  {
    hide LE, Splice;
    ghost var p := page[..];
    ghost var a := LIST_MAGIC + LE(LIST_VERSION, 2);
    CopyInto(page, 0, LIST_MAGIC);
    SpliceTwice(p, 0, LIST_MAGIC, LE(LIST_VERSION, 2));
    CopyInto(page, 4, LE(LIST_VERSION, 2));
    SpliceTwice(p, 0, a, LE(|n.pageIDs|, 2));
    CopyInto(page, 6, LE(|n.pageIDs|, 2));
    SpliceTwice(p, 0, a + LE(|n.pageIDs|, 2), LE(n.nextPageID, 8));
    CopyInto(page, 8, LE(n.nextPageID, 8));
    SpliceTwice(p, 0, a + LE(|n.pageIDs|, 2) + LE(n.nextPageID, 8), LE(n.sequence, 8));
    CopyInto(page, 16, LE(n.sequence, 8));
  }

  function Blank(): (p: Bytes)
    ensures |p| == PAGE_SIZE
  {
    seq(PAGE_SIZE, _ => 0)
  }

  lemma {:induction false} BlankZeros(at: nat)
    requires at + 4 <= PAGE_SIZE
    ensures At(Blank(), at, ZEROS)
  {
  }

  lemma {:induction false} ListWritten(crc: Checksum, n: ListNode)
    requires ValidListNode(n) && ListWide(n)
    ensures var headed := Splice(Blank(), 0, ListHead(n));
            var filled := Splice(headed, LIST_HEADER, Words(n.pageIDs));
            ListStored(crc, Splice(filled, LIST_CHECKSUM, LE(crc(filled), 4)), n)
  {
    hide LE, Splice, ListHead, Words, Blank, Pow256, At;
    var blank := Blank();
    var headed := Splice(blank, 0, ListHead(n));
    var filled := Splice(headed, LIST_HEADER, Words(n.pageIDs));
    BlankZeros(LIST_CHECKSUM);
    SpliceApart(blank, 0, ListHead(n), LIST_CHECKSUM, ZEROS);
    SpliceApart(headed, LIST_HEADER, Words(n.pageIDs), LIST_CHECKSUM, ZEROS);
    SealSeals(crc, filled, LIST_CHECKSUM);
    SpliceAt(blank, 0, ListHead(n));
    SpliceApart(headed, LIST_HEADER, Words(n.pageIDs), 0, ListHead(n));
    SpliceAt(headed, LIST_HEADER, Words(n.pageIDs));
    var seal := LE(crc(filled), 4);
    SpliceApart(filled, LIST_CHECKSUM, seal, 0, ListHead(n));
    SpliceApart(filled, LIST_CHECKSUM, seal, LIST_HEADER, Words(n.pageIDs));
  }

  /** A list node is written exactly when it is valid, on a page that stores it. */
  method EncodeListNode(crc: Checksum, n: ListNode) returns (r: Option<Bytes>)
    requires ListWide(n)
    ensures r.Some? <==> ValidListNode(n)
    ensures r.Some? ==> ListStored(crc, r.value, n)
  {
    hide LE, Splice, ListHead, Words, ListWide, ListStored;
    if |n.pageIDs| == 0 || |n.pageIDs| > CAPACITY {
      return None;
    }
    var page := new Byte[PAGE_SIZE](_ => 0);
    assert page[..] == Blank();
    PutListHead(page, n);
    var ok := PutWords(page, LIST_HEADER, n.pageIDs);
    if !ok {
      return None;
    }
    ListWritten(crc, n);
    CopyInto(page, LIST_CHECKSUM, LE(crc(page[..]), 4));
    r := Some(page[..]);
  }

  /** Reading accepts exactly the pages that store a valid list node, and returns that node. */
  method DecodeListNode(crc: Checksum, p: Bytes) returns (r: Option<ListNode>)
    ensures r.Some? ==> ListStored(crc, p, r.value)
    ensures r.None? ==> forall n :: !ListStored(crc, p, n)
  {
    ghost var want := if exists n :: ListStored(crc, p, n) then (var n :| ListStored(crc, p, n); Some(n)) else None;
    r := ScanListNode(crc, p, want);
  }

  lemma {:induction false} ListShows(crc: Checksum, p: Bytes, n: ListNode)
    requires ListStored(crc, p, n)
    ensures |p| == PAGE_SIZE && p[..4] == LIST_MAGIC && Word(p, 4, 2) == LIST_VERSION
    ensures Word(p, 6, 2) == |n.pageIDs| && 1 <= |n.pageIDs| <= CAPACITY
    ensures Word(p, LIST_CHECKSUM, 4) == crc(Splice(p, LIST_CHECKSUM, ZEROS))
    ensures forall i :: 0 <= i < |n.pageIDs| ==> Word(p, LIST_HEADER + 8 * i, 8) != 0
  {
    hide LE, Word, Splice, Words, ListHead, Pow256;
    ListHeadReads(p, n);
    SealedReads(crc, p, LIST_CHECKSUM);
    forall i | 0 <= i < |n.pageIDs|
      ensures Word(p, LIST_HEADER + 8 * i, 8) != 0
    {
      WordsRead(p, LIST_HEADER, n.pageIDs, i);
    }
  }

  method ScanListNode(crc: Checksum, p: Bytes, ghost want: Option<ListNode>) returns (r: Option<ListNode>)
    requires want.Some? ==> ListStored(crc, p, want.value)
    ensures want.Some? ==> r.Some?
    ensures r.Some? ==> ListStored(crc, p, r.value)
  {
    hide LE, Word, Splice, Words, ListHead, Pow256, Sealed;
    if want.Some? {
      ListShows(crc, p, want.value);
    }
    if |p| != PAGE_SIZE || p[..4] != LIST_MAGIC || Word(p, 4, 2) != LIST_VERSION {
      return None;
    }
    if crc(Splice(p, LIST_CHECKSUM, ZEROS)) != Word(p, LIST_CHECKSUM, 4) {
      return None;
    }
    var count := Word(p, 6, 2);
    if count == 0 || count > CAPACITY {
      return None;
    }
    SealedReads(crc, p, LIST_CHECKSUM);
    var ids: seq<nat> := [];
    NoWords(p, LIST_HEADER);
    while |ids| < count
      invariant |ids| <= count
      invariant At(p, LIST_HEADER, Words(ids)) && Wide(ids)
      invariant forall i :: 0 <= i < |ids| ==> ids[i] != 0
    {
      WordsGrow(p, LIST_HEADER, ids);
      var id := Word(p, LIST_HEADER + 8 * |ids|, 8);
      if id == 0 {
        return None;
      }
      ids := ids + [id];
    }
    var n := ListNode(Word(p, 8, 8), Word(p, 16, 8), ids);
    ListHeadIs(p, n);
    r := Some(n);
  }

  lemma {:induction false} NoWords(p: Bytes, at: nat)
    requires at <= |p|
    ensures At(p, at, Words([])) && Wide([])
  {
  }

  // ----- Metadata slots

  function SlotWords(m: RootMetadata): (s: seq<nat>)
    ensures |s| == SLOT_WORDS
  {
    [m.generation, m.rootPageID, m.pageCount, m.freeListHeadPageID, m.freeListTailPageID,
     m.headSequence, m.tailSequence, m.maxSequence]
  }

  ghost predicate SlotStored(crc: Checksum, p: Bytes, m: RootMetadata) {
    && |p| == PAGE_SIZE
    && At(p, 0, SLOT_MAGIC + LE(SLOT_VERSION, 2))
    && At(p, 8, Words(SlotWords(m)))
    && Sealed(crc, p, SLOT_CHECKSUM)
    && Wide(SlotWords(m))
  }

  lemma {:induction false} SlotReads(crc: Checksum, p: Bytes, m: RootMetadata)
    requires SlotStored(crc, p, m)
    ensures p[..4] == SLOT_MAGIC && Word(p, 4, 2) == SLOT_VERSION
    ensures Word(p, SLOT_CHECKSUM, 4) == crc(Splice(p, SLOT_CHECKSUM, ZEROS))
    ensures m == ReadSlot(p)
  {
    hide LE, Word, Splice, Words, Pow256;
    var h := SLOT_MAGIC + LE(SLOT_VERSION, 2);
    AtPart(p, 0, h, 0, 4);
    AtPart(p, 0, h, 4, 6);
    assert h[..4] == SLOT_MAGIC && h[4..6] == LE(SLOT_VERSION, 2);
    Pow256Two();
    WordAt(p, 4, SLOT_VERSION, 2);
    SealedReads(crc, p, SLOT_CHECKSUM);
    var w := SlotWords(m);
    WordsRead(p, 8, w, 0);
    WordsRead(p, 8, w, 1);
    WordsRead(p, 8, w, 2);
    WordsRead(p, 8, w, 3);
    WordsRead(p, 8, w, 4);
    WordsRead(p, 8, w, 5);
    WordsRead(p, 8, w, 6);
    WordsRead(p, 8, w, 7);
  }

  function ReadSlot(p: Bytes): RootMetadata
    requires |p| == PAGE_SIZE
  {
    RootMetadata(Word(p, 8, 8), Word(p, 16, 8), Word(p, 24, 8), Word(p, 32, 8), Word(p, 40, 8),
                 Word(p, 48, 8), Word(p, 56, 8), Word(p, 64, 8))
  }

  lemma {:induction false} SlotIs(crc: Checksum, p: Bytes)
    requires |p| == PAGE_SIZE && p[..4] == SLOT_MAGIC && Word(p, 4, 2) == SLOT_VERSION
    requires Word(p, SLOT_CHECKSUM, 4) == crc(Splice(p, SLOT_CHECKSUM, ZEROS))
    ensures SlotStored(crc, p, ReadSlot(p))
  {
    hide LE, Word, Splice, Words, Pow256, Wide;
    WordIs(p, 4, 2);
    AtJoin(p, 0, SLOT_MAGIC, LE(SLOT_VERSION, 2));
    SealedReads(crc, p, SLOT_CHECKSUM);
    var w := SlotWords(ReadSlot(p));
    WordsAre(p, 8, w);
  }

  lemma {:induction false} SlotWritten(crc: Checksum, m: RootMetadata)
    requires Wide(SlotWords(m))
    ensures var headed := Splice(Blank(), 0, SLOT_MAGIC + LE(SLOT_VERSION, 2));
            var filled := Splice(headed, 8, Words(SlotWords(m)));
            SlotStored(crc, Splice(filled, SLOT_CHECKSUM, LE(crc(filled), 4)), m)
  {
    hide LE, Splice, Words, SlotWords, Blank, Pow256, At;
    var blank, h, w := Blank(), SLOT_MAGIC + LE(SLOT_VERSION, 2), Words(SlotWords(m));
    var headed := Splice(blank, 0, h);
    var filled := Splice(headed, 8, w);
    BlankZeros(SLOT_CHECKSUM);
    SpliceApart(blank, 0, h, SLOT_CHECKSUM, ZEROS);
    SpliceApart(headed, 8, w, SLOT_CHECKSUM, ZEROS);
    SealSeals(crc, filled, SLOT_CHECKSUM);
    SpliceAt(blank, 0, h);
    SpliceApart(headed, 8, w, 0, h);
    SpliceAt(headed, 8, w);
    var seal := LE(crc(filled), 4);
    SpliceApart(filled, SLOT_CHECKSUM, seal, 0, h);
    SpliceApart(filled, SLOT_CHECKSUM, seal, 8, w);
  }

  method EncodeSlot(crc: Checksum, m: RootMetadata) returns (p: Bytes)
    requires Wide(SlotWords(m))
    ensures SlotStored(crc, p, m)
  {
    hide LE, Splice, SlotStored, Words, SlotWords, Wide;
    var page := new Byte[PAGE_SIZE](_ => 0);
    ghost var blank := Blank();
    assert page[..] == blank;
    CopyInto(page, 0, SLOT_MAGIC);
    SpliceTwice(blank, 0, SLOT_MAGIC, LE(SLOT_VERSION, 2));
    CopyInto(page, 4, LE(SLOT_VERSION, 2));
    CopyInto(page, 8, Words(SlotWords(m)));
    SlotWritten(crc, m);
    CopyInto(page, SLOT_CHECKSUM, LE(crc(page[..]), 4));
    p := page[..];
  }

  /** Reading accepts exactly the pages that store a metadata record, and returns that record. */
  method DecodeSlot(crc: Checksum, p: Bytes) returns (r: Option<RootMetadata>)
    ensures r.Some? ==> SlotStored(crc, p, r.value)
    ensures forall m :: SlotStored(crc, p, m) ==> r == Some(m)
  {
    hide LE, Word, Splice, Words;
    forall m | SlotStored(crc, p, m)
      ensures |p| == PAGE_SIZE && p[..4] == SLOT_MAGIC && Word(p, 4, 2) == SLOT_VERSION
      ensures Word(p, SLOT_CHECKSUM, 4) == crc(Splice(p, SLOT_CHECKSUM, ZEROS)) && m == ReadSlot(p)
    {
      SlotReads(crc, p, m);
    }
    if |p| != PAGE_SIZE || p[..4] != SLOT_MAGIC || Word(p, 4, 2) != SLOT_VERSION {
      return None;
    }
    if Word(p, SLOT_CHECKSUM, 4) != crc(Splice(p, SLOT_CHECKSUM, ZEROS)) {
      return None;
    }
    SlotIs(crc, p);
    r := Some(ReadSlot(p));
  }
}
