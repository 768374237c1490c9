/**
 The database file as bytes: two metadata pages, then the data pages. What the decoders make
 of each page is the view that recovery works on, and writing encoded pages changes that
 view as the store expects.
 */
module FileBytes {
  import opened ByteStrings
  import opened Entries
  import opened Codecs
  import opened PageNodes
  import opened PageTrees
  import opened PageManagers
  import opened PageLoading
  import opened FreeLists
  import opened Recovery
  import opened PageFiles
  import CommitProtocol
  import PageBytes
  import Seals = SealedPages

  const PAGE: nat := 4096
  const METADATA: nat := 2 * PAGE

  // ----- One page

  /** What a data page holds, whatever its bytes are. */
  ghost function ContentOf(crc: Seals.Checksum, p: Bytes): Content {
    if exists n :: PageBytes.Stored(p, n) then
      var n :| PageBytes.Stored(p, n); TreePage(n)
    else if exists l :: Seals.ListStored(crc, p, l) then
      var l :| Seals.ListStored(crc, p, l); ListPage(l)
    else Junk
  }

  /** What a metadata page holds, whatever its bytes are. */
  ghost function SlotOf(crc: Seals.Checksum, p: Bytes): Slot {
    if exists m :: Seals.SlotStored(crc, p, m) then
      var m :| Seals.SlotStored(crc, p, m); Record(m)
    else Blank
  }

  /** Reads a page with both decoders, which never both accept it. */
  method ReadContent(crc: Seals.Checksum, p: Bytes) returns (c: Content)
    ensures c == ContentOf(crc, p)
  {
    hide PageBytes.Stored, Seals.ListStored;
    var node := PageBytes.DecodePage(p);
    if node.Some? {
      PageBytes.StoredReads(p, node.value);
      return TreePage(node.value);
    }
    var list := Seals.DecodeListNode(crc, p);
    if list.Some? {
      Seals.ListStoredOnce(crc, p, list.value);
      return ListPage(list.value);
    }
    c := Junk;
  }

  method ReadSlot(crc: Seals.Checksum, p: Bytes) returns (s: Slot)
    ensures s == SlotOf(crc, p)
  {
    hide Seals.SlotStored;
    var m := Seals.DecodeSlot(crc, p);
    s := if m.Some? then Record(m.value) else Blank;
  }

  /** An encoded page holds what was encoded. */
  lemma {:induction false} EncodedContent(crc: Seals.Checksum, p: Bytes)
    ensures forall n :: PageBytes.Stored(p, n) ==> ContentOf(crc, p) == TreePage(n)
    ensures forall l :: Seals.ListStored(crc, p, l) ==> ContentOf(crc, p) == ListPage(l)
    ensures forall m :: Seals.SlotStored(crc, p, m) ==> SlotOf(crc, p) == Record(m)
  {
    hide PageBytes.Stored, Seals.ListStored, Seals.SlotStored;
    forall n | PageBytes.Stored(p, n) ensures ContentOf(crc, p) == TreePage(n) {
      PageBytes.StoredReads(p, n);
    }
    forall l | Seals.ListStored(crc, p, l) ensures ContentOf(crc, p) == ListPage(l) {
      Seals.ListStoredOnce(crc, p, l);
    }
    forall m, k | Seals.SlotStored(crc, p, m) && Seals.SlotStored(crc, p, k) ensures m == k {
      Seals.SlotReads(crc, p, m);
      Seals.SlotReads(crc, p, k);
    }
  }

  lemma {:induction false} SlotBytes(crc: Seals.Checksum, p: Bytes, m: RootMetadata)
    requires Seals.SlotStored(crc, p, m)
    ensures |p| == PAGE
  {
  }

  function Zeroed(n: nat): (b: Bytes)
    ensures |b| == n
  {
    seq(n, _ => 0)
  }

  /** A page of zeros, as in a hole of the file, holds nothing. */
  lemma {:induction false} ZeroPage(crc: Seals.Checksum)
    ensures ContentOf(crc, Zeroed(PAGE)) == Junk && SlotOf(crc, Zeroed(PAGE)) == Blank
  {
    hide PageBytes.Stored, Seals.ListStored, Seals.SlotStored;
    var p := Zeroed(PAGE);
    assert p[..4][0] == 0;
    forall n ensures !PageBytes.Stored(p, n) {
      if PageBytes.Stored(p, n) {
        PageBytes.StoredHeader(p, n);
      }
    }
    forall l ensures !Seals.ListStored(crc, p, l) {
      if Seals.ListStored(crc, p, l) {
        Seals.ListShows(crc, p, l);
      }
    }
    forall m ensures !Seals.SlotStored(crc, p, m) {
      if Seals.SlotStored(crc, p, m) {
        Seals.SlotReads(crc, p, m);
      }
    }
  }

  // ----- The whole file

  /** Two metadata pages and some data pages. */
  predicate Aligned(f: Bytes) {
    |f| >= METADATA && (|f| - METADATA) % PAGE == 0
  }

  function Size(f: Bytes): nat
    requires Aligned(f)
  {
    (|f| - METADATA) / PAGE
  }

  function PageAt(f: Bytes, i: nat): (p: Bytes)
    requires PAGE * i + PAGE <= |f|
    ensures |p| == PAGE
  {
    f[PAGE * i..PAGE * i + PAGE]
  }

  /** Data page `x`, behind the metadata pages. */
  function DataPage(f: Bytes, x: nat): (p: Bytes)
    requires 1 <= x && METADATA + PAGE * x <= |f|
    ensures |p| == PAGE
  {
    PageAt(f, x + 1)
  }

  /** What recovery finds in the file. */
  ghost function ViewOf(crc: Seals.Checksum, f: Bytes): (w: View)
    requires Aligned(f)
    ensures WholeFile(w) && w.size == Size(f)
  {
    View([SlotOf(crc, PageAt(f, 0)), SlotOf(crc, PageAt(f, 1))],
         map x: nat | 1 <= x <= Size(f) :: ContentOf(crc, DataPage(f, x)), Size(f))
  }

  /** Reads both slots and every page. */
  method ReadFile(crc: Seals.Checksum, f: Bytes) returns (w: View)
    requires Aligned(f)
    ensures w == ViewOf(crc, f)
  {
    hide ContentOf, SlotOf;
    var first := ReadSlot(crc, PageAt(f, 0));
    var second := ReadSlot(crc, PageAt(f, 1));
    var pages: Pages := map[];
    var size := Size(f);
    var i := 0;
    while i < size
      invariant 0 <= i <= size
      invariant pages == map x: nat | 1 <= x <= i :: ContentOf(crc, DataPage(f, x))
    {
      var c := ReadContent(crc, DataPage(f, i + 1));
      pages := pages[i + 1 := c];
      i := i + 1;
    }
    w := View([first, second], pages, size);
  }

  // ----- Writing

  /** The file with page `i` written; what lies between its end and the page reads as zeros. */
  function WriteAt(f: Bytes, i: nat, p: Bytes): Bytes {
    if PAGE * i + PAGE <= |f| then f[..PAGE * i] + p + f[PAGE * i + PAGE..]
    else if |f| <= PAGE * i then f + Zeroed(PAGE * i - |f|) + p
    else f[..PAGE * i] + p
  }

  lemma {:induction false} WrittenSize(f: Bytes, i: nat, p: Bytes)
    requires Aligned(f) && |p| == PAGE
    ensures var f' := WriteAt(f, i, p); Aligned(f') && Size(f') == if i < 2 then Size(f) else Max(Size(f), i - 1)
  {
    var n := Size(f);
    assert |f| == PAGE * (n + 2);
    var f' := WriteAt(f, i, p);
    if i < n + 2 {
      assert |f'| == |f|;
    } else {
      assert |f'| == PAGE * (i + 1) == METADATA + PAGE * (i - 1);
    }
  }

  lemma {:induction false} WrittenPage(f: Bytes, i: nat, p: Bytes, j: nat)
    requires Aligned(f) && |p| == PAGE && PAGE * j + PAGE <= |WriteAt(f, i, p)|
    ensures PageAt(WriteAt(f, i, p), j)
            == if j == i then p else if PAGE * j + PAGE <= |f| then PageAt(f, j) else Zeroed(PAGE)
  {
    var n := Size(f);
    assert |f| == PAGE * (n + 2);
    var f' := WriteAt(f, i, p);
    if i < n + 2 {
      assert |f'| == |f|;
    } else {
      assert f' == f + Zeroed(PAGE * i - |f|) + p;
    }
  }

  /** The bytes are those of the file that the running process works on. */
  ghost predicate Shows(crc: Seals.Checksum, f: Bytes, d: Disk) {
    Aligned(f) && ViewOf(crc, f) == CacheView(d)
  }

  /** Writing the bytes of a data page is writing what they hold. */
  lemma {:induction false} WritesPage(crc: Seals.Checksum, f: Bytes, d: Disk, id: nat, p: Bytes)
    requires Shows(crc, f, d) && id >= 1 && |p| == PAGE
    ensures Shows(crc, WriteAt(f, id + 1, p), WriteTo(d, id, ContentOf(crc, p)))
  {
    hide ContentOf, SlotOf, WriteAt, PageAt;
    var f', d' := WriteAt(f, id + 1, p), WriteTo(d, id, ContentOf(crc, p));
    WrittenSize(f, id + 1, p);
    WrittenPage(f, id + 1, p, 0);
    WrittenPage(f, id + 1, p, 1);
    ZeroPage(crc);
    forall x: nat | 1 <= x <= Size(f') ensures ContentOf(crc, DataPage(f', x)) == d'.pages[x] {
      WrittenPage(f, id + 1, p, x + 1);
    }
    assert ViewOf(crc, f').pages == d'.pages;
  }

  /** Writing the bytes of a metadata page is writing the record they hold. */
  lemma {:induction false} WritesSlot(crc: Seals.Checksum, f: Bytes, d: Disk, i: nat, p: Bytes)
    requires Shows(crc, f, d) && i < 2 && |p| == PAGE && DiskOk(d)
    ensures Shows(crc, WriteAt(f, i, p), WriteSlot(d, i, SlotOf(crc, p)))
  {
    hide ContentOf, SlotOf, WriteAt, PageAt;
    var f', d' := WriteAt(f, i, p), WriteSlot(d, i, SlotOf(crc, p));
    WrittenSize(f, i, p);
    WrittenPage(f, i, p, 0);
    WrittenPage(f, i, p, 1);
    forall x: nat | 1 <= x <= Size(f') ensures ContentOf(crc, DataPage(f', x)) == d'.pages[x] {
      WrittenPage(f, i, p, x + 1);
      assert d.pages[x] == ContentOf(crc, DataPage(f, x));
    }
    assert ViewOf(crc, f').pages == d'.pages;
    assert ViewOf(crc, f').slots == d'.slots;
  }

  /** Shortening the file drops the pages behind its new end. */
  lemma {:induction false} CutsFile(crc: Seals.Checksum, f: Bytes, d: Disk, n: nat)
    requires Shows(crc, f, d) && n <= d.size
    ensures METADATA + PAGE * n <= |f| && Shows(crc, f[..METADATA + PAGE * n], CutTo(d, n))
  {
    hide ContentOf, SlotOf;
    var f' := f[..METADATA + PAGE * n];
    forall i: nat | PAGE * i + PAGE <= |f'| ensures PageAt(f', i) == PageAt(f, i) {
    }
    assert Size(f') == n;
    assert ViewOf(crc, f').pages == CutTo(d, n).pages;
  }

  /** Encodes and writes a tree page. */
  method WriteNode(crc: Seals.Checksum, f: Bytes, id: nat, n: Node, ghost d: Disk) returns (r: Option<Bytes>)
    requires Shows(crc, f, d) && id >= 1 && forall e :: e in n.entries ==> e.ptr < Pow256(8)
    ensures r.Some? <==> ValidNode(n)
    ensures r.Some? ==> Shows(crc, r.value, WriteTo(d, id, TreePage(n)))
  {
    hide PageBytes.Stored, Shows, ContentOf, SlotOf, ValidNode;
    var p := PageBytes.EncodePage(n);
    if p.None? {
      return None;
    }
    PageBytes.StoredHeader(p.value, n);
    EncodedContent(crc, p.value);
    WritesPage(crc, f, d, id, p.value);
    r := Some(WriteAt(f, id + 1, p.value));
  }

  /** Encodes and writes a page of the free list. */
  method WriteListNode(crc: Seals.Checksum, f: Bytes, id: nat, l: ListNode, ghost d: Disk) returns (r: Option<Bytes>)
    requires Shows(crc, f, d) && id >= 1 && Seals.ListWide(l)
    ensures r.Some? <==> ValidListNode(l)
    ensures r.Some? ==> Shows(crc, r.value, WriteTo(d, id, ListPage(l)))
  {
    hide Seals.ListStored, Shows, ContentOf, SlotOf, ValidListNode, Seals.ListWide;
    var p := Seals.EncodeListNode(crc, l);
    if p.None? {
      return None;
    }
    Seals.ListShows(crc, p.value, l);
    EncodedContent(crc, p.value);
    WritesPage(crc, f, d, id, p.value);
    r := Some(WriteAt(f, id + 1, p.value));
  }

  /** Encodes and writes a metadata record. */
  method WriteRecord(crc: Seals.Checksum, f: Bytes, i: nat, m: RootMetadata, ghost d: Disk) returns (f': Bytes)
    requires Shows(crc, f, d) && DiskOk(d) && i < 2 && Seals.Wide(Seals.SlotWords(m))
    ensures Shows(crc, f', WriteSlot(d, i, Record(m)))
  {
    hide Seals.SlotStored, Shows, ContentOf, SlotOf, Seals.Wide, Seals.SlotWords;
    var p := Seals.EncodeSlot(crc, m);
    SlotBytes(crc, p, m);
    EncodedContent(crc, p);
    WritesSlot(crc, f, d, i, p);
    f' := WriteAt(f, i, p);
  }

  // ----- Opening

  /** A new file: an empty generation in the first metadata page, nothing in the second. */
  method NewFile(crc: Seals.Checksum) returns (f: Bytes)
    ensures Shows(crc, f, CommitProtocol.Init().disk)
  {
    hide ContentOf, SlotOf, Seals.SlotStored;
    var m := RootMetadata(0, 0, 0, 0, 0, 0, 0, 0);
    var p := Seals.EncodeSlot(crc, m);
    EncodedContent(crc, p);
    ZeroPage(crc);
    SlotBytes(crc, p, m);
    f := p + Zeroed(PAGE);
    assert PageAt(f, 0) == p && PageAt(f, 1) == Zeroed(PAGE);
    assert ViewOf(crc, f).pages == map[];
  }

  /**
   Opens a file of any contents. An empty one is created first. It succeeds exactly when the
   size is that of whole pages and some generation passes all checks, and loads that one.
   */
  method OpenFile(crc: Seals.Checksum, f: Bytes)
    returns (f': Bytes, pm: PageManager, pages: Option<Store>, ghost g: Gen)
    ensures if f == [] then Shows(crc, f', CommitProtocol.Init().disk) && pages == Some(map[]) else f' == f
    ensures pages.Some? <==> Aligned(f') && exists u :: Recovers(true, ViewOf(crc, f'), u)
    ensures pages.Some? ==> Recovers(true, ViewOf(crc, f'), g) && pm.Valid() && fresh(pm)
                            && Loads(ViewOf(crc, f'), pm.Snapshot(), pages.value, g)
  {
    hide ViewOf, Recovers, Loads;
    f' := f;
    g := CommitProtocol.NoGen();
    pm := new PageManager(PageManagerState(1, 0, 0, 0, [], [], [], []));
    if f == [] {
      f' := NewFile(crc);
    } else if !Aligned(f) {
      return f', pm, None, g;
    }
    var w := ReadFile(crc, f');
    pm := new PageManager(PageManagerState(w.size + 1, 0, 0, 0, [], [], [], []));
    pages, g := RecoverCommittedPages(w, pm);
    if f == [] {
      FirstOpens(w, pages, pm.Snapshot(), g);
    }
  }

  lemma {:induction false} FirstOpens(w: View, pages: Option<Store>, pm: PageManagerState, g: Gen)
    requires w == CacheView(CommitProtocol.Init().disk)
    requires pages.Some? <==> exists u :: Recovers(true, w, u)
    requires pages.Some? ==> Recovers(true, w, g) && Loads(w, pm, pages.value, g)
    ensures pages == Some(map[])
  {
    hide Owned, Matches, Sound, Unclaimed, Intact, TidyVersion;
    var u := CommitProtocol.NoGen();
    CommitProtocol.NoGenIntact(w.pages, w.size);
    assert Chosen(true, w, 0, u);
    RecoversOnce(true, w, u, g);
  }
}
