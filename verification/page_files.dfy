/**
 The database file under failures. What has been written but not synced may be kept, lost
 or torn by a crash; a metadata slot may then hold any of the records it could hold.
 */
module PageFiles {
  import opened PageTrees
  import opened PageManagers
  import opened PageUpdates
  import opened PageLoading
  import opened FreeLists
  import opened Recovery

  /**
   `slots`, `pages` and `size` are what the running process reads. `maybe` holds, for each
   slot, what a crash may leave there; `dirty` the pages written since the last sync; `low`
   the number of pages that a crash leaves at least.
   */
  datatype Disk = Disk(slots: seq<Slot>, maybe: seq<set<Slot>>, pages: Pages, size: nat, dirty: set<nat>, low: nat)

  ghost predicate DiskOk(d: Disk) {
    && |d.slots| == 2 && |d.maybe| == 2 && d.slots[0] in d.maybe[0] && d.slots[1] in d.maybe[1]
    && WholePages(d.pages, d.size) && d.low <= d.size
  }

  /** A file that a crash can leave: unsynced pages hold anything at all. */
  ghost predicate CrashView(d: Disk, w: View) {
    && WholeFile(w) && |d.maybe| == 2
    && w.slots[0] in d.maybe[0] && w.slots[1] in d.maybe[1]
    && d.low <= w.size
    && forall x :: 1 <= x <= d.low && x !in d.dirty ==> x in w.pages && x in d.pages && w.pages[x] == d.pages[x]
  }

  function CacheView(d: Disk): View {
    View(d.slots, d.pages, d.size)
  }

  /** Reading the file without a crash is one of the cases. */
  lemma {:induction false} CacheIsCrashView(d: Disk)
    requires DiskOk(d)
    ensures CrashView(d, CacheView(d))
  {
  }

  /** The file as a crash has left it, all of it durable. */
  function AfterCrash(w: View): Disk
    requires |w.slots| == 2
  {
    Disk(w.slots, [{w.slots[0]}, {w.slots[1]}], w.pages, w.size, {}, w.size)
  }

  // ----- Operations on the file

  function Max(a: nat, b: nat): nat {
    if a < b then b else a
  }

  /** Writes one page, extending the file if the page lies beyond its end. */
  function WriteTo(d: Disk, id: nat, c: Content): Disk {
    d.(pages := map x: nat | 1 <= x <= Max(d.size, id) ::
         if x == id then c else if x in d.pages then d.pages[x] else Junk,
       size := Max(d.size, id), dirty := d.dirty + {id})
  }

  function CutTo(d: Disk, n: nat): Disk {
    d.(pages := map x | x in d.pages && x <= n :: d.pages[x], size := n, low := Min(d.low, n))
  }

  function Synced(d: Disk): Disk
    requires |d.slots| == 2
  {
    d.(maybe := [{d.slots[0]}, {d.slots[1]}], dirty := {}, low := d.size)
  }

  /** Writes a slot; until the next sync a crash may keep the old record, the new one or neither. */
  function WriteSlot(d: Disk, i: nat, s: Slot): Disk
    requires i < |d.slots| && i < |d.maybe|
  {
    d.(slots := d.slots[i := s], maybe := d.maybe[i := d.maybe[i] + {s, Blank}])
  }

  lemma {:induction false} OperationsKeep(d: Disk, id: nat, c: Content, n: nat, i: nat, s: Slot)
    requires DiskOk(d) && id >= 1 && n <= d.size && i < 2
    ensures DiskOk(WriteTo(d, id, c)) && DiskOk(CutTo(d, n)) && DiskOk(Synced(d)) && DiskOk(WriteSlot(d, i, s))
  {
  }

  // ----- Generations that survive any crash

  /** A generation that every crash leaves whole. */
  ghost predicate Safe(d: Disk, g: Gen) {
    Intact(d.pages, d.size, g) && Footprint(g) !! d.dirty && g.m.pageCount <= d.low
  }

  lemma {:induction false} FootprintWithin(pages: Pages, size: nat, g: Gen, x: nat)
    requires Intact(pages, size, g) && x in Footprint(g)
    ensures 1 <= x <= g.m.pageCount && x in pages
  {
    hide Holds, Bag, TreeStore, EntriesOf, Distinct;
    if x in Live(g.v) {
      assert x in VersionBag(g.v);
      HeldHas(g.v, g.m.rootPageID, pages, x);
    } else {
      assert x in g.l.pages;
      var i :| 0 <= i < |g.l.pages| && g.l.pages[i] == x;
      assert IsListPage(pages, g.l.pages[i]) && Listable(g.m, g.l.pages[i]);
    }
  }

  lemma {:induction false} HeldHas(v: Version, root: nat, pages: Pages, x: nat)
    requires Holds(v, root, TreeStore(pages)) && x in VersionBag(v)
    ensures x in pages
  {
    hide Bag, Matches, Sound;
    MatchesHas(TreeStore(pages), v.tree, x);
  }

  lemma {:induction false} SafeCrash(d: Disk, w: View, g: Gen)
    requires Safe(d, g) && CrashView(d, w)
    ensures Intact(w.pages, w.size, g)
  {
    hide Intact;
    assert g.m.pageCount <= w.size;
    forall x | x in Footprint(g) ensures x in w.pages && x in d.pages && d.pages[x] == w.pages[x] {
      FootprintWithin(d.pages, d.size, g, x);
    }
    IntactFrame(d.pages, w.pages, d.size, w.size, g);
  }

  lemma {:induction false} SafeWrite(d: Disk, id: nat, c: Content, g: Gen)
    requires DiskOk(d) && Safe(d, g) && id >= 1 && id !in Footprint(g)
    ensures Safe(WriteTo(d, id, c), g)
  {
    hide Intact;
    var d' := WriteTo(d, id, c);
    forall x | x in Footprint(g) ensures x in d'.pages && x in d.pages && d.pages[x] == d'.pages[x] {
      FootprintWithin(d.pages, d.size, g, x);
    }
    IntactFrame(d.pages, d'.pages, d.size, d'.size, g);
  }

  lemma {:induction false} SafeCut(d: Disk, n: nat, g: Gen)
    requires DiskOk(d) && Safe(d, g) && g.m.pageCount <= n <= d.size
    ensures Safe(CutTo(d, n), g)
  {
    hide Intact;
    var d' := CutTo(d, n);
    forall x | x in Footprint(g) ensures x in d'.pages && x in d.pages && d.pages[x] == d'.pages[x] {
      FootprintWithin(d.pages, d.size, g, x);
    }
    IntactFrame(d.pages, d'.pages, d.size, d'.size, g);
  }

  lemma {:induction false} SafeSync(d: Disk, g: Gen)
    requires DiskOk(d) && Intact(d.pages, d.size, g)
    ensures Safe(Synced(d), g)
  {
  }

  lemma {:induction false} SafeSlot(d: Disk, i: nat, s: Slot, g: Gen)
    requires DiskOk(d) && Safe(d, g) && i < 2
    ensures Safe(WriteSlot(d, i, s), g)
  {
  }

  lemma {:induction false} SafeAfterCrash(d: Disk, w: View, g: Gen)
    requires Safe(d, g) && CrashView(d, w)
    ensures DiskOk(AfterCrash(w)) && Safe(AfterCrash(w), g)
  {
    hide Intact;
    SafeCrash(d, w, g);
    assert Intact(AfterCrash(w).pages, AfterCrash(w).size, g);
  }
}
