/**
 Opening the file. Two metadata slots name at most two generations; the newest one whose
 free list and tree are whole is taken, and every page it does not mention is set aside.
 */
module Recovery {
  import opened Entries
  import opened PageTrees
  import opened PageManagers
  import opened PageUpdates
  import opened PageLoading
  import opened PageLoaders
  import opened FreeLists

  /** A metadata slot: unreadable, or a record whose checksum holds. */
  datatype Slot = Blank | Record(m: RootMetadata)

  /** What a reader finds in the file: both slots and `size` whole pages. */
  datatype View = View(slots: seq<Slot>, pages: Pages, size: nat)

  /** A generation: its metadata, the lists and the tree it stands for. */
  datatype Gen = Gen(m: RootMetadata, l: Lists, v: Version)

  ghost predicate WholePages(pages: Pages, size: nat) {
    forall x: nat :: x in pages <==> 1 <= x <= size
  }

  ghost predicate WholeFile(w: View) {
    |w.slots| == 2 && WholePages(w.pages, w.size)
  }

  function IdSet(s: seq<nat>): set<nat> {
    set x | x in s
  }

  // ----- Generations that are whole in the file

  /** The pages hold the tree of a generation. */
  ghost predicate Shaped(pages: Pages, root: nat, count: nat, free: set<nat>, v: Version) {
    && Holds(v, root, TreeStore(pages))
    && Readable(VersionBag(v), count, free)
  }

  /** What recovery asks of a tree beyond its shape. */
  ghost predicate TidyVersion(v: Version) {
    v.Rooted? ==> Tidy(v.tree) && (v.tree.TInner? ==> |v.tree.kids| >= 2)
  }

  /** The walk accepts a tree if and only if it has the shape and is tidy. */
  lemma {:induction false} StandsWhenTidy(pages: Pages, root: nat, count: nat, free: set<nat>, v: Version)
    ensures Stands(pages, root, count, free, v) <==> Shaped(pages, root, count, free, v) && TidyVersion(v)
  {
    hide Matches, Wf, Tidy, TreeStore, Flat, Bag, Sorted;
  }

  ghost predicate Apart(g: Gen) {
    Live(g.v) !! IdSet(g.l.retired) && Live(g.v) !! IdSet(g.l.pages)
  }

  /** Free list and tree of a generation are whole in the file, and no page has two uses. */
  ghost predicate Intact(pages: Pages, size: nat, g: Gen) {
    && g.m.rootPageID <= g.m.pageCount <= size
    && ListStands(pages, g.m, g.l)
    && Shaped(pages, g.m.rootPageID, g.m.pageCount, IdSet(g.l.free), g.v)
    && Apart(g)
  }

  /** `strict` adds the two occupancy checks that updates do not keep. */
  ghost predicate Opens(strict: bool, pages: Pages, size: nat, g: Gen) {
    Intact(pages, size, g) && (strict ==> TidyVersion(g.v))
  }

  /** The generation chosen: it opens from slot `i`, and none that opens from the other slot is newer. */
  ghost predicate Chosen(strict: bool, w: View, i: nat, g: Gen) {
    && i < |w.slots| && w.slots[i] == Record(g.m) && Opens(strict, w.pages, w.size, g)
    && forall j: nat, u: Gen ::
         j < |w.slots| && j != i && w.slots[j] == Record(u.m) && Opens(strict, w.pages, w.size, u) ==>
           u.m.generation < g.m.generation || (u.m.generation == g.m.generation && i < j)
  }

  ghost predicate Recovers(strict: bool, w: View, g: Gen) {
    exists i: nat :: Chosen(strict, w, i, g)
  }

  /** A record names one generation at most. */
  lemma {:induction false} IntactOnce(pages: Pages, size: nat, g: Gen, u: Gen)
    requires Intact(pages, size, g) && Intact(pages, size, u) && g.m == u.m
    ensures g == u
  {
    hide ListStands, Matches, TreeStore, Sound, Bag;
    ListStandsOnce(pages, g.m, g.l, u.l);
    if g.v.Rooted? && u.v.Rooted? {
      FoundOnce(TreeStore(pages), g.v.tree, u.v.tree);
      SoundHeight(g.v, u.v);
    }
    SoundRoot(g.v);
    SoundRoot(u.v);
  }

  lemma {:induction false} SoundHeight(v: Version, u: Version)
    requires v.Rooted? && u.Rooted? && SoundVersion(v) && SoundVersion(u) && v.tree == u.tree
    ensures v == u
  {
    hide Wf;
    OneHeight(v.tree, v.height, u.height);
  }

  lemma {:induction false} SoundRoot(v: Version)
    requires SoundVersion(v)
    ensures v.Rooted? ==> v.tree.id != 0
  {
  }

  /** What recovery finds is determined by the file. */
  lemma {:induction false} RecoversOnce(strict: bool, w: View, g: Gen, u: Gen)
    requires Recovers(strict, w, g) && Recovers(strict, w, u)
    ensures g == u
  {
    hide Intact;
    var i: nat :| Chosen(strict, w, i, g);
    var j: nat :| Chosen(strict, w, j, u);
    if i == j {
      IntactOnce(w.pages, w.size, g, u);
    } else {
      assert false;
    }
  }

  /**
   If the newest whole generation is tidy, then the occupancy checks make no difference;
   if it is not tidy, then they reject it.
   */
  lemma {:induction false} StrictIffTidy(w: View, g: Gen)
    requires Recovers(false, w, g)
    ensures Recovers(true, w, g) <==> TidyVersion(g.v)
  {
    hide Intact, TidyVersion;
    var i: nat :| Chosen(false, w, i, g);
    if TidyVersion(g.v) {
      forall j: nat, u: Gen | j < |w.slots| && j != i && w.slots[j] == Record(u.m) && Opens(true, w.pages, w.size, u)
        ensures u.m.generation < g.m.generation || (u.m.generation == g.m.generation && i < j)
      {
        assert Opens(false, w.pages, w.size, u);
      }
      assert Chosen(true, w, i, g);
    }
  }

  /** The record of an untidy generation opens nothing. */
  lemma {:induction false} UntidyShut(w: View, g: Gen, u: Gen)
    requires Intact(w.pages, w.size, g) && !TidyVersion(g.v) && u.m == g.m
    ensures !Opens(true, w.pages, w.size, u)
  {
    hide Intact, TidyVersion;
    if Intact(w.pages, w.size, u) {
      IntactOnce(w.pages, w.size, g, u);
    }
  }

  /** An untidy newest generation is passed over for an older one. */
  lemma {:induction false} PassedOver(w: View, g: Gen, found: Gen)
    requires Recovers(false, w, g) && !TidyVersion(g.v) && Recovers(true, w, found) && |w.slots| == 2
    requires w.slots[0].Record? && w.slots[1].Record? ==> w.slots[0].m.generation != w.slots[1].m.generation
    ensures found.m.generation < g.m.generation
  {
    hide TidyVersion, Intact;
    var i: nat :| Chosen(false, w, i, g);
    var j: nat :| Chosen(true, w, j, found);
    if i == j {
      IntactOnce(w.pages, w.size, g, found);
    }
    assert Opens(false, w.pages, w.size, found);
  }

  // ----- A generation depends on its own pages only

  /** The pages a generation reads: those of its tree and those of its free list. */
  ghost function Footprint(g: Gen): set<nat> {
    Live(g.v) + IdSet(g.l.pages)
  }

  ghost predicate SameOn(a: Pages, b: Pages, ids: set<nat>) {
    forall x :: x in ids ==> x in a && x in b && a[x] == b[x]
  }

  lemma {:induction false} IntactFrame(a: Pages, b: Pages, n: nat, n': nat, g: Gen)
    requires Intact(a, n, g) && SameOn(a, b, Footprint(g)) && g.m.pageCount <= n'
    ensures Intact(b, n', g)
  {
    hide Sound, Bag, Matches;
    ListFrame(a, b, g.m, g.l);
    if g.v.Rooted? {
      forall x | x in Bag(g.v.tree)
        ensures x in TreeStore(b) && x in TreeStore(a) && TreeStore(b)[x] == TreeStore(a)[x]
      {
        assert x in Footprint(g);
        MatchesHas(TreeStore(a), g.v.tree, x);
      }
      MatchesOn(TreeStore(a), TreeStore(b), g.v.tree);
    }
  }

  /** Every page of a tree is in the store that holds it. */
  lemma {:induction false} MatchesHas(store: Store, t: Tree, x: nat)
    requires Matches(store, t) && x in Bag(t)
    ensures x in store
    decreases t
  {
    if x != t.id {
      assert t.TInner?;
      assert x in BagAll(t.kids);
      InSomeKid(t.kids, x);
      var i :| 0 <= i < |t.kids| && x in Bag(t.kids[i]);
      KidMatches(store, t, i);
      MatchesHas(store, t.kids[i], x);
    }
  }

  lemma {:induction false} ListFrame(a: Pages, b: Pages, m: RootMetadata, l: Lists)
    requires ListStands(a, m, l) && SameOn(a, b, IdSet(l.pages))
    ensures ListStands(b, m, l)
  {
    if m.freeListHeadPageID != 0 {
      forall i | 0 <= i < |l.pages| ensures a[l.pages[i]] == b[l.pages[i]] && l.pages[i] in b && l.pages[i] in a {
        assert l.pages[i] in IdSet(l.pages);
      }
      forall i | 0 <= i <= |l.pages| ensures EntriesOf(a, l.pages[..i]) == EntriesOf(b, l.pages[..i]) {
        EntriesFrame(a, b, l.pages[..i]);
      }
      TakeAll(l.pages);
      hide Distinct, EntriesOf;
      forall i | 0 <= i < |l.pages| ensures SequenceAt(b, m, l.pages, i) {
        assert SequenceAt(a, m, l.pages, i);
      }
    }
  }

  lemma {:induction false} EntriesFrame(a: Pages, b: Pages, pages: seq<nat>)
    requires forall i :: 0 <= i < |pages| ==> pages[i] in a && pages[i] in b && a[pages[i]] == b[pages[i]]
    ensures EntriesOf(a, pages) == EntriesOf(b, pages)
  {
    if pages != [] {
      EntriesFrame(a, b, pages[..|pages| - 1]);
    }
  }

  // ----- Giving every page an owner

  /** The ids below `next` that are not in `owners`, ascending. */
  function Unclaimed(next: nat, owners: set<nat>): seq<nat> {
    if next <= 1 then []
    else Unclaimed(next - 1, owners) + (if next - 1 in owners then [] else [next - 1])
  }

  lemma {:induction false} UnclaimedCount(next: nat, owners: set<nat>, x: nat)
    ensures multiset(Unclaimed(next, owners))[x] == if 1 <= x < next && x !in owners then 1 else 0
  {
    if next > 1 {
      UnclaimedCount(next - 1, owners, x);
    }
  }

  /** Ids that can all be claimed: allocated, distinct and not claimed yet. */
  ghost predicate Claimable(ids: seq<nat>, next: nat, owners: set<nat>) {
    Distinct(ids) && forall x :: x in ids ==> 1 <= x < next && x !in owners
  }

  method ClaimAll(ids: seq<nat>, next: nat, owners: set<nat>) returns (ok: bool, owners': set<nat>)
    ensures ok <==> Claimable(ids, next, owners)
    ensures ok ==> owners' == owners + IdSet(ids)
  {
    owners' := owners;
    var i := 0;
    while i < |ids|
      invariant 0 <= i <= |ids|
      invariant Claimable(ids[..i], next, owners)
      invariant owners' == owners + IdSet(ids[..i])
    {
      TakeStep(ids, i);
      if ids[i] == 0 || ids[i] >= next || ids[i] in owners' {
        NotClaimable(ids, i, next, owners);
        return false, owners';
      }
      ClaimStep(ids[..i], ids[i], next, owners);
      owners' := owners' + {ids[i]};
      i := i + 1;
    }
    TakeAll(ids);
    ok := true;
  }

  lemma {:induction false} ClaimStep(ids: seq<nat>, x: nat, next: nat, owners: set<nat>)
    requires Claimable(ids, next, owners) && 1 <= x < next && x !in owners && x !in ids
    ensures Claimable(ids + [x], next, owners)
  {
    var bag: multiset<nat> := multiset(ids);
    assert multiset(ids + [x]) == bag + multiset{x};
    assert bag[x] == 0;
    forall y ensures multiset(ids + [x])[y] <= 1 {
      assert bag[y] <= 1;
    }
  }

  lemma {:induction false} NotClaimable(ids: seq<nat>, i: nat, next: nat, owners: set<nat>)
    requires i < |ids| && (ids[i] == 0 || ids[i] >= next || ids[i] in owners + IdSet(ids[..i]))
    ensures !Claimable(ids, next, owners)
  {
    assert ids[i] in ids;
    if ids[i] in ids[..i] {
      assert ids == ids[..i] + ids[i..];
      var a: multiset<nat>, b: multiset<nat> := multiset(ids[..i]), multiset(ids[i..]);
      assert multiset(ids) == a + b;
      assert a[ids[i]] >= 1;
      assert ids[i..][0] == ids[i];
      assert b[ids[i]] >= 1;
      assert multiset(ids)[ids[i]] >= 2;
    }
  }

  /** Every list of page ids that the page manager holds after a restore. */
  ghost function Listed(s: PageManagerState): seq<nat> {
    s.freePageIDs + s.retiredPageIDs + s.freeListPageIDs
  }

  lemma {:induction false} ClaimTwo(a: seq<nat>, b: seq<nat>, next: nat, owners: set<nat>)
    ensures Claimable(a + b, next, owners) <==> Claimable(a, next, owners) && Claimable(b, next, owners + IdSet(a))
  {
    var p: multiset<nat>, q: multiset<nat> := multiset(a), multiset(b);
    assert multiset(a + b) == p + q;
    if Claimable(a + b, next, owners) {
      forall x ensures p[x] <= 1 && q[x] <= 1 {
        assert multiset(a + b)[x] <= 1;
      }
      forall x | x in b ensures 1 <= x < next && x !in owners + IdSet(a) {
        assert x in a + b && q[x] >= 1;
        assert multiset(a + b)[x] <= 1;
        assert x in a <==> p[x] > 0;
      }
      forall x | x in a ensures 1 <= x < next && x !in owners {
        assert x in a + b;
      }
    }
    if Claimable(a, next, owners) && Claimable(b, next, owners + IdSet(a)) {
      forall x ensures multiset(a + b)[x] <= 1 {
        assert p[x] <= 1 && q[x] <= 1;
        assert x in a <==> p[x] > 0;
        assert x in b <==> q[x] > 0;
      }
    }
  }

  /**
   Checks that no page has two owners and sets aside the pages that have none. Afterwards
   every page of the file has exactly one owner.
   */
  method ReconcilePageOwnership(pm: PageManager, live: set<nat>) returns (ok: bool)
    requires pm.Valid()
    modifies pm
    ensures pm.Valid()
    ensures ok <==>
              (forall x :: x in live ==> 1 <= x < old(pm.nextPageID))
              && Claimable(Listed(old(pm.Snapshot())), old(pm.nextPageID), live)
    ensures !ok ==> pm.Snapshot() == old(pm.Snapshot())
    ensures ok ==> pm.Snapshot() == old(pm.Snapshot()).(pendingFreePageIDs :=
      old(pm.pendingFreePageIDs) + Unclaimed(old(pm.nextPageID), live + IdSet(Listed(old(pm.Snapshot())))))
    ensures ok && old(pm.nextPageID) >= 1 && old(pm.pendingFreePageIDs) == [] ==> Owned(pm.Snapshot(), live)
  {
    hide Claimable;
    var owners: set<nat> := {};
    var rest := live;
    while rest != {}
      invariant rest + owners == live
      invariant forall x :: x in owners ==> 1 <= x < pm.nextPageID
      decreases rest
    {
      var x :| x in rest;
      if x == 0 || x >= pm.nextPageID {
        return false;
      }
      owners := owners + {x};
      rest := rest - {x};
    }
    ClaimTwo(pm.freePageIDs, pm.retiredPageIDs, pm.nextPageID, live);
    ClaimTwo(pm.freePageIDs + pm.retiredPageIDs, pm.freeListPageIDs, pm.nextPageID, live);
    ok, owners := ClaimAll(pm.freePageIDs, pm.nextPageID, owners);
    if !ok {
      return false;
    }
    ok, owners := ClaimAll(pm.retiredPageIDs, pm.nextPageID, owners);
    if !ok {
      return false;
    }
    assert IdSet(pm.freePageIDs) + IdSet(pm.retiredPageIDs) == IdSet(pm.freePageIDs + pm.retiredPageIDs);
    assert owners == live + IdSet(pm.freePageIDs + pm.retiredPageIDs);
    ok, owners := ClaimAll(pm.freeListPageIDs, pm.nextPageID, owners);
    if !ok {
      return false;
    }
    assert owners == live + IdSet(Listed(pm.Snapshot()));
    ghost var s := pm.Snapshot();
    SetAside(pm, owners);
    Reconciles(s, pm.Snapshot(), live);
  }

  /** Queues every page without an owner, in ascending order. */
  method SetAside(pm: PageManager, owners: set<nat>)
    requires pm.Valid()
    modifies pm
    ensures pm.Valid()
    ensures pm.Snapshot() == old(pm.Snapshot()).(
              pendingFreePageIDs := old(pm.pendingFreePageIDs) + Unclaimed(old(pm.nextPageID), owners))
  {
    var pageID := 1;
    assert pm.pendingFreePageIDs == pm.pendingFreePageIDs + [];
    while pageID < pm.nextPageID
      invariant 1 <= pageID && (pageID <= pm.nextPageID || pageID == 1)
      invariant pm.Valid()
      invariant pm.Snapshot() == old(pm.Snapshot()).(
                  pendingFreePageIDs := old(pm.pendingFreePageIDs) + Unclaimed(pageID, owners))
    {
      if pageID !in owners {
        assert old(pm.pendingFreePageIDs) + Unclaimed(pageID, owners) + [pageID] ==
               old(pm.pendingFreePageIDs) + (Unclaimed(pageID, owners) + [pageID]);
        pm.pendingFreePageIDs := pm.pendingFreePageIDs + [pageID];
      } else {
        assert Unclaimed(pageID, owners) + [] == Unclaimed(pageID, owners);
      }
      pageID := pageID + 1;
    }
  }

  /** Claimed pages and the pages set aside together are all pages, each once. */
  lemma {:induction false} Reconciles(s: PageManagerState, s': PageManagerState, live: set<nat>)
    requires Claimable(Listed(s), s.nextPageID, live) && forall x :: x in live ==> 1 <= x < s.nextPageID
    requires s' == s.(pendingFreePageIDs := s.pendingFreePageIDs + Unclaimed(s.nextPageID, live + IdSet(Listed(s))))
    ensures s.nextPageID >= 1 && s.pendingFreePageIDs == [] ==> Owned(s', live)
  {
    hide Unclaimed;
    if s.nextPageID >= 1 && s.pendingFreePageIDs == [] {
      var all := Listed(s);
      var listed: multiset<nat> := multiset(all);
      assert listed == multiset(s.freePageIDs) + multiset(s.retiredPageIDs) + multiset(s.freeListPageIDs);
      assert s'.pendingFreePageIDs == Unclaimed(s.nextPageID, live + IdSet(all));
      forall x: nat ensures OwnerBag(s', multiset(live))[x] == if 1 <= x < s'.nextPageID then 1 else 0 {
        UnclaimedCount(s.nextPageID, live + IdSet(all), x);
        OwnersOf(s', live, listed, x);
        assert listed[x] <= 1;
        assert x in all <==> listed[x] > 0;
        assert multiset(live)[x] == if x in live then 1 else 0;
      }
    }
  }

  lemma {:induction false} OwnersOf(s: PageManagerState, live: set<nat>, listed: multiset<nat>, x: nat)
    requires listed == multiset(s.freePageIDs) + multiset(s.retiredPageIDs) + multiset(s.freeListPageIDs)
    ensures OwnerBag(s, multiset(live))[x] == multiset(live)[x] + listed[x] + multiset(s.pendingFreePageIDs)[x]
  {
  }

  // ----- Choosing the generation

  /** The state of the page manager after a generation has been recovered. */
  ghost function Reconciled(size: nat, g: Gen): PageManagerState {
    PageManagerState(size + 1, g.m.pageCount, g.m.rootPageID, g.m.generation, g.l.free, g.l.retired,
                     Unclaimed(size + 1, Live(g.v) + IdSet(g.l.free + g.l.retired + g.l.pages)), g.l.pages)
  }

  /** Once a generation is recovered, every page of the file has exactly one owner. */
  lemma {:induction false} RecoveredOwned(pages: Pages, size: nat, g: Gen)
    requires Intact(pages, size, g)
    ensures Owned(Reconciled(size, g), Live(g.v))
  {
    hide ListStands, Shaped, Claimable, Unclaimed, Owned;
    IntactClaims(pages, size, g);
    var s := Reconciled(size, g).(pendingFreePageIDs := []);
    assert Listed(s) == g.l.free + g.l.retired + g.l.pages;
    Reconciles(s, Reconciled(size, g), Live(g.v));
  }

  /** In a whole generation only the use of a tree page by a list can go wrong. */
  lemma {:induction false} IntactClaims(pages: Pages, size: nat, g: Gen)
    requires g.m.rootPageID <= g.m.pageCount <= size && ListStands(pages, g.m, g.l)
    requires Shaped(pages, g.m.rootPageID, g.m.pageCount, IdSet(g.l.free), g.v)
    ensures forall x :: x in Live(g.v) ==> 1 <= x < size + 1
    ensures Claimable(g.l.free + g.l.retired + g.l.pages, size + 1, Live(g.v)) <==> Apart(g)
  {
    hide Holds, EntriesOf, Bag;
    ListedOnce(pages, g.m, g.l);
    var all := g.l.free + g.l.retired + g.l.pages;
    if Claimable(all, size + 1, Live(g.v)) {
      forall x | x in IdSet(g.l.retired) + IdSet(g.l.pages) ensures x !in Live(g.v) {
        assert x in all;
      }
    }
    if Apart(g) {
      forall x | x in all ensures x !in Live(g.v) {
        assert x in IdSet(g.l.free) || x in IdSet(g.l.retired) || x in IdSet(g.l.pages);
      }
    }
  }

  lemma {:induction false} ListedOnce(pages: Pages, m: RootMetadata, l: Lists)
    requires ListStands(pages, m, l)
    ensures Distinct(l.free + l.retired + l.pages)
    ensures forall x :: x in l.free + l.retired + l.pages ==> 1 <= x <= m.pageCount && x != m.rootPageID
  {
    if m.freeListHeadPageID != 0 {
      var a: multiset<nat> := multiset(l.pages + EntriesOf(pages, l.pages));
      assert a == multiset(l.pages) + multiset(l.free + l.retired);
      assert multiset(l.free + l.retired + l.pages) == multiset(l.free + l.retired) + multiset(l.pages);
      forall x ensures multiset(l.free + l.retired + l.pages)[x] <= 1 {
        assert a[x] <= 1;
      }
      forall x | x in l.free + l.retired + l.pages ensures Listable(m, x) {
        if x in l.pages {
          var i :| 0 <= i < |l.pages| && l.pages[i] == x;
        } else {
          assert x in EntriesOf(pages, l.pages);
        }
      }
    }
  }

  /** A slot as it is read: its record, within the file, together with its free list. */
  method ReadRootMetadataSlot(w: View, slot: nat) returns (r: Option<(RootMetadata, Lists)>)
    requires WholeFile(w) && slot < 2
    ensures r.Some? ==> w.slots[slot] == Record(r.value.0) && SlotReads(w, r.value.0, r.value.1)
    ensures r.None? ==> forall m, l :: w.slots[slot] == Record(m) ==> !SlotReads(w, m, l)
  {
    hide ListStands;
    if w.slots[slot].Blank? {
      return None;
    }
    var m := w.slots[slot].m;
    if m.rootPageID > m.pageCount || m.pageCount > w.size {
      return None;
    }
    var lists := LoadFreeList(w.pages, m);
    if lists.None? {
      return None;
    }
    r := Some((m, lists.value));
  }

  ghost predicate SlotReads(w: View, m: RootMetadata, l: Lists) {
    m.rootPageID <= m.pageCount <= w.size && ListStands(w.pages, m, l)
  }

  /** Tries one generation: it opens exactly when its tree stands and no page has two owners. */
  method TryGeneration(w: View, pm: PageManager, m: RootMetadata, l: Lists)
    returns (pages: Option<Store>, ghost v: Version)
    requires SlotReads(w, m, l) && pm.nextPageID == w.size + 1
    modifies pm
    ensures pm.nextPageID == w.size + 1
    ensures pages.Some? <==> exists u :: Opens(true, w.pages, w.size, Gen(m, l, u))
    ensures pages.Some? ==>
              Opens(true, w.pages, w.size, Gen(m, l, v)) && Loads(w, pm.Snapshot(), pages.value, Gen(m, l, v))
    ensures pages.Some? ==> pm.Valid()
  {
    hide ListStands, Stands, Shaped, TidyVersion, Holds, Claimable, Unclaimed, Owned, Added, Bag;
    pm.Restore(PageManagerState(pm.nextPageID, m.pageCount, m.rootPageID, m.generation, l.free, l.retired, [],
                                l.pages));
    pages, v := LoadCommittedPages(w.pages, m.rootPageID, m.pageCount, pm.freePageSet);
    forall u ensures Stands(w.pages, m.rootPageID, m.pageCount, IdSet(l.free), u) <==>
                     Shaped(w.pages, m.rootPageID, m.pageCount, IdSet(l.free), u) && TidyVersion(u) {
      StandsWhenTidy(w.pages, m.rootPageID, m.pageCount, IdSet(l.free), u);
    }
    assert pm.freePageSet == IdSet(l.free);
    if pages.None? {
      return;
    }
    ghost var g := Gen(m, l, v);
    IntactClaims(w.pages, w.size, g);
    assert Listed(pm.Snapshot()) == l.free + l.retired + l.pages;
    var ok := ReconcilePageOwnership(pm, pages.value.Keys);
    if !ok {
      forall u ensures !Opens(true, w.pages, w.size, Gen(m, l, u)) {
        if Stands(w.pages, m.rootPageID, m.pageCount, IdSet(l.free), u) {
          StandsOnce(w.pages, m.rootPageID, m.pageCount, IdSet(l.free), u, v);
        }
      }
      return None, v;
    }
    assert pm.pendingFreePageIDs == Unclaimed(w.size + 1, Live(v) + IdSet(l.free + l.retired + l.pages));
    assert Opens(true, w.pages, w.size, g);
  }

  /** What opening has loaded for a generation. */
  ghost predicate Loads(w: View, s: PageManagerState, pages: Store, g: Gen) {
    && s == Reconciled(w.size, g) && Owned(s, Live(g.v))
    && Holds(g.v, g.m.rootPageID, pages) && pages.Keys == Live(g.v)
  }

  /**
   Opens the newest generation that is whole. It fails only if no slot names one; else the
   tree is loaded, sound, and every page of the file has exactly one owner.
   */
  method RecoverCommittedPages(w: View, pm: PageManager) returns (pages: Option<Store>, ghost g: Gen)
    requires WholeFile(w) && pm.nextPageID == w.size + 1
    modifies pm
    ensures pages.Some? <==> exists u :: Recovers(true, w, u)
    ensures pages.Some? ==> Recovers(true, w, g) && Loads(w, pm.Snapshot(), pages.value, g) && pm.Valid()
  {
    hide Opens, Loads, WholePages, SlotReads, Recovers;
    g := Gen(RootMetadata(0, 0, 0, 0, 0, 0, 0, 0), Lists([], [], []), Empty);
    var candidates := ReadCandidates(w);
    var i := 0;
    while i < |candidates|
      invariant 0 <= i <= |candidates| && pm.nextPageID == w.size + 1
      invariant forall k: nat :: k < i ==> Shut(w, candidates[k])
    {
      ghost var v;
      pages, v := TryGeneration(w, pm, candidates[i].0, candidates[i].1);
      if pages.Some? {
        g := Gen(candidates[i].0, candidates[i].1, v);
        FirstIsChosen(w, candidates, i, v);
        return;
      }
      i := i + 1;
    }
    NoneChosen(w, candidates);
    pages := None;
  }

  type Candidate = (RootMetadata, Lists, nat)

  /** A slot that was read, and what was read there. */
  ghost predicate ReadAs(w: View, c: Candidate) {
    c.2 < |w.slots| && w.slots[c.2] == Record(c.0) && SlotReads(w, c.0, c.1)
  }

  ghost predicate Unreadable(w: View, j: nat) {
    forall m, l :: j < |w.slots| && w.slots[j] == Record(m) ==> !SlotReads(w, m, l)
  }

  ghost predicate Shut(w: View, c: Candidate) {
    forall u :: !Opens(true, w.pages, w.size, Gen(c.0, c.1, u))
  }

  /** Candidate `a` is tried before `b`. */
  predicate Before(a: Candidate, b: Candidate) {
    a.0.generation > b.0.generation || (a.0.generation == b.0.generation && a.2 < b.2)
  }

  /** Every readable slot, newest generation first. */
  ghost predicate Ordered(w: View, c: seq<Candidate>) {
    && (forall k: nat :: k < |c| ==> ReadAs(w, c[k]))
    && (forall k: nat, k': nat :: k < k' < |c| ==> Before(c[k], c[k']) && c[k].2 != c[k'].2)
    && (forall j: nat :: j < |w.slots| ==> Unreadable(w, j) || Mentions(c, j))
  }

  ghost predicate Mentions(c: seq<Candidate>, j: nat) {
    exists k: nat :: k < |c| && c[k].2 == j
  }

  method ReadCandidates(w: View) returns (c: seq<Candidate>)
    requires WholeFile(w)
    ensures Ordered(w, c)
  {
    hide WholePages, SlotReads;
    c := [];
    var first := ReadRootMetadataSlot(w, 0);
    if first.Some? {
      c := [(first.value.0, first.value.1, 0)];
      assert c[0].2 == 0;
    }
    assert Unreadable(w, 0) || Mentions(c, 0);
    var second := ReadRootMetadataSlot(w, 1);
    assert second.None? ==> Unreadable(w, 1);
    if second.Some? {
      var last := (second.value.0, second.value.1, 1);
      if |c| == 1 && last.0.generation > c[0].0.generation {
        assert [last, c[0]][0].2 == 1 && [last, c[0]][1].2 == 0;
        c := [last, c[0]];
      } else {
        assert (c + [last])[|c|].2 == 1;
        assert |c| == 1 ==> (c + [last])[0].2 == 0;
        c := c + [last];
      }
    }
  }

  lemma {:induction false} FirstIsChosen(w: View, c: seq<Candidate>, i: nat, v: Version)
    requires Ordered(w, c) && i < |c| && forall k: nat :: k < i ==> Shut(w, c[k])
    requires Opens(true, w.pages, w.size, Gen(c[i].0, c[i].1, v))
    ensures Recovers(true, w, Gen(c[i].0, c[i].1, v))
  {
    hide ListStands, Shaped, TidyVersion;
    var g := Gen(c[i].0, c[i].1, v);
    forall j: nat, u: Gen | j < |w.slots| && j != c[i].2 && w.slots[j] == Record(u.m) && Opens(true, w.pages, w.size, u)
      ensures u.m.generation < g.m.generation || (u.m.generation == g.m.generation && c[i].2 < j)
    {
      var k := OpenIsMentioned(w, c, j, u);
    }
    assert ReadAs(w, c[i]);
    assert Chosen(true, w, c[i].2, g);
  }

  /** What opens from a slot is one of the candidates. */
  lemma {:induction false} OpenIsMentioned(w: View, c: seq<Candidate>, j: nat, u: Gen) returns (k: nat)
    requires Ordered(w, c) && j < |w.slots| && w.slots[j] == Record(u.m) && Opens(true, w.pages, w.size, u)
    ensures k < |c| && c[k].2 == j && c[k].0 == u.m && !Shut(w, c[k])
  {
    hide ListStands, Shaped, TidyVersion;
    assert SlotReads(w, u.m, u.l);
    assert Mentions(c, j);
    k :| k < |c| && c[k].2 == j;
    assert ReadAs(w, c[k]);
    ListStandsOnce(w.pages, u.m, u.l, c[k].1);
    assert u == Gen(c[k].0, c[k].1, u.v);
  }

  lemma {:induction false} NoneChosen(w: View, c: seq<Candidate>)
    requires Ordered(w, c) && forall k: nat :: k < |c| ==> Shut(w, c[k])
    ensures forall u :: !Recovers(true, w, u)
  {
    hide Opens, Ordered;
    forall u ensures !Recovers(true, w, u) {
      if Recovers(true, w, u) {
        var j: nat :| Chosen(true, w, j, u);
        var k := OpenIsMentioned(w, c, j, u);
        assert false;
      }
    }
  }
}
