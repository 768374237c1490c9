/**
 The copy-on-write B+Tree over pages. Nodes are never changed in place: an operation
 writes new pages and, once the new root is known, lets go of the pages it replaced.
 */
module PageTreeOps {
  import opened ByteStrings
  import opened Entries
  import opened PageNodes
  import opened PageTrees
  import opened PageTreeSteps
  import opened PageManagers
  import opened PageUpdates
  import opened PageRemoval
  import opened PageGrowth
  import opened PageRanges

  class PageTree {
    var root: nat
    var pages: Store
    var callbackErr: bool
    ghost var born: seq<nat>
    const pm: PageManager

    constructor (root: nat, pages: Store, pm: PageManager)
      ensures this.root == root && this.pages == pages && this.pm == pm
      ensures !callbackErr && born == []
    {
      this.root := root;
      this.pages := pages;
      this.pm := pm;
      callbackErr := false;
      born := [];
    }

    ghost function Now(): Snap
      reads this, pm
    {
      Snap(pages, born, pm.Snapshot())
    }

    ghost predicate Ready()
      reads this, pm
    {
      pm.Valid() && Supplied(Now())
    }

    /** Stores `node` under a fresh id; 0 when ids have run out. */
    method New(node: Node) returns (id: nat)
      requires Ready()
      modifies this`pages, this`callbackErr, this`born, pm
      ensures Ready() && Grown(old(Now()), Now())
      ensures callbackErr ==> id == 0 && Now() == old(Now())
      ensures !old(callbackErr) ==> Costs(old(Now()), Now(), callbackErr, 1)
      ensures old(callbackErr) ==> callbackErr
      ensures !callbackErr ==>
                id != 0 && id !in old(pages) && pages == old(pages)[id := node] && NewIds(old(Now()), Now()) == [id]
    {
      hide Grown, Supplied, Reserved, NewIds;
      GrownRefl(Now());
      if callbackErr {
        return 0;
      }
      assert WellSupplied(pm.Snapshot()) by { SuppliedFacts(Now()); }
      ghost var a := Now();
      var ok, pageID := pm.ReservePage();
      if !ok {
        callbackErr := true;
        return 0;
      }
      id := pageID;
      pages := pages[id := node];
      born := born + [id];
      GrownOne(a, Now(), id, node);
    }

    /** Stores each page; the links to them, in order. */
    method StorePieces(children: seq<Node>, ghost h: nat, ghost pieces: seq<Tree>)
      returns (links: seq<Entry>, ghost placed: seq<Tree>)
      requires Ready() && !callbackErr && |pieces| == |children|
      requires forall i :: 0 <= i < |pieces| ==> IsPiece(pages, pieces[i], h, children[i])
      modifies this`pages, this`callbackErr, this`born, pm
      ensures Ready() && Grown(old(Now()), Now())
      ensures |links| == |children|
      ensures Costs(old(Now()), Now(), callbackErr, |children|)
      ensures callbackErr ==> links != [] && links[|links| - 1].ptr == 0
      ensures !callbackErr ==> Stored(old(Now()), Now(), pieces, placed) && links == Links(placed)
    {
      hide Flat, FlatAll, Bag, KidBag, BagAll, KidBagAll, Wf, Matches, MatchesKids, NodeOf, WithId, FirstKey;
      hide Grown, Supplied, Stored, IsPiece, Costs;
      links, placed := [], [];
      EmptyStored(Now());
      CostsNone(Now());
      var i := 0;
      while i < |children|
        invariant 0 <= i <= |children| && |links| == i
        invariant Ready() && Grown(old(Now()), Now())
        invariant forall j :: i <= j < |pieces| ==> IsPiece(pages, pieces[j], h, children[j])
        invariant Costs(old(Now()), Now(), callbackErr, i)
        invariant callbackErr ==> i > 0 && links[i - 1].ptr == 0
        invariant !callbackErr ==> Stored(old(Now()), Now(), pieces[..i], placed) && links == Links(placed)
      {
        ghost var before, failed := Now(), callbackErr;
        PieceFacts(pages, pieces[i], h, children[i]);
        var id := New(children[i]);
        GrownTrans(old(Now()), before, Now());
        if failed {
          CostsMore(old(Now()), Now(), i, i + 1);
        } else {
          CostsTrans(old(Now()), before, Now(), callbackErr, i, 1);
        }
        PieceKeeps(before, Now(), h);
        if !callbackErr {
          StoredStep(old(Now()), before, Now(), pieces[..i], placed, pieces[i], h, id);
          placed := placed + [WithId(pieces[i], id)];
          TakeStep(pieces, i);
        }
        links := links + [Entry(children[i].entries[0].key, [], id)];
        i := i + 1;
      }
      TakeAll(pieces);
    }

    /** The parent with child `idx` replaced by the given pages, each stored afresh. */
    method ReplaceChild(parent: Node, idx: nat, children: seq<Node>, ghost t: Tree, ghost h: nat,
        ghost pieces: seq<Tree>)
      returns (r: Option<Node>, ghost t': Tree, ghost placed: seq<Tree>)
      requires Ready() && !callbackErr
      requires t.TInner? && h > 0 && Wf(t, h) && parent == NodeOf(t) && MatchesKids(pages, t)
      requires idx < |t.kids| && 1 <= |pieces| <= 3 && |pieces| == |children|
      requires forall i :: 0 <= i < |pieces| ==> IsPiece(pages, pieces[i], h - 1, children[i])
      requires FirstKey(pieces[0]) == FirstKey(t.kids[idx])
      requires Sorted(FlatAll(t.kids[..idx]) + FlatAll(pieces) + FlatAll(t.kids[idx + 1..]))
      modifies this`pages, this`callbackErr, this`born, pm
      ensures Ready() && Grown(old(Now()), Now())
      ensures r.None? <==> callbackErr
      ensures Costs(old(Now()), Now(), callbackErr, |children|)
      ensures r.Some? ==> Reids(pieces, placed) && t' == TInner(0, t.kids[..idx] + placed + t.kids[idx + 1..])
      ensures r.Some? ==>
                Bare(r.value.entries) == Bare(parent.entries)[..idx] + Heads(children) + Bare(parent.entries)[idx + 1..]
      ensures r.Some? ==>
                && Replaced(old(Now()), Now(), t, h, idx, idx + 1, pieces, t', r.value) && Occupied(t')
                && NodeBytes(r.value) <= PAGE_SIZE + 2 * (14 + MAX_KEY_SIZE)
    {
      hide FlatAll, Bag, BagAll, KidBagAll, Wf, Matches, MatchesKids, FirstKey, Payload;
      hide Grown, Supplied, Costs, Bare, Heads, Reids;
      ghost var a := Now();
      var links;
      links, placed := StorePieces(children, h - 1, pieces);
      var entries := parent.entries[..idx] + links + parent.entries[idx + 1..];
      r := Encode(false, entries, 2 * PAGE_SIZE);
      if callbackErr {
        assert entries[idx + |links| - 1] == links[|links| - 1];
        assert !ValidEntry(false, idx + |links| - 1, entries[idx + |links| - 1]);
        t' := t;
        return;
      }
      t' := TInner(0, t.kids[..idx] + placed + t.kids[idx + 1..]);
      InnerFacts(t, h);
      GrownKeeps(old(Now()), Now());
      forall j | 0 <= j < |placed| ensures Wf(placed[j], h - 1) && FirstKey(placed[j]) == FirstKey(pieces[j]) {
        WithIdFacts(pieces[j], h - 1, placed[j].id);
      }
      Assemble(pages, t, h, idx, idx + 1, placed);
      LinksValid(t'.kids, h - 1);
      LinkBytes(t.kids, h - 1, idx, placed);
      RelinkedBare(a, Now(), h - 1, parent.entries, idx, children, pieces, placed);
      StoredReids(a, Now(), pieces, placed);
    }

    /** The new content of `node`, a page at height `h`, with `key` bound to `value`. */
    method InsertNode(node: Node, key: Bytes, value: Bytes, obsolete: seq<nat>, ghost t: Tree, ghost h: nat)
      returns (r: Option<Node>, obsolete': seq<nat>, ghost t': Tree)
      requires Ready() && !callbackErr && Storable(key, value)
      requires IsPiece(pages, t, h, node) && Sorted(Flat(t)) && Leq(FirstKey(t), key)
      modifies this`pages, this`callbackErr, this`born, pm
      ensures Ready() && Grown(old(Now()), Now())
      ensures r.None? <==> callbackErr
      ensures Costs(old(Now()), Now(), callbackErr, GrowCost(t, key, value))
      ensures r.Some? ==> Bare(r.value.entries) == Grow(t, key, value) && Grew(t, t', key, value)
      ensures r.Some? ==> Inserted(old(Now()), Now(), t, h, t', r.value, key, value, obsolete, obsolete')
      decreases h, 1
    {
      if node.leaf {
        LeafInserted(pages, t, h, node, key, value);
        var idx := UpperBound(node.entries, key) - 1;
        var entries := LeafEntries(node.entries, idx, key, value);
        r, obsolete' := Encode(true, entries, 2 * PAGE_SIZE), obsolete;
        t' := TLeaf(0, entries);
        LeafRewritten(Now(), t, h, node, key, value, obsolete);
        LeafCost(Now(), t, h, node, key, value);
        GrewLeaf(pages, t, h, node, key, value);
      } else {
        r, obsolete', t' := InsertInner(node, key, value, obsolete, t, h);
      }
    }

    method InsertInner(node: Node, key: Bytes, value: Bytes, obsolete: seq<nat>, ghost t: Tree, ghost h: nat)
      returns (r: Option<Node>, obsolete': seq<nat>, ghost t': Tree)
      requires Ready() && !callbackErr && Storable(key, value)
      requires IsPiece(pages, t, h, node) && !node.leaf && Sorted(Flat(t)) && Leq(FirstKey(t), key)
      modifies this`pages, this`callbackErr, this`born, pm
      ensures Ready() && Grown(old(Now()), Now())
      ensures r.None? <==> callbackErr
      ensures Costs(old(Now()), Now(), callbackErr, GrowCost(t, key, value))
      ensures r.Some? ==> Bare(r.value.entries) == Grow(t, key, value) && Grew(t, t', key, value)
      ensures r.Some? ==> Inserted(old(Now()), Now(), t, h, t', r.value, key, value, obsolete, obsolete')
      decreases h, 0
    {
      hide FlatAll, Bag, BagAll, KidBagAll, Wf, Matches, MatchesKids, FirstKey, Payload;
      hide Grown, Supplied, Sorted, Put, NodeOf, Flat, KidBag, Body, Pieces, Splits, Greedy;
      hide Costs, GrowCost, Grow, Bare, Heads, SplitOf, Storable, UpperBound, Encode, Inserted, Replaced, Grew;
      hide CutsInto, Reids, KidsWithin, KidsOf, AllKids, ValidNode, LinkOf;
      ghost var a := Now();
      // The search finds a child, and the child's page is present and valid.
      ghost var idx', child' := ChildFor(pages, t, h, node, key);
      var idx := UpperBound(node.entries, key) - 1;
      var childPageID := node.entries[idx].ptr;
      var child := pages[childPageID];
      assert ValidNode(child);
      var updated, below, c' := InsertNode(child, key, value, obsolete, child', h - 1);
      if updated.None? {
        r, obsolete', t' := None, below, t;
        GrowMore(a, Now(), t, idx, key, value);
        return;
      }
      ghost var b := Now();
      InsertedFacts(a, b, child', h - 1, c', updated.value, key, value, obsolete, below);
      EnlargedSplits(c', h - 1);
      var parts := NodeSplit3(updated.value);
      ghost var pieces := CutNode(c', h - 1, parts.value);
      obsolete' := below + [childPageID];
      InsertStep(a, b, t, h, node, idx, key, value, c', parts.value, pieces);
      ghost var placed;
      r, t', placed := ReplaceChild(node, idx, parts.value, t, h, pieces);
      GrownTrans(a, b, Now());
      GrowStep(t, h, idx, key, value, c', parts.value);
      CostsTrans(a, b, Now(), callbackErr, GrowCost(child', key, value), |parts.value|);
      if r.Some? {
        ReidsCuts(c', h - 1, parts.value, pieces, placed);
        GrewInner(t, t', idx, c', placed, key, value);
        InsertedInner(a, b, Now(), t, h, idx, key, value, c', updated.value, parts.value, pieces, t', r.value,
                      obsolete, below);
      }
    }

    /** Hands back the pages a finished operation has left behind. */
    method Release(obsolete: seq<nat>)
      requires pm.Valid() && !callbackErr && Distinct(obsolete)
      requires forall x :: x in obsolete ==> Releasable(pm.Snapshot(), x)
      modifies this`callbackErr, pm
      ensures pm.Valid() && !callbackErr
      ensures pm.Snapshot() == old(pm.Snapshot()).(pendingFreePageIDs := old(pm.pendingFreePageIDs) + obsolete)
    {
      var i := 0;
      assert obsolete[..0] == [];
      while i < |obsolete|
        invariant 0 <= i <= |obsolete| && pm.Valid() && !callbackErr
        invariant pm.Snapshot() == old(pm.Snapshot()).(pendingFreePageIDs := old(pm.pendingFreePageIDs) + obsolete[..i])
      {
        NotBefore(obsolete, i);
        assert obsolete[i] in obsolete;
        var ok := pm.FreePage(obsolete[i]);
        callbackErr := callbackErr || !ok;
        TakeStep(obsolete, i);
        i := i + 1;
      }
      TakeAll(obsolete);
    }

    /**
     Binds `key` to `value`. A storable entry is always accepted, unless page ids have run
     out; no page that existed before is touched.
     */
    method Insert(key: Bytes, value: Bytes, ghost v: Version)
      returns (ok: bool, ghost v': Version, ghost released: seq<nat>)
      requires Ready() && !callbackErr
      requires Holds(v, root, pages) && Owned(pm.Snapshot(), Live(v))
      modifies this, pm
      ensures forall x :: x in old(pages) ==> x in pages && pages[x] == old(pages)[x]
      ensures !Storable(key, value) ==> !ok && !callbackErr && root == old(root) && Now() == old(Now())
      ensures Storable(key, value) && !callbackErr ==>
                && ok && Ready() && Holds(v', root, pages)
                && Contents(v') == Contents(v)[key := value]
                && Stepped(old(Now()), Now(), v, v', released)
                && multiset(released) <= VersionBag(v)
      ensures Storable(key, value) && !callbackErr ==>
                InsertShape(v, v', key, value) && |NewIds(old(Now()), Now())| == InsertPages(v, key, value)
      ensures Storable(key, value) ==> (callbackErr <==> Available(old(pm.Snapshot())) < InsertPages(v, key, value))
      ensures callbackErr ==> Grown(old(Now()), Now())
    {
      hide Flat, Bag, Wf, Matches, Grown, Supplied, Stepped, Balanced, Inserted, Stored, Pieces, Splits, NewRoot, Owned;
      hide Put, ToMap, Sorted, Payload, Contents, VersionBag, Body, NodeOf, FirstKey;
      hide Costs, GrowCost, Grow, Bare, SplitOf, InsertPages, RootCost, InsertShape, Grew, Topped;
      v', released := v, [];
      ghost var a := Now();
      GrownRefl(a);
      if !Storable(key, value) {
        return false, v, [];
      }
      if root == 0 {
        v' := FirstInsert(key, value, v);
        GrownPages(a, Now());
        InsertTotal(v, key, value);
        CostsExactly(a, Now(), callbackErr, 1);
        CostsCount(a, Now(), callbackErr, 1);
        return true, v', [];
      }
      RootFacts(v, root, pages, key);
      var oldRoot := pages[root];
      assert ValidNode(oldRoot);
      var updated, obsolete, t' := InsertNode(oldRoot, key, value, [], v.tree, v.height);
      GrownPages(a, Now());
      InsertTotal(v, key, value);
      if updated.None? {
        CostsMore(a, Now(), GrowCost(v.tree, key, value), InsertPages(v, key, value));
        CostsExactly(a, Now(), true, InsertPages(v, key, value));
        return false, v, [];
      }
      ghost var b := Now();
      obsolete := obsolete + [root];
      var newRootID;
      newRootID, v' := NewRootFor(updated.value, key, value, v, t', obsolete[..|obsolete| - 1], a);
      GrownTrans(a, b, Now());
      GrownPages(a, Now());
      InsertCosts(a, b, Now(), v, t', updated.value, key, value, obsolete[..|obsolete| - 1], callbackErr);
      if newRootID.None? {
        return false, v, [];
      }
      root := newRootID.value;
      if !callbackErr {
        ShapeIs(v, v', t', key, value);
        ghost var d := Now();
        BalancedUnshared(a, d, v, v', obsolete);
        Release(obsolete);
        BalancedSteps(a, d, Now(), v, v', obsolete);
      }
      return true, v', obsolete;
    }

    /** Stores the parts of the updated root and, above several parts, a new root. */
    method NewRootFor(updated: Node, key: Bytes, value: Bytes, ghost v: Version, ghost t': Tree, ghost obs: seq<nat>,
        ghost a: Snap)
      returns (r: Option<nat>, ghost v': Version)
      requires Ready() && !callbackErr && Grown(a, Now())
      requires v.Rooted? && SoundVersion(v) && Owned(a.pm, Live(v)) && Storable(key, value)
      requires Inserted(a, Now(), v.tree, v.height, t', updated, key, value, [], obs)
      modifies this`pages, this`callbackErr, this`born, pm
      ensures Ready() && Grown(old(Now()), Now())
      ensures Costs(old(Now()), Now(), callbackErr, RootCost(|SplitOf(updated.leaf, Bare(updated.entries))|))
      ensures !callbackErr ==> Topped(t', v.height, v')
      ensures !callbackErr ==> && r.Some? && Holds(v', r.value, pages)
                               && Balanced(a, Now(), v, v', obs + [v.tree.id])
                               && Contents(v') == Contents(v)[key := value]
    {
      hide Flat, FlatAll, Bag, KidBag, KidBagAll, Wf, Matches, MatchesKids, Grown, Supplied, Balanced, Stored, Splits;
      hide Pieces, Owned;
      hide Put, ToMap, Sorted, Payload, Contents, VersionBag, Body, FirstKey, Greedy, Costs, SplitOf, Bare, RootCost;
      hide Reids, CutsInto, ToppedBy, Topped;
      ghost var b, h := Now(), v.height;
      EnlargedSplits(t', h);
      var parts := NodeSplit3(updated);
      PartsCount(updated, parts.value);
      ghost var pieces := CutNode(t', h, parts.value);
      RootPieces(b.pages, t', h, parts.value, pieces);
      SortedAfterPut(v, key, value);
      ghost var placed;
      r, v', placed := PlaceRoot(parts.value, h, pieces);
      if !callbackErr {
        ReidsCuts(t', h, parts.value, pieces, placed);
        ToppedIs(t', h, placed, v');
        InsertedVersion(a, b, Now(), v, key, value, t', updated, obs, pieces, v');
      }
    }

    method PlaceRoot(parts: seq<Node>, ghost h: nat, ghost pieces: seq<Tree>)
      returns (r: Option<nat>, ghost v': Version, ghost placed: seq<Tree>)
      requires Ready() && !callbackErr && 1 <= |parts| <= 3 && |pieces| == |parts|
      requires forall i :: 0 <= i < |pieces| ==> IsPiece(pages, pieces[i], h, parts[i])
      requires Sorted(FlatAll(pieces))
      modifies this`pages, this`callbackErr, this`born, pm
      ensures Ready() && Grown(old(Now()), Now())
      ensures Costs(old(Now()), Now(), callbackErr, RootCost(|parts|))
      ensures !callbackErr ==> Reids(pieces, placed) && v'.Rooted? && ToppedBy(placed, h, v')
      ensures !callbackErr ==> && v'.Rooted? && r == Some(v'.tree.id)
                               && Wf(v'.tree, v'.height) && v'.tree.id != 0 && Matches(pages, v'.tree)
                               && Flat(v'.tree) == FlatAll(pieces)
                               && Bag(v'.tree) == KidBagAll(pieces) + multiset(NewIds(old(Now()), Now()))
    {
      hide Flat, FlatAll, Bag, KidBag, KidBagAll, Wf, Matches, MatchesKids, Grown, Supplied, Stored, IsPiece, Sorted;
      hide Payload, FirstKey, Costs, WithId;
      ghost var b := Now();
      var links;
      links, placed := StorePieces(parts, h, pieces);
      ghost var c := Now();
      v' := Empty;
      if callbackErr {
        CostsMore(b, c, |parts|, RootCost(|parts|));
        // A missing child id is rejected by the new root; a single part becomes the root as it is.
        return if |parts| == 1 then Some(links[0].ptr) else None, v', placed;
      }
      StoredReids(b, c, pieces, placed);
      if |parts| == 1 {
        r, v' := Some(links[0].ptr), Rooted(placed[0], h);
        StoredFacts(b, c, pieces, placed);
        GrownRefl(c);
      } else {
        TopEncodes(b, c, pieces, parts, placed, h, FlatAll(pieces));
        var top := Encode(false, links, PAGE_SIZE);
        var id := New(top.value);
        r := Some(id);
        GrownTrans(b, c, Now());
        CostsTrans(b, c, Now(), callbackErr, |parts|, 1);
        if callbackErr {
          return;
        }
        v' := Rooted(TInner(id, placed), h + 1);
      }
      NewRootHolds(b, c, Now(), h, pieces, parts, placed, v');
    }

    /** The first entry of an empty tree: a leaf with the sentinel before it. */
    method FirstInsert(key: Bytes, value: Bytes, ghost v: Version) returns (ghost v': Version)
      requires Ready() && !callbackErr && v.Empty? && root == 0 && Storable(key, value)
      requires Owned(pm.Snapshot(), Live(v))
      modifies this, pm
      ensures Grown(old(Now()), Now())
      ensures Costs(old(Now()), Now(), callbackErr, 1)
      ensures !callbackErr ==> InsertShape(v, v', key, value)
      ensures !callbackErr ==>
                && Ready() && Holds(v', root, pages)
                && Contents(v') == Contents(v)[key := value]
                && Stepped(old(Now()), Now(), v, v', [])
    {
      hide Flat, Bag, Wf, Matches, Grown, Supplied, Owned, ToMap, Sorted, Payload, Contents, VersionBag;
      var entries := [Entry([], [], 0), Entry(key, value, 0)];
      FirstLeaf(key, value);
      var leaf := Encode(true, entries, PAGE_SIZE).value;
      ghost var a := Now();
      var id := New(leaf);
      root := id;
      v' := v;
      if !callbackErr {
        v' := Rooted(TLeaf(id, entries), 0);
        FirstVersion(a, Now(), v, v', key, value, id);
        BalancedSteps(a, Now(), Now(), v, v', []);
      }
    }

    // ----- Removal

    /** The parent rebuilt in one page with `child`, stored afresh, in place of children `i` to `n`. */
    method ReplaceAfterDelete(parent: Node, i: nat, n: nat, child: Node, ghost t: Tree, ghost h: nat, ghost piece: Tree)
      returns (r: Option<Node>, ghost t': Tree)
      requires Ready() && !callbackErr && h > 0 && t.TInner? && i < n <= |t.kids|
      requires IsPiece(pages, t, h, parent) && IsPiece(pages, piece, h - 1, child)
      requires Sorted(FlatAll(t.kids[..i]) + Flat(piece) + FlatAll(t.kids[n..]))
      modifies this`pages, this`callbackErr, this`born, pm
      ensures Ready() && Grown(old(Now()), Now())
      ensures callbackErr ==> r.None?
      ensures Costs(old(Now()), Now(), callbackErr, 1)
      ensures r.Some? ==>
                Replaced(old(Now()), Now(), t, h, i, n, [piece], t', r.value) && NodeBytes(r.value) <= PAGE_SIZE
      ensures r.Some? ==> OneFor(t.kids, i, n, piece, t')
      ensures !callbackErr ==>
                Relinked(t.kids, i, n, Bare(child.entries)) ==
                if r.Some? then Keeps(Bare(r.value.entries)) else Overflow
    {
      hide Flat, FlatAll, Bag, KidBag, KidBagAll, Wf, Matches, MatchesKids, Grown, Supplied, Stored, Sorted, Payload;
      hide FirstKey, Replaced, Links;
      hide Bare, Relinked, Costs, OneFor;
      ghost var a := Now();
      PieceFacts(pages, t, h, parent);
      InnerNode(t);
      var links, placed := StorePieces([child], h - 1, [piece]);
      var entries := parent.entries[..i] + links + parent.entries[n..];
      r := Encode(false, entries, PAGE_SIZE);
      t' := t;
      if callbackErr {
        assert entries[i] == links[0];
        assert !ValidEntry(false, i, entries[i]);
        return;
      }
      RebuiltParent(a, Now(), t, h, i, n, piece, child, placed);
      PieceFacts(a.pages, piece, h - 1, child);
      PlacedFirst(a, Now(), piece, placed);
      RebuiltBare(t.kids, i, n, piece, child, placed, parent.entries);
      t' := TInner(0, t.kids[..i] + placed + t.kids[n..]);
      OneForIs(t.kids, i, n, piece, placed, t');
    }

    /** Removes `key` below the page `node` at height `h`; `node` itself is rebuilt, not stored. */
    method DeleteNode(node: Node, key: Bytes, obsolete: seq<nat>, ghost t: Tree, ghost h: nat)
      returns (r: Removal, obsolete': seq<nat>, ghost t': Tree)
      requires Ready() && !callbackErr
      requires IsPiece(pages, t, h, node) && Sorted(Flat(t)) && Leq(FirstKey(t), key)
      modifies this`pages, this`callbackErr, this`born, pm
      ensures Ready() && Grown(old(Now()), Now())
      ensures callbackErr ==> r.Fails?
      ensures !r.Missing? ==> Costs(old(Now()), Now(), callbackErr, DropCost(t, key))
      ensures r.Missing? ==> !HasKey(Flat(t), key) && Now() == old(Now())
      ensures r.Deleted? ==> Removed(old(Now()), Now(), t, h, t', r.node, key, obsolete, obsolete')
      ensures r.Deleted? ==> Shrank(t, t', key)
      ensures !r.Missing? ==> HasKey(Flat(t), key)
      ensures !r.Missing? && !callbackErr ==>
                After(t, key) == if r.Deleted? then Keeps(Bare(r.node.entries)) else Overflow
      decreases h, 1
    {
      hide Flat, Wf, Matches, MatchesKids, Grown, Supplied, Sorted, Payload, FirstKey, Removed, HasKey;
      hide After, Bare, DropCost, Costs, Shrank;
      if node.leaf {
        CostsNone(Now());
        LeafRemoved(Now(), t, h, node, key, obsolete);
        var idx := UpperBound(node.entries, key) - 1;
        obsolete' := obsolete;
        if node.entries[idx].key != key {
          return Missing, obsolete', t;
        }
        var entries := node.entries[..idx] + node.entries[idx + 1..];
        var updated := Encode(true, entries, PAGE_SIZE);
        LeafShrinks(pages, t, h, node, key);
        r, t' := Deleted(updated.value), TLeaf(0, entries);
      } else {
        r, obsolete', t' := DeleteInner(node, key, obsolete, t, h);
      }
    }

    method DeleteInner(node: Node, key: Bytes, obsolete: seq<nat>, ghost t: Tree, ghost h: nat)
      returns (r: Removal, obsolete': seq<nat>, ghost t': Tree)
      requires Ready() && !callbackErr && !node.leaf
      requires IsPiece(pages, t, h, node) && Sorted(Flat(t)) && Leq(FirstKey(t), key)
      modifies this`pages, this`callbackErr, this`born, pm
      ensures Ready() && Grown(old(Now()), Now())
      ensures callbackErr ==> r.Fails?
      ensures !r.Missing? ==> Costs(old(Now()), Now(), callbackErr, DropCost(t, key))
      ensures r.Missing? ==> !HasKey(Flat(t), key) && Now() == old(Now())
      ensures r.Deleted? ==> Removed(old(Now()), Now(), t, h, t', r.node, key, obsolete, obsolete')
      ensures r.Deleted? ==> Shrank(t, t', key)
      ensures !r.Missing? ==> HasKey(Flat(t), key)
      ensures !r.Missing? && !callbackErr ==>
                After(t, key) == if r.Deleted? then Keeps(Bare(r.node.entries)) else Overflow
      decreases h, 0
    {
      hide Flat, FlatAll, Wf, Matches, MatchesKids, Grown, Supplied, Sorted, Payload, FirstKey, Removed, HasKey, Choice;
      hide After, Bare, Rejoined, DropCost, RelinkCost, Costs, UpperBound, NodeOf, Shrank, ShrankAt;
      ghost var a := Now();
      ghost var idx', child' := ChildFor(pages, t, h, node, key);
      var idx := UpperBound(node.entries, key) - 1;
      var childPageID := node.entries[idx].ptr;
      var child := pages[childPageID];
      assert ValidNode(child);
      var sub, below, c' := DeleteNode(child, key, obsolete, child', h - 1);
      KeyInChild(a.pages, t, h, node, idx, key);
      if sub.Missing? {
        return Missing, below, t;
      }
      if sub.Fails? {
        if callbackErr {
          DropMore(a, Now(), t, idx, key);
        } else {
          InnerAfter(t, key, idx, Overflow);
          InnerDrop(t, key, idx, Overflow);
          NoRelink(t.kids, idx);
        }
        return Fails, below, t;
      }
      ghost var b := Now();
      PieceKeeps(a, Now(), h);
      PieceFacts(pages, t, h, node);
      ChoiceAlone(a, Now(), t, h, idx, key, sub.node, c', obsolete, below);
      r, obsolete', t' := FinishDelete(node, idx, sub.node, below + [childPageID], key, obsolete, t, h, c', a);
      InnerAfter(t, key, idx, Keeps(Bare(sub.node.entries)));
      InnerDrop(t, key, idx, Keeps(Bare(sub.node.entries)));
      CostsTrans(a, b, Now(), callbackErr, DropCost(child', key),
                 RelinkCost(t.kids, idx, Keeps(Bare(sub.node.entries))));
      if r.Deleted? {
        ShrankInner(t, t', idx, c', key);
      }
    }

    /** A small changed child is merged with its left or right neighbour where they fit one page. */
    method ChoosePage(node: Node, idx: nat, updated: Node, so: seq<nat>,
                      ghost key: Bytes, ghost obsolete: seq<nat>, ghost t: Tree, ghost h: nat, ghost c': Tree,
                      ghost a: Snap)
      returns (i: nat, n: nat, page: Node, obsolete': seq<nat>, ghost piece: Tree)
      requires IsPiece(pages, t, h, node) && t.TInner? && idx < |t.kids| && h > 0
      requires Choice(a, Now(), t, h, idx, key, idx, idx + 1, updated, c', obsolete, so)
      ensures i <= idx < n <= |t.kids|
      ensures Choice(a, Now(), t, h, idx, key, i, n, page, piece, obsolete, obsolete')
      ensures page.entries == [] ==> i == idx && n == idx + 1
      ensures (i, n, Bare(page.entries)) == Pick(t.kids, idx, Bare(updated.entries))
      ensures updated == NodeOf(c') && piece == PickTree(t.kids, idx, c')
      ensures n == i + 1 && page.entries != [] && NodeBytes(page) <= PAGE_SIZE / 4 ==>
                && (idx > 0 ==> MergeBytes(NodeOf(t.kids[idx - 1]), page) > PAGE_SIZE)
                && (idx + 1 < |t.kids| ==> MergeBytes(page, NodeOf(t.kids[idx + 1])) > PAGE_SIZE)
    {
      hide Flat, FlatAll, Wf, Matches, MatchesKids, Payload, FirstKey, Choice, MergeTree, Bare;
      PieceFacts(pages, t, h, node);
      ChoiceNode(a, Now(), t, h, idx, key, updated, c', obsolete, so);
      BarePayload(updated.entries);
      NoPayload(updated.entries);
      i, n, page, obsolete', piece := idx, idx + 1, updated, so, c';
      PieceFacts(pages, t, h, node);
      InnerNode(t);
      if updated.entries == [] || NodeBytes(updated) <= PAGE_SIZE / 4 {
        if idx > 0 {
          KidMatches(pages, t, idx - 1);
          KidOccupied(t, h, idx - 1);
          var leftID := node.entries[idx - 1].ptr;
          var left := pages[leftID];
          var merged := MergeNodes(left, updated);
          if merged.Some? {
            ChoiceLeft(a, Now(), t, h, idx, key, updated, c', obsolete, so);
            BareAppend(left.entries, updated.entries);
            return idx - 1, idx + 1, merged.value, so + [leftID], MergeTree(t.kids[idx - 1], c');
          }
        }
        if idx + 1 < |node.entries| {
          KidMatches(pages, t, idx + 1);
          KidOccupied(t, h, idx + 1);
          var rightID := node.entries[idx + 1].ptr;
          var right := pages[rightID];
          var merged := MergeNodes(updated, right);
          if merged.Some? {
            ChoiceRight(a, Now(), t, h, idx, key, updated, c', obsolete, so);
            BareAppend(updated.entries, right.entries);
            return idx, idx + 2, merged.value, so + [rightID], MergeTree(c', t.kids[idx + 1]);
          }
        }
      }
    }

    /** The parent after a removal below child `idx`, whose new content is `updated`. */
    method FinishDelete(node: Node, idx: nat, updated: Node, so: seq<nat>,
                        ghost key: Bytes, ghost obsolete: seq<nat>, ghost t: Tree, ghost h: nat, ghost c': Tree,
                        ghost a: Snap)
      returns (r: Removal, obsolete': seq<nat>, ghost t': Tree)
      requires Ready() && !callbackErr && Grown(a, Now()) && h > 0
      requires IsPiece(pages, t, h, node) && t.TInner? && idx < |t.kids| && Sorted(Flat(t)) && HasKey(Flat(t), key)
      requires Choice(a, Now(), t, h, idx, key, idx, idx + 1, updated, c', obsolete, so)
      modifies this`pages, this`callbackErr, this`born, pm
      ensures Ready() && Grown(a, Now()) && Grown(old(Now()), Now())
      ensures callbackErr ==> r.Fails?
      ensures Costs(old(Now()), Now(), callbackErr, RelinkCost(t.kids, idx, Keeps(Bare(updated.entries))))
      ensures !r.Missing?
      ensures r.Deleted? ==> Removed(a, Now(), t, h, t', r.node, key, obsolete, obsolete')
      ensures r.Deleted? ==> ShrankAt(t.kids, idx, c', t')
      ensures !callbackErr ==>
                Rejoined(t.kids, idx, Bare(updated.entries)) ==
                if r.Deleted? then Keeps(Bare(r.node.entries)) else Overflow
    {
      hide Flat, FlatAll, Wf, Matches, MatchesKids, Grown, Supplied, Sorted, Payload, FirstKey, Removed, HasKey, Choice;
      hide Replaced, NodeOf;
      hide Bare, Pick, PickTree, Relinked, Costs, OneFor;
      ghost var b := Now();
      PieceFacts(pages, t, h, node);
      var i, n, page;
      ghost var piece;
      i, n, page, obsolete', piece := ChoosePage(node, idx, updated, so, key, obsolete, t, h, c', a);
      NoPayload(page.entries);
      if page.entries == [] {
        GrownRefl(b);
        CostsNone(b);
        ChoiceEmpty(a, b, t, h, idx, key, page, piece, obsolete, obsolete');
        InnerNode(t);
        EmptyRelinked(t.kids, idx);
        var entries := node.entries[..idx] + node.entries[idx + 1..];
        var rebuilt := Encode(false, entries, PAGE_SIZE);
        return Deleted(rebuilt.value), obsolete', TInner(0, t.kids[..idx] + t.kids[idx + 1..]);
      }
      ChoicePiece(a, b, t, h, idx, key, i, n, page, piece, obsolete, obsolete');
      var rebuilt;
      rebuilt, t' := ReplaceAfterDelete(node, i, n, page, t, h, piece);
      GrownTrans(a, b, Now());
      if rebuilt.None? {
        return Fails, obsolete', t';
      }
      r := Deleted(rebuilt.value);
      ChoiceRemoved(a, b, Now(), t, h, idx, key, i, n, page, piece, t', rebuilt.value, obsolete, obsolete');
    }

    /**
     Removes `key`. An error leaves the root, the stored pages and the pages to be released as
     they were; pages stored on the way stay, under ids taken from the supply. While page ids
     last, an error is reported for a key no entry can have, and else exactly when some
     page above would outgrow its size. The next key is then longer, and some page that has
     `key` as a link has no room for the difference.
     */
    method Delete(key: Bytes, ghost v: Version) returns (r: Option<bool>, ghost v': Version, ghost released: seq<nat>)
      requires Ready() && !callbackErr
      requires Holds(v, root, pages) && Owned(pm.Snapshot(), Live(v))
      modifies this, pm
      ensures forall x :: x in old(pages) ==> x in pages && pages[x] == old(pages)[x]
      ensures !(0 < |key| <= MAX_KEY_SIZE) ==> r.None? && !callbackErr && Now() == old(Now())
      ensures r == Some(false) ==> Ready() && key !in Contents(v) && root == old(root) && Now() == old(Now())
      ensures r == Some(true) && !callbackErr ==>
                && key in Contents(v) && Ready() && Holds(v', root, pages)
                && Contents(v') == Contents(v) - {key}
                && Stepped(old(Now()), Now(), v, v', released)
                && multiset(released) <= VersionBag(v)
      ensures r.None? ==> root == old(root) && pm.pendingFreePageIDs == old(pm.pendingFreePageIDs)
      ensures 0 < |key| <= MAX_KEY_SIZE && !callbackErr ==>
                (r.None? <==> key in Contents(v) && v.Rooted? && After(v.tree, key) == Overflow)
      ensures r.None? && 0 < |key| <= MAX_KEY_SIZE && !callbackErr ==>
                && v.Rooted?
                && exists next :: Successor(Contents(v), key, next) && |next| > |key| && Cramped(v.tree, key, next)
      ensures 0 < |key| <= MAX_KEY_SIZE ==> (callbackErr <==> Available(old(pm.Snapshot())) < DeletePages(v, key))
      ensures r == Some(true) && !callbackErr ==>
                && DeleteShape(v, v', key) && DeleteJoins(v, v', key)
                && |NewIds(old(Now()), Now())| == DeletePages(v, key)
      ensures callbackErr || r.None? ==> Grown(old(Now()), Now())
    {
      hide After, Bare, DropCost, DeletePages, Costs, Successor, Cramped, TopCost, DeleteShape, Shrank, Uncapped;
      hide DeleteJoins;
      hide Flat, Bag, Wf, Matches, Grown, Supplied, Stepped, Balanced, Removed, Owned, HasKey, MatchesKids;
      hide ToMap, Sorted, Payload, Contents, VersionBag, Body, NodeOf, FirstKey;
      v', released := v, [];
      ghost var a := Now();
      if |key| == 0 || |key| > MAX_KEY_SIZE {
        GrownRefl(a);
        return None, v, [];
      }
      if root == 0 {
        NothingStored(v, key);
        NoDelete(v, key);
        return Some(false), v, [];
      }
      RootFacts(v, root, pages, key);
      var oldRoot := pages[root];
      assert ValidNode(oldRoot);
      KeyInVersion(v, key);
      var sub, obsolete, t' := DeleteNode(oldRoot, key, [], v.tree, v.height);
      GrownPages(a, Now());
      if sub.Missing? {
        NoDelete(v, key);
        return Some(false), v, [];
      }
      DeleteTotal(v, key);
      if sub.Fails? {
        SamePending(a, Now());
        if callbackErr {
          CostsMore(a, Now(), DropCost(v.tree, key), DeletePages(v, key));
        } else {
          OverflowMeans(v, key);
          TopNone();
        }
        CostsExactly(a, Now(), callbackErr, DeletePages(v, key));
        return None, v, [];
      }
      ghost var b := Now();
      obsolete := obsolete + [root];
      v' := StoreUpdatedRoot(sub.node, key, v, t', obsolete[..|obsolete| - 1], a);
      assert obsolete == obsolete[..|obsolete| - 1] + [v.tree.id];
      GrownPages(a, Now());
      CostsTrans(a, b, Now(), callbackErr, DropCost(v.tree, key), TopCost(Keeps(Bare(sub.node.entries))));
      CostsExactly(a, Now(), callbackErr, DeletePages(v, key));
      CostsCount(a, Now(), callbackErr, DeletePages(v, key));
      if !callbackErr {
        ShapeOf(v, v', t', key);
        ShapeJoins(v, v', key);
        ghost var d := Now();
        BalancedUnshared(a, d, v, v', obsolete);
        Release(obsolete);
        BalancedSteps(a, d, Now(), v, v', obsolete);
      }
      return Some(true), v', obsolete;
    }

    /** A root with nothing but the sentinel goes away, a root with one child gives way to it. */
    method StoreUpdatedRoot(updated: Node, ghost key: Bytes, ghost v: Version, ghost t': Tree, ghost obs: seq<nat>,
        ghost a: Snap)
      returns (ghost v': Version)
      requires Ready() && !callbackErr && Grown(a, Now())
      requires v.Rooted? && SoundVersion(v) && Owned(a.pm, Live(v)) && key != []
      requires Removed(a, Now(), v.tree, v.height, t', updated, key, [], obs)
      modifies this, pm
      ensures Ready() && Grown(a, Now()) && Grown(old(Now()), Now())
      ensures Costs(old(Now()), Now(), callbackErr, TopCost(Keeps(Bare(updated.entries))))
      ensures !callbackErr ==> Uncapped(t', v.height, v')
      ensures !callbackErr ==> && Holds(v', root, pages)
                               && Balanced(a, Now(), v, v', obs + [v.tree.id])
                               && key in Contents(v) && Contents(v') == Contents(v) - {key}
    {
      hide Flat, Bag, KidBag, Wf, Matches, Grown, Supplied, Balanced, Removed, Owned, MatchesKids;
      hide ToMap, Sorted, Payload, Contents, Body, NodeOf, FirstKey, WithId, Costs;
      ghost var b := Now();
      CostsNone(b);
      UpdatedRoot(a, b, v, key, t', updated, obs);
      RemovedFacts(a, b, v.tree, v.height, t', updated, key, [], obs);
      GrownRefl(b);
      if (updated.leaf && |updated.entries| == 1) || (!updated.leaf && |updated.entries| == 0) {
        root := 0;
        v' := Empty;
      } else if !updated.leaf && |updated.entries| == 1 {
        root := updated.entries[0].ptr;
        v' := Rooted(t'.kids[0], v.height - 1);
      } else {
        root := New(updated);
        v' := v;
        GrownTrans(a, b, Now());
        if callbackErr {
          return;
        }
        StoredRoot(b, Now(), t', v.height, updated, root);
        v' := Rooted(WithId(t', root), v.height);
      }
      RemovedVersion(a, b, Now(), v, key, t', updated, obs, v');
      WithIdSame(t', root);
    }

    // ----- Reading

    /** The value bound to `key`, if any; an empty key is an error. */
    method GetValue(key: Bytes, ghost v: Version) returns (r: Option<Option<Bytes>>)
      requires Holds(v, root, pages)
      ensures key == [] ==> r == None
      ensures key != [] ==> r == Some(if key in Contents(v) then Some(Contents(v)[key]) else None)
    {
      hide Flat, Wf, Matches, Sorted, Payload, FirstKey, Find, Contents, NodeOf, MatchesKids;
      if |key| == 0 {
        return None;
      }
      LookupIsFind(v, key);
      if root == 0 {
        EmptyFind(key);
        return Some(None);
      }
      RootFacts(v, root, pages, key);
      var node := pages[root];
      ghost var t, h := v.tree, v.height;
      while !node.leaf
        invariant IsPiece(pages, t, h, node) && ValidNode(node) && Sorted(Flat(t)) && Leq(FirstKey(t), key)
        invariant Find(Flat(t), key) == Find(Flat(v.tree), key)
        decreases h
      {
        ghost var idx', child' := ChildFor(pages, t, h, node, key);
        var idx := UpperBound(node.entries, key) - 1;
        PieceFacts(pages, t, h, node);
        FindInChild(t, h, idx, key);
        node := pages[node.entries[idx].ptr];
        t, h := child', h - 1;
      }
      LeafFlat(pages, t, h, node);
      FindInLeaf(node.entries, key);
      var idx := UpperBound(node.entries, key) - 1;
      if node.entries[idx].key != key {
        return Some(None);
      }
      return Some(Some(node.entries[idx].value));
    }

    /** The leaf where `start` belongs, its position there, and the path down to it. */
    method SeekRangeStart(start: Bytes, ghost v: Version)
      returns (leaf: Node, idx: nat, path: seq<Frame>, ghost trees: seq<Tree>, ghost t: Tree, ghost before: seq<Entry>)
      requires Holds(v, root, pages) && root != 0
      ensures At(pages, v.height, leaf, path, trees, t)
      ensures idx <= |leaf.entries| && AllBelow(before, start) && AllBelow(leaf.entries[..idx], start)
      ensures VersionFlat(v) == before + Flat(t) + Rest(path, trees)
    {
      hide Flat, FlatAll, Wf, Matches, Sorted, Payload, FirstKey, NodeOf, MatchesKids, Rest;
      RootFacts(v, root, pages, start);
      leaf := pages[root];
      path, trees, t, before := [], [], v.tree, [];
      ghost var h := v.height;
      NoRest();
      while !leaf.leaf
        invariant OnPages(pages, path, trees, v.height) && h == v.height - |path|
        invariant IsPiece(pages, t, h, leaf) && ValidNode(leaf) && Sorted(Flat(t)) && Leq(FirstKey(t), start)
        invariant AllBelow(before, start)
        invariant VersionFlat(v) == before + Flat(t) + Rest(path, trees)
        decreases h
      {
        ghost var idx', child' := ChildFor(pages, t, h, leaf, start);
        var i := UpperBound(leaf.entries, start) - 1;
        SeekStep(pages, t, h, leaf, i, start, path, trees, v.height, before);
        path, trees := path + [Frame(leaf, i)], trees + [t];
        before := before + FlatAll(t.kids[..i]);
        leaf := pages[leaf.entries[i].ptr];
        t, h := child', h - 1;
      }
      idx := LowerBound(leaf.entries, start);
    }

    /** The leaf right of the path's position, if there is one. */
    method NextLeaf(path: seq<Frame>, ghost trees: seq<Tree>, ghost h: nat)
      returns (leaf: Option<Node>, path': seq<Frame>, ghost trees': seq<Tree>, ghost t: Tree)
      requires OnPages(pages, path, trees, h)
      ensures leaf.None? ==> Rest(path, trees) == []
      ensures leaf.Some? ==>
                At(pages, h, leaf.value, path', trees', t) && Rest(path, trees) == Flat(t) + Rest(path', trees')
    {
      hide Flat, FlatAll, Wf, Matches, Sorted, Payload, FirstKey, NodeOf, MatchesKids, Rest, IsPiece;
      path', trees', t := path, trees, TLeaf(0, []);
      while path' != []
        invariant OnPages(pages, path', trees', h) && Rest(path', trees') == Rest(path, trees)
        decreases |path'|
      {
        NextStep(pages, path', trees', h);
        var last := |path'| - 1;
        var frame := path'[last];
        if frame.childIdx + 1 >= |frame.node.entries| {
          path', trees' := path'[..last], trees'[..last];
          continue;
        }
        path' := path'[last := Frame(frame.node, frame.childIdx + 1)];
        ChildPiece(pages, trees'[last], h - last, frame.node, frame.childIdx + 1);
        var node := pages[frame.node.entries[frame.childIdx + 1].ptr];
        t := trees'[last].kids[frame.childIdx + 1];
        leaf, path', trees', t := DescendLeft(node, path', trees', h, t);
        return;
      }
      NoRest();
      leaf := None;
    }

    /** The leftmost leaf below `node`. */
    method DescendLeft(node: Node, path: seq<Frame>, ghost trees: seq<Tree>, ghost h: nat, ghost t: Tree)
      returns (leaf: Option<Node>, path': seq<Frame>, ghost trees': seq<Tree>, ghost t': Tree)
      requires OnPages(pages, path, trees, h) && |path| <= h && IsPiece(pages, t, h - |path|, node) && Sorted(Flat(t))
      ensures leaf.Some? && At(pages, h, leaf.value, path', trees', t')
      ensures Flat(t) + Rest(path, trees) == Flat(t') + Rest(path', trees')
    {
      hide Flat, FlatAll, Wf, Matches, Sorted, Payload, FirstKey, NodeOf, MatchesKids, Rest;
      var at := node;
      path', trees', t' := path, trees, t;
      while !at.leaf
        invariant OnPages(pages, path', trees', h) && |path'| <= h
        invariant IsPiece(pages, t', h - |path'|, at) && Sorted(Flat(t'))
        invariant Flat(t) + Rest(path, trees) == Flat(t') + Rest(path', trees')
        decreases h - |path'|
      {
        InnerIsHigh(pages, t', h - |path'|, at);
        PushFirst(pages, path', trees', h, t', at);
        ChildPiece(pages, t', h - |path'|, at, 0);
        path', trees' := path' + [Frame(at, 0)], trees' + [t'];
        at := pages[at.entries[0].ptr];
        t' := t'.kids[0];
      }
      leaf := Some(at);
    }

    /** Every entry with a key from `start` to `end`, once each, in ascending order. */
    method RangeValues(start: Bytes, end: Bytes, ghost v: Version) returns (r: Option<seq<Entry>>)
      requires Holds(v, root, pages)
      ensures r.Some? <==> |start| <= MAX_KEY_SIZE && |end| <= MAX_KEY_SIZE
      ensures r.Some? ==> r.value == InRange(VersionFlat(v), start, end)
    {
      hide Flat, FlatAll, Wf, Matches, Sorted, Payload, FirstKey, NodeOf, MatchesKids, InRange, Rest, IsPiece;
      if |start| > MAX_KEY_SIZE || |end| > MAX_KEY_SIZE {
        return None;
      }
      if Less(end, start) || root == 0 {
        EmptyRange(VersionFlat(v), start, end);
        return Some([]);
      }
      var leaf, entryIdx, path, trees, t, before := SeekRangeStart(start, v);
      RangeStart(pages, v, root, leaf, entryIdx, path, trees, t, before, start, end);
      var entries := [];
      while true
        invariant At(pages, v.height, leaf, path, trees, t) && 0 <= entryIdx <= |leaf.entries|
        invariant Sorted(leaf.entries + Rest(path, trees))
        invariant InRange(VersionFlat(v), start, end) ==
                  entries + InRange(leaf.entries[entryIdx..], start, end) + InRange(Rest(path, trees), start, end)
        decreases |Rest(path, trees)|
      {
        ghost var rest := Rest(path, trees);
        var done;
        entries, done := TakeLeaf(leaf.entries, entryIdx, start, end, entries, rest);
        if done {
          return Some(entries);
        }
        AtPath(pages, v.height, leaf, path, trees, t);
        var next;
        next, path, trees, t := NextLeaf(path, trees, v.height);
        if next.None? {
          EmptyRange([], start, end);
          return Some(entries);
        }
        RangeNext(pages, v.height, leaf.entries, rest, next.value, path, trees, t, start, end);
        leaf, entryIdx := next.value, 0;
      }
    }
  }
}
