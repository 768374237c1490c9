/**
 The walk that loads the committed tree. It runs on pages of arbitrary content, ends on
 all of them, cyclic ones included, and accepts exactly the pages that form a tree.
 */
module PageLoaders {
  import opened ByteStrings
  import opened Entries
  import opened PageNodes
  import opened PageTrees
  import opened PageTreeSteps
  import opened PageUpdates
  import opened PageLoading

  /** What is asked of the root alone: the sentinel, and two children if it has any. */
  ghost predicate RootOk(t: Tree) {
    FirstKey(t) == [] && (t.TInner? ==> |t.kids| >= 2)
  }

  /** The walk's memory, as a value. */
  datatype Walked = Walked(pages: Store, visiting: set<nat>, leafDepth: Option<nat>)

  /** A subtree that the walk, in state `w`, is bound to accept at `depth`. */
  ghost predicate Wanted(
    store: Store, w: Walked, t: Tree, h: nat, depth: nat, lower: Option<Bytes>, upper: Option<Bytes>, count: nat,
    free: set<nat>)
  {
    && Recognised(store, t, h, lower, upper, count, free)
    && (w.leafDepth == None || w.leafDepth == Some(depth + h))
    && forall x :: x in Bag(t) ==> x !in w.pages && x !in w.visiting
  }

  /** The outcome of a successful walk from state `w` to state `w'`. */
  ghost predicate Loaded(
    store: Store, w: Walked, w': Walked, t: Tree, h: nat, depth: nat, lower: Option<Bytes>, upper: Option<Bytes>,
    count: nat, free: set<nat>)
  {
    && Recognised(store, t, h, lower, upper, count, free)
    && w'.leafDepth == Some(depth + h) && (w.leafDepth.Some? ==> w.leafDepth == w'.leafDepth)
    && Added(w.pages, w'.pages, store, Bag(t))
    && w'.visiting == w.visiting
  }

  ghost function Unseen(w: Walked, count: nat): set<nat> {
    set x | 1 <= x <= count && x !in w.visiting && x !in w.pages
  }

  lemma {:induction false} UnseenShrinks(w: Walked, w': Walked, count: nat)
    requires forall x :: x in w.pages ==> x in w'.pages
    requires w.visiting <= w'.visiting
    ensures |Unseen(w', count)| <= |Unseen(w, count)|
    ensures forall x :: x in Unseen(w, count) && x !in Unseen(w', count) ==> |Unseen(w', count)| < |Unseen(w, count)|
  {
    Smaller(Unseen(w', count), Unseen(w, count));
  }

  lemma {:induction false} Smaller(a: set<nat>, b: set<nat>)
    requires a <= b
    ensures |a| <= |b| && (a != b ==> |a| < |b|)
  {
    assert b == a + (b - a);
    assert a != b ==> b - a != {};
  }

  /** The first children of `node` have been loaded, all with their leaves at one depth. */
  ghost predicate KidsLoaded(
    store: Store, w: Walked, w': Walked, node: Node, kids: seq<Tree>, h: nat, depth: nat, upper: Option<Bytes>,
    count: nat, free: set<nat>)
  {
    && KidsRecognised(store, node, kids, h, upper, count, free)
    && Added(w.pages, w'.pages, store, BagAll(kids))
    && w'.visiting == w.visiting
    && (if kids == [] then w'.leafDepth == w.leafDepth else w'.leafDepth == Some(depth + 1 + h))
    && (w.leafDepth.Some? ==> w'.leafDepth == w.leafDepth)
  }

  /** The children that the walk, in state `w`, is bound to accept below `node`. */
  ghost predicate WantedKids(
    store: Store, w: Walked, node: Node, t: Tree, h: nat, depth: nat, lower: Option<Bytes>, upper: Option<Bytes>,
    count: nat, free: set<nat>)
  {
    && t.TInner? && node == NodeOf(t) && Recognised(store, t, h, lower, upper, count, free)
    && (w.leafDepth == None || w.leafDepth == Some(depth + h))
    && forall x :: x in BagAll(t.kids) ==> x !in w.pages && x !in w.visiting
  }

  lemma {:induction false} NoKidsLoaded(store: Store, w: Walked, node: Node, depth: nat, upper: Option<Bytes>,
      count: nat, free: set<nat>)
    ensures KidsLoaded(store, w, w, node, [], 0, depth, upper, count, free)
  {
  }

  lemma {:induction false} KidsLoadedStep(
    store: Store, w: Walked, w1: Walked, w2: Walked, node: Node, kids: seq<Tree>, h: nat, kid: Tree, h': nat,
    depth: nat, upper: Option<Bytes>, count: nat, free: set<nat>)
    requires KidsLoaded(store, w, w1, node, kids, h, depth, upper, count, free) && |kids| < |node.entries|
    requires kid.id == node.entries[|kids|].ptr
    requires Loaded(store, w1, w2, kid, h', depth + 1, Some(node.entries[|kids|].key),
                    UpperFor(node, |kids|, upper), count, free)
    ensures KidsLoaded(store, w, w2, node, kids + [kid], h', depth, upper, count, free)
    ensures kids != [] ==> h' == h
  {
    hide Recognised, BagAll, Bag;
    AddedTrans(w.pages, w1.pages, w2.pages, store, BagAll(kids), Bag(kid));
    if kids == [] {
      NoKidsHeight(store, node, upper, count, free, h, h');
    }
    KidsGrow(store, node, kids, kid, h', upper, count, free);
  }

  lemma {:induction false} NoKidsHeight(store: Store, node: Node, upper: Option<Bytes>, count: nat, free: set<nat>,
      h: nat, h': nat)
    ensures KidsRecognised(store, node, [], h', upper, count, free)
  {
  }

  lemma {:induction false} OneHeight(t: Tree, h: nat, h': nat)
    requires Wf(t, h) && Wf(t, h')
    ensures h == h'
    decreases t
  {
    if t.TInner? {
      InnerFacts(t, h);
      InnerFacts(t, h');
      OneHeight(t.kids[0], h - 1, h' - 1);
    }
  }

  /** The next child of a wanted page is wanted in turn. */
  lemma {:induction false} WantedKid(
    store: Store, w: Walked, w1: Walked, node: Node, t: Tree, h: nat, i: nat, hk: nat,
    depth: nat, lower: Option<Bytes>, upper: Option<Bytes>, count: nat, free: set<nat>)
    requires WantedKids(store, w, node, t, h, depth, lower, upper, count, free) && i < |t.kids|
    requires KidsLoaded(store, w, w1, node, t.kids[..i], hk, depth, upper, count, free)
    ensures h > 0 && i < |node.entries| && node.entries[i].ptr == t.kids[i].id
    ensures Wanted(store, w1, t.kids[i], h - 1, depth + 1, Some(node.entries[i].key),
                   UpperFor(node, i, upper), count, free)
  {
    hide Recognised, Bag, BagAll, NodeOf, UpperFor, KidsRecognised;
    KidOfRecognised(store, t, h, lower, upper, count, free, i);
    SplitAt(t.kids, i);
    if i > 0 {
      KidsHeight(store, node, t, h, t.kids[..i], hk, lower, upper, count, free);
    }
  }

  lemma {:induction false} KidsHeight(
    store: Store, node: Node, t: Tree, h: nat, kids: seq<Tree>, hk: nat,
    lower: Option<Bytes>, upper: Option<Bytes>, count: nat, free: set<nat>)
    requires t.TInner? && node == NodeOf(t) && Recognised(store, t, h, lower, upper, count, free)
    requires KidsRecognised(store, node, kids, hk, upper, count, free) && kids != [] && kids <= t.kids
    ensures hk == h - 1
  {
    hide Recognised, Bag, BagAll, NodeOf;
    KidOfRecognised(store, t, h, lower, upper, count, free, 0);
    UnsharedOf(store, t.kids[0], h - 1, Some(node.entries[0].key), UpperFor(node, 0, upper), count, free);
    assert kids[0] == t.kids[0];
    UnsharedOf(store, t.kids[0], hk, Some(node.entries[0].key), UpperFor(node, 0, upper), count, free);
    OneHeight(t.kids[0], h - 1, hk);
  }

  lemma {:induction false} KidsUnseen(
    store: Store, w: Walked, w1: Walked, node: Node, kids: seq<Tree>, h: nat, depth: nat, upper: Option<Bytes>,
    count: nat, free: set<nat>)
    requires KidsLoaded(store, w, w1, node, kids, h, depth, upper, count, free)
    ensures |Unseen(w1, count)| <= |Unseen(w, count)|
  {
    UnseenShrinks(w, w1, count);
  }

  lemma {:induction false} LoadedIsWanted(
    store: Store, w: Walked, w': Walked, t: Tree, h: nat, want: Tree, wantHeight: nat,
    depth: nat, lower: Option<Bytes>, upper: Option<Bytes>, count: nat, free: set<nat>)
    requires Loaded(store, w, w', t, h, depth, lower, upper, count, free) && t.id == want.id
    requires Wanted(store, w, want, wantHeight, depth, lower, upper, count, free)
    ensures t == want
  {
    FoundOnce(store, t, want);
  }

  lemma {:induction false} WantedKidsCount(
    store: Store, w: Walked, node: Node, t: Tree, h: nat, depth: nat, lower: Option<Bytes>, upper: Option<Bytes>,
    count: nat, free: set<nat>)
    requires WantedKids(store, w, node, t, h, depth, lower, upper, count, free)
    ensures t.TInner? && |t.kids| == |node.entries| && t.kids[..0] == []
  {
  }

  // ----- Single steps of the walk

  /** What the walk meets first where a wanted subtree is stored. */
  lemma {:induction false} WantedPage(
    disk: Pages, w: Walked, t: Tree, h: nat, depth: nat, lower: Option<Bytes>, upper: Option<Bytes>, count: nat,
    free: set<nat>)
    requires Wanted(TreeStore(disk), w, t, h, depth, lower, upper, count, free)
    ensures 1 <= t.id <= count && t.id !in w.visiting && t.id !in w.pages && t.id !in free
    ensures t.id in disk && disk[t.id].TreePage? && disk[t.id].node == NodeOf(t)
    ensures ValidNode(NodeOf(t)) && NodeOf(t).entries != [] && NodeOf(t).entries[0].key == FirstKey(t)
    ensures lower.Some? ==> NodeOf(t).entries[0].key == lower.value
    ensures upper.Some? ==> Less(NodeOf(t).entries[|NodeOf(t).entries| - 1].key, upper.value)
    ensures NodeOf(t).leaf ==> w.leafDepth == None || w.leafDepth == Some(depth)
  {
    PageOfRecognised(TreeStore(disk), t, h, lower, upper, count, free);
    assert t.id in Bag(t);
  }

  lemma {:induction false} RootPage(t: Tree)
    requires RootOk(t)
    ensures FirstKey(t) == [] && (!NodeOf(t).leaf ==> |NodeOf(t).entries| >= 2)
  {
  }

  lemma {:induction false} RootChecked(t: Tree, node: Node, isRoot: bool)
    requires node == NodeOf(t) && node.entries != [] && node.entries[0].key == FirstKey(t)
    requires isRoot ==> node.entries[0].key == [] && (!node.leaf ==> |node.entries| >= 2)
    ensures isRoot ==> RootOk(t)
  {
  }

  lemma {:induction false} StoreAt(disk: Pages, id: nat)
    requires id in disk && disk[id].TreePage?
    ensures id in TreeStore(disk) && TreeStore(disk)[id] == disk[id].node
  {
  }

  lemma {:induction false} Visited(w: Walked, w1: Walked, id: nat, count: nat)
    requires 1 <= id <= count && id !in w.visiting && id !in w.pages
    requires id in w1.pages && w1.visiting == w.visiting + {id} && forall x :: x in w.pages ==> x in w1.pages
    ensures |Unseen(w1, count)| < |Unseen(w, count)|
  {
    UnseenShrinks(w, w1, count);
    assert id in Unseen(w, count) && id !in Unseen(w1, count);
  }

  lemma {:induction false} WantedBelow(
    store: Store, w: Walked, w1: Walked, t: Tree, h: nat, depth: nat, lower: Option<Bytes>, upper: Option<Bytes>,
    count: nat, free: set<nat>,
    id: nat, node: Node)
    requires Wanted(store, w, t, h, depth, lower, upper, count, free) && t.id == id && node == NodeOf(t) && !node.leaf
    requires w1 == Walked(w.pages[id := node], w.visiting + {id}, w.leafDepth)
    ensures t.TInner? && WantedKids(store, w1, node, t, h, depth, lower, upper, count, free)
  {
    hide BagAll;
    InnerFlatOf(t);
    assert Unshared(t);
    assert Bag(t)[id] <= 1;
  }

  lemma {:induction false} KidsInPages(
    store: Store, w: Walked, w': Walked, node: Node, kids: seq<Tree>, h: nat, depth: nat, upper: Option<Bytes>,
    count: nat, free: set<nat>)
    requires KidsLoaded(store, w, w', node, kids, h, depth, upper, count, free)
    ensures |kids| <= |node.entries|
    ensures forall i :: 0 <= i < |kids| ==>
              node.entries[i].ptr == kids[i].id && kids[i].id in w'.pages && w'.pages[kids[i].id] == NodeOf(kids[i])
  {
    hide BagAll;
    forall i | 0 <= i < |kids| ensures kids[i].id in w'.pages && w'.pages[kids[i].id] == NodeOf(kids[i]) {
      UnsharedOf(store, kids[i], h, Some(node.entries[i].key), UpperFor(node, i, upper), count, free);
      BagAllMember(kids, i, kids[i].id);
      assert kids[i].id in Bag(kids[i]);
    }
  }

  lemma {:induction false} LeafAdded(p: Store, store: Store, id: nat, node: Node, t: Tree)
    requires id !in p && id in store && store[id] == node && Bag(t) == multiset{id}
    ensures Added(p, p[id := node], store, Bag(t))
  {
  }

  lemma {:induction false} NotCrowded(
    store: Store, w: Walked, t: Tree, h: nat, depth: nat, lower: Option<Bytes>, upper: Option<Bytes>, count: nat,
    free: set<nat>)
    requires Wanted(store, w, t, h, depth, lower, upper, count, free) && t.TInner?
    ensures forall i :: 0 <= i < |t.kids| ==> !Crowded(t.kids, i)
  {
  }

  /** All children loaded and no neighbours to merge: the page is loaded with them. */
  lemma {:induction false} ParentLoaded(
    store: Store, w: Walked, w1: Walked, w2: Walked, id: nat, node: Node, kids: seq<Tree>, h: nat, depth: nat,
    lower: Option<Bytes>, upper: Option<Bytes>, count: nat, free: set<nat>)
    requires KidsLoaded(store, w1, w2, node, kids, h, depth, upper, count, free) && |kids| == |node.entries| > 0
    requires w1 == Walked(w.pages[id := node], w.visiting + {id}, w.leafDepth)
    requires !node.leaf && ValidNode(node) && id in store && store[id] == node && id !in w.pages && id !in w.visiting
    requires lower.Some? ==> node.entries[0].key == lower.value
    requires upper.Some? ==> Less(node.entries[|node.entries| - 1].key, upper.value)
    requires 1 <= id <= count && id !in free
    requires forall i :: 0 <= i < |kids| ==> !Crowded(kids, i)
    ensures Recognised(store, TInner(id, kids), h + 1, lower, upper, count, free)
    ensures Added(w.pages, w2.pages, store, Bag(TInner(id, kids)))
    ensures w2.leafDepth == Some(depth + (h + 1)) && (w.leafDepth.Some? ==> w2.leafDepth == w.leafDepth)
    ensures w2.visiting == w.visiting + {id}
  {
    hide Recognised, Bag, BagAll, Crowded, ValidNode;
    ParentRecognised(store, id, node, kids, h, lower, upper, count, free);
    AddedTrans(w.pages, w1.pages, w2.pages, store, multiset{id}, BagAll(kids));
  }

  lemma {:induction false} Finished(
    store: Store, w: Walked, w1: Walked, w2: Walked, id: nat, t: Tree, h: nat, node: Node, depth: nat,
    lower: Option<Bytes>, upper: Option<Bytes>, count: nat, free: set<nat>)
    requires Recognised(store, t, h, lower, upper, count, free) && t.id == id
    requires Added(w.pages, w2.pages, store, Bag(t)) && w2.visiting == w.visiting && store[id] == node
    requires w2.leafDepth == Some(depth + h) && (w.leafDepth.Some? ==> w2.leafDepth == w.leafDepth)
    ensures Loaded(store, w, w2, t, h, depth, lower, upper, count, free)
    ensures node == NodeOf(t) && node.entries != [] && node.entries[0].key == FirstKey(t)
  {
    PageOfRecognised(store, t, h, lower, upper, count, free);
  }

  class PageLoader {
    const disk: Pages
    const count: nat
    const free: set<nat>
    var pages: Store
    var visiting: set<nat>
    var leafDepth: Option<nat>

    constructor (disk: Pages, count: nat, free: set<nat>)
      ensures this.disk == disk && this.count == count && this.free == free
      ensures Now() == Walked(map[], {}, None)
    {
      this.disk := disk;
      this.count := count;
      this.free := free;
      pages := map[];
      visiting := {};
      leafDepth := None;
    }

    ghost function Now(): Walked
      reads this
    {
      Walked(pages, visiting, leafDepth)
    }

    /** The checks on one page before its children are visited. */
    method CheckPage(node: Node, lower: Option<Bytes>, upper: Option<Bytes>, isRoot: bool) returns (ok: bool)
      ensures ok <==>
              && ValidNode(node) && node.entries != []
              && (isRoot ==> node.entries[0].key == [] && (!node.leaf ==> |node.entries| >= 2))
              && (lower.Some? ==> node.entries[0].key == lower.value)
              && (upper.Some? ==> Less(node.entries[|node.entries| - 1].key, upper.value))
    {
      ok := Validate(node);
      if !ok || |node.entries| == 0 {
        return false;
      }
      if isRoot && |node.entries[0].key| != 0 {
        return false;
      }
      if isRoot && !node.leaf && |node.entries| < 2 {
        return false;
      }
      var firstKey, lastKey := node.entries[0].key, node.entries[|node.entries| - 1].key;
      if lower.Some? && firstKey != lower.value {
        return false;
      }
      if upper.Some? && !Less(lastKey, upper.value) {
        return false;
      }
    }

    /** Loads the children of `node` from left to right. */
    method WalkKids(node: Node, depth: nat, ghost lower: Option<Bytes>, upper: Option<Bytes>, ghost want: Tree,
        ghost wantHeight: nat)
      returns (ok: bool, ghost kids: seq<Tree>, ghost h: nat)
      modifies this
      ensures ok ==>
                |kids| == |node.entries|
                && KidsLoaded(TreeStore(disk), old(Now()), Now(), node, kids, h, depth, upper, count, free)
      ensures WantedKids(TreeStore(disk), old(Now()), node, want, wantHeight, depth, lower, upper, count, free) ==>
                ok && kids == want.kids
      decreases |Unseen(Now(), count)|, 2
    {
      hide Recognised, BagAll, Bag, KidsLoaded, WantedKids, Wanted, Loaded, UpperFor, Unseen, NodeOf;
      ghost var store, w := TreeStore(disk), Now();
      ghost var wanted := WantedKids(store, w, node, want, wantHeight, depth, lower, upper, count, free);
      kids, h := [], 0;
      NoKidsLoaded(store, w, node, depth, upper, count, free);
      if wanted {
        WantedKidsCount(store, w, node, want, wantHeight, depth, lower, upper, count, free);
      }
      var i := 0;
      while i < |node.entries|
        invariant 0 <= i <= |node.entries| && |kids| == i
        invariant KidsLoaded(store, w, Now(), node, kids, h, depth, upper, count, free)
        invariant wanted ==> want.TInner? && |want.kids| == |node.entries| && kids == want.kids[..i]
      {
        ghost var w1 := Now();
        KidsUnseen(store, w, w1, node, kids, h, depth, upper, count, free);
        ghost var next := if wanted then want.kids[i] else want;
        if wanted {
          WantedKid(store, w, w1, node, want, wantHeight, i, h, depth, lower, upper, count, free);
        }
        var found, kid, h' := Walk(node.entries[i].ptr, depth + 1, Some(node.entries[i].key),
                                   UpperFor(node, i, upper), false,
                                   next, if wanted then wantHeight - 1 else 0);
        if !found {
          return false, kids, h;
        }
        KidsLoadedStep(store, w, w1, Now(), node, kids, h, kid, h', depth, upper, count, free);
        if wanted {
          LoadedIsWanted(store, w1, Now(), kid, h', next, wantHeight - 1, depth + 1, Some(node.entries[i].key),
                         UpperFor(node, i, upper), count, free);
          TakeStep(want.kids, i);
        }
        kids, h := kids + [kid], h';
        i := i + 1;
      }
      if wanted {
        TakeAll(want.kids);
      }
      ok := true;
    }

    /**
     Loads the subtree at page `id`. Every call on a page not seen before shrinks the set
     of unseen pages, so the walk ends whatever the pages hold. It succeeds exactly on a
     recognisable subtree none of whose pages has been met before.
     */
    method Walk(id: nat, depth: nat, lower: Option<Bytes>, upper: Option<Bytes>, isRoot: bool, ghost want: Tree,
        ghost wantHeight: nat)
      returns (ok: bool, ghost t: Tree, ghost h: nat)
      modifies this
      ensures ok ==> t.id == id && Loaded(TreeStore(disk), old(Now()), Now(), t, h, depth, lower, upper, count, free)
      ensures ok && isRoot ==> RootOk(t)
      ensures (&& want.id == id && (isRoot ==> RootOk(want))
               && Wanted(TreeStore(disk), old(Now()), want, wantHeight, depth, lower, upper, count, free)) ==> ok
      decreases |Unseen(Now(), count)|, 1
    {
      hide Recognised, Bag, Wanted, Loaded, Unseen, NodeOf, FirstKey, ValidNode, RootOk, TreeStore, Added;
      ok, t, h := false, want, 0;
      ghost var store, w := TreeStore(disk), Now();
      ghost var wanted := && want.id == id && (isRoot ==> RootOk(want))
                          && Wanted(store, w, want, wantHeight, depth, lower, upper, count, free);
      if wanted {
        WantedPage(disk, w, want, wantHeight, depth, lower, upper, count, free);
      }
      if id == 0 || id > count || id in visiting || id in pages {
        return;
      }
      visiting := visiting + {id};
      if id in free || id !in disk || !disk[id].TreePage? {
        return;
      }
      var node := disk[id].node;
      ok := CheckPage(node, lower, upper, isRoot);
      if wanted && isRoot {
        RootPage(want);
      }
      if !ok {
        return;
      }
      StoreAt(disk, id);
      ok, t, h := Visit(id, node, depth, lower, upper, want, wantHeight, w);
      if ok {
        RootChecked(t, node, isRoot);
      }
    }

    /** Loads a page that has passed its own checks, and what is below it. */
    method Visit(id: nat, node: Node, depth: nat, ghost lower: Option<Bytes>, upper: Option<Bytes>, ghost want: Tree,
        ghost wantHeight: nat, ghost w: Walked)
      returns (ok: bool, ghost t: Tree, ghost h: nat)
      requires Now() == Walked(w.pages, w.visiting + {id}, w.leafDepth)
      requires ValidNode(node) && node.entries != [] && id !in w.pages && id !in w.visiting
      requires id in TreeStore(disk) && TreeStore(disk)[id] == node
      requires lower.Some? ==> node.entries[0].key == lower.value
      requires upper.Some? ==> Less(node.entries[|node.entries| - 1].key, upper.value)
      requires 1 <= id <= count && id !in free
      modifies this
      ensures ok ==>
                && t.id == id && Loaded(TreeStore(disk), w, Now(), t, h, depth, lower, upper, count, free)
                && node == NodeOf(t) && node.entries[0].key == FirstKey(t)
      ensures (want.id == id && node == NodeOf(want) &&
               Wanted(TreeStore(disk), w, want, wantHeight, depth, lower, upper, count, free)) ==> ok
      decreases |Unseen(w, count)|, 0
    {
      hide Recognised, Bag, Wanted, Loaded, Unseen, NodeOf, FirstKey, ValidNode, TreeStore, Added;
      ok, t, h := false, want, 0;
      ghost var store := TreeStore(disk);
      pages := pages[id := node];
      ghost var w1 := Now();
      Visited(w, w1, id, count);
      if node.leaf {
        if want.id == id && node == NodeOf(want)
        && Wanted(store, w, want, wantHeight, depth, lower, upper, count, free) {
          WantedPage(disk, w, want, wantHeight, depth, lower, upper, count, free);
        }
        if leafDepth == None {
          leafDepth := Some(depth);
        } else if leafDepth.value != depth {
          return;
        }
        t, h := TLeaf(id, node.entries), 0;
        LeafRecognised(store, id, node, lower, upper, count, free);
        LeafAdded(w.pages, store, id, node, t);
      } else {
        ok, t, h := WalkInner(id, node, depth, lower, upper, want, wantHeight, w);
        if !ok {
          return;
        }
      }
      ok := true;
      visiting := visiting - {id};
      Finished(store, w, w1, Now(), id, t, h, node, depth, lower, upper, count, free);
    }

    /** Loads an internal page whose own entry has been made. */
    method WalkInner(id: nat, node: Node, depth: nat, ghost lower: Option<Bytes>, upper: Option<Bytes>,
        ghost want: Tree, ghost wantHeight: nat, ghost w: Walked)
      returns (ok: bool, ghost t: Tree, ghost h: nat)
      requires Now() == Walked(w.pages[id := node], w.visiting + {id}, w.leafDepth)
      requires !node.leaf && ValidNode(node) && node.entries != [] && id !in w.pages && id !in w.visiting
      requires id in TreeStore(disk) && TreeStore(disk)[id] == node
      requires lower.Some? ==> node.entries[0].key == lower.value
      requires upper.Some? ==> Less(node.entries[|node.entries| - 1].key, upper.value)
      requires 1 <= id <= count && id !in free
      modifies this
      ensures ok ==>
                && t.id == id && Recognised(TreeStore(disk), t, h, lower, upper, count, free)
                && Added(w.pages, pages, TreeStore(disk), Bag(t)) && visiting == w.visiting + {id}
                && leafDepth == Some(depth + h) && (w.leafDepth.Some? ==> leafDepth == w.leafDepth)
      ensures (want.id == id && node == NodeOf(want) &&
               Wanted(TreeStore(disk), w, want, wantHeight, depth, lower, upper, count, free)) ==> ok
      decreases |Unseen(Now(), count)|, 3
    {
      hide Recognised, Bag, KidsLoaded, WantedKids, Wanted, Unseen, NodeOf, ValidNode, TreeStore, Added, Crowded;
      ok, t, h := false, want, 0;
      ghost var store, w1 := TreeStore(disk), Now();
      ghost var wanted := want.id == id && node == NodeOf(want)
      && Wanted(store, w, want, wantHeight, depth, lower, upper, count, free);
      if wanted {
        WantedBelow(store, w, w1, want, wantHeight, depth, lower, upper, count, free, id, node);
        NotCrowded(store, w, want, wantHeight, depth, lower, upper, count, free);
      }
      var found, kids, h' := WalkKids(node, depth, lower, upper, want, wantHeight);
      if !found {
        return;
      }
      KidsInPages(store, w1, Now(), node, kids, h', depth, upper, count, free);
      ok := CheckSiblings(node, kids);
      if !ok {
        return;
      }
      t, h := TInner(id, kids), h' + 1;
      ParentLoaded(store, w, w1, Now(), id, node, kids, h', depth, lower, upper, count, free);
    }

    /** Looks for a small child that would fit one page with a neighbour. */
    method CheckSiblings(node: Node, ghost kids: seq<Tree>) returns (ok: bool)
      requires |kids| == |node.entries|
      requires forall i :: 0 <= i < |kids| ==>
                 node.entries[i].ptr == kids[i].id && kids[i].id in pages && pages[kids[i].id] == NodeOf(kids[i])
      ensures ok <==> forall i :: 0 <= i < |kids| ==> !Crowded(kids, i)
    {
      var i := 0;
      while i < |node.entries|
        invariant 0 <= i <= |kids|
        invariant forall j :: 0 <= j < i ==> !Crowded(kids, j)
      {
        var child := pages[node.entries[i].ptr];
        if NodeBytes(child) <= PAGE_SIZE / 4 {
          if i > 0 && MergeBytes(pages[node.entries[i - 1].ptr], child) <= PAGE_SIZE {
            assert Crowded(kids, i);
            return false;
          }
          if i + 1 < |node.entries| && MergeBytes(child, pages[node.entries[i + 1].ptr]) <= PAGE_SIZE {
            assert Crowded(kids, i);
            return false;
          }
        }
        i := i + 1;
      }
      ok := true;
    }
  }

  /** The tree that the pages of the file hold below `root`, as recovery accepts it. */
  ghost predicate Stands(disk: Pages, root: nat, count: nat, free: set<nat>, v: Version) {
    && root == (if v.Empty? then 0 else v.tree.id)
    && (v.Rooted? ==> Recognised(TreeStore(disk), v.tree, v.height, None, None, count, free) && RootOk(v.tree))
  }

  /** The same pages hold one tree at most. */
  lemma {:induction false} StandsOnce(disk: Pages, root: nat, count: nat, free: set<nat>, v: Version, u: Version)
    requires Stands(disk, root, count, free, v) && Stands(disk, root, count, free, u)
    ensures v == u
  {
    if v.Rooted? && u.Rooted? {
      FoundOnce(TreeStore(disk), v.tree, u.tree);
      OneHeight(v.tree, v.height, u.height);
    }
  }

  lemma {:induction false} MatchesOn(store: Store, p: Store, t: Tree)
    requires Matches(store, t) && forall x :: x in Bag(t) ==> x in p && x in store && p[x] == store[x]
    ensures Matches(p, t)
    decreases t
  {
    assert t.id in Bag(t);
    if t.TInner? {
      InnerFlatOf(t);
      forall i | 0 <= i < |t.kids| ensures Matches(p, t.kids[i]) {
        forall x | x in Bag(t.kids[i]) ensures x in Bag(t) {
          BagAllMember(t.kids, i, x);
        }
        MatchesOn(store, p, t.kids[i]);
      }
    }
  }

  /** A tree that stands in the file is held, sound and unshared, by its loaded pages. */
  lemma {:induction false} StandsHolds(disk: Pages, root: nat, count: nat, free: set<nat>, v: Version, p: Store)
    requires Stands(disk, root, count, free, v) && Added(map[], p, TreeStore(disk), VersionBag(v))
    ensures Holds(v, root, p) && p.Keys == Live(v)
    ensures forall x :: x in Live(v) ==> 1 <= x <= count && x !in free
  {
    if v.Rooted? {
      MatchesOn(TreeStore(disk), p, v.tree);
    }
  }

  /**
   Loads every page of the tree below `root`. It succeeds if and only if the pages form a
   tree that stands there, and then it has loaded that tree's pages and no others.
   */
  method LoadCommittedPages(disk: Pages, root: nat, count: nat, free: set<nat>)
    returns (r: Option<Store>, ghost v: Version)
    ensures r.Some? <==> exists u :: Stands(disk, root, count, free, u)
    ensures r.Some? ==> Stands(disk, root, count, free, v) && Added(map[], r.value, TreeStore(disk), VersionBag(v))
    ensures r.Some? ==> Holds(v, root, r.value) && r.value.Keys == Live(v)
  {
    hide Recognised, RootOk, TreeStore, Bag;
    v := Empty;
    if root == 0 {
      assert Stands(disk, root, count, free, v);
      StandsHolds(disk, root, count, free, v, map[]);
      return Some(map[]), v;
    }
    ghost var want := Empty;
    if exists u :: Stands(disk, root, count, free, u) {
      want :| Stands(disk, root, count, free, want);
    }
    ghost var aim := if want.Rooted? then want.tree else TLeaf(0, []);
    ghost var aimHeight := if want.Rooted? then want.height else 0;
    var loader := new PageLoader(disk, count, free);
    var ok, t, h := loader.Walk(root, 0, None, None, true, aim, aimHeight);
    if !ok {
      return None, v;
    }
    v := Rooted(t, h);
    assert Stands(disk, root, count, free, v);
    StandsHolds(disk, root, count, free, v, loader.pages);
    return Some(loader.pages), v;
  }
}
