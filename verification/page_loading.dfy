/**
 What recovery reads: the pages of the file as they are found, of any content at all,
 and the trees that can be recognised in them.
 */
module PageLoading {
  import opened ByteStrings
  import opened Entries
  import opened PageNodes
  import opened PageTrees
  import opened PageTreeSteps
  import opened PageUpdates

  /** One page of the stored free list. */
  datatype ListNode = ListNode(nextPageID: nat, sequence: nat, pageIDs: seq<nat>)

  /** What a page's bytes decode to; a page that is neither kind is junk. */
  datatype Content = TreePage(node: Node) | ListPage(list: ListNode) | Junk

  type Pages = map<nat, Content>

  ghost function TreeStore(disk: Pages): Store {
    map x | x in disk && disk[x].TreePage? :: disk[x].node
  }

  /** Two subtrees found at the same page of the same file are the same. */
  lemma {:induction false} FoundOnce(store: Store, t: Tree, u: Tree)
    requires Matches(store, t) && Matches(store, u) && t.id == u.id
    ensures t == u
    decreases t
  {
    if t.TInner? {
      InnerNode(t);
      InnerNode(u);
      forall i | 0 <= i < |t.kids| ensures t.kids[i] == u.kids[i] {
        assert Links(t.kids)[i] == Links(u.kids)[i];
        FoundOnce(store, t.kids[i], u.kids[i]);
      }
      assert t.kids == u.kids;
    }
  }

  ghost predicate Bounded(t: Tree, lower: Option<Bytes>, upper: Option<Bytes>) {
    && (lower.Some? ==> FirstKey(t) == lower.value)
    && (upper.Some? ==> AllBelow(Flat(t), upper.value))
  }

  /** No small page sits beside a neighbour it could be merged with. */
  ghost predicate Tidy(t: Tree) {
    t.TInner? ==>
      && (forall i :: 0 <= i < |t.kids| ==> Tidy(t.kids[i]))
      && (forall i :: 0 <= i < |t.kids| ==> !Crowded(t.kids, i))
  }

  /** The pages of `p1` are those of `p0` and, under the ids in `ids`, those of the file. */
  ghost predicate Added(p0: Store, p1: Store, store: Store, ids: multiset<nat>) {
    && (forall x :: x in p1 <==> x in p0 || x in ids)
    && (forall x :: x in p0 ==> p1[x] == p0[x])
    && (forall x :: x in ids ==> x !in p0 && x in store && p1[x] == store[x])
  }

  /** Ids that may be read: within the committed file and not on the reusable list. */
  ghost predicate Readable(ids: multiset<nat>, count: nat, free: set<nat>) {
    forall x :: x in ids ==> 1 <= x <= count && x !in free
  }

  /** A subtree recognised at height `h`, within bounds, without sharing. */
  ghost predicate Recognised(store: Store, t: Tree, h: nat, lower: Option<Bytes>, upper: Option<Bytes>, count: nat,
      free: set<nat>) {
    && Matches(store, t) && Wf(t, h) && t.id != 0 && Sorted(Flat(t)) && Bounded(t, lower, upper)
    && Unshared(t) && Readable(Bag(t), count, free) && Tidy(t)
  }

  lemma {:induction false} AddedTrans(p0: Store, p1: Store, p2: Store, store: Store, ids: multiset<nat>,
      ids': multiset<nat>)
    requires Added(p0, p1, store, ids) && Added(p1, p2, store, ids')
    ensures Added(p0, p2, store, ids + ids')
    ensures forall x :: x in ids ==> x !in ids'
  {
  }

  // ----- Building up an internal page from its children

  /** The children recognised so far under `node`: each is within its neighbours' keys. */
  ghost predicate KidsRecognised(
    store: Store, node: Node, kids: seq<Tree>, h: nat, upper: Option<Bytes>, count: nat, free: set<nat>)
  {
    && |kids| <= |node.entries|
    && (forall i :: 0 <= i < |kids| ==>
          && kids[i].id == node.entries[i].ptr
          && Recognised(store, kids[i], h, Some(node.entries[i].key), UpperFor(node, i, upper), count, free))
    && (forall x :: BagAll(kids)[x] <= 1)
  }

  /** The key that bounds child `i` from above. */
  function UpperFor(node: Node, i: nat, upper: Option<Bytes>): Option<Bytes> {
    if i + 1 < |node.entries| then Some(node.entries[i + 1].key) else upper
  }

  lemma {:induction false} BagAllMember(kids: seq<Tree>, i: nat, x: nat)
    requires i < |kids|
    ensures Bag(kids[i])[x] <= BagAll(kids)[x]
  {
    SplitAt(kids, i);
    assert (BagAll(kids[..i]) + Bag(kids[i]) + BagAll(kids[i + 1..]))[x] == BagAll(kids)[x];
  }

  lemma {:induction false} KidsGrow(
    store: Store, node: Node, kids: seq<Tree>, kid: Tree, h: nat, upper: Option<Bytes>, count: nat, free: set<nat>)
    requires KidsRecognised(store, node, kids, h, upper, count, free) && |kids| < |node.entries|
    requires kid.id == node.entries[|kids|].ptr
    requires Recognised(store, kid, h, Some(node.entries[|kids|].key), UpperFor(node, |kids|, upper), count, free)
    requires forall x :: x in BagAll(kids) ==> x !in Bag(kid)
    ensures KidsRecognised(store, node, kids + [kid], h, upper, count, free)
    ensures BagAll(kids + [kid]) == BagAll(kids) + Bag(kid)
  {
    hide Recognised, BagAll, Bag;
    BagAllAppend(kids, [kid]);
    Singletons(kid);
    UnsharedOf(store, kid, h, Some(node.entries[|kids|].key), UpperFor(node, |kids|, upper), count, free);
  }

  lemma {:induction false} UnsharedOf(
    store: Store, t: Tree, h: nat, lower: Option<Bytes>, upper: Option<Bytes>, count: nat, free: set<nat>)
    requires Recognised(store, t, h, lower, upper, count, free)
    ensures forall x :: Bag(t)[x] <= 1
    ensures forall x :: x in Bag(t) ==> 1 <= x <= count && x !in free
    ensures Wf(t, h) && Sorted(Flat(t)) && Tidy(t) && Matches(store, t) && t.id != 0 && Bounded(t, lower, upper)
  {
  }

  lemma {:induction false} KidsSorted(
    store: Store, node: Node, kids: seq<Tree>, h: nat, upper: Option<Bytes>, count: nat, free: set<nat>)
    requires KidsRecognised(store, node, kids, h, upper, count, free)
    requires Sorted(node.entries) && kids != []
    requires upper.Some? ==> Less(node.entries[|node.entries| - 1].key, upper.value)
    ensures Sorted(FlatAll(kids))
    ensures UpperFor(node, |kids| - 1, upper).Some? ==> AllBelow(FlatAll(kids), UpperFor(node, |kids| - 1, upper).value)
    decreases |kids|
  {
    hide Recognised, BagAll, Bag, Flat, FlatAll, Wf;
    var n := |kids| - 1;
    var last := kids[n];
    var lower, above := Some(node.entries[n].key), UpperFor(node, n, upper);
    UnsharedOf(store, last, h, lower, above, count, free);
    WfBody(last, h);
    FirstEntry(last, h);
    assert kids == kids[..n] + [last];
    FlatAllAppend(kids[..n], [last]);
    Singletons(last);
    StrictTotalOrder();
    if n == 0 {
      NoTrees();
      assert [] + Flat(last) == Flat(last);
    } else {
      BagAllTake(kids, n);
      KidsSorted(store, node, kids[..n], h, upper, count, free);
      SortedJoin(FlatAll(kids[..n]), Flat(last), node.entries[n].key);
      if above.Some? {
        assert Less(node.entries[n].key, above.value) by {
          if n + 1 < |node.entries| {
            assert Less(node.entries[n].key, node.entries[n + 1].key);
          }
        }
      }
    }
  }

  lemma {:induction false} BagAllTake(kids: seq<Tree>, n: nat)
    requires n <= |kids|
    ensures forall x :: BagAll(kids[..n])[x] <= BagAll(kids)[x]
  {
    hide BagAll;
    assert kids == kids[..n] + kids[n..];
    BagAllAppend(kids[..n], kids[n..]);
  }

  lemma {:induction false} SortedJoin(a: seq<Entry>, b: seq<Entry>, k: Bytes)
    requires Sorted(a) && Sorted(b) && AllBelow(a, k) && b != [] && b[0].key == k
    ensures Sorted(a + b)
  {
    StrictTotalOrder();
    var s := a + b;
    forall i, j | 0 <= i < j < |s| ensures Less(s[i].key, s[j].key) {
      if j < |a| {
        assert s[i] == a[i] && s[j] == a[j];
      } else if i >= |a| {
        assert s[i] == b[i - |a|] && s[j] == b[j - |a|];
      } else {
        assert s[i] == a[i] && s[j] == b[j - |a|];
        assert j == |a| || Less(b[0].key, b[j - |a|].key);
      }
    }
  }

  /** All children recognised: the page is recognised as their parent. */
  lemma {:induction false} ParentRecognised(
    store: Store, id: nat, node: Node, kids: seq<Tree>, h: nat, lower: Option<Bytes>, upper: Option<Bytes>, count: nat,
    free: set<nat>)
    requires KidsRecognised(store, node, kids, h, upper, count, free) && |kids| == |node.entries| > 0
    requires !node.leaf && ValidNode(node) && id in store && store[id] == node
    requires lower.Some? ==> node.entries[0].key == lower.value
    requires upper.Some? ==> Less(node.entries[|node.entries| - 1].key, upper.value)
    requires 1 <= id <= count && id !in free && id !in BagAll(kids)
    requires forall i :: 0 <= i < |kids| ==> !Crowded(kids, i)
    ensures Recognised(store, TInner(id, kids), h + 1, lower, upper, count, free)
    ensures Bag(TInner(id, kids)) == multiset{id} + BagAll(kids)
  {
    hide Recognised, BagAll, Flat, FlatAll, Wf, Matches, Tidy, Payload;
    var t := TInner(id, kids);
    forall i | 0 <= i < |kids|
      ensures Wf(kids[i], h) && kids[i].id != 0 && Matches(store, kids[i]) && Tidy(kids[i])
              && LinkOf(kids[i]) == node.entries[i]
    {
      UnsharedOf(store, kids[i], h, Some(node.entries[i].key), UpperFor(node, i, upper), count, free);
      assert ValidEntry(false, i, node.entries[i]);
    }
    assert Links(kids) == node.entries;
    InnerNode(t);
    InnerFlatOf(t);
    assert Body(t, h + 1);
    TopWf(t, h + 1);
    TopMatches(t, store);
    KidsSorted(store, node, kids, h, upper, count, free);
    forall x | x in BagAll(kids) ensures 1 <= x <= count && x !in free {
      InSomeKid(kids, x);
      var i :| 0 <= i < |kids| && x in Bag(kids[i]);
      UnsharedOf(store, kids[i], h, Some(node.entries[i].key), UpperFor(node, i, upper), count, free);
    }
    TidyInner(t);
    FirstKeyInner(t);
    Recognise(store, t, h + 1, lower, upper, count, free);
  }

  lemma {:induction false} InnerFlatOf(t: Tree)
    requires t.TInner?
    ensures Flat(t) == FlatAll(t.kids) && KidBag(t) == BagAll(t.kids) && Bag(t) == multiset{t.id} + BagAll(t.kids)
  {
  }

  lemma {:induction false} TidyInner(t: Tree)
    requires t.TInner? && (forall i :: 0 <= i < |t.kids| ==> Tidy(t.kids[i]))
    requires forall i :: 0 <= i < |t.kids| ==> !Crowded(t.kids, i)
    ensures Tidy(t)
  {
  }

  lemma {:induction false} FirstKeyInner(t: Tree)
    requires t.TInner? && t.kids != []
    ensures FirstKey(t) == FirstKey(t.kids[0])
  {
  }

  lemma {:induction false} Recognise(
    store: Store, t: Tree, h: nat, lower: Option<Bytes>, upper: Option<Bytes>, count: nat, free: set<nat>)
    requires Matches(store, t) && Wf(t, h) && t.id != 0 && Sorted(Flat(t)) && Bounded(t, lower, upper)
    requires Unshared(t) && Readable(Bag(t), count, free) && Tidy(t)
    ensures Recognised(store, t, h, lower, upper, count, free)
  {
  }

  lemma {:induction false} InSomeKid(kids: seq<Tree>, x: nat)
    requires x in BagAll(kids)
    ensures exists i :: 0 <= i < |kids| && x in Bag(kids[i])
  {
    if x in Bag(kids[0]) {
    } else {
      InSomeKid(kids[1..], x);
      var i :| 0 <= i < |kids[1..]| && x in Bag(kids[1..][i]);
      assert x in Bag(kids[i + 1]);
    }
  }

  /** A leaf page recognised by itself. */
  lemma {:induction false} LeafRecognised(
    store: Store, id: nat, node: Node, lower: Option<Bytes>, upper: Option<Bytes>, count: nat, free: set<nat>)
    requires node.leaf && ValidNode(node) && node.entries != [] && id in store && store[id] == node
    requires lower.Some? ==> node.entries[0].key == lower.value
    requires upper.Some? ==> Less(node.entries[|node.entries| - 1].key, upper.value)
    requires 1 <= id <= count && id !in free
    ensures Recognised(store, TLeaf(id, node.entries), 0, lower, upper, count, free)
    ensures Bag(TLeaf(id, node.entries)) == multiset{id}
  {
    hide Payload;
    StrictTotalOrder();
    var t := TLeaf(id, node.entries);
    forall i | 0 <= i < |node.entries| ensures LeafEntry(node.entries[i]) {
      assert ValidEntry(true, i, node.entries[i]);
    }
    if upper.Some? {
      var n := |node.entries| - 1;
      forall i | 0 <= i < |node.entries| ensures Less(node.entries[i].key, upper.value) {
        assert i == n || Less(node.entries[i].key, node.entries[n].key);
      }
    }
    assert Bag(t) == multiset{id};
    TopWf(t, 0);
    assert Matches(store, t);
    assert Readable(Bag(t), count, free);
    Recognise(store, t, 0, lower, upper, count, free);
  }

  // ----- Taking a recognised tree apart again

  /** What the page walk is to meet at the root of a recognised tree. */
  lemma {:induction false} PageOfRecognised(
    store: Store, t: Tree, h: nat, lower: Option<Bytes>, upper: Option<Bytes>, count: nat, free: set<nat>)
    requires Recognised(store, t, h, lower, upper, count, free)
    ensures t.id in store && store[t.id] == NodeOf(t) && 1 <= t.id <= count && t.id !in free
    ensures ValidNode(NodeOf(t)) && NodeOf(t).entries != [] && NodeOf(t).entries[0].key == FirstKey(t)
    ensures lower.Some? ==> NodeOf(t).entries[0].key == lower.value
    ensures upper.Some? ==> Less(NodeOf(t).entries[|NodeOf(t).entries| - 1].key, upper.value)
    ensures NodeOf(t).leaf <==> h == 0
  {
    hide Payload, Tidy;
    WfBody(t, h);
    PageIsValid(t, h);
    FirstPageKey(t, h);
    assert t.id in Bag(t);
    if upper.Some? {
      if t.TInner? {
        LastLink(t, h);
      }
    }
  }

  lemma {:induction false} LastLink(t: Tree, h: nat)
    requires t.TInner? && Wf(t, h)
    ensures var n := |t.kids| - 1;
            && n >= 0 && NodeOf(t).entries[n].key == FirstKey(t.kids[n])
            && exists i :: 0 <= i < |Flat(t)| && Flat(t)[i].key == FirstKey(t.kids[n])
  {
    InnerFacts(t, h);
    var n := |t.kids| - 1;
    FirstEntry(t.kids[n], h - 1);
    SplitAt(t.kids, n);
    assert Flat(t)[|FlatAll(t.kids[..n])|] == Flat(t.kids[n])[0];
  }

  /** The children of a recognised tree are recognised within their keys. */
  lemma {:induction false} KidOfRecognised(
    store: Store, t: Tree, h: nat, lower: Option<Bytes>, upper: Option<Bytes>, count: nat, free: set<nat>, i: nat)
    requires Recognised(store, t, h, lower, upper, count, free) && t.TInner? && i < |t.kids|
    ensures h > 0
            && Recognised(store, t.kids[i], h - 1, Some(NodeOf(t).entries[i].key),
                          UpperFor(NodeOf(t), i, upper), count, free)
    ensures NodeOf(t).entries[i].ptr == t.kids[i].id && |NodeOf(t).entries| == |t.kids|
    ensures forall x :: x in Bag(t.kids[i]) ==> x in Bag(t) && x != t.id && x !in BagAll(t.kids[..i])
    ensures !Crowded(t.kids, i)
  {
    hide BagAll, FlatAll, Payload, Wf;
    InnerFacts(t, h);
    InnerFlatOf(t);
    SplitAt(t.kids, i);
    var kid := t.kids[i];
    KidMatches(store, t, i);
    KidAscends(t.kids, h - 1, i, upper);
    forall x
      ensures Bag(t)[x] == multiset{t.id}[x] + BagAll(t.kids[..i])[x] + Bag(kid)[x] + BagAll(t.kids[i + 1..])[x]
    {
    }
    TidyKid(t, i);
    Recognise(store, kid, h - 1, Some(NodeOf(t).entries[i].key), UpperFor(NodeOf(t), i, upper), count, free);
  }

  lemma {:induction false} TidyKid(t: Tree, i: nat)
    requires t.TInner? && Tidy(t) && i < |t.kids|
    ensures Tidy(t.kids[i]) && !Crowded(t.kids, i)
  {
  }

  /** A child's entries ascend and stay below the next child's first key. */
  lemma {:induction false} KidAscends(kids: seq<Tree>, h: nat, i: nat, upper: Option<Bytes>)
    requires i < |kids| && forall j :: 0 <= j < |kids| ==> Wf(kids[j], h)
    requires Sorted(FlatAll(kids)) && (upper.Some? ==> AllBelow(FlatAll(kids), upper.value))
    ensures Sorted(Flat(kids[i]))
    ensures i + 1 < |kids| ==> AllBelow(Flat(kids[i]), FirstKey(kids[i + 1]))
    ensures upper.Some? ==> AllBelow(Flat(kids[i]), upper.value)
  {
    hide Flat, FlatAll, Wf, FirstKey, Sorted, AllBelow;
    SplitAt(kids, i);
    var a, b, c := FlatAll(kids[..i]), Flat(kids[i]), FlatAll(kids[i + 1..]);
    Middle(a, b, c, upper);
    if i + 1 < |kids| {
      WfBody(kids[i + 1], h);
      FirstEntry(kids[i + 1], h);
      KidsFrom(kids, i + 1);
    }
  }

  lemma {:induction false} Middle(a: seq<Entry>, b: seq<Entry>, c: seq<Entry>, upper: Option<Bytes>)
    requires Sorted(a + b + c) && (upper.Some? ==> AllBelow(a + b + c, upper.value))
    ensures Sorted(b) && (c != [] ==> AllBelow(b, c[0].key)) && (upper.Some? ==> AllBelow(b, upper.value))
  {
    SortedSlices(a + b, c);
    SortedSlices(a, b);
    forall j | 0 <= j < |b| ensures (a + b)[|a| + j] == b[j] && (a + b + c)[|a| + j] == b[j] {
    }
  }

}
