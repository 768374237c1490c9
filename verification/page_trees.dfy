/**
 The abstract view of a page-backed B+Tree: a finite tree whose nodes carry page ids.
 A store of pages holds the tree when every node's page is the encoding of that node,
 in which each internal entry is the first key and the page id of one child.
 */
module PageTrees {
  import opened ByteStrings
  import opened Entries
  import opened PageNodes

  datatype Tree =
    | TLeaf(id: nat, entries: seq<Entry>)
    | TInner(id: nat, kids: seq<Tree>)

  type Store = map<nat, Node>

  ghost function FirstKey(t: Tree): Bytes {
    match t
    case TLeaf(_, entries) => if entries == [] then [] else entries[0].key
    case TInner(_, kids) => if kids == [] then [] else FirstKey(kids[0])
  }

  ghost function LinkOf(t: Tree): Entry {
    Entry(FirstKey(t), [], t.id)
  }

  ghost function Links(kids: seq<Tree>): (r: seq<Entry>)
    ensures |r| == |kids|
  {
    seq(|kids|, i requires 0 <= i < |kids| => LinkOf(kids[i]))
  }

  /** The page that stores the root of `t`. */
  ghost function NodeOf(t: Tree): Node {
    match t
    case TLeaf(_, entries) => Node(true, entries)
    case TInner(_, kids) => Node(false, Links(kids))
  }

  /** The size two neighbouring pages would have together. */
  function MergeBytes(left: Node, right: Node): nat {
    HEADER_SIZE + Payload(left.entries) + Payload(right.entries)
  }

  /** A page of at most a quarter of the size that would fit together with a neighbour. */
  ghost predicate Crowded(kids: seq<Tree>, i: nat)
    requires i < |kids|
  {
    && NodeBytes(NodeOf(kids[i])) <= PAGE_SIZE / 4
    && (|| (i > 0 && MergeBytes(NodeOf(kids[i - 1]), NodeOf(kids[i])) <= PAGE_SIZE)
        || (i + 1 < |kids| && MergeBytes(NodeOf(kids[i]), NodeOf(kids[i + 1])) <= PAGE_SIZE))
  }

  /** The leaf entries of `t` from left to right. */
  ghost function Flat(t: Tree): seq<Entry>
    decreases t, 1
  {
    match t
    case TLeaf(_, entries) => entries
    case TInner(_, kids) => FlatAll(kids)
  }

  ghost function FlatAll(kids: seq<Tree>): seq<Entry>
    decreases kids, 0
  {
    if kids == [] then [] else Flat(kids[0]) + FlatAll(kids[1..])
  }

  /** How often each page id occurs below the root of `t`, and in the whole of `t`. */
  ghost function KidBag(t: Tree): multiset<nat>
    decreases t, 0
  {
    match t
    case TLeaf(_, _) => multiset{}
    case TInner(_, kids) => BagAll(kids)
  }

  ghost function Bag(t: Tree): multiset<nat>
    decreases t, 1
  {
    multiset{t.id} + KidBag(t)
  }

  ghost function BagAll(kids: seq<Tree>): multiset<nat>
    decreases kids, 0
  {
    if kids == [] then multiset{} else Bag(kids[0]) + BagAll(kids[1..])
  }

  /** No page is used twice. */
  ghost predicate Unshared(t: Tree) {
    forall x :: Bag(t)[x] <= 1
  }

  ghost predicate LeafEntry(e: Entry) {
    |e.key| <= MAX_KEY_SIZE && |e.value| <= MAX_VALUE_SIZE && e.ptr == 0 && (e.key == [] ==> e.value == [])
  }

  /** `t` without regard to its own size: leaves at distance `h`, children well formed. */
  ghost predicate Body(t: Tree, h: nat)
    decreases t, 0
  {
    match t
    case TLeaf(_, entries) => h == 0 && forall i :: 0 <= i < |entries| ==> LeafEntry(entries[i])
    case TInner(_, kids) => h > 0 && forall i :: 0 <= i < |kids| ==> Wf(kids[i], h - 1) && kids[i].id != 0
  }

  ghost predicate Occupied(t: Tree) {
    NodeOf(t).entries != []
  }

  /** A subtree of uniform depth `h` in which every page is non-empty and fits. */
  ghost predicate Wf(t: Tree, h: nat)
    decreases t, 1
  {
    Body(t, h) && Occupied(t) && NodeBytes(NodeOf(t)) <= PAGE_SIZE
  }

  ghost predicate Matches(pages: Store, t: Tree)
    decreases t, 1
  {
    t.id in pages && pages[t.id] == NodeOf(t) && MatchesKids(pages, t)
  }

  ghost predicate MatchesKids(pages: Store, t: Tree)
    decreases t, 0
  {
    t.TInner? ==> forall i :: 0 <= i < |t.kids| ==> Matches(pages, t.kids[i])
  }

  /** The tree kept between operations: sentinel, order, uniform depth, no sharing. */
  ghost predicate Sound(t: Tree, h: nat) {
    && Wf(t, h)
    && t.id != 0
    && Sorted(Flat(t))
    && FirstKey(t) == []
    && Unshared(t)
  }

  // ----- Structure of flattening and of page counting

  lemma {:induction false} FlatAllAppend(a: seq<Tree>, b: seq<Tree>)
    ensures FlatAll(a + b) == FlatAll(a) + FlatAll(b)
  {
    if a == [] {
      assert a + b == b;
    } else {
      assert (a + b)[1..] == a[1..] + b;
      FlatAllAppend(a[1..], b);
    }
  }

  lemma {:induction false} BagAllAppend(a: seq<Tree>, b: seq<Tree>)
    ensures BagAll(a + b) == BagAll(a) + BagAll(b)
  {
    if a == [] {
      assert a + b == b;
    } else {
      assert (a + b)[1..] == a[1..] + b;
      BagAllAppend(a[1..], b);
    }
  }

  lemma {:induction false} Singletons(t: Tree)
    ensures FlatAll([t]) == Flat(t)
    ensures BagAll([t]) == Bag(t)
  {
    assert [t][1..] == [];
  }

  /** Children around position `i`. */
  lemma {:induction false} SplitAt(kids: seq<Tree>, i: nat)
    requires i < |kids|
    ensures FlatAll(kids) == FlatAll(kids[..i]) + Flat(kids[i]) + FlatAll(kids[i + 1..])
    ensures BagAll(kids) == BagAll(kids[..i]) + Bag(kids[i]) + BagAll(kids[i + 1..])
    ensures Links(kids) == Links(kids[..i]) + [LinkOf(kids[i])] + Links(kids[i + 1..])
  {
    hide Flat, FlatAll, Bag, BagAll, FirstKey;
    Splice(kids[..i], [kids[i]], kids[i + 1..]);
    assert kids == kids[..i] + [kids[i]] + kids[i + 1..];
    Singletons(kids[i]);
  }

  lemma {:induction false} Splice(a: seq<Tree>, b: seq<Tree>, c: seq<Tree>)
    ensures FlatAll(a + b + c) == FlatAll(a) + FlatAll(b) + FlatAll(c)
    ensures BagAll(a + b + c) == BagAll(a) + BagAll(b) + BagAll(c)
    ensures Links(a + b + c) == Links(a) + Links(b) + Links(c)
  {
    hide Flat, FlatAll, Bag, BagAll;
    FlatAllAppend(a + b, c);
    FlatAllAppend(a, b);
    BagAllAppend(a + b, c);
    BagAllAppend(a, b);
    LinksAppend(a + b, c);
    LinksAppend(a, b);
  }

  lemma {:induction false} LinksAppend(a: seq<Tree>, b: seq<Tree>)
    ensures Links(a + b) == Links(a) + Links(b)
  {
  }

  lemma {:induction false} FirstEntry(t: Tree, h: nat)
    requires Body(t, h) && Occupied(t)
    ensures Flat(t) != [] && Flat(t)[0].key == FirstKey(t)
    ensures |FirstKey(t)| <= MAX_KEY_SIZE
    decreases t
  {
    if t.TInner? {
      FirstEntry(t.kids[0], h - 1);
    }
  }

  /** The child chosen for `key` holds everything near it; its siblings lie to either side. */
  lemma {:induction false} Descend(kids: seq<Tree>, h: nat, i: nat, key: Bytes)
    requires i < |kids|
    requires forall j :: 0 <= j < |kids| ==> Wf(kids[j], h)
    requires Sorted(FlatAll(kids))
    requires Leq(FirstKey(kids[i]), key)
    requires i + 1 < |kids| ==> Less(key, FirstKey(kids[i + 1]))
    ensures FlatAll(kids) == FlatAll(kids[..i]) + Flat(kids[i]) + FlatAll(kids[i + 1..])
    ensures AllBelow(FlatAll(kids[..i]), key)
    ensures AllAbove(FlatAll(kids[i + 1..]), key)
    ensures Sorted(Flat(kids[i]))
  {
    var a, b, c := FlatAll(kids[..i]), Flat(kids[i]), FlatAll(kids[i + 1..]);
    SplitAt(kids, i);
    SortedSlices(a + b, c);
    SortedSlices(a, b);
    FirstEntry(kids[i], h);
    StrictTotalOrder();
    if i + 1 < |kids| {
      FirstEntry(kids[i + 1], h);
      assert c[0] == Flat(kids[i + 1])[0];
    }
  }

  /** The first keys of the children ascend strictly. */
  lemma {:induction false} LinksSorted(kids: seq<Tree>, h: nat)
    requires forall j :: 0 <= j < |kids| ==> Wf(kids[j], h)
    requires Sorted(FlatAll(kids))
    ensures Sorted(Links(kids))
  {
    forall i, j | 0 <= i < j < |kids| ensures Less(FirstKey(kids[i]), FirstKey(kids[j])) {
      FlatAllAppend(kids[..j], kids[j..]);
      assert kids == kids[..j] + kids[j..];
      SortedSlices(FlatAll(kids[..j]), FlatAll(kids[j..]));
      FirstEntry(kids[i], h);
      FirstEntry(kids[j], h);
      SplitAt(kids[..j], i);
      var a := FlatAll(kids[..j][..i]);
      assert FlatAll(kids[..j])[|a|] == Flat(kids[i])[0];
      assert FlatAll(kids[j..])[0] == Flat(kids[j])[0];
    }
  }

  /** Every page of a well-formed tree passes the page check. */
  lemma {:induction false} PageIsValid(t: Tree, h: nat)
    requires Wf(t, h) && Sorted(Flat(t))
    ensures ValidNode(NodeOf(t))
  {
    var n := NodeOf(t);
    if t.TInner? {
      LinksSorted(t.kids, h - 1);
      forall i | 0 <= i < |t.kids| ensures |n.entries[i].key| <= MAX_KEY_SIZE {
        FirstEntry(t.kids[i], h - 1);
      }
    }
    forall i | 0 < i < |n.entries| ensures n.entries[i].key != [] {
      assert Less(n.entries[0].key, n.entries[i].key);
    }
  }

  lemma {:induction false} MatchesMonotone(p: Store, q: Store, t: Tree)
    requires Matches(p, t)
    requires forall x :: x in p ==> x in q && q[x] == p[x]
    ensures Matches(q, t)
    decreases t
  {
    if t.TInner? {
      forall i | 0 <= i < |t.kids| ensures Matches(q, t.kids[i]) {
        MatchesMonotone(p, q, t.kids[i]);
      }
    }
  }

  lemma {:induction false} GrowthKeeps(p: Store, q: Store)
    requires forall x :: x in p ==> x in q && q[x] == p[x]
    ensures forall t {:trigger Matches(q, t)} :: Matches(p, t) ==> Matches(q, t)
    ensures forall t {:trigger MatchesKids(q, t)} :: MatchesKids(p, t) ==> MatchesKids(q, t)
  {
    forall t | Matches(p, t) ensures Matches(q, t) {
      MatchesMonotone(p, q, t);
    }
    forall t | MatchesKids(p, t) ensures MatchesKids(q, t) {
      if t.TInner? {
        forall i | 0 <= i < |t.kids| ensures Matches(q, t.kids[i]) {
          MatchesMonotone(p, q, t.kids[i]);
        }
      }
    }
  }

  lemma {:induction false} KidsFrom(kids: seq<Tree>, i: nat)
    requires i < |kids|
    ensures FlatAll(kids[i..]) == Flat(kids[i]) + FlatAll(kids[i + 1..])
  {
    assert kids[i..][0] == kids[i] && kids[i..][1..] == kids[i + 1..];
  }
}
