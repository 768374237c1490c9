/**
 The in-memory B+Tree: nodes are changed in place by inserts, splits, rotations and
 merges. Each operation is proved to turn the tree its nodes hold into the tree that the
 operation on values gives, and to keep the chain of leaves.
 */
module MemoryTrees {
  import opened ByteStrings
  import opened Entries
  import opened BPlusTrees
  import opened MemoryNodes

  // ----- Searching within a node

  /** The first position whose key is not below `key`. */
  function LowerBound(keys: seq<Bytes>, key: Bytes): (i: nat)
    ensures i <= |keys|
    ensures forall j :: 0 <= j < i ==> Less(keys[j], key)
    ensures i < |keys| ==> Leq(key, keys[i])
  {
    if keys == [] || !Less(keys[0], key) then 0 else 1 + LowerBound(keys[1..], key)
  }

  predicate FoundAt(keys: seq<Bytes>, i: nat, key: Bytes) {
    i < |keys| && keys[i] == key
  }

  /** Everything before the lower bound is below the key. */
  lemma {:induction false} BelowBound(s: seq<Entry>, key: Bytes)
    ensures var i := LowerBound(KeysOf(s), key);
            && AllBelow(s[..i], key) && s == s[..i] + s[i..]
            && (i < |s| ==> s[i..][0] == s[i] && KeysOf(s)[i] == s[i].key && !Less(s[i].key, key))
  {
    hide LowerBound, Less;
    var i := LowerBound(KeysOf(s), key);
    forall j | 0 <= j < i ensures Less(s[j].key, key) {
      assert KeysOf(s)[j] == s[j].key;
    }
    if i < |s| {
      assert KeysOf(s)[i] == s[i].key;
    }
  }

  lemma {:induction false} PutAt(s: seq<Entry>, key: Bytes, value: Bytes)
    ensures var i := LowerBound(KeysOf(s), key);
            Put(s, key, value) == if FoundAt(KeysOf(s), i, key) then s[i := Entry(key, value, 0)]
                                  else s[..i] + [Entry(key, value, 0)] + s[i..]
  {
    hide LowerBound, Less, Put;
    var i := LowerBound(KeysOf(s), key);
    var a, b := s[..i], s[i..];
    BelowBound(s, key);
    PutAfter(a, b, key, value);
    PutHere(b, key, value);
    if FoundAt(KeysOf(s), i, key) {
      assert a + ([Entry(key, value, 0)] + b[1..]) == s[i := Entry(key, value, 0)];
    } else {
      assert a + ([Entry(key, value, 0)] + b) == a + [Entry(key, value, 0)] + b;
    }
  }

  lemma {:induction false} PutHere(b: seq<Entry>, key: Bytes, value: Bytes)
    requires b != [] ==> !Less(b[0].key, key)
    ensures Put(b, key, value) == [Entry(key, value, 0)] + (if b != [] && b[0].key == key then b[1..] else b)
  {
  }

  lemma {:induction false} RemoveAt(s: seq<Entry>, key: Bytes)
    requires Sorted(s)
    ensures var i := LowerBound(KeysOf(s), key);
            && (FoundAt(KeysOf(s), i, key) <==> Find(s, key).Some?)
            && (FoundAt(KeysOf(s), i, key) ==>
                  Remove(s, key) == s[..i] + s[i + 1..] && Find(s, key) == Some(s[i].value))
  {
    hide LowerBound, Less, Remove, Find;
    var i := LowerBound(KeysOf(s), key);
    var a, b := s[..i], s[i..];
    BelowBound(s, key);
    RemoveAfter(a, b, key);
    RemoveHere(b, key);
    if FoundAt(KeysOf(s), i, key) {
      assert b[1..] == s[i + 1..];
      FindAt(s, i);
    } else {
      AboveBound(s, i, key);
      NotFound(a, b, key);
    }
  }

  lemma {:induction false} RemoveHere(b: seq<Entry>, key: Bytes)
    ensures b != [] && b[0].key == key ==> Remove(b, key) == b[1..]
  {
  }

  lemma {:induction false} AboveBound(s: seq<Entry>, i: nat, key: Bytes)
    requires Sorted(s) && i <= |s| && (i < |s| ==> !Less(s[i].key, key) && s[i].key != key)
    ensures AllAbove(s[i..], key)
  {
    StrictTotalOrder();
    forall j | 0 <= j < |s[i..]| ensures Less(key, s[i..][j].key) {
      assert s[i..][j] == s[i + j];
      assert Less(key, s[i].key);
    }
  }

  lemma {:induction false} NotFound(a: seq<Entry>, b: seq<Entry>, key: Bytes)
    requires AllBelow(a, key) && AllAbove(b, key)
    ensures Find(a + b, key) == None
  {
    StrictTotalOrder();
    FindMissing(a + b, key);
  }

  // ----- Leaves

  method InsertIntoLeaf(n: Node, key: Bytes, value: Bytes, ghost entries: seq<Entry>)
    requires n.keys == KeysOf(entries) && n.values == ValuesOf(entries) && Sorted(entries)
    modifies n
    ensures n.keys == KeysOf(Put(entries, key, value)) && n.values == ValuesOf(Put(entries, key, value))
    ensures n.leaf == old(n.leaf) && n.next == old(n.next) && n.children == old(n.children)
  {
    hide Put, Sorted, Less, Leq;
    var idx := LowerBound(n.keys, key);
    PutAt(entries, key, value);
    if FoundAt(n.keys, idx, key) {
      n.values := n.values[idx := value];
    } else {
      n.keys := n.keys[..idx] + [key] + n.keys[idx..];
      n.values := n.values[..idx] + [value] + n.values[idx..];
    }
  }

  /** Moves the upper half of a leaf to a new leaf behind it. */
  method SplitLeaf(n: Node, ghost t: BTree) returns (right: Node)
    requires Rep(SLeaf(n), t) && Count(t) >= 2
    modifies n
    ensures fresh(right)
    ensures var p := Cut(t, Count(t) / 2);
            Rep(SLeaf(n), p.left) && Rep(SLeaf(right), p.right) && right.keys != [] && right.keys[0] == p.sep
    ensures n.next == right && right.next == old(n.next)
  {
    var mid := |n.keys| / 2;
    right := new Node(true, n.keys[mid..], n.values[mid..], [], n.next);
    n.keys := n.keys[..mid];
    n.values := n.values[..mid];
    n.next := right;
  }

  /** Moves the upper half of an internal node to a new node; the middle key goes up. */
  method SplitInternal(n: Node, ghost s: Shape, ghost t: BTree, ghost objs: set<Node>)
    returns (promoted: Bytes, right: Node, ghost s': Shape, ghost r': Shape)
    requires s.SInner? && objs == ObjsAll(s.kids) && s.obj == n && Rep(s, t) && Apart(s) && Count(t) >= 2
             && |t.kids| == |t.keys| + 1
    modifies n
    ensures fresh(right) && n.next == old(n.next)
    ensures var mid := Count(t) / 2;
            mid < |s.kids| && s' == SInner(n, s.kids[..mid + 1]) && r' == SInner(right, s.kids[mid + 1..])
    ensures var p := Cut(t, Count(t) / 2);
            Rep(s', p.left) && Rep(r', p.right) && promoted == p.sep
  {
    hide KidsRep, KidsApart, ObjsAll;
    var mid := |n.keys| / 2;
    promoted := n.keys[mid];
    RepCount(s.kids, t.kids);
    assert KidsRep(s.kids, t.kids);
    right := new Node(false, n.keys[mid + 1..], [], n.children[mid + 1..], null);
    assert KidsRep(s.kids, t.kids);
    s', r' := SInner(n, s.kids[..mid + 1]), SInner(right, s.kids[mid + 1..]);
    n.keys := n.keys[..mid];
    n.children := n.children[..mid + 1];
    assert KidsRep(s.kids, t.kids);
    assert s.kids == s.kids[..mid + 1] + s.kids[mid + 1..] && t.kids == t.kids[..mid + 1] + t.kids[mid + 1..];
    KidsRepAppend(s.kids[..mid + 1], s.kids[mid + 1..], t.kids[..mid + 1], t.kids[mid + 1..]);
  }

  lemma {:induction false} RepCount(kids: seq<Shape>, ts: seq<BTree>)
    requires KidsRep(kids, ts)
    ensures |kids| == |ts|
  {
  }

  // ----- Insertion

  /** What the objects hold after an insertion below `n`: the node itself, and a new one if it was split. */
  ghost predicate GrownRep(g: Grown, split: Option<(Bytes, Node)>, s: Shape, r: Shape, n: Node)
    reads Objs(s) + Objs(r)
  {
    && s.obj == n && Apart(s)
    && match g
       case One(t) => split.None? && Rep(s, t) && r == s
       case Two(p) =>
         split == Some((p.sep, r.obj)) && Rep(s, p.left) && Rep(r, p.right) && Apart(r) && Objs(s) !! Objs(r)
  }

  ghost function Spread(g: Grown, s: Shape, r: Shape): seq<Node> {
    if g.One? then Leaves(s) else Leaves(s) + Leaves(r)
  }

  method InsertLeaf(n: Node, key: Bytes, value: Bytes, m: nat, ghost t: BTree, ghost after: Node?)
    returns (split: Option<(Bytes, Node)>, ghost r: Shape)
    requires t.Leaf? && Rep(SLeaf(n), t) && Sorted(t.entries) && m >= 2 && n.next == after
    modifies n
    ensures GrownRep(Insert(t, 0, key, value, m), split, SLeaf(n), r, n)
    ensures Chained(Spread(Insert(t, 0, key, value, m), SLeaf(n), r), after)
    ensures Insert(t, 0, key, value, m).Two? ==> fresh(r.obj) && r.SLeaf?
  {
    hide Put, Sorted;
    InsertIntoLeaf(n, key, value, t.entries);
    ghost var u := Leaf(Put(t.entries, key, value));
    r := SLeaf(n);
    if |n.keys| <= m {
      return None, r;
    }
    var right := SplitLeaf(n, u);
    r := SLeaf(right);
    split := Some((right.keys[0], right));
  }

  /** The leaves of the children, with those of child `i` in the middle. */
  lemma {:induction false} KidChain(kids: seq<Shape>, i: nat, after: Node?)
    requires Chained(LeavesAll(kids), after) && i < |kids| && Leaves(kids[i]) != []
    ensures var c := LeavesAll(kids[i + 1..]);
            && Chained(LeavesAll(kids[..i]), Leaves(kids[i])[0])
            && Chained(Leaves(kids[i]), Head(c, after)) && Chained(c, after)
  {
    hide Chained, Leaves, LeavesAll;
    var a, b, c := LeavesAll(kids[..i]), Leaves(kids[i]), LeavesAll(kids[i + 1..]);
    LeavesAt(kids, i);
    assert a + b + c == a + (b + c);
    ChainSplit(a, b + c, after);
    ChainSplit(b, c, after);
  }

  lemma {:induction false} ChainAround(a: seq<Node>, b: seq<Node>, c: seq<Node>, after: Node?)
    requires b != [] && Chained(a, b[0]) && Chained(b, Head(c, after)) && Chained(c, after)
    ensures Chained(a + b + c, after)
  {
    hide Chained;
    ChainJoin(b, c, after);
    ChainJoin(a, b + c, after);
    assert a + b + c == a + (b + c);
  }

  /** The children behind child `i`. */
  ghost function Behind(s: Shape, i: nat): seq<Shape>
    requires s.SInner? && i < |s.kids|
  {
    s.kids[i + 1..]
  }

  /** The leaf that follows those of child `i`. */
  ghost function Follower(s: Shape, i: nat, after: Node?): Node?
    requires s.SInner? && i < |s.kids|
  {
    Head(LeavesAll(s.kids[i + 1..]), after)
  }

  /** What surrounds child `i`: the node itself, the children on both sides and their chains. */
  ghost predicate Sides(n: Node, s: Shape, t: BTree, i: nat, first: Node, after: Node?)
    requires s.SInner? && i < |s.kids| && t.Inner?
    reads n, ObjsAll(s.kids[..i]), ObjsAll(s.kids[i + 1..])
    reads set x | x in LeavesAll(s.kids[..i]), set x | x in LeavesAll(Behind(s, i))
  {
    var a, c := s.kids[..i], s.kids[i + 1..];
    && |s.kids| == |t.kids| && !n.leaf && n.keys == t.keys && n.children == ChildObjs(s.kids)
    && KidsRep(a, t.kids[..i]) && KidsRep(c, t.kids[i + 1..]) && KidsApart(a) && KidsApart(c)
    && ObjsAll(a) !! ObjsAll(c) && n !in ObjsAll(a) && n !in ObjsAll(c)
    && Chained(LeavesAll(a), first) && Chained(LeavesAll(c), after)
  }

  /** Going down into child `i`. */
  lemma {:induction false} Descend(n: Node, s: Shape, t: BTree, h: nat, i: nat, objs: set<Node>, after: Node?)
    requires s.SInner? && s.obj == n && Rep(s, t) && Apart(s) && objs == Objs(s) && Chained(Leaves(s), after)
    requires Formed(t, h) && i < |t.kids|
    ensures h > 0 && |s.kids| == |t.kids| == |t.keys| + 1 && n.children[i] == s.kids[i].obj
    ensures Rep(s.kids[i], t.kids[i]) && Apart(s.kids[i]) && Formed(t.kids[i], h - 1)
    ensures Leaves(s.kids[i]) != [] && Chained(Leaves(s.kids[i]), Follower(s, i, after))
    ensures Sides(n, s, t, i, Leaves(s.kids[i])[0], after)
    ensures Objs(s.kids[i]) <= objs && ObjsAll(s.kids[..i]) <= objs && ObjsAll(s.kids[i + 1..]) <= objs
    ensures Objs(s.kids[i]) !! ObjsAll(s.kids[..i]) && Objs(s.kids[i]) !! ObjsAll(s.kids[i + 1..])
            && n !in Objs(s.kids[i]) && n in objs
    ensures forall x :: x in LeavesAll(s.kids[..i]) ==> x in ObjsAll(s.kids[..i])
    ensures forall x :: x in LeavesAll(Behind(s, i)) ==> x in ObjsAll(Behind(s, i))
  {
    hide Chained, KidsRep, KidsApart, ObjsAll, Leaves, LeavesAll;
    RepCount(s.kids, t.kids);
    RepAt(s.kids, t.kids, i);
    HasLeaf(s.kids[i], t.kids[i], h - 1);
    LeavesIs(s);
    KidChain(s.kids, i, after);
    LeavesAllAreObjs(s.kids[..i]);
    LeavesAllAreObjs(s.kids[i + 1..]);
  }

  /** Puts what became of child `i` into its parent. */
  method InsertIntoInternal(n: Node, i: nat, split: (Bytes, Node), ghost s: Shape, ghost t: BTree, ghost p: Parts,
      ghost k: Shape, ghost r: Shape)
    returns (ghost s': Shape)
    requires s.SInner? && t.Inner? && i < |s.kids| == |t.kids| == |t.keys| + 1 && s.obj == n && !n.leaf
             && n.keys == t.keys
    requires n.children == ChildObjs(s.kids) && k.obj == s.kids[i].obj && split == (p.sep, r.obj)
    requires n !in ObjsAll(s.kids[..i]) && n !in ObjsAll(s.kids[i + 1..]) && n !in Objs(k) && n !in Objs(r)
    requires KidsRep(s.kids[..i], t.kids[..i]) && KidsRep(s.kids[i + 1..], t.kids[i + 1..]) && Rep(k, p.left)
             && Rep(r, p.right)
    modifies n
    ensures s' == SInner(n, s.kids[..i] + [k, r] + s.kids[i + 1..])
    ensures n.leaf == old(n.leaf) && n.next == old(n.next) && n.keys == WithParts(t, i, p).keys
    ensures n.children == ChildObjs(s'.kids) && KidsRep(s'.kids, WithParts(t, i, p).kids)
  {
    hide KidsRep, ObjsAll, Objs, Rep;
    n.keys := n.keys[..i] + [split.0] + n.keys[i..];
    n.children := n.children[..i + 1] + [split.1] + n.children[i + 1..];
    s' := SInner(n, s.kids[..i] + [k, r] + s.kids[i + 1..]);
    KidsRepOne(k, p.left);
    KidsRepOne(r, p.right);
    KidsRepAppend([k], [r], [p.left], [p.right]);
    assert [k, r] == [k] + [r] && [p.left, p.right] == [p.left] + [p.right];
    RepPut(s.kids[..i], [k, r], s.kids[i + 1..], t.kids[..i], [p.left, p.right], t.kids[i + 1..]);
  }

  /** Inserts below `n`; if the node overflows, its upper half moves to a new node. */
  method InsertNode(n: Node, key: Bytes, value: Bytes, m: nat,
                    ghost s: Shape, ghost t: BTree, ghost h: nat, ghost objs: set<Node>, ghost after: Node?,
                    ghost lo: Option<Bytes>, ghost hi: Option<Bytes>)
    returns (split: Option<(Bytes, Node)>, ghost s': Shape, ghost r': Shape)
    requires s.obj == n && Rep(s, t) && Apart(s) && objs == Objs(s) && Chained(Leaves(s), after)
    requires Formed(t, h) && Within(t, lo, hi) && m >= 2
    modifies objs
    ensures GrownRep(Insert(t, h, key, value, m), split, s', r', n)
    ensures Chained(Spread(Insert(t, h, key, value, m), s', r'), after)
    ensures Leaves(s) != [] && Leaves(s') != [] && Leaves(s')[0] == Leaves(s)[0]
    ensures forall o :: o in Objs(s') + Objs(r') ==> o in objs || fresh(o)
    decreases h, 1
  {
    if n.leaf {
      assert LinkedAt(Leaves(s), 0, after);
      split, r' := InsertLeaf(n, key, value, m, t, after);
      s' := s;
      return;
    }
    split, s', r' := InsertInner(n, key, value, m, s, t, h, objs, after, lo, hi);
  }

  method InsertInner(n: Node, key: Bytes, value: Bytes, m: nat,
                     ghost s: Shape, ghost t: BTree, ghost h: nat, ghost objs: set<Node>, ghost after: Node?,
                     ghost lo: Option<Bytes>, ghost hi: Option<Bytes>)
    returns (split: Option<(Bytes, Node)>, ghost s': Shape, ghost r': Shape)
    requires s.obj == n && Rep(s, t) && Apart(s) && objs == Objs(s) && Chained(Leaves(s), after) && s.SInner?
    requires Formed(t, h) && Within(t, lo, hi) && m >= 2
    modifies objs
    ensures GrownRep(Insert(t, h, key, value, m), split, s', r', n)
    ensures Chained(Spread(Insert(t, h, key, value, m), s', r'), after)
    ensures Leaves(s) != [] && Leaves(s') != [] && Leaves(s')[0] == Leaves(s)[0]
    ensures forall o :: o in Objs(s') + Objs(r') ==> o in objs || fresh(o)
    decreases h, 0
  {
    hide Within, Chained, KidsRep, KidsApart, ObjsAll, Leaves, LeavesAll, Cut, Sides;
    var i := ChildIndex(n.keys, key);
    RepCount(s.kids, t.kids);
    ghost var kid, u := s.kids[i], t.kids[i];
    Descend(n, s, t, h, i, objs, after);
    KidWithin(t, i, lo, hi);
    ghost var k, r;
    split, k, r := InsertNode(n.children[i], key, value, m, kid, u, h - 1, Objs(kid), Follower(s, i, after),
                              LoOf(t.keys, i, lo), HiOf(t.keys, i, hi));
    assert Sides(n, s, t, i, Leaves(kid)[0], after);
    assert forall o :: o in Objs(k) + Objs(r) ==>
              o !in ObjsAll(s.kids[..i]) && o !in ObjsAll(s.kids[i + 1..]) && o != n;
    if split.None? {
      s', r' := KeepChild(n, i, s, t, objs, after, k, Insert(u, h - 1, key, value, m).tree);
    } else {
      split, s', r' := SplitChild(n, i, m, split.value, s, t, h, objs, after, k, r,
                                  Insert(u, h - 1, key, value, m).parts);
    }
  }

  /** Child `i` was not split: it takes its place again. */
  lemma {:induction false} KeepChild(n: Node, i: nat, s: Shape, t: BTree, objs: set<Node>, after: Node?, k: Shape,
      kid: BTree)
    returns (s': Shape, r': Shape)
    requires s.SInner? && s.obj == n && t.Inner? && i < |s.kids| == |t.kids| == |t.keys| + 1 && objs == Objs(s)
    requires Leaves(s.kids[i]) != [] && Sides(n, s, t, i, Leaves(s.kids[i])[0], after)
    requires k.obj == s.kids[i].obj && Rep(k, kid) && Apart(k) && Chained(Leaves(k), Follower(s, i, after))
    requires Leaves(k) != [] && Leaves(k)[0] == Leaves(s.kids[i])[0]
    requires forall o :: o in Objs(k) ==> o !in ObjsAll(s.kids[..i]) && o !in ObjsAll(s.kids[i + 1..]) && o != n
    ensures GrownRep(One(WithKid(t, i, kid)), None, s', r', n) && Chained(Leaves(s'), after)
    ensures Leaves(s) != [] && Leaves(s') != [] && Leaves(s')[0] == Leaves(s)[0]
    ensures forall o :: o in Objs(s') + Objs(r') ==> o in objs || o in Objs(k)
  {
    hide Chained, KidsRep, KidsApart, ObjsAll, Leaves, LeavesAll;
    s' := SInner(n, s.kids[..i] + [k] + s.kids[i + 1..]);
    r' := s';
    PutOne(n, s, t, i, k, kid, after);
    SidesWithin(s, i);
  }

  /** Child `i` was split: both halves take its place. */
  method SplitChild(n: Node, i: nat, m: nat, part: (Bytes, Node), ghost s: Shape, ghost t: BTree, ghost h: nat,
      ghost objs: set<Node>, ghost after: Node?,
                    ghost k: Shape, ghost r: Shape, ghost p: Parts)
    returns (split: Option<(Bytes, Node)>, ghost s': Shape, ghost r': Shape)
    requires s.SInner? && s.obj == n && t.Inner? && i < |s.kids| == |t.kids| == |t.keys| + 1 && objs == Objs(s)
             && m >= 2 && h > 0 && Formed(t, h)
    requires Leaves(s.kids[i]) != [] && Sides(n, s, t, i, Leaves(s.kids[i])[0], after)
    requires k.obj == s.kids[i].obj && Rep(k, p.left) && Rep(r, p.right) && Apart(k) && Apart(r) && Objs(k) !! Objs(r)
    requires part == (p.sep, r.obj) && Chained(Leaves(k) + Leaves(r), Follower(s, i, after))
    requires Leaves(k) != [] && Leaves(k)[0] == Leaves(s.kids[i])[0]
    requires forall o :: o in Objs(k) + Objs(r) ==>
              o !in ObjsAll(s.kids[..i]) && o !in ObjsAll(s.kids[i + 1..]) && o != n
    modifies n
    ensures GrownRep(SplitIfOver(WithParts(t, i, p), m), split, s', r', n)
    ensures Chained(Spread(SplitIfOver(WithParts(t, i, p), m), s', r'), after)
    ensures Leaves(s) != [] && Leaves(s') != [] && Leaves(s')[0] == Leaves(s)[0]
    ensures forall o :: o in Objs(s') + Objs(r') ==> o in objs || o in Objs(k) + Objs(r) || fresh(o)
  {
    hide Chained, KidsRep, KidsApart, ObjsAll, Leaves, LeavesAll, Cut;
    ghost var kids := s.kids;
    ghost var a, b, c := LeavesAll(kids[..i]), Leaves(kids[i]), LeavesAll(kids[i + 1..]);
    ghost var all := a + (Leaves(k) + Leaves(r)) + c;
    ChainAround(a, Leaves(k) + Leaves(r), c, after);
    LeavesAreObjs(k);
    LeavesAreObjs(r);
    LeavesAllAreObjs(kids[..i]);
    LeavesAllAreObjs(kids[i + 1..]);
    assert n !in all;
    TwoShapes(k, r);
    PutShapes(kids, i, [k, r]);
    LeavesIs(s);
    LeavesAt(kids, i);
    FirstOf(a, b, Leaves(k) + Leaves(r), c);
    if i > 0 {
      KidRep(kids[..i], t.kids[..i], 0);
      HasLeaf(kids[0], t.kids[0], h - 1);
    }
    assert (kids[..i] + [k, r])[0] == if i > 0 then kids[0] else k;
    SidesWithin(s, i);
    split, s', r' := PutSplit(n, i, m, part, s, t, p, k, r, all, after);
  }

  /** A child that was not split takes its place again. */
  lemma {:induction false} PutOne(n: Node, s: Shape, t: BTree, i: nat, k: Shape, kid: BTree, after: Node?)
    requires s.SInner? && t.Inner? && i < |s.kids| == |t.kids| == |t.keys| + 1 && s.obj == n && !n.leaf
             && n.keys == t.keys
    requires n.children == ChildObjs(s.kids) && k.obj == s.kids[i].obj
    requires KidsRep(s.kids[..i], t.kids[..i]) && KidsRep(s.kids[i + 1..], t.kids[i + 1..]) && Rep(k, kid)
    requires KidsApart(s.kids[..i]) && Apart(k) && KidsApart(s.kids[i + 1..])
    requires ObjsAll(s.kids[..i]) !! Objs(k) && ObjsAll(s.kids[i + 1..]) !! Objs(k)
             && ObjsAll(s.kids[..i]) !! ObjsAll(s.kids[i + 1..])
    requires n !in ObjsAll(s.kids[..i]) && n !in Objs(k) && n !in ObjsAll(s.kids[i + 1..])
    requires var a, c := LeavesAll(s.kids[..i]), LeavesAll(s.kids[i + 1..]);
             && Leaves(k) != [] && Leaves(s.kids[i]) != [] && Leaves(k)[0] == Leaves(s.kids[i])[0]
             && Chained(a, Leaves(k)[0]) && Chained(Leaves(k), Head(c, after)) && Chained(c, after)
    ensures var s' := SInner(n, s.kids[..i] + [k] + s.kids[i + 1..]);
            && Rep(s', WithKid(t, i, kid)) && Apart(s') && Chained(Leaves(s'), after)
            && Leaves(s) != [] && Leaves(s') != [] && Leaves(s')[0] == Leaves(s)[0]
            && Objs(s') == {n} + ObjsAll(s.kids[..i]) + Objs(k) + ObjsAll(s.kids[i + 1..])
  {
    hide Chained, KidsRep, KidsApart, ObjsAll, Leaves, LeavesAll;
    var s' := SInner(n, s.kids[..i] + [k] + s.kids[i + 1..]);
    var a, c := LeavesAll(s.kids[..i]), LeavesAll(s.kids[i + 1..]);
    ObjsAllOne(k);
    KidsApartOne(k);
    PutShapes(s.kids, i, [k]);
    LeavesAllOne(k);
    KidsRepOne(k, kid);
    RepPut(s.kids[..i], [k], s.kids[i + 1..], t.kids[..i], [kid], t.kids[i + 1..]);
    assert t.kids[i := kid] == t.kids[..i] + [kid] + t.kids[i + 1..];
    assert n.children == ChildObjs(s'.kids);
    ChainAround(a, Leaves(k), c, after);
    LeavesIs(s');
    LeavesIs(s);
    LeavesAt(s.kids, i);
    FirstOf(a, Leaves(s.kids[i]), Leaves(k), c);
  }

  /** Takes up the two halves of a child, and splits in turn if that is one key too many. */
  method PutSplit(n: Node, i: nat, m: nat, part: (Bytes, Node), ghost s: Shape, ghost t: BTree, ghost p: Parts,
      ghost k: Shape, ghost r: Shape,
                  ghost all: seq<Node>, ghost after: Node?)
    returns (split: Option<(Bytes, Node)>, ghost s': Shape, ghost r': Shape)
    requires s.SInner? && t.Inner? && i < |s.kids| == |t.kids| == |t.keys| + 1 && s.obj == n && !n.leaf
             && n.keys == t.keys
    requires n.children == ChildObjs(s.kids) && k.obj == s.kids[i].obj && part == (p.sep, r.obj)
    requires KidsRep(s.kids[..i], t.kids[..i]) && KidsRep(s.kids[i + 1..], t.kids[i + 1..]) && Rep(k, p.left)
             && Rep(r, p.right)
    requires var news := s.kids[..i] + [k, r] + s.kids[i + 1..];
             && KidsApart(news) && n !in ObjsAll(news) && LeavesAll(news) == all
             && ObjsAll(news) == ObjsAll(s.kids[..i]) + (Objs(k) + Objs(r)) + ObjsAll(s.kids[i + 1..])
    requires all != [] && Chained(all, after) && n !in all && m >= 2
    requires Leaves((s.kids[..i] + [k, r])[0]) != []
    modifies n
    ensures GrownRep(SplitIfOver(WithParts(t, i, p), m), split, s', r', n)
    ensures Chained(Spread(SplitIfOver(WithParts(t, i, p), m), s', r'), after)
    ensures Leaves(s') != [] && Leaves(s')[0] == all[0]
    ensures forall o :: o in Objs(s') + Objs(r') ==>
              o == n || o in ObjsAll(s.kids[..i] + [k, r] + s.kids[i + 1..]) || fresh(o)
  {
    hide KidsRep, KidsApart, ObjsAll, Leaves, LeavesAll, Cut;
    ghost var s1 := InsertIntoInternal(n, i, part, s, t, p, k, r);
    split, s', r' := SplitIfFull(n, m, s1, WithParts(t, i, p), ObjsAll(s1.kids));
    forall j: nat | j < |all| ensures LinkedAt(all, j, after) {
      assert old(LinkedAt(all, j, after)) && all[j] in all;
    }
    LeavesIs(s');
    FirstLeaf(s'.kids, s1.kids);
  }

  lemma {:induction false} FirstOf(a: seq<Node>, b: seq<Node>, b': seq<Node>, c: seq<Node>)
    requires b != [] && b' != [] && b[0] == b'[0]
    ensures (a + b + c)[0] == (a + b' + c)[0]
  {
  }

  lemma {:induction false} FirstLeaf(a: seq<Shape>, b: seq<Shape>)
    requires a <= b && a != [] && Leaves(a[0]) != []
    ensures LeavesAll(a) != [] && LeavesAll(b) != [] && LeavesAll(a)[0] == LeavesAll(b)[0]
  {
  }

  lemma {:induction false} PutShapes(kids: seq<Shape>, i: nat, news: seq<Shape>)
    requires i < |kids| && KidsApart(kids[..i]) && KidsApart(news) && KidsApart(kids[i + 1..])
    requires ObjsAll(kids[..i]) !! ObjsAll(news) && ObjsAll(kids[i + 1..]) !! ObjsAll(news)
             && ObjsAll(kids[..i]) !! ObjsAll(kids[i + 1..])
    ensures var all := kids[..i] + news + kids[i + 1..];
            && KidsApart(all) && ObjsAll(all) == ObjsAll(kids[..i]) + ObjsAll(news) + ObjsAll(kids[i + 1..])
            && LeavesAll(all) == LeavesAll(kids[..i]) + LeavesAll(news) + LeavesAll(kids[i + 1..])
  {
    hide KidsApart, ObjsAll, LeavesAll;
    ApartPut(kids[..i], news, kids[i + 1..]);
    LeavesAllAppend(kids[..i] + news, kids[i + 1..]);
    LeavesAllAppend(kids[..i], news);
  }

  lemma {:induction false} TwoShapes(k: Shape, r: Shape)
    requires Apart(k) && Apart(r) && Objs(k) !! Objs(r)
    ensures KidsApart([k, r]) && ObjsAll([k, r]) == Objs(k) + Objs(r) && LeavesAll([k, r]) == Leaves(k) + Leaves(r)
  {
    hide KidsApart, ObjsAll, LeavesAll, Objs, Apart;
    assert [k, r] == [k] + [r];
    KidsApartOne(k);
    KidsApartOne(r);
    ObjsAllOne(k);
    ObjsAllOne(r);
    KidsApartAppend([k], [r]);
    ObjsAllAppend([k], [r]);
    LeavesAllAppend([k], [r]);
    LeavesAllOne(k);
    LeavesAllOne(r);
  }

  /** Splits an internal node that has too many keys. */
  method SplitIfFull(n: Node, m: nat, ghost s: Shape, ghost t: BTree, ghost objs: set<Node>)
    returns (split: Option<(Bytes, Node)>, ghost s': Shape, ghost r': Shape)
    requires s.SInner? && s.obj == n && Rep(s, t) && Apart(s) && objs == ObjsAll(s.kids) && |t.kids| == |t.keys| + 1
             && m >= 2
    modifies n
    ensures GrownRep(SplitIfOver(t, m), split, s', r', n)
    ensures Spread(SplitIfOver(t, m), s', r') == LeavesAll(s.kids) && s'.SInner? && s'.kids != [] && s'.kids <= s.kids
    ensures forall o :: o in Objs(s') + Objs(r') ==> o in objs || o == n || fresh(o)
    ensures n.next == old(n.next)
  {
    hide KidsRep, KidsApart, ObjsAll, Leaves, LeavesAll, Cut;
    RepCount(s.kids, t.kids);
    if |n.keys| <= m {
      LeavesIs(s);
      return None, s, s;
    }
    var promoted, right;
    promoted, right, s', r' := SplitInternal(n, s, t, objs);
    split := Some((promoted, right));
    assert s.kids == s'.kids + r'.kids;
    KidsApartAppend(s'.kids, r'.kids);
    ObjsAllAppend(s'.kids, r'.kids);
    LeavesAllAppend(s'.kids, r'.kids);
    LeavesIs(s');
    LeavesIs(r');
  }

  lemma {:induction false} LeavesIs(s: Shape)
    requires s.SInner?
    ensures Leaves(s) == LeavesAll(s.kids)
  {
  }

  // ----- Rotations and merges of two neighbours

  /** Two neighbouring subtrees with all their objects apart. */
  ghost predicate Neighbours(sl: Shape, sr: Shape, l: BTree, r: BTree, h: nat)
    reads Objs(sl) + Objs(sr)
  {
    && Rep(sl, l) && Rep(sr, r) && Apart(sl) && Apart(sr) && Objs(sl) !! Objs(sr)
    && Formed(l, h) && Formed(r, h)
  }

  /** The last entry or child of the left node moves to the front of the right one. */
  method ShiftRight(left: Node, child: Node, sep: Bytes, ghost sl: Shape, ghost sr: Shape, ghost l: BTree,
      ghost r: BTree, ghost h: nat)
    returns (sep': Bytes, ghost sl': Shape, ghost sr': Shape)
    requires Neighbours(sl, sr, l, r, h) && sl.obj == left && sr.obj == child && Count(l) >= 1
    modifies left, child
    ensures left.next == old(left.next) && child.next == old(child.next)
    ensures l.Leaf? == r.Leaf? && (l.Inner? ==> |l.kids| == |l.keys| + 1 && |r.kids| == |r.keys| + 1)
    ensures var p := Cut(Join(l, sep, r), Count(l) - 1);
            Rep(sl', p.left) && Rep(sr', p.right) && sep' == p.sep
    ensures sl'.obj == left && sr'.obj == child
    ensures if l.Leaf? then sl' == sl && sr' == sr
            else && sl.SInner? && sr.SInner? && sl.kids != [] && sl' == SInner(left, sl.kids[..|sl.kids| - 1])
                 && sr' == SInner(child, [sl.kids[|sl.kids| - 1]] + sr.kids)
  {
    hide KidsRep, KidsApart, ObjsAll, Cut, Join;
    CutBeforeLast(l, sep, r);
    var last := |left.keys| - 1;
    if child.leaf {
      sl', sr' := sl, sr;
      child.keys := [left.keys[last]] + child.keys;
      child.values := [left.values[last]] + child.values;
      left.keys := left.keys[..last];
      left.values := left.values[..last];
      sep' := child.keys[0];
      return;
    }
    RepCount(sl.kids, l.kids);
    ghost var k := |sl.kids| - 1;
    sl', sr' := SInner(left, sl.kids[..k]), SInner(child, [sl.kids[k]] + sr.kids);
    child.keys := [sep] + child.keys;
    child.children := [left.children[|left.children| - 1]] + child.children;
    sep' := left.keys[last];
    left.keys := left.keys[..last];
    left.children := left.children[..|left.children| - 1];
    assert KidsRep(sl.kids, l.kids) && KidsRep(sr.kids, r.kids);
    assert sl.kids == sl.kids[..k] + [sl.kids[k]] && l.kids == l.kids[..k] + [l.kids[k]];
    KidsRepAppend(sl.kids[..k], [sl.kids[k]], l.kids[..k], [l.kids[k]]);
    KidsRepAppend([sl.kids[k]], sr.kids, [l.kids[k]], r.kids);
  }

  /** The first entry or child of the right node moves to the end of the left one. */
  method ShiftLeft(child: Node, right: Node, sep: Bytes, ghost sl: Shape, ghost sr: Shape, ghost l: BTree,
      ghost r: BTree, ghost h: nat)
    returns (sep': Bytes, ghost sl': Shape, ghost sr': Shape)
    requires Neighbours(sl, sr, l, r, h) && sl.obj == child && sr.obj == right && Count(r) >= (if r.Leaf? then 2 else 1)
    modifies child, right
    ensures child.next == old(child.next) && right.next == old(right.next)
    ensures l.Leaf? == r.Leaf? && (l.Inner? ==> |l.kids| == |l.keys| + 1 && |r.kids| == |r.keys| + 1)
    ensures var p := Cut(Join(l, sep, r), Count(l) + 1);
            Rep(sl', p.left) && Rep(sr', p.right) && sep' == p.sep
    ensures sl'.obj == child && sr'.obj == right
    ensures if l.Leaf? then sl' == sl && sr' == sr
            else && sl.SInner? && sr.SInner? && sr.kids != [] && sl' == SInner(child, sl.kids + [sr.kids[0]])
                 && sr' == SInner(right, sr.kids[1..])
  {
    hide KidsRep, KidsApart, ObjsAll, Cut, Join;
    CutAfterFirst(l, sep, r);
    if child.leaf {
      sl', sr' := sl, sr;
      child.keys := child.keys + [right.keys[0]];
      child.values := child.values + [right.values[0]];
      right.keys := right.keys[1..];
      right.values := right.values[1..];
      sep' := right.keys[0];
      return;
    }
    RepCount(sr.kids, r.kids);
    RepCount(sl.kids, l.kids);
    sl', sr' := SInner(child, sl.kids + [sr.kids[0]]), SInner(right, sr.kids[1..]);
    child.keys := child.keys + [sep];
    child.children := child.children + [right.children[0]];
    sep' := right.keys[0];
    right.keys := right.keys[1..];
    right.children := right.children[1..];
    assert KidsRep(sl.kids, l.kids) && KidsRep(sr.kids, r.kids);
    assert sr.kids == [sr.kids[0]] + sr.kids[1..] && r.kids == [r.kids[0]] + r.kids[1..];
    KidsRepAppend([sr.kids[0]], sr.kids[1..], [r.kids[0]], r.kids[1..]);
    KidsRepAppend(sl.kids, [sr.kids[0]], l.kids, [r.kids[0]]);
  }

  lemma {:induction false} CutAfterFirst(l: BTree, sep: Bytes, r: BTree)
    requires l.Leaf? == r.Leaf? && Count(r) >= (if r.Leaf? then 2 else 1)
    requires l.Inner? ==> |l.kids| == |l.keys| + 1 && |r.kids| == |r.keys| + 1
    ensures Join(l, sep, r).Inner? == l.Inner? && Count(l) + 1 < Count(Join(l, sep, r))
            && (l.Inner? ==> |Join(l, sep, r).kids| == |Join(l, sep, r).keys| + 1)
    ensures Cut(Join(l, sep, r), Count(l) + 1) ==
            if l.Leaf? then Parts(Leaf(l.entries + [r.entries[0]]), r.entries[1].key, Leaf(r.entries[1..]))
            else Parts(Inner(l.keys + [sep], l.kids + [r.kids[0]]), r.keys[0], Inner(r.keys[1..], r.kids[1..]))
  {
    if l.Inner? {
      var n := |l.kids|;
      assert (l.kids + r.kids)[..n + 1] == l.kids + [r.kids[0]] && (l.kids + r.kids)[n + 1..] == r.kids[1..];
      var keys := l.keys + [sep] + r.keys;
      assert keys[..n] == l.keys + [sep] && keys[n] == r.keys[0] && keys[n + 1..] == r.keys[1..];
    } else {
      var n, all := |l.entries|, l.entries + r.entries;
      assert all[..n + 1] == l.entries + [r.entries[0]] && all[n + 1] == r.entries[1] && all[n + 1..] == r.entries[1..];
    }
  }

  lemma {:induction false} CutBeforeLast(l: BTree, sep: Bytes, r: BTree)
    requires l.Leaf? == r.Leaf? && Count(l) >= 1
    requires l.Inner? ==> |l.kids| == |l.keys| + 1 && |r.kids| == |r.keys| + 1
    ensures Join(l, sep, r).Inner? == l.Inner? && Count(l) - 1 < Count(Join(l, sep, r))
            && (l.Inner? ==> |Join(l, sep, r).kids| == |Join(l, sep, r).keys| + 1)
    ensures var k := Count(l) - 1;
            Cut(Join(l, sep, r), k) ==
            if l.Leaf? then Parts(Leaf(l.entries[..k]), l.entries[k].key, Leaf([l.entries[k]] + r.entries))
            else Parts(Inner(l.keys[..k], l.kids[..k + 1]), l.keys[k], Inner([sep] + r.keys, [l.kids[k + 1]] + r.kids))
  {
    if l.Inner? {
      var k := Count(l) - 1;
      assert (l.kids + r.kids)[..k + 1] == l.kids[..k + 1] && (l.kids + r.kids)[k + 1..] == [l.kids[k + 1]] + r.kids;
      var keys := l.keys + [sep] + r.keys;
      assert keys[..k] == l.keys[..k] && keys[k] == l.keys[k] && keys[k + 1..] == [sep] + r.keys;
    } else {
      var k, all := Count(l) - 1, l.entries + r.entries;
      assert all[..k] == l.entries[..k] && all[k] == l.entries[k] && all[k..] == [l.entries[k]] + r.entries;
    }
  }

  /** The right node is taken up by the left one; a leaf also takes over its link. */
  method MergeNodes(left: Node, right: Node, sep: Bytes, ghost sl: Shape, ghost sr: Shape, ghost l: BTree,
      ghost r: BTree, ghost h: nat)
    returns (ghost sl': Shape)
    requires Neighbours(sl, sr, l, r, h) && sl.obj == left && sr.obj == right
    modifies left
    ensures l.Leaf? == r.Leaf? && Rep(sl', Join(l, sep, r)) && sl'.obj == left
    ensures if l.Leaf? then sl' == sl && left.next == right.next
            else sl.SInner? && sr.SInner? && sl' == SInner(left, sl.kids + sr.kids) && left.next == old(left.next)
  {
    hide KidsRep, KidsApart, ObjsAll;
    if left.leaf {
      sl' := sl;
      left.keys := left.keys + right.keys;
      left.values := left.values + right.values;
      left.next := right.next;
      return;
    }
    RepCount(sl.kids, l.kids);
    sl' := SInner(left, sl.kids + sr.kids);
    left.keys := left.keys + [sep];
    left.keys := left.keys + right.keys;
    left.children := left.children + right.children;
    assert KidsRep(sl.kids, l.kids) && KidsRep(sr.kids, r.kids);
    KidsRepAppend(sl.kids, sr.kids, l.kids, r.kids);
  }

  // ----- Putting neighbours back into their parent

  /** Subtrees of one parent: those before, some in the middle, those after. */
  ghost predicate Row(n: Node, a: seq<Shape>, b: seq<Shape>, c: seq<Shape>) {
    && KidsApart(a) && KidsApart(b) && KidsApart(c)
    && ObjsAll(a) !! ObjsAll(b) && ObjsAll(a) !! ObjsAll(c) && ObjsAll(b) !! ObjsAll(c)
    && n !in ObjsAll(a) && n !in ObjsAll(b) && n !in ObjsAll(c)
  }

  /** The links of a row whose middle starts at the leaf `first`. */
  ghost predicate RowChained(a: seq<Shape>, b: seq<Shape>, c: seq<Shape>, first: Node, after: Node?)
    reads set x | x in LeavesAll(a) + LeavesAll(b) + LeavesAll(c)
  {
    && LeavesAll(b) != [] && LeavesAll(b)[0] == first
    && Chained(LeavesAll(a), first) && Chained(LeavesAll(b), Head(LeavesAll(c), after)) && Chained(LeavesAll(c), after)
  }

  lemma {:induction false} Assemble(n: Node, a: seq<Shape>, b: seq<Shape>, c: seq<Shape>, ta: seq<BTree>,
      tb: seq<BTree>, tc: seq<BTree>, u: BTree)
    requires u.Inner? && !n.leaf && n.keys == u.keys && n.children == ChildObjs(a + b + c) && u.kids == ta + tb + tc
    requires KidsRep(a, ta) && KidsRep(b, tb) && KidsRep(c, tc) && Row(n, a, b, c)
    ensures var s := SInner(n, a + b + c);
            Rep(s, u) && Apart(s) && Objs(s) == {n} + ObjsAll(a) + ObjsAll(b) + ObjsAll(c)
  {
    hide KidsRep, KidsApart, ObjsAll;
    RepPut(a, b, c, ta, tb, tc);
    ApartPut(a, b, c);
  }

  lemma {:induction false} AssembleChain(n: Node, a: seq<Shape>, b: seq<Shape>, c: seq<Shape>, first: Node,
      after: Node?)
    requires RowChained(a, b, c, first, after)
    ensures var s := SInner(n, a + b + c);
            Chained(Leaves(s), after) && Leaves(s) != [] && Leaves(s)[0] == (LeavesAll(a) + [first])[0]
  {
    hide Chained, LeavesAll;
    ChainAround(LeavesAll(a), LeavesAll(b), LeavesAll(c), after);
    LeavesAllAppend(a + b, c);
    LeavesAllAppend(a, b);
  }

  /** A parent taken apart around some neighbouring children. */
  lemma {:induction false} Disassemble(s: Shape, t: BTree, h: nat, i: nat, j: nat, after: Node?)
    requires s.SInner? && Rep(s, t) && Apart(s) && Formed(t, h) && Chained(Leaves(s), after) && i < j <= |s.kids|
    ensures h > 0 && |s.kids| == |t.kids| == |t.keys| + 1
    ensures var a, b, c := s.kids[..i], s.kids[i..j], s.kids[j..];
            && KidsRep(a, t.kids[..i]) && KidsRep(b, t.kids[i..j]) && KidsRep(c, t.kids[j..])
            && Row(s.obj, a, b, c) && ObjsAll(s.kids) == ObjsAll(a) + ObjsAll(b) + ObjsAll(c)
            && LeavesAll(b) != [] && RowChained(a, b, c, LeavesAll(b)[0], after)
            && Leaves(s) == LeavesAll(a) + LeavesAll(b) + LeavesAll(c)
  {
    hide KidsApart, ObjsAll, Chained, LeavesAll, Leaves;
    var a, b, c := s.kids[..i], s.kids[i..j], s.kids[j..];
    RepCount(s.kids, t.kids);
    assert s.kids == a + (b + c) && t.kids == t.kids[..i] + (t.kids[i..j] + t.kids[j..]);
    KidsRepAppend(a, b + c, t.kids[..i], t.kids[i..j] + t.kids[j..]);
    KidsRepAppend(b, c, t.kids[i..j], t.kids[j..]);
    KidsApartAppend(a, b + c);
    KidsApartAppend(b, c);
    ObjsAllAppend(a, b + c);
    ObjsAllAppend(b, c);
    LeavesAllAppend(a, b + c);
    LeavesAllAppend(b, c);
    LeavesIs(s);
    assert Rep(s.kids[i], t.kids[i]) by {
      assert b[0] == s.kids[i] && t.kids[i..j][0] == t.kids[i];
    }
    HasLeaf(s.kids[i], t.kids[i], h - 1);
    LeavesHead(b);
    var la, lb, lc := LeavesAll(a), LeavesAll(b), LeavesAll(c);
    assert la + (lb + lc) == la + lb + lc;
    ChainSplit(la, lb + lc, after);
    ChainSplit(lb, lc, after);
  }

  lemma {:induction false} LeavesHead(kids: seq<Shape>)
    requires kids != [] && Leaves(kids[0]) != []
    ensures LeavesAll(kids) != [] && LeavesAll(kids)[0] == Leaves(kids[0])[0]
  {
  }

  /** Two neighbours as one group. */
  lemma {:induction false} TwoKids(kids: seq<Shape>, ts: seq<BTree>, i: nat, h: nat)
    requires i + 1 < |kids| == |ts| && KidsRep(kids[i..i + 2], ts[i..i + 2]) && KidsApart(kids[i..i + 2])
    requires Formed(ts[i], h) && Formed(ts[i + 1], h)
    ensures Neighbours(kids[i], kids[i + 1], ts[i], ts[i + 1], h)
    ensures ObjsAll(kids[i..i + 2]) == Objs(kids[i]) + Objs(kids[i + 1])
    ensures LeavesAll(kids[i..i + 2]) == Leaves(kids[i]) + Leaves(kids[i + 1])
  {
    hide KidsApart, ObjsAll, LeavesAll, Objs, Apart, Rep, KidsRep;
    assert kids[i..i + 2] == [kids[i]] + [kids[i + 1]] && ts[i..i + 2] == [ts[i]] + [ts[i + 1]];
    KidsRepAppend([kids[i]], [kids[i + 1]], [ts[i]], [ts[i + 1]]);
    KidsRepOne(kids[i], ts[i]);
    KidsRepOne(kids[i + 1], ts[i + 1]);
    KidsApartAppend([kids[i]], [kids[i + 1]]);
    KidsApartOne(kids[i]);
    KidsApartOne(kids[i + 1]);
    ObjsAllAppend([kids[i]], [kids[i + 1]]);
    ObjsAllOne(kids[i]);
    ObjsAllOne(kids[i + 1]);
    LeavesAllAppend([kids[i]], [kids[i + 1]]);
    LeavesAllOne(kids[i]);
    LeavesAllOne(kids[i + 1]);
  }

  /** Children that change parents between two neighbours stay apart, in the same order. */
  lemma {:induction false} Reshaped(x: Node, y: Node, p: seq<Shape>, q: seq<Shape>, p': seq<Shape>, q': seq<Shape>)
    requires Apart(SInner(x, p)) && Apart(SInner(y, q)) && Objs(SInner(x, p)) !! Objs(SInner(y, q)) && p + q == p' + q'
    ensures Apart(SInner(x, p')) && Apart(SInner(y, q')) && Objs(SInner(x, p')) !! Objs(SInner(y, q'))
    ensures Objs(SInner(x, p')) + Objs(SInner(y, q')) == Objs(SInner(x, p)) + Objs(SInner(y, q))
    ensures Leaves(SInner(x, p')) + Leaves(SInner(y, q')) == Leaves(SInner(x, p)) + Leaves(SInner(y, q))
  {
    hide KidsApart, ObjsAll, LeavesAll;
    KidsApartAppend(p, q);
    KidsApartAppend(p', q');
    ObjsAllAppend(p, q);
    ObjsAllAppend(p', q');
    LeavesAllAppend(p, q);
    LeavesAllAppend(p', q');
  }

  /** A pair of neighbours is put back into its parent. */
  lemma {:induction false} PutPair(n: Node, s: Shape, t: BTree, j: nat, sl: Shape, sr: Shape, p: Parts)
    requires s.SInner? && t.Inner? && s.obj == n && j + 1 < |s.kids| == |t.kids| == |t.keys| + 1
    requires !n.leaf && n.keys == t.keys[j := p.sep] && n.children == ChildObjs(s.kids)
    requires sl.obj == s.kids[j].obj && sr.obj == s.kids[j + 1].obj
    requires KidsRep(s.kids[..j], t.kids[..j]) && KidsRep(s.kids[j + 2..], t.kids[j + 2..]) && Rep(sl, p.left)
             && Rep(sr, p.right)
    requires Apart(sl) && Apart(sr) && Objs(sl) !! Objs(sr)
    requires Row(n, s.kids[..j], s.kids[j..j + 2], s.kids[j + 2..])
    requires Objs(sl) + Objs(sr) == ObjsAll(s.kids[j..j + 2]) && Leaves(sl) + Leaves(sr) == LeavesAll(s.kids[j..j + 2])
    ensures var s' := SInner(n, s.kids[..j] + [sl, sr] + s.kids[j + 2..]);
            Rep(s', WithPair(t, j, p)) && Apart(s') && Objs(s') == Objs(s) && Leaves(s') == Leaves(s)
  {
    hide KidsApart, ObjsAll, LeavesAll, KidsRep;
    var a, c := s.kids[..j], s.kids[j + 2..];
    var s' := SInner(n, a + [sl, sr] + c);
    TwoShapes(sl, sr);
    KidsRepOne(sl, p.left);
    KidsRepOne(sr, p.right);
    KidsRepAppend([sl], [sr], [p.left], [p.right]);
    assert [sl, sr] == [sl] + [sr] && [p.left, p.right] == [p.left] + [p.right];
    assert t.kids[j := p.left][j + 1 := p.right] == t.kids[..j] + [p.left, p.right] + t.kids[j + 2..];
    assert ChildObjs(a + [sl, sr] + c) == ChildObjs(s.kids);
    Assemble(n, a, [sl, sr], c, t.kids[..j], [p.left, p.right], t.kids[j + 2..], WithPair(t, j, p));
    LeavesIs(s');
    LeavesIs(s);
    assert s.kids == a + s.kids[j..j + 2] + c;
    LeavesAllAppend(a + s.kids[j..j + 2], c);
    LeavesAllAppend(a, s.kids[j..j + 2]);
    LeavesAllAppend(a + [sl, sr], c);
    LeavesAllAppend(a, [sl, sr]);
    ObjsAllAppend(a + s.kids[j..j + 2], c);
    ObjsAllAppend(a, s.kids[j..j + 2]);
  }

  /** A well-formed parent of chained leaves, all of whose objects are known. */
  ghost predicate Parent(n: Node, s: Shape, t: BTree, h: nat, objs: set<Node>, after: Node?)
    reads Objs(s), set x | x in Leaves(s)
  {
    && s.SInner? && s.obj == n && Rep(s, t) && Apart(s) && Formed(t, h) && Chained(Leaves(s), after) && objs == Objs(s)
  }

  method RotateFromLeft(parent: Node, j: nat, ghost s: Shape, ghost t: BTree, ghost h: nat, ghost objs: set<Node>,
      ghost after: Node?)
    returns (ghost s': Shape)
    requires Parent(parent, s, t, h, objs, after) && t.Inner? && j + 1 < |t.kids| == |t.keys| + 1
             && Count(t.kids[j]) >= 1
    modifies objs
    ensures t.kids[j].Leaf? == t.kids[j + 1].Leaf?
    ensures var x := Join(t.kids[j], t.keys[j], t.kids[j + 1]);
            && Count(t.kids[j]) - 1 < Count(x) && (x.Inner? ==> |x.kids| == |x.keys| + 1)
            && Parent(parent, s', WithPair(t, j, Cut(x, Count(t.kids[j]) - 1)), h, objs, after)
    ensures Leaves(s') == Leaves(s)
  {
    hide KidsApart, ObjsAll, LeavesAll, KidsRep, Cut, Join, Leaves;
    ghost var kids := s.kids;
    RepCount(kids, t.kids);
    Disassemble(s, t, h, j, j + 2, after);
    TwoKids(kids, t.kids, j, h - 1);
    CutBeforeLast(t.kids[j], t.keys[j], t.kids[j + 1]);
    LeavesAreObjs(s);
    var sep;
    ghost var sl, sr;
    sep, sl, sr := ShiftRight(parent.children[j], parent.children[j + 1], parent.keys[j], kids[j], kids[j + 1],
                              t.kids[j], t.kids[j + 1], h - 1);
    parent.keys := parent.keys[j := sep];
    ghost var p := Cut(Join(t.kids[j], t.keys[j], t.kids[j + 1]), Count(t.kids[j]) - 1);
    s' := SInner(parent, kids[..j] + [sl, sr] + kids[j + 2..]);
    if t.kids[j].Inner? {
      Reshaped(sl.obj, sr.obj, kids[j].kids, kids[j + 1].kids, sl.kids, sr.kids);
    }
    PutPair(parent, s, t, j, sl, sr, p);
    JoinFormed(t.kids[j], t.keys[j], t.kids[j + 1], h - 1);
    CutFormed(Join(t.kids[j], t.keys[j], t.kids[j + 1]), Count(t.kids[j]) - 1, h - 1);
    PairFormed(t, h, j, p);
    forall i: nat | i < |Leaves(s)| ensures LinkedAt(Leaves(s), i, after) {
      assert old(LinkedAt(Leaves(s), i, after)) && Leaves(s)[i] in Leaves(s);
    }
  }

  method RotateFromRight(parent: Node, j: nat, ghost s: Shape, ghost t: BTree, ghost h: nat, ghost objs: set<Node>,
      ghost after: Node?)
    returns (ghost s': Shape)
    requires Parent(parent, s, t, h, objs, after) && t.Inner? && j + 1 < |t.kids| == |t.keys| + 1
             && Count(t.kids[j + 1]) >= 2
    modifies objs
    ensures t.kids[j].Leaf? == t.kids[j + 1].Leaf?
    ensures var x := Join(t.kids[j], t.keys[j], t.kids[j + 1]);
            && Count(t.kids[j]) + 1 < Count(x) && (x.Inner? ==> |x.kids| == |x.keys| + 1)
            && Parent(parent, s', WithPair(t, j, Cut(x, Count(t.kids[j]) + 1)), h, objs, after)
    ensures Leaves(s') == Leaves(s)
  {
    hide KidsApart, ObjsAll, LeavesAll, KidsRep, Cut, Join, Leaves;
    ghost var kids := s.kids;
    RepCount(kids, t.kids);
    Disassemble(s, t, h, j, j + 2, after);
    TwoKids(kids, t.kids, j, h - 1);
    CutAfterFirst(t.kids[j], t.keys[j], t.kids[j + 1]);
    LeavesAreObjs(s);
    var sep;
    ghost var sl, sr;
    sep, sl, sr := ShiftLeft(parent.children[j], parent.children[j + 1], parent.keys[j], kids[j], kids[j + 1],
                             t.kids[j], t.kids[j + 1], h - 1);
    parent.keys := parent.keys[j := sep];
    ghost var p := Cut(Join(t.kids[j], t.keys[j], t.kids[j + 1]), Count(t.kids[j]) + 1);
    s' := SInner(parent, kids[..j] + [sl, sr] + kids[j + 2..]);
    if t.kids[j].Inner? {
      Reshaped(sl.obj, sr.obj, kids[j].kids, kids[j + 1].kids, sl.kids, sr.kids);
    }
    PutPair(parent, s, t, j, sl, sr, p);
    JoinFormed(t.kids[j], t.keys[j], t.kids[j + 1], h - 1);
    CutFormed(Join(t.kids[j], t.keys[j], t.kids[j + 1]), Count(t.kids[j]) + 1, h - 1);
    PairFormed(t, h, j, p);
    forall i: nat | i < |Leaves(s)| ensures LinkedAt(Leaves(s), i, after) {
      assert old(LinkedAt(Leaves(s), i, after)) && Leaves(s)[i] in Leaves(s);
    }
  }

  /** Merges two neighbours; a merged leaf takes the place of both in the chain. */
  method MergeChildren(parent: Node, j: nat, ghost s: Shape, ghost t: BTree, ghost h: nat, ghost objs: set<Node>,
      ghost after: Node?)
    returns (ghost s': Shape)
    requires Parent(parent, s, t, h, objs, after) && t.Inner? && j + 1 < |t.kids| == |t.keys| + 1
    modifies objs
    ensures t.kids[j].Leaf? == t.kids[j + 1].Leaf?
    ensures Parent(parent, s', WithJoined(t, j, Join(t.kids[j], t.keys[j], t.kids[j + 1])), h, Objs(s'), after)
            && Objs(s') <= objs
    ensures Leaves(s) != [] && Leaves(s') != [] && Leaves(s')[0] == Leaves(s)[0]
  {
    hide KidsApart, ObjsAll, LeavesAll, KidsRep, Join, Leaves;
    ghost var kids := s.kids;
    RepCount(kids, t.kids);
    Disassemble(s, t, h, j, j + 2, after);
    TwoKids(kids, t.kids, j, h - 1);
    LeavesAreObjs(s);
    ghost var la, lb, lc := LeavesAll(kids[..j]), LeavesAll(kids[j..j + 2]), LeavesAll(kids[j + 2..]);
    ghost var first := lb[0];
    assert first in Leaves(s) && first in objs;
    LeavesAllAreObjs(kids[..j]);
    LeavesAllAreObjs(kids[j + 2..]);
    ghost var k := MergeNodes(parent.children[j], parent.children[j + 1], parent.keys[j], kids[j], kids[j + 1],
                              t.kids[j], t.kids[j + 1], h - 1);
    parent.keys := parent.keys[..j] + parent.keys[j + 1..];
    parent.children := parent.children[..j + 1] + parent.children[j + 2..];
    s' := SInner(parent, kids[..j] + [k] + kids[j + 2..]);
    MergedShape(kids[j], kids[j + 1], k);
    PutMerged(parent, s, t, h, j, k, Join(t.kids[j], t.keys[j], t.kids[j + 1]));
    JoinFormed(t.kids[j], t.keys[j], t.kids[j + 1], h - 1);
    forall i: nat | i < |la| ensures LinkedAt(la, i, first) {
      assert old(LinkedAt(la, i, first)) && la[i] in Leaves(s) && la[i] in la;
    }
    forall i: nat | i < |lc| ensures LinkedAt(lc, i, after) {
      assert old(LinkedAt(lc, i, after)) && lc[i] in Leaves(s) && lc[i] in lc;
    }
    if t.kids[j].Inner? {
      forall i: nat | i < |lb| ensures LinkedAt(lb, i, Head(lc, after)) {
        assert old(LinkedAt(lb, i, Head(lc, after))) && lb[i] in Leaves(s);
      }
    } else {
      assert old(LinkedAt(lb, 1, Head(lc, after))) && lb[1] in Leaves(s);
    }
    LeavesAllOne(k);
    AssembleChain(parent, kids[..j], [k], kids[j + 2..], first, after);
  }

  /** The objects and leaves of two merged neighbours. */
  lemma {:induction false} MergedShape(sl: Shape, sr: Shape, k: Shape)
    requires Apart(sl) && Apart(sr) && Objs(sl) !! Objs(sr)
    requires (k == sl && sl.SLeaf? && sr.SLeaf?) || (sl.SInner? && sr.SInner? && k == SInner(sl.obj, sl.kids + sr.kids))
    ensures Apart(k) && Objs(k) <= Objs(sl) + Objs(sr) && k.obj == sl.obj
    ensures if k.SLeaf? then Leaves(k) == [sl.obj]
            && Leaves(sl) + Leaves(sr) == [sl.obj, sr.obj] else Leaves(k) == Leaves(sl) + Leaves(sr)
  {
    hide KidsApart, ObjsAll, LeavesAll;
    if k.SInner? {
      KidsApartAppend(sl.kids, sr.kids);
      ObjsAllAppend(sl.kids, sr.kids);
      LeavesAllAppend(sl.kids, sr.kids);
    }
  }

  lemma {:induction false} PutMerged(n: Node, s: Shape, t: BTree, h: nat, j: nat, k: Shape, kid: BTree)
    requires s.SInner? && t.Inner? && s.obj == n && j + 1 < |s.kids| == |t.kids| == |t.keys| + 1
    requires !n.leaf && n.keys == t.keys[..j] + t.keys[j + 1..]
    requires n.children == ChildObjs(s.kids)[..j + 1] + ChildObjs(s.kids)[j + 2..] && k.obj == s.kids[j].obj
    requires KidsRep(s.kids[..j], t.kids[..j]) && KidsRep(s.kids[j + 2..], t.kids[j + 2..]) && Rep(k, kid) && Apart(k)
    requires Row(n, s.kids[..j], s.kids[j..j + 2], s.kids[j + 2..]) && Objs(k) <= ObjsAll(s.kids[j..j + 2])
    ensures var s' := SInner(n, s.kids[..j] + [k] + s.kids[j + 2..]);
            Rep(s', WithJoined(t, j, kid)) && Apart(s') && Objs(s') <= Objs(s)
  {
    hide KidsApart, ObjsAll, LeavesAll, KidsRep;
    var a, c := s.kids[..j], s.kids[j + 2..];
    KidsRepOne(k, kid);
    KidsApartOne(k);
    ObjsAllOne(k);
    assert n.children == ChildObjs(a + [k] + c);
    Assemble(n, a, [k], c, t.kids[..j], [kid], t.kids[j + 2..], WithJoined(t, j, kid));
    assert s.kids == a + s.kids[j..j + 2] + c;
    ObjsAllAppend(a + s.kids[j..j + 2], c);
    ObjsAllAppend(a, s.kids[j..j + 2]);
  }

  lemma {:induction false} PairFormed(t: BTree, h: nat, j: nat, p: Parts)
    requires t.Inner? && Formed(t, h) && j + 1 < |t.kids| && h > 0 && Formed(p.left, h - 1) && Formed(p.right, h - 1)
    ensures Formed(WithPair(t, j, p), h)
  {
  }

  // ----- Deletion

  method RebalanceChild(parent: Node, i: nat, m: nat, ghost s: Shape, ghost t: BTree, ghost h: nat,
      ghost objs: set<Node>, ghost after: Node?)
    returns (ghost s': Shape)
    requires Parent(parent, s, t, h, objs, after) && t.Inner? && i < |t.kids| == |t.keys| + 1 && |t.kids| >= 2 && m >= 2
    modifies objs
    ensures Parent(parent, s', Rebalance(t, h, i, m), h, Objs(s'), after) && Objs(s') <= objs
    ensures Leaves(s) != [] && Leaves(s') != [] && Leaves(s')[0] == Leaves(s)[0]
  {
    hide KidsApart, ObjsAll, LeavesAll, Cut, Join, Leaves, Formed, Chained, WithPair, WithJoined;
    ParentFacts(parent, s, t, h, objs, after);
    if i > 0 && |parent.children[i - 1].keys| > m / 2 {
      s' := RotateFromLeft(parent, i - 1, s, t, h, objs, after);
    } else if i + 1 < |parent.children| && |parent.children[i + 1].keys| > m / 2 {
      s' := RotateFromRight(parent, i, s, t, h, objs, after);
    } else if i > 0 {
      s' := MergeChildren(parent, i - 1, s, t, h, objs, after);
    } else {
      s' := MergeChildren(parent, i, s, t, h, objs, after);
    }
  }

  /** What a parent sees of its children. */
  lemma {:induction false} ParentFacts(n: Node, s: Shape, t: BTree, h: nat, objs: set<Node>, after: Node?)
    requires Parent(n, s, t, h, objs, after)
    ensures t.Inner? && h > 0 && |s.kids| == |t.kids| == |t.keys| + 1 == |n.children| && n.keys == t.keys && n in objs
    ensures forall i :: 0 <= i < |s.kids| ==>
              n.children[i] == s.kids[i].obj && |n.children[i].keys| == Count(t.kids[i]) && n.children[i] in objs
    ensures Leaves(s) != []
  {
    hide Leaves, Chained, KidsApart;
    HasLeaf(s, t, h);
    RepCount(s.kids, t.kids);
    forall i | 0 <= i < |s.kids|
      ensures n.children[i] == s.kids[i].obj && |n.children[i].keys| == Count(t.kids[i]) && n.children[i] in objs
    {
      KidRep(s.kids, t.kids, i);
      KidObjs(s.kids, i);
      ObjOf(s.kids[i]);
    }
  }

  /** The smallest key below `n`, read at its leftmost leaf. */
  method MinimumKeyOf(n: Node, ghost s: Shape, ghost t: BTree, ghost h: nat) returns (key: Bytes)
    requires s.obj == n && Rep(s, t) && Formed(t, h) && LeftFull(t)
    ensures key == MinimumKey(t)
  {
    var cur := n;
    ghost var cs, ct, ch := s, t, h;
    while !cur.leaf
      invariant cs.obj == cur && Rep(cs, ct) && Formed(ct, ch) && LeftFull(ct) && MinimumKey(ct) == MinimumKey(t)
      decreases ch
    {
      assert Rep(cs.kids[0], ct.kids[0]);
      cur := cur.children[0];
      cs, ct, ch := cs.kids[0], ct.kids[0], ch - 1;
    }
    key := cur.keys[0];
  }

  /** Refreshes the separator before child `i` and rebalances the child if it became too small. */
  method RepairChild(n: Node, i: nat, m: nat, ghost s: Shape, ghost t: BTree, ghost kid: BTree, ghost h: nat,
      ghost objs: set<Node>, ghost after: Node?)
    returns (ghost s': Shape)
    requires t.Inner? && i < |t.kids| == |t.keys| + 1 && |t.kids| >= 2 && m >= 2
    requires Parent(n, s, WithKid(t, i, kid), h, objs, after) && (Count(kid) > 0 ==> LeftFull(kid))
    modifies objs
    ensures var u := Refreshed(t, i, kid);
            && u.Inner? && Formed(u, h) && i < |u.kids|
            && Parent(n, s', if Count(kid) < m / 2 then Rebalance(u, h, i, m) else u, h, Objs(s'), after)
            && Objs(s') <= objs
    ensures Leaves(s) != [] && Leaves(s') != [] && Leaves(s')[0] == Leaves(s)[0]
  {
    hide KidsApart, ObjsAll, LeavesAll, Leaves, Rebalance, KidsRep;
    ghost var w := WithKid(t, i, kid);
    ParentFacts(n, s, w, h, objs, after);
    assert w.kids[i] == kid;
    var small := |n.children[i].keys| < m / 2;
    if i > 0 && |n.children[i].keys| > 0 {
      KidIs(s, w, h, i);
      var key := MinimumKeyOf(n.children[i], s.kids[i], kid, h - 1);
      LeavesAreObjs(s);
      n.keys := n.keys[i - 1 := key];
      forall j: nat | j < |Leaves(s)| ensures LinkedAt(Leaves(s), j, after) {
        assert old(LinkedAt(Leaves(s), j, after)) && Leaves(s)[j] in Leaves(s);
      }
      assert Chained(Leaves(s), after);
    }
    ghost var u := Refreshed(t, i, kid);
    RefreshedIs(t, i, kid);
    assert Parent(n, s, u, h, objs, after);
    s' := s;
    if small {
      s' := RebalanceChild(n, i, m, s, u, h, objs, after);
    }
  }

  lemma {:induction false} KidRep(kids: seq<Shape>, ts: seq<BTree>, i: nat)
    requires KidsRep(kids, ts) && i < |kids|
    ensures i < |ts| && Rep(kids[i], ts[i])
  {
  }

  lemma {:induction false} KidIs(s: Shape, t: BTree, h: nat, i: nat)
    requires s.SInner? && Rep(s, t) && Formed(t, h) && i < |t.kids|
    ensures h > 0 && i < |s.kids| && Rep(s.kids[i], t.kids[i]) && Formed(t.kids[i], h - 1)
  {
  }

  lemma {:induction false} RefreshedIs(t: BTree, i: nat, kid: BTree)
    requires t.Inner? && i < |t.kids| == |t.keys| + 1
    ensures Refreshed(t, i, kid) ==
            Inner(if i > 0 && Count(kid) > 0 then t.keys[i - 1 := MinimumKey(kid)] else t.keys, t.kids[i := kid])
  {
  }

  /** What the objects below `n` hold after a deletion, and how their leaves are chained. */
  ghost predicate Shrunk(s: Shape, s': Shape, t': BTree, n: Node, objs: set<Node>, after: Node?)
    reads Objs(s'), set x | x in Leaves(s')
  {
    && s'.obj == n && Rep(s', t') && Apart(s') && Objs(s') <= objs && Chained(Leaves(s'), after)
    && Leaves(s) != [] && Leaves(s') != [] && Leaves(s')[0] == Leaves(s)[0]
  }

  method DeleteFromLeaf(n: Node, key: Bytes, ghost t: BTree) returns (deleted: bool)
    requires t.Leaf? && Rep(SLeaf(n), t) && Sorted(t.entries)
    modifies n
    ensures deleted <==> Find(t.entries, key).Some?
    ensures deleted ==> Rep(SLeaf(n), Leaf(Remove(t.entries, key))) && n.next == old(n.next)
    ensures !deleted ==> unchanged(n)
  {
    hide Remove, Find, Sorted;
    var idx := LowerBound(n.keys, key);
    RemoveAt(t.entries, key);
    if !FoundAt(n.keys, idx, key) {
      return false;
    }
    n.keys := n.keys[..idx] + n.keys[idx + 1..];
    n.values := n.values[..idx] + n.values[idx + 1..];
    deleted := true;
  }

  /** Deletes below `n`; a child that becomes too small is refilled or merged. */
  method DeleteFromNode(n: Node, key: Bytes, m: nat,
                        ghost s: Shape, ghost t: BTree, ghost h: nat, ghost objs: set<Node>, ghost after: Node?,
                        ghost lo: Option<Bytes>, ghost hi: Option<Bytes>)
    returns (deleted: bool, ghost s': Shape)
    requires s.obj == n && Rep(s, t) && Apart(s) && objs == Objs(s) && Chained(Leaves(s), after)
    requires Formed(t, h) && Within(t, lo, hi) && Filled(t, m) && m >= 2 && (t.Inner? ==> Count(t) >= 1)
    requires AtLeast(key, lo) && Under(key, hi)
    modifies objs
    ensures deleted <==> Delete(t, h, key, m).Some?
    ensures deleted ==> Shrunk(s, s', Delete(t, h, key, m).value, n, objs, after)
    ensures !deleted ==> unchanged(objs) && s' == s
    decreases h, 1
  {
    if n.leaf {
      assert LinkedAt(Leaves(s), 0, after);
      deleted := DeleteFromLeaf(n, key, t);
      s' := s;
      return;
    }
    deleted, s' := DeleteFromInner(n, key, m, s, t, h, objs, after, lo, hi);
  }

  method DeleteFromInner(n: Node, key: Bytes, m: nat,
                         ghost s: Shape, ghost t: BTree, ghost h: nat, ghost objs: set<Node>, ghost after: Node?,
                         ghost lo: Option<Bytes>, ghost hi: Option<Bytes>)
    returns (deleted: bool, ghost s': Shape)
    requires s.SInner? && s.obj == n && Rep(s, t) && Apart(s) && objs == Objs(s) && Chained(Leaves(s), after)
    requires Formed(t, h) && Within(t, lo, hi) && Filled(t, m) && m >= 2 && Count(t) >= 1
    requires AtLeast(key, lo) && Under(key, hi)
    modifies objs
    ensures deleted <==> Delete(t, h, key, m).Some?
    ensures deleted ==> Shrunk(s, s', Delete(t, h, key, m).value, n, objs, after)
    ensures !deleted ==> unchanged(objs) && s' == s
    decreases h, 0
  {
    hide Within, Chained, KidsRep, KidsApart, ObjsAll, Leaves, LeavesAll, Filled, AtLeast, Under, Refreshed, Rebalance;
    hide Sides;
    var i := ChildIndex(n.keys, key);
    RepCount(s.kids, t.kids);
    ghost var kid, u := s.kids[i], t.kids[i];
    Descend(n, s, t, h, i, objs, after);
    KidWithin(t, i, lo, hi);
    KidFilled(t, i, m);
    ChildBounds(t.keys, key, lo, hi);
    DeleteIsRemove(u, h - 1, key, m, LoOf(t.keys, i, lo), HiOf(t.keys, i, hi));
    ghost var k;
    deleted, k := DeleteFromNode(n.children[i], key, m, kid, u, h - 1, Objs(kid), Follower(s, i, after),
                                 LoOf(t.keys, i, lo), HiOf(t.keys, i, hi));
    s' := s;
    if deleted {
      assert Sides(n, s, t, i, Leaves(kid)[0], after);
      s' := AfterDelete(n, i, m, s, t, h, objs, after, k, Delete(u, h - 1, key, m).value);
    }
  }

  /** Puts the child back after a deletion below it, and repairs it. */
  method AfterDelete(n: Node, i: nat, m: nat, ghost s: Shape, ghost t: BTree, ghost h: nat, ghost objs: set<Node>,
      ghost after: Node?, ghost k: Shape, ghost kid: BTree)
    returns (ghost s': Shape)
    requires s.SInner? && s.obj == n && t.Inner? && i < |s.kids| == |t.kids| == |t.keys| + 1 && |t.kids| >= 2 && m >= 2
             && h > 0
    requires Leaves(s.kids[i]) != [] && Sides(n, s, t, i, Leaves(s.kids[i])[0], after)
    requires Shrunk(s.kids[i], k, kid, s.kids[i].obj, Objs(s.kids[i]), Follower(s, i, after))
    requires Formed(t, h) && Formed(kid, h - 1) && Filled(kid, m) && objs == Objs(s) && Objs(s.kids[i]) <= objs
    requires Objs(s.kids[i]) !! ObjsAll(s.kids[..i]) && Objs(s.kids[i]) !! ObjsAll(s.kids[i + 1..])
             && n !in Objs(s.kids[i])
    modifies objs
    ensures var u := Refreshed(t, i, kid);
            && u.Inner? && Formed(u, h) && i < |u.kids|
            && Shrunk(s, s', if Count(kid) < m / 2 then Rebalance(u, h, i, m) else u, n, objs, after)
  {
    hide Chained, KidsRep, KidsApart, ObjsAll, Leaves, LeavesAll, Filled, Refreshed, Rebalance;
    PutOne(n, s, t, i, k, kid, after);
    if Count(kid) > 0 {
      FilledLeftFull(kid, h - 1, m);
    }
    WithKidFormed(t, h, i, kid);
    ghost var s1 := SInner(n, s.kids[..i] + [k] + s.kids[i + 1..]);
    assert Objs(s1) <= objs by {
      SidesWithin(s, i);
    }
    s' := RepairChild(n, i, m, s1, t, kid, h, Objs(s1), after);
  }

  lemma {:induction false} SidesWithin(s: Shape, i: nat)
    requires s.SInner? && i < |s.kids|
    ensures s.obj in Objs(s) && ObjsAll(s.kids[..i]) <= Objs(s) && ObjsAll(s.kids[i + 1..]) <= Objs(s)
            && Objs(s.kids[i]) <= Objs(s)
  {
    hide ObjsAll;
    assert s.kids == s.kids[..i] + ([s.kids[i]] + s.kids[i + 1..]);
    ObjsAllAppend(s.kids[..i], [s.kids[i]] + s.kids[i + 1..]);
    ObjsAllAppend([s.kids[i]], s.kids[i + 1..]);
    ObjsAllOne(s.kids[i]);
  }

  lemma {:induction false} WithKidFormed(t: BTree, h: nat, i: nat, kid: BTree)
    requires t.Inner? && Formed(t, h) && h > 0 && i < |t.kids| && Formed(kid, h - 1)
    ensures Formed(WithKid(t, i, kid), h)
  {
  }
}
