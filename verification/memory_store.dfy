/**
 The in-memory store: a map kept in a B+Tree of heap nodes, with point access from the
 root and ordered scans along the chain of leaves.
 */
module MemoryStore {
  import opened ByteStrings
  import opened Entries
  import opened BPlusTrees
  import opened MemoryNodes
  import opened MemoryTrees

  // ----- Leaves and the entries they hold

  /** The entries of each leaf, from left to right. */
  ghost function Chunks(t: BTree): seq<seq<Entry>>
    decreases t
  {
    match t
    case Leaf(entries) => [entries]
    case Inner(_, kids) => ChunksAll(kids)
  }

  ghost function ChunksAll(kids: seq<BTree>): seq<seq<Entry>>
    decreases kids
  {
    if kids == [] then [] else Chunks(kids[0]) + ChunksAll(kids[1..])
  }

  ghost function Concat(chunks: seq<seq<Entry>>): seq<Entry> {
    if chunks == [] then [] else chunks[0] + Concat(chunks[1..])
  }

  lemma {:induction false} ConcatAppend(a: seq<seq<Entry>>, b: seq<seq<Entry>>)
    ensures Concat(a + b) == Concat(a) + Concat(b)
  {
    if a == [] {
      assert a + b == b;
    } else {
      assert (a + b)[1..] == a[1..] + b;
      ConcatAppend(a[1..], b);
    }
  }

  lemma {:induction false} ConcatAt(chunks: seq<seq<Entry>>, i: nat)
    requires i < |chunks|
    ensures Concat(chunks) == Concat(chunks[..i]) + chunks[i] + Concat(chunks[i + 1..])
    ensures Concat(chunks[..i + 1]) == Concat(chunks[..i]) + chunks[i]
  {
    assert chunks == chunks[..i] + ([chunks[i]] + chunks[i + 1..]);
    ConcatAppend(chunks[..i], [chunks[i]] + chunks[i + 1..]);
    ConcatAppend([chunks[i]], chunks[i + 1..]);
    assert Concat([chunks[i]]) == chunks[i] + Concat([]);
    assert chunks[..i + 1] == chunks[..i] + [chunks[i]];
    ConcatAppend(chunks[..i], [chunks[i]]);
  }

  /** The entries of a tree are those of its leaves. */
  lemma {:induction false} ChunksFlat(t: BTree)
    ensures Concat(Chunks(t)) == Flat(t)
    decreases t, 0
  {
    match t
    case Leaf(entries) =>
      assert Concat([entries]) == entries + Concat([]);
    case Inner(_, kids) =>
      ChunksAllFlat(kids);
  }

  lemma {:induction false} ChunksAllFlat(kids: seq<BTree>)
    ensures Concat(ChunksAll(kids)) == FlatAll(kids)
    decreases kids
  {
    if kids != [] {
      ChunksFlat(kids[0]);
      ChunksAllFlat(kids[1..]);
      ConcatAppend(Chunks(kids[0]), ChunksAll(kids[1..]));
    }
  }

  lemma {:induction false} ChunksAllAppend(a: seq<BTree>, b: seq<BTree>)
    ensures ChunksAll(a + b) == ChunksAll(a) + ChunksAll(b)
  {
    if a == [] {
      assert a + b == b;
    } else {
      assert (a + b)[1..] == a[1..] + b;
      ChunksAllAppend(a[1..], b);
    }
  }

  lemma {:induction false} ChunksAt(kids: seq<BTree>, i: nat)
    requires i < |kids|
    ensures ChunksAll(kids) == ChunksAll(kids[..i]) + Chunks(kids[i]) + ChunksAll(kids[i + 1..])
  {
    assert kids == kids[..i] + ([kids[i]] + kids[i + 1..]);
    ChunksAllAppend(kids[..i], [kids[i]] + kids[i + 1..]);
    ChunksAllAppend([kids[i]], kids[i + 1..]);
    assert ChunksAll([kids[i]]) == Chunks(kids[i]) + ChunksAll([]);
  }

  /** Leaf `x` holds the entries `e`. */
  ghost predicate HoldsChunk(x: Node, e: seq<Entry>)
    reads x
  {
    x.leaf && x.keys == KeysOf(e) && x.values == ValuesOf(e)
  }

  ghost predicate ChunksHeld(leaves: seq<Node>, chunks: seq<seq<Entry>>)
    reads set x | x in leaves
  {
    |leaves| == |chunks| && forall i: nat :: i < |leaves| ==> HoldsChunk(leaves[i], chunks[i])
  }

  lemma {:induction false} ChunksHeldAppend(a: seq<Node>, b: seq<Node>, c: seq<seq<Entry>>, d: seq<seq<Entry>>)
    requires ChunksHeld(a, c) && ChunksHeld(b, d)
    ensures ChunksHeld(a + b, c + d)
  {
    forall i: nat | i < |a + b| ensures HoldsChunk((a + b)[i], (c + d)[i]) {
      if i < |a| {
        assert HoldsChunk(a[i], c[i]);
      } else {
        assert HoldsChunk(b[i - |a|], d[i - |a|]);
      }
    }
  }

  /** The leaf objects hold the entries of the leaves, one for one. */
  lemma {:induction false} LeavesHold(s: Shape, t: BTree)
    requires Rep(s, t)
    ensures ChunksHeld(Leaves(s), Chunks(t))
    decreases s, 0
  {
    if s.SInner? {
      LeavesAllHold(s.kids, t.kids);
    } else {
      assert HoldsChunk(Leaves(s)[0], Chunks(t)[0]);
    }
  }

  lemma {:induction false} LeavesAllHold(kids: seq<Shape>, ts: seq<BTree>)
    requires KidsRep(kids, ts)
    ensures ChunksHeld(LeavesAll(kids), ChunksAll(ts))
    decreases kids
  {
    if kids != [] {
      KidRep(kids, ts, 0);
      LeavesHold(kids[0], ts[0]);
      assert kids == [kids[0]] + kids[1..] && ts == [ts[0]] + ts[1..];
      KidsRepAppend([kids[0]], kids[1..], [ts[0]], ts[1..]);
      LeavesAllHold(kids[1..], ts[1..]);
      ChunksHeldAppend(Leaves(kids[0]), LeavesAll(kids[1..]), Chunks(ts[0]), ChunksAll(ts[1..]));
    }
  }

  // ----- Ordered scans

  /** The entries of `s` with keys from `lo` to `hi`, in their order. */
  function Between(s: seq<Entry>, lo: Bytes, hi: Bytes): (r: seq<Entry>)
    ensures forall e :: e in r <==> e in s && Leq(lo, e.key) && Leq(e.key, hi)
  {
    if s == [] then []
    else
      var rest := Between(s[1..], lo, hi);
      if Leq(lo, s[0].key) && Leq(s[0].key, hi) then [s[0]] + rest else rest
  }

  lemma {:induction false} BetweenAppend(a: seq<Entry>, b: seq<Entry>, lo: Bytes, hi: Bytes)
    ensures Between(a + b, lo, hi) == Between(a, lo, hi) + Between(b, lo, hi)
  {
    if a == [] {
      assert a + b == b;
    } else {
      assert (a + b)[1..] == a[1..] + b;
      BetweenAppend(a[1..], b, lo, hi);
    }
  }

  lemma {:induction false} BetweenAll(s: seq<Entry>, lo: Bytes, hi: Bytes)
    requires forall i :: 0 <= i < |s| ==> Leq(lo, s[i].key) && Leq(s[i].key, hi)
    ensures Between(s, lo, hi) == s
  {
    if s != [] {
      BetweenAll(s[1..], lo, hi);
    }
  }

  lemma {:induction false} BetweenNone(s: seq<Entry>, lo: Bytes, hi: Bytes)
    requires forall i :: 0 <= i < |s| ==> Less(s[i].key, lo) || Less(hi, s[i].key)
    ensures Between(s, lo, hi) == []
  {
    if s != [] {
      BetweenNone(s[1..], lo, hi);
    }
  }

  /** A scan of an ascending sequence ascends, and holds exactly the bindings within the bounds. */
  lemma {:induction false} BetweenSorted(s: seq<Entry>, lo: Bytes, hi: Bytes)
    requires Sorted(s)
    ensures Sorted(Between(s, lo, hi))
    ensures ToMap(Between(s, lo, hi)) == map k | k in ToMap(s) && Leq(lo, k) && Leq(k, hi) :: ToMap(s)[k]
  {
    if s != [] {
      SortedTail(s);
      BetweenSorted(s[1..], lo, hi);
      var rest := Between(s[1..], lo, hi);
      if Leq(lo, s[0].key) && Leq(s[0].key, hi) {
        forall i | 0 <= i < |rest| ensures Less(s[0].key, rest[i].key) {
          assert rest[i] in rest;
        }
        SortedCons(s[0], rest);
        assert ([s[0]] + rest)[1..] == rest;
      } else {
        ToMapKeys(s[1..]);
        StrictTotalOrder();
      }
    }
  }

  /** A scan that stops where the bound is passed has found all there is. */
  lemma {:induction false} ScanIsBetween(a: seq<Entry>, b: seq<Entry>, c: seq<Entry>, lo: Bytes, hi: Bytes)
    requires AllBelow(a, lo) && (forall i :: 0 <= i < |b| ==> Leq(lo, b[i].key) && Leq(b[i].key, hi))
    requires Sorted(a + b + c) && (c != [] ==> Less(hi, c[0].key))
    ensures Between(a + b + c, lo, hi) == b
  {
    StrictTotalOrder();
    BetweenNone(a, lo, hi);
    BetweenAll(b, lo, hi);
    forall i | 0 <= i < |c| ensures Less(hi, c[i].key) {
      var s := a + b + c;
      assert s[|a| + |b|] == c[0] && s[|a| + |b| + i] == c[i];
    }
    BetweenNone(c, lo, hi);
    BetweenAppend(a + b, c, lo, hi);
    BetweenAppend(a, b, lo, hi);
  }

  // ----- The store

  /** The objects hold a proper tree whose leaves are chained to the end. */
  ghost predicate Planted(root: Node, s: Shape, t: BTree, h: nat, m: nat, objs: set<Node>)
    reads objs
  {
    && s.obj == root && Objs(s) == objs && Rep(s, t) && Apart(s) && Proper(t, h, m)
    && (forall x :: x in Leaves(s) ==> x in objs) && Chained(Leaves(s), null)
  }

  class Memory {
    var root: Node?
    var maxKeys: nat
    ghost var shape: Option<Shape>
    ghost var tree: BTree
    ghost var height: nat
    ghost var objs: set<Node>

    ghost predicate Valid()
      reads this, objs
    {
      if root == null then shape == None && (maxKeys == 0 || maxKeys >= 2)
      else maxKeys >= 2 && shape.Some? && Planted(root, shape.value, tree, height, maxKeys, objs)
    }

    /** The entries in ascending order. */
    ghost function Flattened(): seq<Entry>
      reads this
    {
      if root == null then [] else Flat(tree)
    }

    ghost function Contents(): map<Bytes, Bytes>
      reads this
    {
      ToMap(Flattened())
    }

    /** An empty tree with at most `maxKeys` keys in a node; 0 stands for the default of 3. */
    constructor (maxKeys: nat)
      requires maxKeys == 0 || maxKeys >= 2
      ensures Valid() && Contents() == map[] && fresh(objs)
    {
      root := null;
      this.maxKeys := maxKeys;
      shape, tree, height, objs := None, Leaf([]), 0, {};
    }

    /** Binds `key` to `value`. The tree stays balanced and its leaves chained. */
    method Set(key: Bytes, value: Bytes)
      requires Valid()
      modifies this, objs
      ensures Valid() && fresh(objs - old(objs))
      ensures Contents() == old(Contents())[key := value]
      ensures Flattened() == Put(old(Flattened()), key, value)
    {
      hide Flat, ToMap, Put, Planted;
      if maxKeys == 0 {
        maxKeys := 3;
      }
      if root == null {
        var leaf := new Node(true, [key], [value], [], null);
        root := leaf;
        shape, tree, height, objs := Some(SLeaf(leaf)), Leaf([Entry(key, value, 0)]), 0, {leaf};
        FirstEntryTree(leaf, key, value, maxKeys);
        return;
      }
      SetRooted(key, value);
    }

    method SetRooted(key: Bytes, value: Bytes)
      requires Valid() && root != null
      modifies this, objs
      ensures Valid() && root != null && fresh(objs - old(objs)) && maxKeys == old(maxKeys)
      ensures ToMap(Flat(tree)) == old(ToMap(Flat(tree)))[key := value]
      ensures Flat(tree) == Put(old(Flat(tree)), key, value)
    {
      hide Flat, ToMap, Put, Proper, Insert, Rooted, GrownHeight, Rep, Apart, Objs, ObjsAll, Leaves, LeavesAll, Chained;
      SetKeeps(tree, height, key, value, maxKeys);
      ProperFacts(tree, height, maxKeys);
      ghost var g := Insert(tree, height, key, value, maxKeys);
      var split;
      ghost var s, r;
      split, s, r := InsertNode(root, key, value, maxKeys, shape.value, tree, height, objs, null, None, None);
      RootedIs(g, height);
      LeavesAreObjs(s);
      LeavesAreObjs(r);
      if split.None? {
        shape, tree, height, objs := Some(s), Rooted(g), GrownHeight(g, height), Objs(s);
        return;
      }
      var top := NewTop(root, split.value.0, split.value.1, s, r, g.parts, Objs(s) + Objs(r));
      root := top;
      shape, tree, height, objs := Some(SInner(top, [s, r])), Rooted(g), GrownHeight(g,
                                        height), {top} + Objs(s) + Objs(r);
    }

    /** Removes `key` and reports whether it was there. */
    method Delete(key: Bytes) returns (deleted: bool)
      requires Valid()
      modifies this, objs
      ensures Valid() && objs <= old(objs)
      ensures deleted <==> key in old(Contents())
      ensures Contents() == old(Contents()) - {key}
      ensures Flattened() == Remove(old(Flattened()), key)
    {
      hide Flat, ToMap, Remove, Planted;
      if root == null {
        NothingThere(key);
        return false;
      }
      deleted := DeleteRooted(key);
    }

    method DeleteRooted(key: Bytes) returns (deleted: bool)
      requires Valid() && root != null
      modifies this, objs
      ensures Valid() && objs <= old(objs)
      ensures deleted <==> key in old(ToMap(Flat(tree)))
      ensures Contents() == old(ToMap(Flat(tree))) - {key}
      ensures Flattened() == Remove(old(Flat(tree)), key)
    {
      hide Flat, ToMap, Remove, Proper, BPlusTrees.Delete, Rep, Apart, Objs, ObjsAll, Leaves, LeavesAll, Chained;
      hide Collapsed;
      DeleteKeeps(tree, height, key, maxKeys);
      ProperFacts(tree, height, maxKeys);
      DeleteIsRemove(tree, height, key, maxKeys, None, None);
      MissingStays(tree, height, key, maxKeys);
      ghost var s;
      deleted, s := DeleteFromNode(root, key, maxKeys, shape.value, tree, height, objs, null, None, None);
      if !deleted {
        return;
      }
      ghost var t := BPlusTrees.Delete(tree, height, key, maxKeys).value;
      LeavesAreObjs(s);
      RootKeys(s, t, height);
      CollapsedIs(t, height);
      if |root.keys| == 0 {
        if root.leaf {
          root := null;
          shape := None;
          EmptyLeaf(t);
          return;
        }
        OnlyKid(s, t, height);
        root := root.children[0];
        shape, tree, height, objs := Some(s.kids[0]), t.kids[0], height - 1, Objs(s.kids[0]);
        LeavesAreObjs(shape.value);
        return;
      }
      shape, tree, objs := Some(s), t, Objs(s);
    }

    /** The value bound to `key`, if any. */
    method Get(key: Bytes) returns (r: Option<Bytes>)
      requires Valid()
      ensures r == if key in Contents() then Some(Contents()[key]) else None
    {
      hide Flat, ToMap, Find, Proper, Rep, Apart, Objs, Leaves, Chained;
      if root == null {
        EmptyMap();
        return None;
      }
      ProperFacts(tree, height, maxKeys);
      r := Lookup(root, key, shape.value, tree, height);
      FindIsLookup(Flat(tree), key);
    }

    method Lookup(n: Node, key: Bytes, ghost s: Shape, ghost t: BTree, ghost h: nat) returns (r: Option<Bytes>)
      requires s.obj == n && Rep(s, t) && Formed(t, h) && Within(t, None, None)
      ensures r == Find(Flat(t), key)
    {
      hide Flat, Find, Within, KidsRep;
      var cur := n;
      ghost var cs, ct, ch, lo, hi := s, t, h, None, None;
      while !cur.leaf
        invariant cs.obj == cur && Rep(cs, ct) && Formed(ct, ch) && Within(ct, lo, hi)
        invariant Find(Flat(ct), key) == Find(Flat(t), key)
        decreases ch
      {
        var i := ChildIndex(cur.keys, key);
        RepCount(cs.kids, ct.kids);
        FindBelow(ct, key, lo, hi);
        KidWithin(ct, i, lo, hi);
        KidRep(cs.kids, ct.kids, i);
        cur := cur.children[i];
        lo, hi := LoOf(ct.keys, i, lo), HiOf(ct.keys, i, hi);
        cs, ct, ch := cs.kids[i], ct.kids[i], ch - 1;
      }
      var idx := LowerBound(cur.keys, key);
      LeafFacts(ct, lo, hi);
      RemoveAt(ct.entries, key);
      if !FoundAt(cur.keys, idx, key) {
        return None;
      }
      r := Some(cur.values[idx]);
    }

    /** Every entry with a key from `lower` to `upper`, once each, in ascending order. */
    method Range(lower: Bytes, upper: Bytes) returns (entries: seq<(Bytes, Bytes)>)
      requires Valid()
      ensures entries == Pairs(Between(Flattened(), lower, upper))
    {
      hide Flat, Between, Rep, Apart, Objs, Leaves, Chained, Chunks, Proper;
      if root == null || Less(upper, lower) {
        NoneBetween(Flattened(), lower, upper);
        assert Pairs([]) == [];
        return [];
      }
      ProperFacts(tree, height, maxKeys);
      LeavesHold(shape.value, tree);
      ChunksFlat(tree);
      FlatSorted(tree, None, None);
      var leaf;
      ghost var p;
      leaf, p := SeekLeaf(root, lower, shape.value, tree, height);
      entries := ScanChain(leaf, lower, upper, Leaves(shape.value), Chunks(tree), p);
    }
  }

  lemma {:induction false} NoneBetween(s: seq<Entry>, lo: Bytes, hi: Bytes)
    requires s == [] || Less(hi, lo)
    ensures Between(s, lo, hi) == []
  {
    StrictTotalOrder();
    BetweenNone(s, lo, hi);
  }

  /** The leaf that `key` belongs to: before it all keys are smaller, after it all are greater. */
  method SeekLeaf(n: Node, key: Bytes, ghost s: Shape, ghost t: BTree, ghost h: nat) returns (leaf: Node, ghost p: nat)
    requires s.obj == n && Rep(s, t) && Formed(t, h) && Within(t, None, None)
    ensures p < |Leaves(s)| == |Chunks(t)| && Leaves(s)[p] == leaf
    ensures AllBelow(Concat(Chunks(t)[..p]), key) && AllAbove(Concat(Chunks(t)[p + 1..]), key)
  {
    hide Within, KidsRep, Sought, Chunks, Leaves, Concat;
    var cur := n;
    ghost var cs, ct, ch, lo, hi := s, t, h, None, None;
    ghost var w := Around([], [], [], []);
    SeekStart(s, t, key);
    while !cur.leaf
      invariant cs.obj == cur && Rep(cs, ct) && Formed(ct, ch) && Within(ct, lo, hi)
      invariant Sought(s, t, cs, ct, w, key)
      decreases ch
    {
      var i := ChildIndex(cur.keys, key);
      RepCount(cs.kids, ct.kids);
      KidWithin(ct, i, lo, hi);
      KidRep(cs.kids, ct.kids, i);
      w := SeekStep(s, t, cs, ct, w, key, i, lo, hi);
      cur := cur.children[i];
      lo, hi := LoOf(ct.keys, i, lo), HiOf(ct.keys, i, hi);
      cs, ct, ch := cs.kids[i], ct.kids[i], ch - 1;
    }
    leaf, p := cur, |w.la|;
    SeekEnd(s, t, cs, ct, w, key);
  }

  /** Leaves and chunks before and after those of a subtree. */
  datatype Around = Around(la: seq<Node>, lc: seq<Node>, ca: seq<seq<Entry>>, cc: seq<seq<Entry>>)

  /** The subtree that `key` belongs to, with what lies around it. */
  ghost predicate Sought(s: Shape, t: BTree, cs: Shape, ct: BTree, w: Around, key: Bytes) {
    && Leaves(s) == w.la + Leaves(cs) + w.lc && Chunks(t) == w.ca + Chunks(ct) + w.cc
    && |w.la| == |w.ca| && |Leaves(s)| == |Chunks(t)|
    && AllBelow(Concat(w.ca), key) && AllAbove(Concat(w.cc), key)
  }

  lemma {:induction false} SeekStart(s: Shape, t: BTree, key: Bytes)
    requires Rep(s, t)
    ensures Sought(s, t, s, t, Around([], [], [], []), key)
  {
    hide Leaves, Chunks;
    LeavesHold(s, t);
  }

  lemma {:induction false} SeekEnd(s: Shape, t: BTree, cs: Shape, ct: BTree, w: Around, key: Bytes)
    requires Sought(s, t, cs, ct, w, key) && Rep(cs, ct) && cs.obj.leaf
    ensures var p := |w.la|;
            && p < |Leaves(s)| == |Chunks(t)| && Leaves(s)[p] == cs.obj
            && AllBelow(Concat(Chunks(t)[..p]), key) && AllAbove(Concat(Chunks(t)[p + 1..]), key)
  {
    hide Concat;
    assert Leaves(cs) == [cs.obj] && |Chunks(ct)| == 1;
    assert Chunks(t)[..|w.la|] == w.ca && Chunks(t)[|w.la| + 1..] == w.cc;
  }

  lemma {:induction false} SeekStep(s: Shape, t: BTree, cs: Shape, ct: BTree, w: Around, key: Bytes, i: nat,
      lo: Option<Bytes>, hi: Option<Bytes>)
    returns (w': Around)
    requires Sought(s, t, cs, ct, w, key) && cs.SInner? && ct.Inner? && KidsRep(cs.kids, ct.kids) && Within(ct, lo, hi)
    requires i == ChildIndex(ct.keys, key) && i < |ct.kids| == |cs.kids|
    ensures Sought(s, t, cs.kids[i], ct.kids[i], w', key)
  {
    hide Within, Concat, LeavesAll, ChunksAll, Leaves, Chunks, KidsRep, AllBelow, AllAbove;
    LeavesIs(cs);
    LeavesAt(cs.kids, i);
    Below(cs, ct, key, i, lo, hi, w.ca, w.cc);
    w' := Around(w.la + LeavesAll(cs.kids[..i]), LeavesAll(cs.kids[i + 1..]) + w.lc,
                 w.ca + ChunksAll(ct.kids[..i]), ChunksAll(ct.kids[i + 1..]) + w.cc);
    assert Leaves(s) == w'.la + Leaves(cs.kids[i]) + w'.lc;
    assert Chunks(t) == w'.ca + Chunks(ct.kids[i]) + w'.cc;
  }

  lemma {:induction false} Below(s: Shape, t: BTree, key: Bytes, i: nat, lo: Option<Bytes>, hi: Option<Bytes>,
      ca: seq<seq<Entry>>, cc: seq<seq<Entry>>)
    requires s.SInner? && t.Inner? && KidsRep(s.kids, t.kids) && Within(t, lo, hi) && i == ChildIndex(t.keys, key)
             && i < |t.kids| == |s.kids|
    requires AllBelow(Concat(ca), key) && AllAbove(Concat(cc), key)
    ensures Chunks(t) == ChunksAll(t.kids[..i]) + Chunks(t.kids[i]) + ChunksAll(t.kids[i + 1..])
    ensures |LeavesAll(s.kids[..i])| == |ChunksAll(t.kids[..i])|
    ensures AllBelow(Concat(ca + ChunksAll(t.kids[..i])), key) && AllAbove(Concat(ChunksAll(t.kids[i + 1..]) + cc), key)
  {
    hide Within, Concat, LeavesAll, ChunksAll, ChildIndex;
    ChunksAt(t.kids, i);
    ChildSplits(t, key, lo, hi);
    ChunksAllFlat(t.kids[..i]);
    ChunksAllFlat(t.kids[i + 1..]);
    ConcatAppend(ca, ChunksAll(t.kids[..i]));
    ConcatAppend(ChunksAll(t.kids[i + 1..]), cc);
    assert s.kids == s.kids[..i] + s.kids[i..] && t.kids == t.kids[..i] + t.kids[i..];
    KidsRepAppend(s.kids[..i], s.kids[i..], t.kids[..i], t.kids[i..]);
    LeavesAllHold(s.kids[..i], t.kids[..i]);
  }

  ghost function Pairs(s: seq<Entry>): seq<(Bytes, Bytes)> {
    seq(|s|, i requires 0 <= i < |s| => (s[i].key, s[i].value))
  }

  /** What lies at and after position `idx` of leaf `p`. */
  ghost function Remaining(chunks: seq<seq<Entry>>, p: nat, idx: nat): seq<Entry> {
    if p < |chunks| && idx <= |chunks[p]| then chunks[p][idx..] + Concat(chunks[p + 1..]) else []
  }

  lemma {:induction false} RemainingStep(chunks: seq<seq<Entry>>, p: nat, idx: nat)
    requires p < |chunks| && idx <= |chunks[p]|
    ensures idx < |chunks[p]| ==> Remaining(chunks, p, idx) == [chunks[p][idx]] + Remaining(chunks, p, idx + 1)
    ensures idx == |chunks[p]| ==> Remaining(chunks, p, idx) == Remaining(chunks, p + 1, 0)
  {
    if idx < |chunks[p]| {
      assert chunks[p][idx..] == [chunks[p][idx]] + chunks[p][idx + 1..];
    } else if p + 1 < |chunks| {
      assert chunks[p + 1..][1..] == chunks[p + 2..];
    }
  }

  /** Walks the chain from the first entry not below `lower` until a key exceeds `upper`. */
  method ScanChain(leaf: Node, lower: Bytes, upper: Bytes, ghost leaves: seq<Node>, ghost chunks: seq<seq<Entry>>,
      ghost start: nat)
    returns (entries: seq<(Bytes, Bytes)>)
    requires Chained(leaves, null) && ChunksHeld(leaves, chunks) && start < |leaves| && leaves[start] == leaf
    requires Sorted(Concat(chunks)) && AllBelow(Concat(chunks[..start]), lower)
             && AllAbove(Concat(chunks[start + 1..]), lower)
    ensures entries == Pairs(Between(Concat(chunks), lower, upper))
  {
    hide Concat, Sorted, AllBelow, AllAbove, Between, Remaining, Less;
    var n: Node? := leaf;
    var idx := LowerBound(leaf.keys, lower);
    assert HoldsChunk(leaves[start], chunks[start]);
    ghost var below := Concat(chunks[..start]) + chunks[start][..idx];
    ScanStart(chunks, start, idx, lower, upper);
    ghost var p := start;
    ghost var found: seq<Entry> := [];
    entries := [];
    while n != null
      invariant p <= |leaves| && n == (if p < |leaves| then leaves[p] else null)
                && (p < |leaves| ==> idx <= |chunks[p]|) && (p == |leaves| ==> idx == 0)
      invariant Scanning(chunks, p, idx, below, found, lower, upper) && entries == Pairs(found)
      decreases |leaves| - p
    {
      assert HoldsChunk(leaves[p], chunks[p]) && LinkedAt(leaves, p, null);
      while idx < |n.keys|
        invariant idx <= |chunks[p]|
        invariant Scanning(chunks, p, idx, below, found, lower, upper) && entries == Pairs(found)
        decreases |n.keys| - idx
      {
        ScanStep(chunks, p, idx, below, found, lower, upper);
        if Less(upper, n.keys[idx]) {
          return;
        }
        found := found + [chunks[p][idx]];
        entries := entries + [(n.keys[idx], n.values[idx])];
        idx := idx + 1;
      }
      RemainingStep(chunks, p, idx);
      n := n.next;
      idx := 0;
      p := p + 1;
    }
    ScanEnd(chunks, p, below, found, lower, upper);
  }

  /** The scan so far: what it skipped, what it found and what remains make up the whole. */
  ghost predicate Scanning(chunks: seq<seq<Entry>>, p: nat, idx: nat, below: seq<Entry>, entries: seq<Entry>,
      lower: Bytes, upper: Bytes) {
    var rest := Remaining(chunks, p, idx);
    && Concat(chunks) == below + entries + rest && AllBelow(below, lower) && Sorted(Concat(chunks))
    && (forall i :: 0 <= i < |entries| ==> Leq(lower, entries[i].key) && Leq(entries[i].key, upper))
    && (forall i :: 0 <= i < |rest| ==> Leq(lower, rest[i].key))
  }

  lemma {:induction false} ScanStart(chunks: seq<seq<Entry>>, p: nat, idx: nat, lower: Bytes, upper: Bytes)
    requires p < |chunks| && idx == LowerBound(KeysOf(chunks[p]), lower) && idx <= |chunks[p]|
    requires Sorted(Concat(chunks)) && AllBelow(Concat(chunks[..p]), lower) && AllAbove(Concat(chunks[p + 1..]), lower)
    ensures Scanning(chunks, p, idx, Concat(chunks[..p]) + chunks[p][..idx], [], lower, upper)
  {
    hide Concat;
    StrictTotalOrder();
    var c, keys := chunks[p], KeysOf(chunks[p]);
    ConcatAt(chunks, p);
    var a, d := Concat(chunks[..p]), Concat(chunks[p + 1..]);
    assert c == c[..idx] + c[idx..];
    assert a + c + d == (a + c[..idx]) + [] + (c[idx..] + d);
    forall i | 0 <= i < |a + c[..idx]| ensures Less((a + c[..idx])[i].key, lower) {
      if i >= |a| {
        assert keys[i - |a|] == c[i - |a|].key;
      }
    }
    var rest := c[idx..] + d;
    forall i | 0 <= i < |rest| ensures Leq(lower, rest[i].key) {
      if i < |c| - idx {
        assert keys[idx] == c[idx].key;
        var s := a + c + d;
        assert s[|a| + idx] == c[idx] && s[|a| + idx + i] == c[idx + i] == rest[i];
      } else {
        assert rest[i] == d[i - (|c| - idx)];
      }
    }
  }

  lemma {:induction false} ScanStep(chunks: seq<seq<Entry>>, p: nat, idx: nat, below: seq<Entry>, found: seq<Entry>,
      lower: Bytes, upper: Bytes)
    requires p < |chunks| && idx < |chunks[p]| && Scanning(chunks, p, idx, below, found, lower, upper)
    ensures Less(upper, chunks[p][idx].key) ==> Between(Concat(chunks), lower, upper) == found
    ensures !Less(upper, chunks[p][idx].key) ==>
              Scanning(chunks, p, idx + 1, below, found + [chunks[p][idx]], lower, upper)
  {
    hide Concat, Sorted, Between, Remaining;
    RemainingStep(chunks, p, idx);
    var rest, e := Remaining(chunks, p, idx), chunks[p][idx];
    if Less(upper, e.key) {
      ScanIsBetween(below, found, rest, lower, upper);
    } else {
      var rest' := Remaining(chunks, p, idx + 1);
      assert below + found + rest == below + (found + [e]) + rest';
      assert rest[0] == e;
      forall i | 0 <= i < |rest'| ensures Leq(lower, rest'[i].key) {
        assert rest[i + 1] == rest'[i];
      }
    }
  }

  lemma {:induction false} ScanEnd(chunks: seq<seq<Entry>>, p: nat, below: seq<Entry>, found: seq<Entry>, lower: Bytes,
      upper: Bytes)
    requires p >= |chunks| && Scanning(chunks, p, 0, below, found, lower, upper)
    ensures Between(Concat(chunks), lower, upper) == found
  {
    hide Concat, Sorted, Between;
    ScanIsBetween(below, found, [], lower, upper);
  }

  lemma {:induction false} NothingThere(key: Bytes)
    ensures key !in ToMap([]) && ToMap([]) == map[] && ToMap([]) - {key} == ToMap([]) && Remove([], key) == []
  {
  }

  lemma {:induction false} EmptyMap()
    ensures ToMap([]) == map[]
  {
  }

  lemma {:induction false} EmptyLeaf(t: BTree)
    requires t.Leaf? && Count(t) == 0
    ensures Flat(t) == [] && ToMap([]) == map[]
  {
  }

  lemma {:induction false} LeafFacts(t: BTree, lo: Option<Bytes>, hi: Option<Bytes>)
    requires t.Leaf? && Within(t, lo, hi)
    ensures Sorted(t.entries) && Flat(t) == t.entries
  {
  }

  /** A key that is missing leaves the map as it is. */
  lemma {:induction false} MissingStays(t: BTree, h: nat, key: Bytes, m: nat)
    requires Proper(t, h, m)
    ensures key !in ToMap(Flat(t)) ==> ToMap(Flat(t)) - {key} == ToMap(Flat(t)) && Remove(Flat(t), key) == Flat(t)
  {
    if key !in ToMap(Flat(t)) {
      ToMapKeys(Flat(t));
      RemoveAbsent(Flat(t), key);
    }
  }

  lemma {:induction false} RemoveAbsent(s: seq<Entry>, key: Bytes)
    requires !HasKey(s, key)
    ensures Remove(s, key) == s
  {
    if s != [] {
      assert s[0].key != key;
      forall i | 0 <= i < |s[1..]| ensures s[1..][i].key != key {
        assert s[1..][i] == s[i + 1];
      }
      RemoveAbsent(s[1..], key);
    }
  }

  /** What the root object says of the tree. */
  lemma {:induction false} RootKeys(s: Shape, t: BTree, h: nat)
    requires Rep(s, t) && Formed(t, h)
    ensures |s.obj.keys| == Count(t) && s.obj.leaf == t.Leaf? && s.SLeaf? == t.Leaf?
            && (t.Inner? ==> |t.kids| == |t.keys| + 1 && h > 0)
  {
  }

  lemma {:induction false} CollapsedIs(t: BTree, h: nat)
    requires Formed(t, h)
    ensures Collapsed(t, h) == if Count(t) > 0 then Some((t, h)) else if t.Leaf? then None else Some((t.kids[0], h - 1))
    ensures t.Inner? ==> h > 0 && t.kids != []
  {
  }

  /** A root without keys has one child, which holds all there is. */
  lemma {:induction false} OnlyKid(s: Shape, t: BTree, h: nat)
    requires s.SInner? && Rep(s, t) && Apart(s) && Formed(t, h) && Count(t) == 0
    ensures |s.kids| == |t.kids| == 1 && h > 0 && |s.obj.children| == 1 && s.obj.children[0] == s.kids[0].obj
            && Rep(s.kids[0], t.kids[0]) && Apart(s.kids[0])
    ensures Objs(s.kids[0]) <= Objs(s) && Leaves(s.kids[0]) == Leaves(s)
  {
    hide ObjsAll, LeavesAll, KidsApart;
    RepCount(s.kids, t.kids);
    KidRep(s.kids, t.kids, 0);
    assert s.kids == [s.kids[0]];
    KidsApartOne(s.kids[0]);
    ObjsAllOne(s.kids[0]);
    LeavesAllOne(s.kids[0]);
  }

  lemma {:induction false} ProperFacts(t: BTree, h: nat, m: nat)
    requires Proper(t, h, m)
    ensures Formed(t, h) && Within(t, None, None) && Filled(t, m) && Count(t) >= 1
  {
  }

  lemma {:induction false} RootedIs(g: Grown, h: nat)
    ensures g.One? ==> Rooted(g) == g.tree && GrownHeight(g, h) == h
    ensures g.Two? ==> Rooted(g) == Inner([g.parts.sep], [g.parts.left, g.parts.right]) && GrownHeight(g, h) == h + 1
  {
  }

  /** Plants a new root above the two halves of a split one. */
  method NewTop(left: Node, sep: Bytes, right: Node, ghost s: Shape, ghost r: Shape, ghost p: Parts,
      ghost objs: set<Node>)
    returns (top: Node)
    requires Rep(s, p.left) && Rep(r, p.right) && left == s.obj && right == r.obj && sep == p.sep
             && objs == Objs(s) + Objs(r)
    requires Apart(s) && Apart(r) && Objs(s) !! Objs(r) && Chained(Leaves(s) + Leaves(r), null)
    requires forall x :: x in Leaves(s) + Leaves(r) ==> x in objs
    ensures fresh(top)
    ensures var x := SInner(top, [s, r]);
            && Rep(x, Inner([p.sep], [p.left, p.right])) && Apart(x) && Objs(x) == {top} + Objs(s) + Objs(r)
            && Leaves(x) == Leaves(s) + Leaves(r) && Chained(Leaves(x), null)
  {
    hide Rep, Apart, Objs, ObjsAll, Leaves, LeavesAll, Chained;
    top := new Node(false, [sep], [], [left, right], null);
    TopRep(top, s, r, p);
  }

  /** A new root above the two halves of a split one. */
  lemma {:induction false} TopRep(top: Node, s: Shape, r: Shape, p: Parts)
    requires Rep(s, p.left) && Rep(r, p.right) && !top.leaf && top.keys == [p.sep] && top.children == [s.obj, r.obj]
    requires Apart(s) && Apart(r) && Objs(s) !! Objs(r) && top !in Objs(s) && top !in Objs(r)
    ensures var x := SInner(top, [s, r]);
            && Rep(x, Inner([p.sep], [p.left, p.right])) && Apart(x) && Objs(x) == {top} + Objs(s) + Objs(r)
            && Leaves(x) == Leaves(s) + Leaves(r)
  {
    hide Rep;
    TwoShapes(s, r);
    KidsRepOne(s, p.left);
    KidsRepOne(r, p.right);
    KidsRepAppend([s], [r], [p.left], [p.right]);
    assert [s, r] == [s] + [r] && [p.left, p.right] == [p.left] + [p.right];
    InnerRep(top, [s, r], Inner([p.sep], [p.left, p.right]));
  }

  lemma {:induction false} InnerRep(n: Node, kids: seq<Shape>, t: BTree)
    requires t.Inner? && !n.leaf && n.keys == t.keys && n.children == ChildObjs(kids) && KidsRep(kids, t.kids)
    ensures Rep(SInner(n, kids), t)
  {
  }

  lemma {:induction false} FirstEntryTree(leaf: Node, key: Bytes, value: Bytes, m: nat)
    requires m >= 2 && leaf.leaf && leaf.keys == [key] && leaf.values == [value] && leaf.next == null
    ensures var t := Leaf([Entry(key, value, 0)]);
            && Planted(leaf, SLeaf(leaf), t, 0, m, {leaf})
            && Flat(t) == Put([], key, value) && ToMap(Flat(t)) == map[key := value] && ToMap([]) == map[]
  {
    assert LinkedAt(Leaves(SLeaf(leaf)), 0, null);
  }
}
