/**
 B+Trees as values: what one insertion or deletion makes of a tree. Separators bound the
 subtrees beside them; splits, rotations and merges are cuts and joins of neighbours.
 */
module BPlusTrees {
  import opened ByteStrings
  import opened Entries

  datatype BTree = Leaf(entries: seq<Entry>) | Inner(keys: seq<Bytes>, kids: seq<BTree>)

  function Count(t: BTree): nat {
    if t.Leaf? then |t.entries| else |t.keys|
  }

  /** All leaves at depth `h`, one more child than keys everywhere. */
  ghost predicate Formed(t: BTree, h: nat) {
    match t
    case Leaf(_) => h == 0
    case Inner(keys, kids) =>
      h > 0 && |kids| == |keys| + 1 && forall i :: 0 <= i < |kids| ==> Formed(kids[i], h - 1)
  }

  ghost function Flat(t: BTree): seq<Entry> {
    match t
    case Leaf(entries) => entries
    case Inner(_, kids) => FlatAll(kids)
  }

  ghost function FlatAll(kids: seq<BTree>): seq<Entry> {
    if kids == [] then [] else Flat(kids[0]) + FlatAll(kids[1..])
  }

  // ----- Bounds

  ghost predicate AtLeast(k: Bytes, lo: Option<Bytes>) {
    lo.Some? ==> Leq(lo.value, k)
  }

  ghost predicate Under(k: Bytes, hi: Option<Bytes>) {
    hi.Some? ==> Less(k, hi.value)
  }

  ghost predicate AtMost(k: Bytes, hi: Option<Bytes>) {
    hi.Some? ==> Leq(k, hi.value)
  }

  /** Separators in order, from `lo` to `hi`. */
  ghost predicate Ascending(keys: seq<Bytes>, lo: Option<Bytes>, hi: Option<Bytes>) {
    && (forall i :: 0 <= i < |keys| ==> AtLeast(keys[i], lo) && AtMost(keys[i], hi))
    && (forall i, j :: 0 <= i < j < |keys| ==> Leq(keys[i], keys[j]))
  }

  function LoOf(keys: seq<Bytes>, i: nat, lo: Option<Bytes>): Option<Bytes> {
    if 0 < i <= |keys| then Some(keys[i - 1]) else lo
  }

  function HiOf(keys: seq<Bytes>, i: nat, hi: Option<Bytes>): Option<Bytes> {
    if i < |keys| then Some(keys[i]) else hi
  }

  /** Every entry lies between the separators above it, from `lo` on and before `hi`. */
  ghost predicate Within(t: BTree, lo: Option<Bytes>, hi: Option<Bytes>) {
    match t
    case Leaf(entries) =>
      Sorted(entries) && forall i :: 0 <= i < |entries| ==> AtLeast(entries[i].key, lo) && Under(entries[i].key, hi)
    case Inner(keys, kids) =>
      && |kids| == |keys| + 1 && Ascending(keys, lo, hi)
      && forall i :: 0 <= i < |kids| ==> Within(kids[i], LoOf(keys, i, lo), HiOf(keys, i, hi))
  }

  /** No node above `m` keys, and none but the root below half of that. */
  ghost predicate Filled(t: BTree, m: nat) {
    && Count(t) <= m
    && (t.Inner? ==> forall i :: 0 <= i < |t.kids| ==> Count(t.kids[i]) >= m / 2 && Filled(t.kids[i], m))
  }

  // ----- Flattening

  lemma {:induction false} FlatAllAppend(a: seq<BTree>, b: seq<BTree>)
    ensures FlatAll(a + b) == FlatAll(a) + FlatAll(b)
  {
    if a == [] {
      assert a + b == b;
    } else {
      assert (a + b)[1..] == a[1..] + b;
      FlatAllAppend(a[1..], b);
    }
  }

  lemma {:induction false} FlatAllOne(t: BTree)
    ensures FlatAll([t]) == Flat(t)
  {
    assert FlatAll([t][1..]) == [];
  }

  lemma {:induction false} FlatAllAt(kids: seq<BTree>, i: nat)
    requires i < |kids|
    ensures FlatAll(kids) == FlatAll(kids[..i]) + Flat(kids[i]) + FlatAll(kids[i + 1..])
  {
    assert kids == kids[..i] + ([kids[i]] + kids[i + 1..]);
    FlatAllAppend(kids[..i], [kids[i]] + kids[i + 1..]);
    FlatAllAppend([kids[i]], kids[i + 1..]);
    FlatAllOne(kids[i]);
  }

  // ----- Joining neighbours and cutting in two

  /** Two neighbours and the separator between them as one node. */
  function Join(l: BTree, s: Bytes, r: BTree): BTree
    requires l.Leaf? == r.Leaf?
  {
    if l.Leaf? then Leaf(l.entries + r.entries) else Inner(l.keys + [s] + r.keys, l.kids + r.kids)
  }

  datatype Parts = Parts(left: BTree, sep: Bytes, right: BTree)

  /** One node as two; in an internal node the key at the cut moves up. */
  function Cut(t: BTree, mid: nat): Parts
    requires mid < Count(t) && (t.Inner? ==> |t.kids| == |t.keys| + 1)
  {
    if t.Leaf? then Parts(Leaf(t.entries[..mid]), t.entries[mid].key, Leaf(t.entries[mid..]))
    else Parts(Inner(t.keys[..mid], t.kids[..mid + 1]), t.keys[mid], Inner(t.keys[mid + 1..], t.kids[mid + 1..]))
  }

  lemma {:induction false} JoinWithin(l: BTree, s: Bytes, r: BTree, lo: Option<Bytes>, hi: Option<Bytes>)
    requires l.Leaf? == r.Leaf? && Within(l, lo, Some(s)) && Within(r, Some(s), hi)
    requires AtLeast(s, lo) && AtMost(s, hi)
    ensures Within(Join(l, s, r), lo, hi) && Flat(Join(l, s, r)) == Flat(l) + Flat(r)
  {
    var t := Join(l, s, r);
    if l.Leaf? {
      JoinLeaves(l, s, r, lo, hi);
    } else {
      FlatAllAppend(l.kids, r.kids);
      JoinAscending(l.keys, s, r.keys, lo, hi);
      forall i | 0 <= i < |t.kids| ensures Within(t.kids[i], LoOf(t.keys, i, lo), HiOf(t.keys, i, hi)) {
        if i < |l.kids| {
          assert Within(l.kids[i], LoOf(l.keys, i, lo), HiOf(l.keys, i, Some(s)));
        } else {
          var j := i - |l.kids|;
          assert Within(r.kids[j], LoOf(r.keys, j, Some(s)), HiOf(r.keys, j, hi));
        }
      }
    }
  }

  lemma {:induction false} JoinLeaves(l: BTree, s: Bytes, r: BTree, lo: Option<Bytes>, hi: Option<Bytes>)
    requires l.Leaf? && r.Leaf? && Within(l, lo, Some(s)) && Within(r, Some(s), hi)
    requires AtLeast(s, lo) && AtMost(s, hi)
    ensures Within(Join(l, s, r), lo, hi)
  {
    StrictTotalOrder();
  }

  lemma {:induction false} JoinAscending(a: seq<Bytes>, s: Bytes, b: seq<Bytes>, lo: Option<Bytes>, hi: Option<Bytes>)
    requires Ascending(a, lo, Some(s)) && Ascending(b, Some(s), hi) && AtLeast(s, lo) && AtMost(s, hi)
    ensures Ascending(a + [s] + b, lo, hi)
  {
    StrictTotalOrder();
  }

  lemma {:induction false} CutLeaf(t: BTree, mid: nat, lo: Option<Bytes>, hi: Option<Bytes>)
    requires t.Leaf? && Within(t, lo, hi) && mid < Count(t)
    ensures var p := Cut(t, mid);
            && Within(p.left, lo, Some(p.sep)) && Within(p.right, Some(p.sep), hi)
            && AtLeast(p.sep, lo) && AtMost(p.sep, hi)
            && Flat(p.left) + Flat(p.right) == Flat(t)
  {
    StrictTotalOrder();
  }

  lemma {:induction false} CutInner(t: BTree, mid: nat, lo: Option<Bytes>, hi: Option<Bytes>)
    requires t.Inner? && Within(t, lo, hi) && mid < Count(t)
    ensures var p := Cut(t, mid);
            && Within(p.left, lo, Some(p.sep)) && Within(p.right, Some(p.sep), hi)
            && AtLeast(p.sep, lo) && AtMost(p.sep, hi)
  {
    hide Less;
    var p := Cut(t, mid);
    forall i | 0 <= i < |p.left.kids|
      ensures Within(p.left.kids[i], LoOf(p.left.keys, i, lo), HiOf(p.left.keys, i, Some(p.sep)))
    {
      assert Within(t.kids[i], LoOf(t.keys, i, lo), HiOf(t.keys, i, hi));
    }
    forall i | 0 <= i < |p.right.kids|
      ensures Within(p.right.kids[i], LoOf(p.right.keys, i, Some(p.sep)), HiOf(p.right.keys, i, hi))
    {
      assert Within(t.kids[mid + 1 + i], LoOf(t.keys, mid + 1 + i, lo), HiOf(t.keys, mid + 1 + i, hi));
    }
  }

  lemma {:induction false} CutWithin(t: BTree, mid: nat, lo: Option<Bytes>, hi: Option<Bytes>)
    requires Within(t, lo, hi) && mid < Count(t)
    ensures var p := Cut(t, mid);
            && Within(p.left, lo, Some(p.sep)) && Within(p.right, Some(p.sep), hi)
            && AtLeast(p.sep, lo) && AtMost(p.sep, hi)
            && Flat(p.left) + Flat(p.right) == Flat(t)
  {
    hide Within, AtLeast, AtMost;
    if t.Leaf? {
      CutLeaf(t, mid, lo, hi);
    } else {
      CutInner(t, mid, lo, hi);
      WithinForm(t, lo, hi);
      var p := Cut(t, mid);
      assert t.kids == p.left.kids + p.right.kids;
      FlatAllAppend(p.left.kids, p.right.kids);
    }
  }

  lemma {:induction false} WithinForm(t: BTree, lo: Option<Bytes>, hi: Option<Bytes>)
    requires Within(t, lo, hi)
    ensures t.Inner? ==> |t.kids| == |t.keys| + 1
  {
  }

  // ----- Choosing a child

  /** The number of separators that are at most `key`. */
  function ChildIndex(keys: seq<Bytes>, key: Bytes): (i: nat)
    ensures i <= |keys|
    ensures forall j :: 0 <= j < i ==> Leq(keys[j], key)
    ensures i < |keys| ==> Less(key, keys[i])
  {
    if keys == [] || Less(key, keys[0]) then 0 else 1 + ChildIndex(keys[1..], key)
  }

  /** The chosen child is the one whose bounds hold the key. */
  lemma {:induction false} ChildBounds(keys: seq<Bytes>, key: Bytes, lo: Option<Bytes>, hi: Option<Bytes>)
    requires AtLeast(key, lo) && Under(key, hi)
    ensures var i := ChildIndex(keys, key);
            AtLeast(key, LoOf(keys, i, lo)) && Under(key, HiOf(keys, i, hi))
  {
  }

  /** Before the chosen child all keys are smaller, after it all are greater. */
  lemma {:induction false} ChildSplits(t: BTree, key: Bytes, lo: Option<Bytes>, hi: Option<Bytes>)
    requires t.Inner? && Within(t, lo, hi)
    ensures var i := ChildIndex(t.keys, key);
            AllBelow(FlatAll(t.kids[..i]), key) && AllAbove(FlatAll(t.kids[i + 1..]), key)
  {
    var i := ChildIndex(t.keys, key);
    BelowKey(t, i, key, lo, hi);
    AboveKey(t, i + 1, key, lo, hi);
  }

  lemma {:induction false} BelowKey(t: BTree, i: nat, key: Bytes, lo: Option<Bytes>, hi: Option<Bytes>)
    requires t.Inner? && Within(t, lo, hi) && i <= |t.keys| && (i > 0 ==> Leq(t.keys[i - 1], key))
    ensures AllBelow(FlatAll(t.kids[..i]), key)
    decreases i
  {
    hide Within;
    WithinForm(t, lo, hi);
    if i > 0 {
      StrictTotalOrder();
      KidWithin(t, i - 1, lo, hi);
      BelowKey(t, i - 1, key, lo, hi);
      FlatUnder(t.kids[i - 1], LoOf(t.keys, i - 1, lo), HiOf(t.keys, i - 1, hi));
      assert t.kids[..i] == t.kids[..i - 1] + [t.kids[i - 1]];
      FlatAllAppend(t.kids[..i - 1], [t.kids[i - 1]]);
      FlatAllOne(t.kids[i - 1]);
    }
  }

  lemma {:induction false} AboveKey(t: BTree, i: nat, key: Bytes, lo: Option<Bytes>, hi: Option<Bytes>)
    requires t.Inner? && Within(t, lo, hi) && 0 < i <= |t.keys| + 1 && (i <= |t.keys| ==> Less(key, t.keys[i - 1]))
    ensures i <= |t.kids| && AllAbove(FlatAll(t.kids[i..]), key)
    decreases |t.keys| + 1 - i
  {
    hide Within;
    WithinForm(t, lo, hi);
    if i <= |t.keys| {
      StrictTotalOrder();
      KidWithin(t, i, lo, hi);
      AboveKey(t, i + 1, key, lo, hi);
      FlatUnder(t.kids[i], LoOf(t.keys, i, lo), HiOf(t.keys, i, hi));
      assert t.kids[i..] == [t.kids[i]] + t.kids[i + 1..];
      FlatAllAppend([t.kids[i]], t.kids[i + 1..]);
      FlatAllOne(t.kids[i]);
    }
  }

  lemma {:induction false} KidWithin(t: BTree, i: nat, lo: Option<Bytes>, hi: Option<Bytes>)
    requires t.Inner? && Within(t, lo, hi) && i < |t.kids|
    ensures |t.kids| == |t.keys| + 1 && Within(t.kids[i], LoOf(t.keys, i, lo), HiOf(t.keys, i, hi))
    ensures i > 0 ==> AtLeast(t.keys[i - 1], lo) && AtMost(t.keys[i - 1], hi)
    ensures i < |t.keys| ==> AtLeast(t.keys[i], lo) && AtMost(t.keys[i], hi)
    ensures 0 < i < |t.keys| ==> Leq(t.keys[i - 1], t.keys[i])
    ensures Ascending(t.keys, lo, hi)
  {
  }

  /** All entries of a subtree lie within its bounds, in ascending order. */
  lemma {:induction false} FlatUnder(t: BTree, lo: Option<Bytes>, hi: Option<Bytes>)
    requires Within(t, lo, hi)
    ensures forall i :: 0 <= i < |Flat(t)| ==> AtLeast(Flat(t)[i].key, lo) && Under(Flat(t)[i].key, hi)
    decreases t, 0
  {
    if t.Inner? {
      FlatAllUnder(t, |t.kids|, lo, hi);
      TakeAll(t.kids);
      assert Flat(t) == FlatAll(t.kids[..|t.kids|]);
    }
  }

  lemma {:induction false} FlatAllUnder(t: BTree, n: nat, lo: Option<Bytes>, hi: Option<Bytes>)
    requires t.Inner? && Within(t, lo, hi) && n <= |t.kids|
    ensures var s := FlatAll(t.kids[..n]);
            forall i :: 0 <= i < |s| ==> AtLeast(s[i].key, lo) && Under(s[i].key, hi)
    decreases t, 0, n
  {
    hide Within;
    if n > 0 {
      StrictTotalOrder();
      KidWithin(t, n - 1, lo, hi);
      FlatAllUnder(t, n - 1, lo, hi);
      FlatUnder(t.kids[n - 1], LoOf(t.keys, n - 1, lo), HiOf(t.keys, n - 1, hi));
      TakeStep(t.kids, n - 1);
      FlatAllAppend(t.kids[..n - 1], [t.kids[n - 1]]);
      FlatAllOne(t.kids[n - 1]);
    }
  }

  /** The entries of a tree are in strictly ascending order. */
  lemma {:induction false} FlatSorted(t: BTree, lo: Option<Bytes>, hi: Option<Bytes>)
    requires Within(t, lo, hi)
    ensures Sorted(Flat(t))
    decreases t, 0
  {
    if t.Inner? {
      FlatAllSorted(t, |t.kids|, lo, hi);
      TakeAll(t.kids);
    }
  }

  lemma {:induction false} FlatAllSorted(t: BTree, n: nat, lo: Option<Bytes>, hi: Option<Bytes>)
    requires t.Inner? && Within(t, lo, hi) && n <= |t.kids|
    ensures Sorted(FlatAll(t.kids[..n]))
    decreases t, 0, n
  {
    hide Within;
    if n > 0 {
      var kid := t.kids[n - 1];
      KidWithin(t, n - 1, lo, hi);
      FlatAllSorted(t, n - 1, lo, hi);
      FlatSorted(kid, LoOf(t.keys, n - 1, lo), HiOf(t.keys, n - 1, hi));
      FlatUnder(kid, LoOf(t.keys, n - 1, lo), HiOf(t.keys, n - 1, hi));
      if n > 1 {
        StrictTotalOrder();
        BelowKey(t, n - 1, t.keys[n - 2], lo, hi);
        SortedSeam(FlatAll(t.kids[..n - 1]), Flat(kid), t.keys[n - 2]);
      } else {
        assert t.kids[..0] == [];
        assert FlatAll(t.kids[..0]) + Flat(kid) == Flat(kid);
      }
      TakeStep(t.kids, n - 1);
      FlatAllAppend(t.kids[..n - 1], [kid]);
      FlatAllOne(kid);
    }
  }

  lemma {:induction false} SortedSeam(a: seq<Entry>, b: seq<Entry>, k: Bytes)
    requires Sorted(a) && Sorted(b) && AllBelow(a, k) && forall i :: 0 <= i < |b| ==> Leq(k, b[i].key)
    ensures Sorted(a + b)
  {
    StrictTotalOrder();
    var s := a + b;
    forall i, j | 0 <= i < j < |s| ensures Less(s[i].key, s[j].key) {
      if i < |a| <= j {
        assert Less(a[i].key, k) && Leq(k, b[j - |a|].key);
      }
    }
  }

  // ----- Changing a parent in one place

  /** A child is replaced. */
  function WithKid(t: BTree, i: nat, kid: BTree): BTree
    requires t.Inner? && i < |t.kids|
  {
    Inner(t.keys, t.kids[i := kid])
  }

  /** A child is replaced by two with a separator between them. */
  function WithParts(t: BTree, i: nat, p: Parts): BTree
    requires t.Inner? && i < |t.kids| == |t.keys| + 1
  {
    Inner(t.keys[..i] + [p.sep] + t.keys[i..], t.kids[..i] + [p.left, p.right] + t.kids[i + 1..])
  }

  /** Two neighbours and the separator between them are replaced by one node. */
  function WithJoined(t: BTree, i: nat, kid: BTree): BTree
    requires t.Inner? && i + 1 < |t.kids| == |t.keys| + 1
  {
    Inner(t.keys[..i] + t.keys[i + 1..], t.kids[..i] + [kid] + t.kids[i + 2..])
  }

  lemma {:induction false} WithKidWithin(t: BTree, i: nat, kid: BTree, lo: Option<Bytes>, hi: Option<Bytes>)
    requires t.Inner? && Within(t, lo, hi) && i < |t.kids| && Within(kid, LoOf(t.keys, i, lo), HiOf(t.keys, i, hi))
    ensures Within(WithKid(t, i, kid), lo, hi)
    ensures Flat(WithKid(t, i, kid)) == FlatAll(t.kids[..i]) + Flat(kid) + FlatAll(t.kids[i + 1..])
  {
    var u := WithKid(t, i, kid);
    FlatAllAt(u.kids, i);
    assert u.kids[..i] == t.kids[..i] && u.kids[i + 1..] == t.kids[i + 1..];
  }

  lemma {:induction false} WithPartsWithin(t: BTree, i: nat, p: Parts, lo: Option<Bytes>, hi: Option<Bytes>)
    requires t.Inner? && Within(t, lo, hi) && i < |t.kids|
    requires Within(p.left, LoOf(t.keys, i, lo), Some(p.sep)) && Within(p.right, Some(p.sep), HiOf(t.keys, i, hi))
    requires AtLeast(p.sep, LoOf(t.keys, i, lo)) && AtMost(p.sep, HiOf(t.keys, i, hi))
    ensures Within(WithParts(t, i, p), lo, hi)
  {
    var u := WithParts(t, i, p);
    KidWithin(t, i, lo, hi);
    PartsAscending(t.keys, i, p.sep, lo, hi);
    forall j | 0 <= j < |u.kids| ensures Within(u.kids[j], LoOf(u.keys, j, lo), HiOf(u.keys, j, hi)) {
      WithPartsKid(t, i, p, lo, hi, j);
    }
  }

  lemma {:induction false} WithPartsKid(t: BTree, i: nat, p: Parts, lo: Option<Bytes>, hi: Option<Bytes>, j: nat)
    requires t.Inner? && Within(t, lo, hi) && i < |t.kids| == |t.keys| + 1 && j < |t.kids| + 1
    requires Within(p.left, LoOf(t.keys, i, lo), Some(p.sep)) && Within(p.right, Some(p.sep), HiOf(t.keys, i, hi))
    ensures var u := WithParts(t, i, p); Within(u.kids[j], LoOf(u.keys, j, lo), HiOf(u.keys, j, hi))
  {
    hide Within;
    if j < i {
      KidWithin(t, j, lo, hi);
    } else if j > i + 1 {
      KidWithin(t, j - 1, lo, hi);
    }
  }

  lemma {:induction false} PartsAscending(keys: seq<Bytes>, i: nat, s: Bytes, lo: Option<Bytes>, hi: Option<Bytes>)
    requires Ascending(keys, lo, hi) && i <= |keys| && AtLeast(s, LoOf(keys, i, lo)) && AtMost(s, HiOf(keys, i, hi))
    ensures Ascending(keys[..i] + [s] + keys[i..], lo, hi)
  {
    StrictTotalOrder();
  }

  lemma {:induction false} WithPartsFlat(t: BTree, i: nat, p: Parts)
    requires t.Inner? && i < |t.kids| == |t.keys| + 1
    ensures Flat(WithParts(t, i, p)) == FlatAll(t.kids[..i]) + (Flat(p.left) + Flat(p.right)) + FlatAll(t.kids[i + 1..])
  {
    FlatAllAppend(t.kids[..i] + [p.left, p.right], t.kids[i + 1..]);
    FlatAllAppend(t.kids[..i], [p.left, p.right]);
    FlatAllAppend([p.left], [p.right]);
    FlatAllOne(p.left);
    FlatAllOne(p.right);
    assert [p.left, p.right] == [p.left] + [p.right];
  }

  lemma {:induction false} WithJoinedWithin(t: BTree, i: nat, kid: BTree, lo: Option<Bytes>, hi: Option<Bytes>)
    requires t.Inner? && Within(t, lo, hi) && i + 1 < |t.kids|
    requires Within(kid, LoOf(t.keys, i, lo), HiOf(t.keys, i + 1, hi))
    ensures Within(WithJoined(t, i, kid), lo, hi)
    ensures Flat(WithJoined(t, i, kid)) == FlatAll(t.kids[..i]) + Flat(kid) + FlatAll(t.kids[i + 2..])
  {
    var u := WithJoined(t, i, kid);
    JoinedAscending(t.keys, i, lo, hi);
    forall j | 0 <= j < |u.kids| ensures Within(u.kids[j], LoOf(u.keys, j, lo), HiOf(u.keys, j, hi)) {
      if j < i {
        assert Within(t.kids[j], LoOf(t.keys, j, lo), HiOf(t.keys, j, hi));
      } else if j > i {
        assert Within(t.kids[j + 1], LoOf(t.keys, j + 1, lo), HiOf(t.keys, j + 1, hi));
      }
    }
    FlatAllAt(u.kids, i);
    assert u.kids[..i] == t.kids[..i] && u.kids[i + 1..] == t.kids[i + 2..];
  }

  lemma {:induction false} JoinedAscending(keys: seq<Bytes>, i: nat, lo: Option<Bytes>, hi: Option<Bytes>)
    requires Ascending(keys, lo, hi) && i < |keys|
    ensures Ascending(keys[..i] + keys[i + 1..], lo, hi)
  {
  }

  lemma {:induction false} PairWithin(t: BTree, i: nat, p: Parts, lo: Option<Bytes>, hi: Option<Bytes>)
    requires t.Inner? && Within(t, lo, hi) && i + 1 < |t.kids|
    requires Within(p.left, LoOf(t.keys, i, lo), Some(p.sep)) && Within(p.right, Some(p.sep), HiOf(t.keys, i + 1, hi))
    requires AtLeast(p.sep, LoOf(t.keys, i, lo)) && AtMost(p.sep, HiOf(t.keys, i + 1, hi))
    ensures Within(WithPair(t, i, p), lo, hi)
  {
    hide AtLeast, AtMost, Less, Leq, Ascending;
    var u := WithPair(t, i, p);
    PairAscending(t.keys, i, p.sep, lo, hi);
    forall j | 0 <= j < |u.kids| ensures Within(u.kids[j], LoOf(u.keys, j, lo), HiOf(u.keys, j, hi)) {
      if j != i && j != i + 1 {
        assert Within(t.kids[j], LoOf(t.keys, j, lo), HiOf(t.keys, j, hi));
      }
    }
  }

  lemma {:induction false} PairFlat(t: BTree, i: nat, p: Parts)
    requires t.Inner? && i + 1 < |t.kids| == |t.keys| + 1
    ensures Flat(WithPair(t, i, p)) == FlatAll(t.kids[..i]) + (Flat(p.left) + Flat(p.right)) + FlatAll(t.kids[i + 2..])
  {
    var u := WithPair(t, i, p);
    assert u.kids == t.kids[..i] + [p.left, p.right] + t.kids[i + 2..];
    FlatAllAppend(t.kids[..i] + [p.left, p.right], t.kids[i + 2..]);
    FlatAllAppend(t.kids[..i], [p.left, p.right]);
    FlatAllAppend([p.left], [p.right]);
    FlatAllOne(p.left);
    FlatAllOne(p.right);
    assert [p.left, p.right] == [p.left] + [p.right];
  }

  lemma {:induction false} PairAscending(keys: seq<Bytes>, i: nat, s: Bytes, lo: Option<Bytes>, hi: Option<Bytes>)
    requires Ascending(keys, lo, hi) && i < |keys| && AtLeast(s, LoOf(keys, i, lo)) && AtMost(s, HiOf(keys, i + 1, hi))
    ensures Ascending(keys[i := s], lo, hi)
  {
    StrictTotalOrder();
  }

  /** Two neighbours and the separator between them are replaced. */
  function WithPair(t: BTree, i: nat, p: Parts): BTree
    requires t.Inner? && i + 1 < |t.kids| == |t.keys| + 1
  {
    Inner(t.keys[i := p.sep], t.kids[i := p.left][i + 1 := p.right])
  }

  // ----- Insertion

  /** What an insertion leaves: one node, or two with a separator. */
  datatype Grown = One(tree: BTree) | Two(parts: Parts)

  function SplitIfOver(t: BTree, m: nat): Grown
    requires t.Inner? ==> |t.kids| == |t.keys| + 1
  {
    if Count(t) <= m then One(t) else Two(Cut(t, Count(t) / 2))
  }

  function Insert(t: BTree, h: nat, key: Bytes, value: Bytes, m: nat): Grown
    requires Formed(t, h)
    decreases h
  {
    match t
    case Leaf(entries) => SplitIfOver(Leaf(Put(entries, key, value)), m)
    case Inner(keys, kids) =>
      var i := ChildIndex(keys, key);
      match Insert(kids[i], h - 1, key, value, m)
      case One(kid) => One(WithKid(t, i, kid))
      case Two(p) => SplitIfOver(WithParts(t, i, p), m)
  }

  ghost function GrownFlat(g: Grown): seq<Entry> {
    match g
    case One(t) => Flat(t)
    case Two(p) => Flat(p.left) + Flat(p.right)
  }

  ghost predicate GrownWithin(g: Grown, lo: Option<Bytes>, hi: Option<Bytes>) {
    match g
    case One(t) => Within(t, lo, hi)
    case Two(p) =>
      Within(p.left, lo, Some(p.sep)) && Within(p.right, Some(p.sep), hi) && AtLeast(p.sep, lo) && AtMost(p.sep, hi)
  }

  ghost predicate GrownFormed(g: Grown, h: nat) {
    match g
    case One(t) => Formed(t, h)
    case Two(p) => Formed(p.left, h) && Formed(p.right, h)
  }

  /** Neither part of a split is too small or too large. */
  ghost predicate GrownFilled(g: Grown, m: nat, least: nat) {
    match g
    case One(t) => Filled(t, m) && Count(t) >= least
    case Two(p) => Filled(p.left, m) && Filled(p.right, m) && Count(p.left) >= m / 2 && Count(p.right) >= m / 2
  }

  lemma {:induction false} SplitKeeps(t: BTree, h: nat, m: nat, lo: Option<Bytes>, hi: Option<Bytes>)
    requires Within(t, lo, hi) && Formed(t, h) && m >= 2
    ensures GrownWithin(SplitIfOver(t, m), lo, hi) && GrownFormed(SplitIfOver(t, m), h)
    ensures GrownFlat(SplitIfOver(t, m)) == Flat(t)
  {
    hide Within, AtLeast, AtMost, Flat, Formed;
    WithinForm(t, lo, hi);
    if Count(t) > m {
      CutWithin(t, Count(t) / 2, lo, hi);
      CutFormed(t, Count(t) / 2, h);
    }
  }

  lemma {:induction false} CutFormed(t: BTree, mid: nat, h: nat)
    requires Formed(t, h) && mid < Count(t)
    ensures Formed(Cut(t, mid).left, h) && Formed(Cut(t, mid).right, h)
  {
  }

  /** Insertion keeps the bounds and the depth, and puts the entry into the order. */
  lemma {:induction false} InsertIsPut(t: BTree, h: nat, key: Bytes, value: Bytes, m: nat, lo: Option<Bytes>,
      hi: Option<Bytes>)
    requires Formed(t, h) && Within(t, lo, hi) && AtLeast(key, lo) && Under(key, hi) && m >= 2
    ensures var g := Insert(t, h, key, value, m);
            GrownWithin(g, lo, hi) && GrownFormed(g, h) && GrownFlat(g) == Put(Flat(t), key, value)
    decreases h
  {
    match t
    case Leaf(entries) =>
      LeafPutWithin(entries, key, value, lo, hi);
      SplitKeeps(Leaf(Put(entries, key, value)), h, m, lo, hi);
    case Inner(keys, kids) =>
      InsertBelow(t, h, key, value, m, lo, hi);
  }

  lemma {:induction false} LeafPutWithin(entries: seq<Entry>, key: Bytes, value: Bytes, lo: Option<Bytes>,
      hi: Option<Bytes>)
    requires Within(Leaf(entries), lo, hi) && AtLeast(key, lo) && Under(key, hi)
    ensures Within(Leaf(Put(entries, key, value)), lo, hi)
  {
    PutSorted(entries, key, value);
    PutMembers(entries, key, value);
    var s := Put(entries, key, value);
    forall i | 0 <= i < |s| ensures AtLeast(s[i].key, lo) && Under(s[i].key, hi) {
      assert s[i] in s;
    }
  }

  lemma {:induction false} InsertBelow(t: BTree, h: nat, key: Bytes, value: Bytes, m: nat, lo: Option<Bytes>,
      hi: Option<Bytes>)
    requires t.Inner? && Formed(t, h) && Within(t, lo, hi) && AtLeast(key, lo) && Under(key, hi) && m >= 2
    ensures var g := Insert(t, h, key, value, m);
            GrownWithin(g, lo, hi) && GrownFormed(g, h) && GrownFlat(g) == Put(Flat(t), key, value)
    decreases h, 0
  {
    hide Within, AtLeast, AtMost, Under, Flat, Put, FlatAll;
    var i := ChildIndex(t.keys, key);
    var kid := t.kids[i];
    KidWithin(t, i, lo, hi);
    ChildBounds(t.keys, key, lo, hi);
    InsertIsPut(kid, h - 1, key, value, m, LoOf(t.keys, i, lo), HiOf(t.keys, i, hi));
    ChildSplits(t, key, lo, hi);
    var a, b := FlatAll(t.kids[..i]), FlatAll(t.kids[i + 1..]);
    FlatAllAt(t.kids, i);
    FlatIs(t);
    PutMiddle(a, Flat(kid), b, key, value);
    match Insert(kid, h - 1, key, value, m)
    case One(kid') =>
      WithKidWithin(t, i, kid', lo, hi);
    case Two(p) =>
      WithPartsWithin(t, i, p, lo, hi);
      WithPartsFlat(t, i, p);
      WithPartsFormed(t, i, p, h);
      SplitKeeps(WithParts(t, i, p), h, m, lo, hi);
  }

  lemma {:induction false} FlatIs(t: BTree)
    requires t.Inner?
    ensures Flat(t) == FlatAll(t.kids)
  {
  }

  lemma {:induction false} WithPartsFormed(t: BTree, i: nat, p: Parts, h: nat)
    requires t.Inner? && Formed(t, h) && i < |t.kids| && h > 0 && Formed(p.left, h - 1) && Formed(p.right, h - 1)
    ensures Formed(WithParts(t, i, p), h)
  {
  }

  /** Insertion keeps every node at least half full and none above the limit. */
  lemma {:induction false} InsertFills(t: BTree, h: nat, key: Bytes, value: Bytes, m: nat)
    requires Formed(t, h) && Filled(t, m) && m >= 2
    ensures GrownFilled(Insert(t, h, key, value, m), m, Count(t))
    decreases h
  {
    match t
    case Leaf(entries) =>
      PutCount(entries, key, value);
    case Inner(keys, kids) =>
      var i := ChildIndex(keys, key);
      InsertFills(kids[i], h - 1, key, value, m);
      match Insert(kids[i], h - 1, key, value, m)
      case One(kid) =>
      case Two(p) => PartsFill(t, i, p, m);
  }

  lemma {:induction false} PutCount(s: seq<Entry>, key: Bytes, value: Bytes)
    ensures |s| <= |Put(s, key, value)| <= |s| + 1
  {
    if s != [] {
      PutCount(s[1..], key, value);
    }
  }

  lemma {:induction false} PartsFill(t: BTree, i: nat, p: Parts, m: nat)
    requires t.Inner? && |t.kids| == |t.keys| + 1 && i < |t.kids| && Filled(t, m) && m >= 2
    requires Filled(p.left, m) && Filled(p.right, m) && Count(p.left) >= m / 2 && Count(p.right) >= m / 2
    ensures GrownFilled(SplitIfOver(WithParts(t, i, p), m), m, Count(t))
  {
    var u := WithParts(t, i, p);
    forall j | 0 <= j < |u.kids| ensures Count(u.kids[j]) >= m / 2 && Filled(u.kids[j], m) {
      if j < i {
        assert Filled(t.kids[j], m);
      } else if j > i + 1 {
        assert Filled(t.kids[j - 1], m);
      }
    }
  }

  // ----- Deletion

  /** The key that `minimumKey` reads at the leftmost leaf. */
  function MinimumKey(t: BTree): Bytes {
    match t
    case Leaf(entries) => if entries == [] then [] else entries[0].key
    case Inner(_, kids) => if kids == [] then [] else MinimumKey(kids[0])
  }

  /** Children of one node are of one kind. */
  lemma {:induction false} FormedKids(t: BTree, h: nat)
    requires t.Inner? && Formed(t, h)
    ensures forall i :: 0 <= i < |t.kids| ==> (t.kids[i].Leaf? <==> h == 1)
    ensures forall i :: 0 <= i < |t.kids| && t.kids[i].Inner? ==> |t.kids[i].kids| == |t.kids[i].keys| + 1
  {
    forall i | 0 <= i < |t.kids|
      ensures (t.kids[i].Leaf? <==> h == 1) && (t.kids[i].Inner? ==> |t.kids[i].kids| == |t.kids[i].keys| + 1)
    {
      assert Formed(t.kids[i], h - 1);
    }
  }

  /** A small child takes an entry from a neighbour that can spare one, else it is merged with one. */
  function Rebalance(t: BTree, h: nat, i: nat, m: nat): BTree
    requires t.Inner? && Formed(t, h) && i < |t.kids| && m >= 2
  {
    FormedKids(t, h);
    if i > 0 && Count(t.kids[i - 1]) > m / 2 then
      WithPair(t, i - 1, Cut(Join(t.kids[i - 1], t.keys[i - 1], t.kids[i]), Count(t.kids[i - 1]) - 1))
    else if i + 1 < |t.kids| && Count(t.kids[i + 1]) > m / 2 then
      WithPair(t, i, Cut(Join(t.kids[i], t.keys[i], t.kids[i + 1]), Count(t.kids[i]) + 1))
    else if i > 0 then
      WithJoined(t, i - 1, Join(t.kids[i - 1], t.keys[i - 1], t.kids[i]))
    else if |t.kids| > 1 then
      WithJoined(t, i, Join(t.kids[i], t.keys[i], t.kids[i + 1]))
    else t
  }

  /** A child after a deletion below it, with the separator before it refreshed. */
  function Refreshed(t: BTree, i: nat, kid: BTree): BTree
    requires t.Inner? && i < |t.kids| == |t.keys| + 1
  {
    if i > 0 && Count(kid) > 0 then WithPair(t, i - 1, Parts(t.kids[i - 1], MinimumKey(kid), kid))
    else WithKid(t, i, kid)
  }

  /** The tree without `key`; none if the key is not there. */
  function Delete(t: BTree, h: nat, key: Bytes, m: nat): (r: Option<BTree>)
    requires Formed(t, h) && m >= 2
    ensures r.Some? ==> Formed(r.value, h)
    decreases h
  {
    match t
    case Leaf(entries) => if Find(entries, key).Some? then Some(Leaf(Remove(entries, key))) else None
    case Inner(keys, kids) =>
      var i := ChildIndex(keys, key);
      match Delete(kids[i], h - 1, key, m)
      case None => None
      case Some(kid) =>
        var u := Refreshed(t, i, kid);
        RefreshedFormed(t, h, i, kid);
        RebalanceFormed(u, h, i, m);
        Some(if Count(kid) < m / 2 then Rebalance(u, h, i, m) else u)
  }

  lemma {:induction false} RefreshedFormed(t: BTree, h: nat, i: nat, kid: BTree)
    requires t.Inner? && Formed(t, h) && h > 0 && i < |t.kids| && Formed(kid, h - 1)
    ensures Formed(Refreshed(t, i, kid), h) && Refreshed(t, i, kid).Inner? && |Refreshed(t, i, kid).kids| == |t.kids|
  {
  }

  lemma {:induction false} JoinFormed(l: BTree, s: Bytes, r: BTree, h: nat)
    requires Formed(l, h) && Formed(r, h)
    ensures Formed(Join(l, s, r), h)
  {
  }

  lemma {:induction false} RebalanceFormed(t: BTree, h: nat, i: nat, m: nat)
    requires t.Inner? && Formed(t, h) && i < |t.kids| && m >= 2
    ensures Formed(Rebalance(t, h, i, m), h)
  {
    hide Join, Cut;
    FormedKids(t, h);
    if i > 0 {
      JoinFormed(t.kids[i - 1], t.keys[i - 1], t.kids[i], h - 1);
    }
    if i + 1 < |t.kids| {
      JoinFormed(t.kids[i], t.keys[i], t.kids[i + 1], h - 1);
    }
    if i > 0 && Count(t.kids[i - 1]) > m / 2 {
      JoinCount(t.kids[i - 1], t.keys[i - 1], t.kids[i]);
      CutFormed(Join(t.kids[i - 1], t.keys[i - 1], t.kids[i]), Count(t.kids[i - 1]) - 1, h - 1);
    } else if i + 1 < |t.kids| && Count(t.kids[i + 1]) > m / 2 {
      JoinCount(t.kids[i], t.keys[i], t.kids[i + 1]);
      CutFormed(Join(t.kids[i], t.keys[i], t.kids[i + 1]), Count(t.kids[i]) + 1, h - 1);
    }
  }

  lemma {:induction false} JoinCount(l: BTree, s: Bytes, r: BTree)
    requires l.Leaf? == r.Leaf?
    ensures Count(Join(l, s, r)) == Count(l) + Count(r) + (if l.Leaf? then 0 else 1)
  {
  }

  // ----- Moving bounds

  ghost predicate LeftFull(t: BTree) {
    match t
    case Leaf(entries) => entries != []
    case Inner(_, kids) => kids != [] && LeftFull(kids[0])
  }

  lemma {:induction false} FilledLeftFull(t: BTree, h: nat, m: nat)
    requires Formed(t, h) && Filled(t, m) && m >= 2 && (t.Leaf? ==> Count(t) > 0)
    ensures LeftFull(t)
    decreases h
  {
    if t.Inner? {
      FilledLeftFull(t.kids[0], h - 1, m);
    }
  }

  /** The smallest key can take the place of the lower bound. */
  lemma {:induction false} RaiseLo(t: BTree, lo: Option<Bytes>, hi: Option<Bytes>)
    requires Within(t, lo, hi) && LeftFull(t)
    ensures Within(t, Some(MinimumKey(t)), hi) && AtLeast(MinimumKey(t), lo) && Under(MinimumKey(t), hi)
  {
    StrictTotalOrder();
    if t.Inner? {
      var keys, kids := t.keys, t.kids;
      RaiseLo(kids[0], LoOf(keys, 0, lo), HiOf(keys, 0, hi));
      var k := MinimumKey(t);
      forall i | 0 <= i < |kids| ensures Within(kids[i], LoOf(keys, i, Some(k)), HiOf(keys, i, hi)) {
        assert Within(kids[i], LoOf(keys, i, lo), HiOf(keys, i, hi));
      }
    }
  }

  lemma {:induction false} WidenHi(t: BTree, lo: Option<Bytes>, a: Bytes, b: Bytes)
    requires Within(t, lo, Some(a)) && Leq(a, b)
    ensures Within(t, lo, Some(b))
  {
    StrictTotalOrder();
    if t.Inner? {
      var keys, kids := t.keys, t.kids;
      forall i | 0 <= i < |kids| ensures Within(kids[i], LoOf(keys, i, lo), HiOf(keys, i, Some(b))) {
        assert Within(kids[i], LoOf(keys, i, lo), HiOf(keys, i, Some(a)));
        if i == |keys| {
          WidenHi(kids[i], LoOf(keys, i, lo), a, b);
        }
      }
    }
  }

  lemma {:induction false} RefreshWithin(t: BTree, i: nat, kid: BTree, lo: Option<Bytes>, hi: Option<Bytes>)
    requires t.Inner? && Within(t, lo, hi) && i < |t.kids| && Within(kid, LoOf(t.keys, i, lo), HiOf(t.keys, i, hi))
    requires Count(kid) > 0 ==> LeftFull(kid)
    ensures Within(Refreshed(t, i, kid), lo, hi)
    ensures Flat(Refreshed(t, i, kid)) == FlatAll(t.kids[..i]) + Flat(kid) + FlatAll(t.kids[i + 1..])
  {
    hide Within, Flat, FlatAll;
    KidWithin(t, i, lo, hi);
    if i > 0 && Count(kid) > 0 {
      var k := MinimumKey(kid);
      RaiseLo(kid, LoOf(t.keys, i, lo), HiOf(t.keys, i, hi));
      KidWithin(t, i - 1, lo, hi);
      StrictTotalOrder();
      WidenHi(t.kids[i - 1], LoOf(t.keys, i - 1, lo), t.keys[i - 1], k);
      PairWithin(t, i - 1, Parts(t.kids[i - 1], k, kid), lo, hi);
      PairFlat(t, i - 1, Parts(t.kids[i - 1], k, kid));
      FlatAllAt(t.kids[..i], i - 1);
      assert t.kids[..i][..i - 1] == t.kids[..i - 1] && t.kids[..i][i - 1 + 1..] == [];
      FlatNone();
    } else {
      WithKidWithin(t, i, kid, lo, hi);
    }
  }

  lemma {:induction false} FlatNone()
    ensures FlatAll([]) == []
  {
  }

  // ----- Rebalancing

  lemma {:induction false} FlatTwo(kids: seq<BTree>, i: nat)
    requires i + 1 < |kids|
    ensures FlatAll(kids) == FlatAll(kids[..i]) + (Flat(kids[i]) + Flat(kids[i + 1])) + FlatAll(kids[i + 2..])
  {
    hide FlatAll, Flat;
    FlatAllAt(kids, i);
    FlatAllAt(kids[i + 1..], 0);
    assert kids[i + 1..][..0] == [] && kids[i + 1..][1..] == kids[i + 2..];
    FlatNone();
  }

  /** Two neighbours joined lie between the bounds of both. */
  lemma {:induction false} JoinKids(t: BTree, h: nat, i: nat, lo: Option<Bytes>, hi: Option<Bytes>)
    requires t.Inner? && Within(t, lo, hi) && Formed(t, h) && i + 1 < |t.kids| && t.kids[i].Leaf? == t.kids[i + 1].Leaf?
    ensures var j := Join(t.kids[i], t.keys[i], t.kids[i + 1]);
            && Within(j, LoOf(t.keys, i, lo), HiOf(t.keys, i + 1, hi))
            && Flat(j) == Flat(t.kids[i]) + Flat(t.kids[i + 1])
            && Flat(t) == FlatAll(t.kids[..i]) + Flat(j) + FlatAll(t.kids[i + 2..])
  {
    hide Within, Flat, FlatAll, Join;
    KidWithin(t, i, lo, hi);
    KidWithin(t, i + 1, lo, hi);
    JoinWithin(t.kids[i], t.keys[i], t.kids[i + 1], LoOf(t.keys, i, lo), HiOf(t.keys, i + 1, hi));
    FlatTwo(t.kids, i);
    FlatIs(t);
  }

  lemma {:induction false} RotateKeeps(t: BTree, h: nat, i: nat, mid: nat, lo: Option<Bytes>, hi: Option<Bytes>)
    requires t.Inner? && Within(t, lo, hi) && Formed(t, h) && i + 1 < |t.kids| && t.kids[i].Leaf? == t.kids[i + 1].Leaf?
    requires mid < Count(Join(t.kids[i], t.keys[i], t.kids[i + 1]))
    ensures var j := Join(t.kids[i], t.keys[i], t.kids[i + 1]);
            && (j.Inner? ==> |j.kids| == |j.keys| + 1)
            && Within(WithPair(t, i, Cut(j, mid)), lo, hi) && Flat(WithPair(t, i, Cut(j, mid))) == Flat(t)
  {
    hide Within, Flat, FlatAll, Join, Cut;
    var j := Join(t.kids[i], t.keys[i], t.kids[i + 1]);
    JoinKids(t, h, i, lo, hi);
    WithinForm(j, LoOf(t.keys, i, lo), HiOf(t.keys, i + 1, hi));
    CutWithin(j, mid, LoOf(t.keys, i, lo), HiOf(t.keys, i + 1, hi));
    PairWithin(t, i, Cut(j, mid), lo, hi);
    PairFlat(t, i, Cut(j, mid));
  }

  lemma {:induction false} RebalanceKeeps(t: BTree, h: nat, i: nat, m: nat, lo: Option<Bytes>, hi: Option<Bytes>)
    requires t.Inner? && Within(t, lo, hi) && Formed(t, h) && i < |t.kids| && m >= 2
    ensures Within(Rebalance(t, h, i, m), lo, hi) && Flat(Rebalance(t, h, i, m)) == Flat(t)
  {
    hide Within, Flat, FlatAll, Join, Cut, WithPair, WithJoined;
    FormedKids(t, h);
    if i > 0 {
      JoinCount(t.kids[i - 1], t.keys[i - 1], t.kids[i]);
    }
    if i + 1 < |t.kids| {
      JoinCount(t.kids[i], t.keys[i], t.kids[i + 1]);
    }
    if i > 0 && Count(t.kids[i - 1]) > m / 2 {
      RotateKeeps(t, h, i - 1, Count(t.kids[i - 1]) - 1, lo, hi);
    } else if i + 1 < |t.kids| && Count(t.kids[i + 1]) > m / 2 {
      RotateKeeps(t, h, i, Count(t.kids[i]) + 1, lo, hi);
    } else if i > 0 {
      JoinKids(t, h, i - 1, lo, hi);
      WithJoinedWithin(t, i - 1, Join(t.kids[i - 1], t.keys[i - 1], t.kids[i]), lo, hi);
    } else if |t.kids| > 1 {
      JoinKids(t, h, i, lo, hi);
      WithJoinedWithin(t, i, Join(t.kids[i], t.keys[i], t.kids[i + 1]), lo, hi);
    }
  }

  // ----- Occupancy after a deletion

  /** Every child but `i` is well filled; child `i` may lack one key. */
  ghost predicate AlmostFilled(t: BTree, i: nat, m: nat) {
    && t.Inner? && |t.kids| == |t.keys| + 1 && 1 <= |t.keys| <= m && i < |t.kids|
    && (forall j :: 0 <= j < |t.kids| ==> Filled(t.kids[j], m))
    && (forall j :: 0 <= j < |t.kids| && j != i ==> Count(t.kids[j]) >= m / 2)
    && Count(t.kids[i]) + 1 >= m / 2
  }

  lemma {:induction false} JoinFills(l: BTree, s: Bytes, r: BTree, m: nat)
    requires l.Leaf? == r.Leaf? && Filled(l, m) && Filled(r, m)
    ensures var j := Join(l, s, r);
            j.Inner? ==> forall i :: 0 <= i < |j.kids| ==> Count(j.kids[i]) >= m / 2 && Filled(j.kids[i], m)
  {
    var j := Join(l, s, r);
    if j.Inner? {
      forall i | 0 <= i < |j.kids| ensures Count(j.kids[i]) >= m / 2 && Filled(j.kids[i], m) {
        if i < |l.kids| {
          assert Filled(l.kids[i], m);
        } else {
          assert Filled(r.kids[i - |l.kids|], m);
        }
      }
    }
  }

  lemma {:induction false} CutFills(t: BTree, mid: nat, m: nat)
    requires mid < Count(t) && (t.Inner? ==> |t.kids| == |t.keys| + 1)
    requires t.Inner? ==> forall i :: 0 <= i < |t.kids| ==> Count(t.kids[i]) >= m / 2 && Filled(t.kids[i], m)
    requires mid <= m && Count(t) - mid - (if t.Leaf? then 0 else 1) <= m
    ensures Filled(Cut(t, mid).left, m) && Filled(Cut(t, mid).right, m)
    ensures Count(Cut(t, mid).left) == mid && Count(Cut(t, mid).right) == Count(t) - mid - (if t.Leaf? then 0 else 1)
  {
  }

  lemma {:induction false} RebalanceFills(t: BTree, h: nat, i: nat, m: nat)
    requires AlmostFilled(t, i, m) && Formed(t, h) && m >= 2 && Count(t.kids[i]) < m / 2
    ensures var u := Rebalance(t, h, i, m);
            Filled(u, m) && u.Inner? && |t.keys| - 1 <= Count(u) <= |t.keys|
  {
    hide Join, Cut, Formed;
    FormedKids(t, h);
    if i > 0 && Count(t.kids[i - 1]) > m / 2 {
      RotateFills(t, i - 1, i, Count(t.kids[i - 1]) - 1, m);
    } else if i + 1 < |t.kids| && Count(t.kids[i + 1]) > m / 2 {
      RotateFills(t, i, i, Count(t.kids[i]) + 1, m);
    } else if i > 0 {
      MergeFills(t, i - 1, i, m);
    } else {
      MergeFills(t, i, i, m);
    }
  }

  /** An entry moves from the neighbour to child `i`; `j` is the left one of the two. */
  lemma {:induction false} RotateFills(t: BTree, j: nat, i: nat, mid: nat, m: nat)
    requires AlmostFilled(t, i, m) && Count(t.kids[i]) < m / 2 && m >= 2 && (j == i || j + 1 == i) && j + 1 < |t.kids|
    requires t.kids[j].Leaf? == t.kids[j + 1].Leaf?
    requires t.kids[j].Inner? ==>
              |t.kids[j].kids| == |t.kids[j].keys| + 1 && |t.kids[j + 1].kids| == |t.kids[j + 1].keys| + 1
    requires if j == i then mid == Count(t.kids[i]) + 1 && Count(t.kids[i + 1]) > m / 2
             else mid == Count(t.kids[j]) - 1 && Count(t.kids[j]) > m / 2
    ensures var x := Join(t.kids[j], t.keys[j], t.kids[j + 1]);
            && mid < Count(x) && (x.Inner? ==> |x.kids| == |x.keys| + 1)
            && Filled(WithPair(t, j, Cut(x, mid)), m)
  {
    hide Cut;
    var x := Join(t.kids[j], t.keys[j], t.kids[j + 1]);
    JoinCount(t.kids[j], t.keys[j], t.kids[j + 1]);
    JoinFills(t.kids[j], t.keys[j], t.kids[j + 1], m);
    CutFills(x, mid, m);
  }

  lemma {:induction false} MergeFills(t: BTree, j: nat, i: nat, m: nat)
    requires AlmostFilled(t, i, m) && Count(t.kids[i]) < m / 2 && m >= 2 && (j == i || j + 1 == i) && j + 1 < |t.kids|
    requires t.kids[j].Leaf? == t.kids[j + 1].Leaf?
    requires Count(t.kids[if j == i then i + 1 else j]) <= m / 2
    ensures Filled(WithJoined(t, j, Join(t.kids[j], t.keys[j], t.kids[j + 1])), m)
  {
    hide Join;
    var x := Join(t.kids[j], t.keys[j], t.kids[j + 1]);
    var u := WithJoined(t, j, x);
    JoinCount(t.kids[j], t.keys[j], t.kids[j + 1]);
    JoinFills(t.kids[j], t.keys[j], t.kids[j + 1], m);
    forall k | 0 <= k < |u.kids| ensures Count(u.kids[k]) >= m / 2 && Filled(u.kids[k], m) {
      if k < j {
        assert u.kids[k] == t.kids[k];
      } else if k > j {
        assert u.kids[k] == t.kids[k + 1];
      }
    }
  }

  /**
   Deletion finds the key exactly if it is there, removes that one entry and keeps bounds,
   depth and occupancy; the node itself loses one key at most.
   */
  lemma {:induction false} DeleteIsRemove(t: BTree, h: nat, key: Bytes, m: nat, lo: Option<Bytes>, hi: Option<Bytes>)
    requires Formed(t, h) && Within(t, lo, hi) && Filled(t, m) && m >= 2 && (t.Inner? ==> Count(t) >= 1)
    requires AtLeast(key, lo) && Under(key, hi)
    ensures var r := Delete(t, h, key, m);
            && (r.Some? <==> HasKey(Flat(t), key))
            && (r.Some? ==> && Within(r.value, lo, hi) && Flat(r.value) == Remove(Flat(t), key)
                            && Filled(r.value, m) && Count(t) - 1 <= Count(r.value) <= Count(t))
    decreases h
  {
    match t
    case Leaf(entries) => LeafDelete(entries, key, lo, hi);
    case Inner(keys, kids) => DeleteBelow(t, h, key, m, lo, hi);
  }

  lemma {:induction false} LeafDelete(entries: seq<Entry>, key: Bytes, lo: Option<Bytes>, hi: Option<Bytes>)
    requires Within(Leaf(entries), lo, hi)
    ensures Find(entries, key).Some? <==> HasKey(entries, key)
    ensures Find(entries, key).Some? ==>
              Within(Leaf(Remove(entries, key)), lo, hi) && |Remove(entries, key)| == |entries| - 1
  {
    FindIsLookup(entries, key);
    ToMapKeys(entries);
    RemoveSorted(entries, key);
    RemoveMembers(entries, key);
    var s := Remove(entries, key);
    forall i | 0 <= i < |s| ensures AtLeast(s[i].key, lo) && Under(s[i].key, hi) {
      assert s[i] in s;
    }
    RemoveCount(entries, key);
  }

  lemma {:induction false} RemoveCount(s: seq<Entry>, key: Bytes)
    ensures |Remove(s, key)| == |s| - (if Find(s, key).Some? then 1 else 0)
  {
    if s != [] && s[0].key != key {
      RemoveCount(s[1..], key);
    }
  }

  lemma {:induction false} DeleteBelow(t: BTree, h: nat, key: Bytes, m: nat, lo: Option<Bytes>, hi: Option<Bytes>)
    requires t.Inner? && Formed(t, h) && Within(t, lo, hi) && Filled(t, m) && m >= 2 && Count(t) >= 1
    requires AtLeast(key, lo) && Under(key, hi)
    ensures var r := Delete(t, h, key, m);
            && (r.Some? <==> HasKey(Flat(t), key))
            && (r.Some? ==> && Within(r.value, lo, hi) && Flat(r.value) == Remove(Flat(t), key)
                            && Filled(r.value, m) && Count(t) - 1 <= Count(r.value) <= Count(t))
    decreases h, 0
  {
    hide Within, AtLeast, AtMost, Under, Flat, Remove, FlatAll, HasKey, Rebalance, Refreshed, Filled;
    var i := ChildIndex(t.keys, key);
    var kid := t.kids[i];
    KidWithin(t, i, lo, hi);
    ChildBounds(t.keys, key, lo, hi);
    KidFilled(t, i, m);
    DeleteIsRemove(kid, h - 1, key, m, LoOf(t.keys, i, lo), HiOf(t.keys, i, hi));
    ChildSplits(t, key, lo, hi);
    var a, b := FlatAll(t.kids[..i]), FlatAll(t.kids[i + 1..]);
    FlatAllAt(t.kids, i);
    FlatIs(t);
    HasMiddle(a, Flat(kid), b, key);
    RemoveMiddle(a, Flat(kid), b, key);
    var d := Delete(kid, h - 1, key, m);
    if d.Some? {
      DeletedKid(t, h, i, d.value, m, lo, hi);
    }
  }

  lemma {:induction false} KidFilled(t: BTree, i: nat, m: nat)
    requires t.Inner? && Filled(t, m) && i < |t.kids|
    ensures Filled(t.kids[i], m) && Count(t.kids[i]) >= m / 2 && |t.keys| <= m
  {
  }

  /** The parent after a deletion in child `i`. */
  lemma {:induction false} DeletedKid(t: BTree, h: nat, i: nat, kid: BTree, m: nat, lo: Option<Bytes>,
      hi: Option<Bytes>)
    requires t.Inner? && Formed(t, h) && h > 0 && Within(t, lo, hi) && Filled(t, m) && m >= 2 && Count(t) >= 1
    requires i < |t.kids| && Formed(kid, h - 1) && Within(kid, LoOf(t.keys, i, lo), HiOf(t.keys, i, hi))
    requires Filled(kid, m) && Count(t.kids[i]) - 1 <= Count(kid)
    ensures var u := Refreshed(t, i, kid);
            var r := if Count(kid) < m / 2 then Rebalance(u, h, i, m) else u;
            && u.Inner? && Formed(u, h) && |u.kids| == |t.kids|
            && Within(r, lo, hi) && Flat(r) == FlatAll(t.kids[..i]) + Flat(kid) + FlatAll(t.kids[i + 1..])
            && Filled(r, m) && Count(t) - 1 <= Count(r) <= Count(t)
  {
    hide Within, Flat, FlatAll, Rebalance;
    RefreshedFormed(t, h, i, kid);
    if Count(kid) > 0 {
      FilledLeftFull(kid, h - 1, m);
    }
    RefreshWithin(t, i, kid, lo, hi);
    var u := Refreshed(t, i, kid);
    RefreshFills(t, i, kid, m);
    if Count(kid) < m / 2 {
      RebalanceKeeps(u, h, i, m, lo, hi);
      RebalanceFills(u, h, i, m);
    }
  }

  lemma {:induction false} RefreshFills(t: BTree, i: nat, kid: BTree, m: nat)
    requires t.Inner? && |t.kids| == |t.keys| + 1 && Filled(t, m) && Count(t) >= 1 && i < |t.kids|
    requires Filled(kid, m) && Count(t.kids[i]) - 1 <= Count(kid)
    ensures var u := Refreshed(t, i, kid);
            AlmostFilled(u, i, m) && u.kids[i] == kid && |u.keys| == |t.keys| && (Count(kid) >= m / 2 ==> Filled(u, m))
  {
  }

  // ----- Whole trees

  /** A tree as it is between operations. */
  ghost predicate Proper(t: BTree, h: nat, m: nat) {
    Formed(t, h) && Within(t, None, None) && Filled(t, m) && Count(t) >= 1
  }

  function Pow2(n: nat): nat {
    if n == 0 then 1 else 2 * Pow2(n - 1)
  }

  /** Depth is logarithmic: a tree of height `h` holds at least 2^h entries. */
  lemma {:induction false} DepthBound(t: BTree, h: nat, m: nat)
    requires Formed(t, h) && Filled(t, m) && Count(t) >= 1 && m >= 2
    ensures |Flat(t)| >= Pow2(h)
    decreases h
  {
    if t.Inner? {
      DepthBound(t.kids[0], h - 1, m);
      DepthBound(t.kids[1], h - 1, m);
      FlatTwo(t.kids, 0);
      FlatIs(t);
    }
  }

  /** The root after an insertion: a split root gets a new root above it. */
  function Rooted(g: Grown): BTree {
    match g
    case One(t) => t
    case Two(p) => Inner([p.sep], [p.left, p.right])
  }

  function GrownHeight(g: Grown, h: nat): nat {
    if g.One? then h else h + 1
  }

  /** Setting a key keeps a tree proper and updates the map it holds. */
  lemma {:induction false} SetKeeps(t: BTree, h: nat, key: Bytes, value: Bytes, m: nat)
    requires Proper(t, h, m) && m >= 2
    ensures var g := Insert(t, h, key, value, m);
            && Proper(Rooted(g), GrownHeight(g, h), m)
            && Flat(Rooted(g)) == Put(Flat(t), key, value)
            && ToMap(Flat(Rooted(g))) == ToMap(Flat(t))[key := value]
  {
    hide ToMap, Put, Flat;
    InsertIsPut(t, h, key, value, m, None, None);
    InsertFills(t, h, key, value, m);
    FlatSorted(t, None, None);
    PutIsUpdate(Flat(t), key, value);
    var g := Insert(t, h, key, value, m);
    if g.Two? {
      TwoFlat(g.parts);
    }
  }

  lemma {:induction false} TwoFlat(p: Parts)
    ensures Flat(Inner([p.sep], [p.left, p.right])) == Flat(p.left) + Flat(p.right)
  {
    FlatAllAppend([p.left], [p.right]);
    FlatAllOne(p.left);
    FlatAllOne(p.right);
    assert [p.left, p.right] == [p.left] + [p.right];
  }

  /** The tree left when the last key of the root is gone: its only child, or nothing. */
  function Collapsed(t: BTree, h: nat): Option<(BTree, nat)> {
    if Count(t) > 0 then Some((t, h))
    else if t.Leaf? || |t.kids| == 0 || h == 0 then None
    else Some((t.kids[0], h - 1))
  }

  /** Deleting a key keeps a tree proper and removes the key from the map, or finds it missing. */
  lemma {:induction false} DeleteKeeps(t: BTree, h: nat, key: Bytes, m: nat)
    requires Proper(t, h, m) && m >= 2
    ensures var r := Delete(t, h, key, m);
            && (r.Some? <==> key in ToMap(Flat(t)))
            && (r.Some? ==>
                  match Collapsed(r.value, h)
                  case None => ToMap(Flat(t)) - {key} == map[]
                  case Some(u) => && Proper(u.0, u.1, m)
                                  && Flat(u.0) == Remove(Flat(t), key)
                                  && ToMap(Flat(u.0)) == ToMap(Flat(t)) - {key})
  {
    hide Flat, Within;
    DeleteIsRemove(t, h, key, m, None, None);
    FlatSorted(t, None, None);
    RemoveIsDelete(Flat(t), key);
    ToMapKeys(Flat(t));
    var r := Delete(t, h, key, m);
    if r.Some? && Count(r.value) == 0 {
      CollapseKeeps(r.value, h, m);
    }
  }

  lemma {:induction false} CollapseKeeps(t: BTree, h: nat, m: nat)
    requires Formed(t, h) && Within(t, None, None) && Filled(t, m) && Count(t) == 0 && m >= 2
    ensures match Collapsed(t, h)
            case None => Flat(t) == []
            case Some(u) => Proper(u.0, u.1, m) && Flat(u.0) == Flat(t)
  {
    if t.Inner? {
      KidWithin(t, 0, None, None);
      FlatAllOne(t.kids[0]);
      assert t.kids == [t.kids[0]];
    }
  }

  /** Descending by separators finds the leaf that a key belongs to. */
  lemma {:induction false} FindBelow(t: BTree, key: Bytes, lo: Option<Bytes>, hi: Option<Bytes>)
    requires t.Inner? && Within(t, lo, hi)
    ensures Find(Flat(t), key) == Find(Flat(t.kids[ChildIndex(t.keys, key)]), key)
  {
    hide Within, Flat;
    WithinForm(t, lo, hi);
    var i := ChildIndex(t.keys, key);
    ChildSplits(t, key, lo, hi);
    var a, b, c := FlatAll(t.kids[..i]), Flat(t.kids[i]), FlatAll(t.kids[i + 1..]);
    FlatAllAt(t.kids, i);
    FlatIs(t);
    FindMiddle(a, b, c, key);
  }

}
