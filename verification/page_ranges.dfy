/**
 Ordered scans: the entries of a sequence within inclusive bounds, and what a stack of
 partly visited internal pages still has to deliver.
 */
module PageRanges {
  import opened ByteStrings
  import opened Entries
  import opened PageNodes
  import opened PageTrees
  import opened PageTreeSteps
  import opened PageUpdates

  predicate InBounds(e: Entry, lo: Bytes, hi: Bytes) {
    e.key != [] && Leq(lo, e.key) && Leq(e.key, hi)
  }

  /** The entries of `s` with a non-empty key between `lo` and `hi`, in their order. */
  function InRange(s: seq<Entry>, lo: Bytes, hi: Bytes): (r: seq<Entry>)
    ensures forall e :: e in r <==> e in s && InBounds(e, lo, hi)
  {
    if s == [] then []
    else
      var rest := InRange(s[1..], lo, hi);
      if InBounds(s[0], lo, hi) then [s[0]] + rest else rest
  }

  lemma {:induction false} InRangeAppend(a: seq<Entry>, b: seq<Entry>, lo: Bytes, hi: Bytes)
    ensures InRange(a + b, lo, hi) == InRange(a, lo, hi) + InRange(b, lo, hi)
  {
    if a == [] {
      assert a + b == b;
    } else {
      assert (a + b)[1..] == a[1..] + b;
      InRangeAppend(a[1..], b, lo, hi);
    }
  }

  lemma {:induction false} InRangeNone(s: seq<Entry>, lo: Bytes, hi: Bytes)
    requires forall i :: 0 <= i < |s| ==> !InBounds(s[i], lo, hi)
    ensures InRange(s, lo, hi) == []
  {
    if s != [] {
      InRangeNone(s[1..], lo, hi);
    }
  }

  lemma {:induction false} InRangeStep(s: seq<Entry>, i: nat, lo: Bytes, hi: Bytes)
    requires i < |s|
    ensures InRange(s[i..], lo, hi) == (if InBounds(s[i], lo, hi) then [s[i]] else []) + InRange(s[i + 1..], lo, hi)
  {
    assert s[i..][1..] == s[i + 1..];
  }

  /** A scan of an ascending sequence ascends, and holds exactly the bindings within the bounds. */
  lemma {:induction false} InRangeSorted(s: seq<Entry>, lo: Bytes, hi: Bytes)
    requires Sorted(s)
    ensures Sorted(InRange(s, lo, hi))
    ensures ToMap(InRange(s, lo, hi)) ==
            map k | k in ToMap(s) && k != [] && Leq(lo, k) && Leq(k, hi) :: ToMap(s)[k]
  {
    if s != [] {
      SortedTail(s);
      InRangeSorted(s[1..], lo, hi);
      var rest := InRange(s[1..], lo, hi);
      if InBounds(s[0], lo, hi) {
        forall i | 0 <= i < |rest| ensures Less(s[0].key, rest[i].key) {
          assert rest[i] in rest;
        }
        SortedCons(s[0], rest);
        assert ([s[0]] + rest)[1..] == rest;
      } else {
        ToMapKeys(s[1..]);
        StrictTotalOrder();
      }
    }
  }

  /** An internal page under a scan, and the child the scan is in. */
  datatype Frame = Frame(node: Node, childIdx: nat)

  /** What lies to the right of the scan's position. */
  ghost function Rest(path: seq<Frame>, trees: seq<Tree>): seq<Entry>
    requires OnPath(path, trees)
    decreases |path|
  {
    if path == [] then []
    else
      var n := |path| - 1;
      FlatAll(trees[n].kids[path[n].childIdx + 1..]) + Rest(path[..n], trees[..n])
  }

  ghost predicate OnPath(path: seq<Frame>, trees: seq<Tree>) {
    && |path| == |trees|
    && forall i :: 0 <= i < |path| ==> trees[i].TInner? && path[i].childIdx < |trees[i].kids|
  }

  /** Every page on the path is the page of a well-formed subtree, one level below the previous. */
  ghost predicate OnPages(pages: Store, path: seq<Frame>, trees: seq<Tree>, h: nat) {
    && OnPath(path, trees) && |path| <= h
    && forall i :: 0 <= i < |path| ==> IsPiece(pages, trees[i], h - i, path[i].node) && Sorted(Flat(trees[i]))
  }

  lemma {:induction false} RestPush(path: seq<Frame>, trees: seq<Tree>, f: Frame, t: Tree)
    requires OnPath(path, trees) && t.TInner? && f.childIdx < |t.kids|
    ensures OnPath(path + [f], trees + [t])
    ensures Rest(path + [f], trees + [t]) == FlatAll(t.kids[f.childIdx + 1..]) + Rest(path, trees)
  {
    assert (path + [f])[..|path|] == path && (trees + [t])[..|path|] == trees;
  }

  /** A child of a page on the path is itself a valid page of an ascending subtree. */
  lemma {:induction false} ChildPiece(pages: Store, t: Tree, h: nat, node: Node, i: nat)
    requires IsPiece(pages, t, h, node) && t.TInner? && i < |t.kids| && Sorted(Flat(t))
    ensures h > 0 && i < |node.entries| && node.entries[i].ptr == t.kids[i].id && t.kids[i].id in pages
    ensures |node.entries| == |t.kids|
    ensures IsPiece(pages, t.kids[i], h - 1, pages[t.kids[i].id]) && Sorted(Flat(t.kids[i]))
    ensures ValidNode(pages[t.kids[i].id])
  {
    hide FlatAll;
    InnerFacts(t, h);
    KidMatches(pages, t, i);
    SplitAt(t.kids, i);
    SortedSlices(FlatAll(t.kids[..i]) + Flat(t.kids[i]), FlatAll(t.kids[i + 1..]));
    SortedSlices(FlatAll(t.kids[..i]), Flat(t.kids[i]));
    PageIsValid(t.kids[i], h - 1);
  }

  /** Descending: the page's own entries are those of the child and those right of it. */
  lemma {:induction false} DescendRange(
    pages: Store, t: Tree, h: nat, node: Node, i: nat, path: seq<Frame>, trees: seq<Tree>, before: seq<Entry>)
    requires IsPiece(pages, t, h, node) && t.TInner? && i < |t.kids| && OnPath(path, trees)
    ensures OnPath(path + [Frame(node, i)], trees + [t])
    ensures before + Flat(t) + Rest(path, trees) ==
            (before + FlatAll(t.kids[..i])) + Flat(t.kids[i]) + Rest(path + [Frame(node, i)], trees + [t])
  {
    hide FlatAll, Wf;
    SplitAt(t.kids, i);
    RestPush(path, trees, Frame(node, i), t);
    InnerFlat(t);
    Regroup(before, FlatAll(t.kids[..i]), Flat(t.kids[i]), FlatAll(t.kids[i + 1..]), Rest(path, trees));
  }

  lemma {:induction false} InnerFlat(t: Tree)
    requires t.TInner?
    ensures Flat(t) == FlatAll(t.kids)
  {
  }

  lemma {:induction false} Regroup(a: seq<Entry>, b: seq<Entry>, c: seq<Entry>, d: seq<Entry>, e: seq<Entry>)
    ensures a + (b + c + d) + e == (a + b) + c + (d + e)
  {
  }

  /** The search for `key` can go on in the chosen child alone. */
  lemma {:induction false} FindInChild(t: Tree, h: nat, i: nat, key: Bytes)
    requires t.TInner? && Wf(t, h) && h > 0 && i < |t.kids| && Sorted(Flat(t))
    requires Leq(FirstKey(t.kids[i]), key) && (i + 1 < |t.kids| ==> Less(key, FirstKey(t.kids[i + 1])))
    ensures Find(Flat(t), key) == Find(Flat(t.kids[i]), key)
  {
    hide FlatAll, Wf, Find, FirstKey, Sorted;
    InnerFacts(t, h);
    Descend(t.kids, h - 1, i, key);
    FindMiddle(FlatAll(t.kids[..i]), Flat(t.kids[i]), FlatAll(t.kids[i + 1..]), key);
  }

  /** The answer of a leaf at the position found by the search. */
  lemma {:induction false} FindInLeaf(s: seq<Entry>, key: Bytes)
    requires Sorted(s) && s != [] && Leq(s[0].key, key)
    ensures UpperBound(s, key) > 0
    ensures var i := UpperBound(s, key) - 1;
            Find(s, key) == if s[i].key == key then Some(s[i].value) else None
  {
    hide Find;
    var n := UpperBound(s, key);
    LeafRemove(s, n, key);
    if s[n - 1].key == key {
      FindAt(s, n - 1);
    } else {
      FindMissing(s, key);
    }
  }

  lemma {:induction false} LookupIsFind(v: Version, key: Bytes)
    requires key != []
    ensures Find(VersionFlat(v), key) == if key in Contents(v) then Some(Contents(v)[key]) else None
  {
    FindIsLookup(VersionFlat(v), key);
  }

  lemma {:induction false} EmptyFind(key: Bytes)
    ensures Find([], key) == None
  {
  }

  lemma {:induction false} LeafFlat(pages: Store, t: Tree, h: nat, node: Node)
    requires IsPiece(pages, t, h, node) && node.leaf
    ensures Flat(t) == node.entries && node.entries != [] && node.entries[0].key == FirstKey(t)
  {
  }

  /** Reversed bounds select nothing, and so does a tree without pages. */
  lemma {:induction false} EmptyRange(s: seq<Entry>, lo: Bytes, hi: Bytes)
    requires Less(hi, lo) || s == []
    ensures InRange(s, lo, hi) == []
  {
    if s != [] {
      StrictTotalOrder();
      forall i | 0 <= i < |s| ensures !InBounds(s[i], lo, hi) {
        if Less(hi, lo) && Leq(lo, s[i].key) {
          assert lo == s[i].key || Less(lo, s[i].key);
        }
      }
      InRangeNone(s, lo, hi);
    }
  }

  /** How many leading entries have a key below `key`. */
  function LowerBound(s: seq<Entry>, key: Bytes): (r: nat)
    ensures r <= |s|
    ensures forall i :: 0 <= i < r ==> Less(s[i].key, key)
    ensures r < |s| ==> Leq(key, s[r].key)
  {
    if s == [] || !Less(s[0].key, key) then 0
    else
      var rest := LowerBound(s[1..], key);
      assert forall i :: 1 <= i < rest + 1 ==> s[i] == s[1..][i - 1];
      rest + 1
  }

  lemma {:induction false} BelowIsOutside(s: seq<Entry>, lo: Bytes, hi: Bytes)
    requires AllBelow(s, lo)
    ensures InRange(s, lo, hi) == []
  {
    hide InRange;
    InRangeNone(s, lo, hi);
  }

  lemma {:induction false} AboveIsOutside(s: seq<Entry>, lo: Bytes, hi: Bytes)
    requires AllAbove(s, hi)
    ensures InRange(s, lo, hi) == []
  {
    hide InRange;
    InRangeNone(s, lo, hi);
  }

  /** Once a key is past the end, so is all that follows in an ascending sequence. */
  lemma {:induction false} PastEnd(s: seq<Entry>, i: nat, rest: seq<Entry>, lo: Bytes, hi: Bytes)
    requires i < |s| && Sorted(s + rest) && Less(hi, s[i].key)
    ensures InRange(s[i..], lo, hi) == [] && InRange(rest, lo, hi) == []
  {
    hide InRange;
    StrictTotalOrder();
    SortedSlices(s, rest);
    forall j | 0 <= j < |s[i..]| ensures Less(hi, s[i..][j].key) {
      assert s[i..][j] == s[i + j];
      assert j == 0 || Less(s[i].key, s[i + j].key);
    }
    AboveIsOutside(s[i..], lo, hi);
    forall j | 0 <= j < |rest| ensures Less(hi, rest[j].key) {
      assert Less(s[i].key, rest[j].key);
    }
    AboveIsOutside(rest, lo, hi);
  }

  /** Collects a leaf's entries from position `from` until one is past the end. */
  method TakeLeaf(s: seq<Entry>, from: nat, lo: Bytes, hi: Bytes, entries: seq<Entry>, ghost rest: seq<Entry>)
    returns (entries': seq<Entry>, done: bool)
    requires from <= |s| && Sorted(s + rest)
    ensures entries' == entries + InRange(s[from..], lo, hi)
    ensures done ==> InRange(rest, lo, hi) == []
  {
    hide InRange;
    entries' := entries;
    var i := from;
    while i < |s|
      invariant from <= i <= |s|
      invariant entries + InRange(s[from..], lo, hi) == entries' + InRange(s[i..], lo, hi)
    {
      InRangeStep(s, i, lo, hi);
      if s[i].key == [] || Less(s[i].key, lo) {
        i := i + 1;
        continue;
      }
      if Less(hi, s[i].key) {
        PastEnd(s, i, rest, lo, hi);
        return entries', true;
      }
      entries' := entries' + [s[i]];
      i := i + 1;
    }
    EmptyRange(s[i..], lo, hi);
    done := false;
  }

  /** Where a scan stands: the leaf it has reached and the path above it. */
  ghost predicate At(pages: Store, h: nat, leaf: Node, path: seq<Frame>, trees: seq<Tree>, t: Tree) {
    && OnPages(pages, path, trees, h)
    && IsPiece(pages, t, h - |path|, leaf) && leaf.leaf && Sorted(Flat(t))
  }

  lemma {:induction false} SeekStep(
    pages: Store, t: Tree, h: nat, node: Node, i: nat, key: Bytes, path: seq<Frame>, trees: seq<Tree>, top: nat,
    before: seq<Entry>)
    requires IsPiece(pages, t, h, node) && t.TInner? && i < |t.kids| && h > 0 && Sorted(Flat(t))
             && AllBelow(before, key)
    requires Leq(FirstKey(t.kids[i]), key) && (i + 1 < |t.kids| ==> Less(key, FirstKey(t.kids[i + 1])))
    requires OnPages(pages, path, trees, top) && h == top - |path|
    ensures OnPages(pages, path + [Frame(node, i)], trees + [t], top)
    ensures AllBelow(before + FlatAll(t.kids[..i]), key)
    ensures before + Flat(t) + Rest(path, trees) ==
            (before + FlatAll(t.kids[..i])) + Flat(t.kids[i]) + Rest(path + [Frame(node, i)], trees + [t])
  {
    hide FlatAll, Wf, FirstKey, Sorted, Rest;
    PieceFacts(pages, t, h, node);
    InnerFacts(t, h);
    Descend(t.kids, h - 1, i, key);
    DescendRange(pages, t, h, node, i, path, trees, before);
  }

  /** Leaving the last frame, or moving it on to its next child. */
  lemma {:induction false} NextStep(pages: Store, path: seq<Frame>, trees: seq<Tree>, h: nat)
    requires OnPages(pages, path, trees, h) && path != []
    ensures var n := |path| - 1;
            var f, t := path[n], trees[n];
            && t.TInner? && |f.node.entries| == |t.kids|
            && OnPages(pages, path[..n], trees[..n], h)
            && if f.childIdx + 1 >= |t.kids| then Rest(path, trees) == Rest(path[..n], trees[..n])
               else
                 var path' := path[n := Frame(f.node, f.childIdx + 1)];
                 && OnPages(pages, path', trees, h)
                 && Rest(path, trees) == Flat(t.kids[f.childIdx + 1]) + Rest(path', trees)
  {
    hide Wf, Sorted, Flat, FlatAll, IsPiece, Rest;
    var n := |path| - 1;
    var f, t := path[n], trees[n];
    PieceNode(pages, t, h - n, f.node);
    if f.childIdx + 1 >= |t.kids| {
      RestPop(path, trees);
    } else {
      RestMove(path, trees);
    }
  }

  lemma {:induction false} PieceNode(pages: Store, t: Tree, h: nat, node: Node)
    requires IsPiece(pages, t, h, node) && t.TInner?
    ensures |node.entries| == |t.kids|
  {
  }

  lemma {:induction false} RestPop(path: seq<Frame>, trees: seq<Tree>)
    requires OnPath(path, trees) && path != []
    requires path[|path| - 1].childIdx + 1 >= |trees[|path| - 1].kids|
    ensures Rest(path, trees) == Rest(path[..|path| - 1], trees[..|path| - 1])
  {
    var n := |path| - 1;
    assert trees[n].kids[path[n].childIdx + 1..] == [];
  }

  lemma {:induction false} RestMove(path: seq<Frame>, trees: seq<Tree>)
    requires OnPath(path, trees) && path != []
    requires path[|path| - 1].childIdx + 1 < |trees[|path| - 1].kids|
    ensures var n := |path| - 1;
            var f := path[n];
            var path' := path[n := Frame(f.node, f.childIdx + 1)];
            OnPath(path', trees) && Rest(path, trees) == Flat(trees[n].kids[f.childIdx + 1]) + Rest(path', trees)
  {
    hide Flat, FlatAll;
    var n := |path| - 1;
    var path' := path[n := Frame(path[n].node, path[n].childIdx + 1)];
    assert path'[..n] == path[..n];
    KidsFrom(trees[n].kids, path[n].childIdx + 1);
  }

  lemma {:induction false} PushFirst(pages: Store, path: seq<Frame>, trees: seq<Tree>, h: nat, t: Tree, node: Node)
    requires OnPages(pages, path, trees, h) && |path| < h
    requires IsPiece(pages, t, h - |path|, node) && Sorted(Flat(t)) && !node.leaf
    ensures t.TInner? && t.kids != []
    ensures OnPages(pages, path + [Frame(node, 0)], trees + [t], h)
    ensures Flat(t) + Rest(path, trees) == Flat(t.kids[0]) + Rest(path + [Frame(node, 0)], trees + [t])
  {
    hide Wf, Sorted, FlatAll, Flat, Rest;
    PieceFacts(pages, t, h - |path|, node);
    InnerFacts(t, h - |path|);
    RestPush(path, trees, Frame(node, 0), t);
    KidsFrom(t.kids, 0);
    assert t.kids[0..] == t.kids;
  }

  lemma {:induction false} NoRest()
    ensures Rest([], []) == []
  {
  }

  lemma {:induction false} InnerIsHigh(pages: Store, t: Tree, h: nat, node: Node)
    requires IsPiece(pages, t, h, node) && !node.leaf
    ensures h > 0 && t.TInner? && t.kids != []
  {
    hide FlatAll, BagAll;
    InnerFacts(t, h);
  }

  lemma {:induction false} AtPath(pages: Store, h: nat, leaf: Node, path: seq<Frame>, trees: seq<Tree>, t: Tree)
    requires At(pages, h, leaf, path, trees, t)
    ensures OnPages(pages, path, trees, h)
  {
  }

  /** Nothing before the starting position is within the bounds. */
  lemma {:induction false} RangeStart(
    pages: Store, v: Version, root: nat, leaf: Node, idx: nat, path: seq<Frame>, trees: seq<Tree>, t: Tree,
    before: seq<Entry>,
    lo: Bytes, hi: Bytes)
    requires Holds(v, root, pages) && v.Rooted? && At(pages, v.height, leaf, path, trees, t)
    requires idx <= |leaf.entries| && AllBelow(before, lo) && AllBelow(leaf.entries[..idx], lo)
    requires VersionFlat(v) == before + Flat(t) + Rest(path, trees)
    ensures Sorted(leaf.entries + Rest(path, trees))
    ensures InRange(VersionFlat(v), lo, hi) ==
            [] + InRange(leaf.entries[idx..], lo, hi) + InRange(Rest(path, trees), lo, hi)
  {
    hide Flat, FlatAll, Wf, Matches, MatchesKids, InRange, Rest, NodeOf, FirstKey;
    LeafFlat(pages, t, v.height - |path|, leaf);
    var rest := Rest(path, trees);
    assert before + leaf.entries + rest == before + (leaf.entries + rest);
    SortedSlices(before, leaf.entries + rest);
    InRangeAppend(before, leaf.entries + rest, lo, hi);
    BelowIsOutside(before, lo, hi);
    InRangeAppend(leaf.entries, rest, lo, hi);
    assert leaf.entries == leaf.entries[..idx] + leaf.entries[idx..];
    InRangeAppend(leaf.entries[..idx], leaf.entries[idx..], lo, hi);
    BelowIsOutside(leaf.entries[..idx], lo, hi);
  }

  /** From one leaf to the next, the rest shrinks by that leaf. */
  lemma {:induction false} RangeNext(
    pages: Store, h: nat, s: seq<Entry>, rest: seq<Entry>, leaf: Node, path: seq<Frame>, trees: seq<Tree>, t: Tree,
    lo: Bytes, hi: Bytes)
    requires At(pages, h, leaf, path, trees, t) && Sorted(s + rest) && rest == Flat(t) + Rest(path, trees)
    ensures Sorted(leaf.entries + Rest(path, trees)) && |Rest(path, trees)| < |rest|
    ensures InRange(rest, lo, hi) == InRange(leaf.entries[0..], lo, hi) + InRange(Rest(path, trees), lo, hi)
  {
    hide Flat, FlatAll, Wf, Matches, MatchesKids, InRange, Rest, NodeOf, FirstKey;
    LeafFlat(pages, t, h - |path|, leaf);
    SortedSlices(s, rest);
    InRangeAppend(leaf.entries, Rest(path, trees), lo, hi);
    assert leaf.entries[0..] == leaf.entries;
  }
}
