/**
 Facts about one insertion or removal in a tree of pages: what happens to the entries,
 the separators, the sizes and the page ids when a child is replaced.
 */
module PageTreeSteps {
  import opened ByteStrings
  import opened Entries
  import opened PageNodes
  import opened PageTrees

  ghost function Sub(t: Tree, a: nat, b: nat): Tree
    requires a <= b <= |NodeOf(t).entries|
  {
    match t
    case TLeaf(_, entries) => TLeaf(0, entries[a..b])
    case TInner(_, kids) => TInner(0, kids[a..b])
  }

  ghost function WithId(t: Tree, id: nat): Tree {
    match t
    case TLeaf(_, entries) => TLeaf(id, entries)
    case TInner(_, kids) => TInner(id, kids)
  }

  ghost function KidBagAll(ts: seq<Tree>): multiset<nat> {
    if ts == [] then multiset{} else KidBagAll(ts[..|ts| - 1]) + KidBag(ts[|ts| - 1])
  }

  ghost predicate Pieces(t: Tree, h: nat, parts: seq<Node>, pieces: seq<Tree>) {
    && |pieces| == |parts|
    && (forall i :: 0 <= i < |parts| ==> Wf(pieces[i], h) && NodeOf(pieces[i]) == parts[i])
    && FlatAll(pieces) == Flat(t)
    && KidBagAll(pieces) == KidBag(t)
  }

  ghost function KidsOf(t: Tree): seq<Tree> {
    if t.TInner? then t.kids else []
  }

  /** The children of all the subtrees, from left to right. */
  ghost function AllKids(ts: seq<Tree>): seq<Tree> {
    if ts == [] then [] else AllKids(ts[..|ts| - 1]) + KidsOf(ts[|ts| - 1])
  }

  ghost predicate Within(t: Tree, piece: Tree) {
    forall kid :: kid in KidsOf(piece) ==> kid in KidsOf(t)
  }

  /** Every subtree's children are children of `t`. */
  ghost predicate KidsWithin(t: Tree, pieces: seq<Tree>) {
    forall i :: 0 <= i < |pieces| ==> Within(t, pieces[i])
  }

  lemma {:induction false} KidsSub(kids: seq<Tree>, a: nat, b: nat)
    requires a <= b <= |kids|
    ensures FlatAll(kids[0..b]) == FlatAll(kids[0..a]) + FlatAll(kids[a..b])
    ensures BagAll(kids[0..b]) == BagAll(kids[0..a]) + BagAll(kids[a..b])
    ensures Links(kids[a..b]) == Links(kids)[a..b]
  {
    assert kids[0..b] == kids[0..a] + kids[a..b];
    FlatAllAppend(kids[0..a], kids[a..b]);
    BagAllAppend(kids[0..a], kids[a..b]);
  }

  lemma {:induction false} SubSteps(t: Tree, a: nat, b: nat)
    requires a <= b <= |NodeOf(t).entries|
    ensures NodeOf(Sub(t, a, b)) == Node(NodeOf(t).leaf, NodeOf(t).entries[a..b])
    ensures Flat(Sub(t, 0, b)) == Flat(Sub(t, 0, a)) + Flat(Sub(t, a, b))
    ensures KidBag(Sub(t, 0, b)) == KidBag(Sub(t, 0, a)) + KidBag(Sub(t, a, b))
  {
    match t {
      case TLeaf(_, entries) =>
        assert entries[0..b] == entries[0..a] + entries[a..b];
      case TInner(_, kids) =>
        KidsSub(kids, a, b);
    }
  }

  lemma {:induction false} SubBody(t: Tree, h: nat, a: nat, b: nat, part: Node)
    requires a <= b <= |NodeOf(t).entries|
    requires Body(t, h) && Fits(part, NodeOf(t).leaf) && part.entries == NodeOf(t).entries[a..b]
    ensures Wf(Sub(t, a, b), h) && NodeOf(Sub(t, a, b)) == part
    ensures Within(t, Sub(t, a, b))
  {
    SubSteps(t, a, b);
  }

  /** A split of the root's page cuts the tree into well-formed subtrees. */
  lemma {:induction false} CutTree(t: Tree, h: nat, parts: seq<Node>, n: nat) returns (pieces: seq<Tree>)
    requires Body(t, h)
    requires n <= |NodeOf(t).entries| && Join(parts) == NodeOf(t).entries[..n]
    requires forall i :: 0 <= i < |parts| ==> Fits(parts[i], NodeOf(t).leaf)
    ensures Pieces(Sub(t, 0, n), h, parts, pieces) && KidsWithin(t, pieces)
    ensures AllKids(pieces) == KidsOf(Sub(t, 0, n))
    decreases |parts|
  {
    hide Flat, FlatAll, KidBag, KidBagAll, Wf, Body, Links, FirstKey, Join, Pieces, Sub, NodeOf, AllKids, KidsOf;
    if parts == [] {
      pieces := [];
      NoPieces(t, h, n);
    } else {
      var part := parts[|parts| - 1];
      var m := CutPoint(NodeOf(t).entries, parts, n);
      var front := CutTree(t, h, parts[..|parts| - 1], m);
      var last := Sub(t, m, n);
      SubSteps(t, m, n);
      SubBody(t, h, m, n, part);
      pieces := front + [last];
      assert parts == parts[..|parts| - 1] + [part];
      PiecesAppend(Sub(t, 0, m), h, parts[..|parts| - 1], front, Sub(t, 0, n), part, last);
      KidsAppend(t, m, n, front);
    }
  }

  lemma {:induction false} KidsAppend(t: Tree, m: nat, n: nat, front: seq<Tree>)
    requires m <= n <= |NodeOf(t).entries| && AllKids(front) == KidsOf(Sub(t, 0, m))
    ensures AllKids(front + [Sub(t, m, n)]) == KidsOf(Sub(t, 0, n))
  {
    var last := Sub(t, m, n);
    assert (front + [last])[..|front|] == front;
  }

  lemma {:induction false} NoPieces(t: Tree, h: nat, n: nat)
    requires n <= |NodeOf(t).entries| && Join([]) == NodeOf(t).entries[..n]
    ensures Pieces(Sub(t, 0, n), h, [], []) && KidsWithin(t, []) && AllKids([]) == KidsOf(Sub(t, 0, n))
  {
    assert n == 0;
  }

  lemma {:induction false} PiecesAppend(
    u: Tree, h: nat, parts: seq<Node>, pieces: seq<Tree>, u': Tree, part: Node, last: Tree)
    requires Pieces(u, h, parts, pieces) && Wf(last, h) && NodeOf(last) == part
    requires Flat(u') == Flat(u) + Flat(last) && KidBag(u') == KidBag(u) + KidBag(last)
    ensures Pieces(u', h, parts + [part], pieces + [last])
  {
    hide Flat, FlatAll, KidBag, KidBagAll, Wf, NodeOf;
    FlatAllAppend(pieces, [last]);
    Singletons(last);
    KidBagAllStep(pieces, last);
  }

  lemma {:induction false} CutPoint(entries: seq<Entry>, parts: seq<Node>, n: nat) returns (m: nat)
    requires parts != [] && n <= |entries| && Join(parts) == entries[..n]
    ensures m <= n && Join(parts[..|parts| - 1]) == entries[..m] && parts[|parts| - 1].entries == entries[m..n]
  {
    var part := parts[|parts| - 1].entries;
    m := n - |part|;
    assert entries[..n][..m] == Join(parts[..|parts| - 1]);
    assert entries[..n][m..] == part;
    assert entries[..m] == entries[..n][..m];
    assert entries[m..n] == entries[..n][m..];
  }

  lemma {:induction false} WholeSub(t: Tree)
    ensures var n := |NodeOf(t).entries|;
            Flat(Sub(t, 0, n)) == Flat(t) && KidBag(Sub(t, 0, n)) == KidBag(t)
  {
    match t {
      case TLeaf(_, entries) =>
        assert entries[0..|entries|] == entries;
      case TInner(_, kids) =>
        assert kids[0..|kids|] == kids;
    }
  }

  /** Placing `key` in a leaf at the position found by the search. */
  lemma {:induction false} LeafPut(s: seq<Entry>, n: nat, key: Bytes, value: Bytes)
    requires Sorted(s) && n == UpperBound(s, key)
    ensures var e := Entry(key, value, 0);
            Put(s, key, value) == if n > 0 && s[n - 1].key == key then s[n - 1 := e] else s[..n] + [e] + s[n..]
  {
    hide Put, UpperBound, Sorted;
    BelowUpper(s, n, key);
    if n > 0 && s[n - 1].key == key {
      PutHere(s[..n - 1], s[n - 1], s[n..], key, value);
      UpdateAt(s, n - 1, Entry(key, value, 0));
    } else {
      PutBetween(s[..n], s[n..], key, value);
      assert s == s[..n] + s[n..];
    }
  }

  lemma {:induction false} UpdateAt(s: seq<Entry>, i: nat, e: Entry)
    requires i < |s|
    ensures s == s[..i] + ([s[i]] + s[i + 1..])
    ensures s[i := e] == s[..i] + ([e] + s[i + 1..])
  {
  }

  lemma {:induction false} BelowUpper(s: seq<Entry>, n: nat, key: Bytes)
    requires Sorted(s) && n == UpperBound(s, key)
    ensures if n > 0 && s[n - 1].key == key then AllBelow(s[..n - 1], key) else AllBelow(s[..n], key)
    ensures AllAbove(s[n..], key)
  {
    hide UpperBound;
    StrictTotalOrder();
  }

  lemma {:induction false} PutBetween(a: seq<Entry>, b: seq<Entry>, key: Bytes, value: Bytes)
    requires AllBelow(a, key) && AllAbove(b, key)
    ensures Put(a + b, key, value) == a + [Entry(key, value, 0)] + b
  {
    PutMiddle(a, [], b, key, value);
    assert a + [] + b == a + b;
  }

  lemma {:induction false} PutHere(a: seq<Entry>, e: Entry, b: seq<Entry>, key: Bytes, value: Bytes)
    requires AllBelow(a, key) && e.key == key
    ensures Put(a + ([e] + b), key, value) == a + ([Entry(key, value, 0)] + b)
  {
    StrictTotalOrder();
    PutAfter(a, [e] + b, key, value);
    assert ([e] + b)[1..] == b;
  }

  lemma {:induction false} LeafPutBytes(s: seq<Entry>, key: Bytes, value: Bytes)
    ensures Payload(Put(s, key, value)) <= Payload(s) + EntryBytes(Entry(key, value, 0))
  {
    var e := Entry(key, value, 0);
    if s == [] {
      PayloadSingle(e);
    } else {
      assert ([e] + s[1..])[1..] == s[1..];
      assert ([e] + s)[1..] == s;
      if Less(s[0].key, key) {
        LeafPutBytes(s[1..], key, value);
        assert ([s[0]] + Put(s[1..], key, value))[1..] == Put(s[1..], key, value);
      }
    }
  }

  /** Inserting at or after the first key leaves the first key in place. */
  lemma {:induction false} PutFirst(s: seq<Entry>, key: Bytes, value: Bytes)
    requires s != [] && Leq(s[0].key, key)
    ensures Put(s, key, value) != [] && Put(s, key, value)[0].key == s[0].key
  {
    StrictTotalOrder();
  }

  /** Replacing child `i`, in which the entries `new` stand for the old ones, by `pieces`. */
  lemma {:induction false} PutInChild(kids: seq<Tree>, h: nat, i: nat, key: Bytes, value: Bytes, pieces: seq<Tree>)
    requires i < |kids|
    requires forall j :: 0 <= j < |kids| ==> Wf(kids[j], h)
    requires Sorted(FlatAll(kids))
    requires Leq(FirstKey(kids[i]), key)
    requires i + 1 < |kids| ==> Less(key, FirstKey(kids[i + 1]))
    requires FlatAll(pieces) == Put(Flat(kids[i]), key, value)
    ensures FlatAll(kids[..i] + pieces + kids[i + 1..]) == Put(FlatAll(kids), key, value)
  {
    var a, b, c := FlatAll(kids[..i]), Flat(kids[i]), FlatAll(kids[i + 1..]);
    Descend(kids, h, i, key);
    PutMiddle(a, b, c, key, value);
    Splice(kids[..i], pieces, kids[i + 1..]);
  }

  /** One child's link gives way to those of at most three pieces with the same first key. */
  lemma {:induction false} LinkBytes(kids: seq<Tree>, h: nat, i: nat, pieces: seq<Tree>)
    requires i < |kids| && 1 <= |pieces| <= 3
    requires forall j :: 0 <= j < |pieces| ==> Wf(pieces[j], h)
    requires FirstKey(pieces[0]) == FirstKey(kids[i])
    ensures Payload(Links(kids[..i] + pieces + kids[i + 1..])) <= Payload(Links(kids)) + 2 * (14 + MAX_KEY_SIZE)
  {
    SplitAt(kids, i);
    Splice(kids[..i], pieces, kids[i + 1..]);
    var a, c := Links(kids[..i]), Links(kids[i + 1..]);
    var old1, new1 := [LinkOf(kids[i])], Links(pieces);
    PayloadAppend(a + old1, c);
    PayloadAppend(a, old1);
    PayloadAppend(a + new1, c);
    PayloadAppend(a, new1);
    PayloadSingle(LinkOf(kids[i]));
    assert new1 == [new1[0]] + new1[1..];
    PayloadAppend([new1[0]], new1[1..]);
    PayloadSingle(new1[0]);
    forall j | 0 <= j < |new1[1..]| ensures EntryBytes(new1[1..][j]) <= 14 + MAX_KEY_SIZE {
      FirstEntry(pieces[j + 1], h);
    }
    PayloadBound(new1[1..], 14 + MAX_KEY_SIZE);
  }

  lemma {:induction false} WithIdFacts(t: Tree, h: nat, id: nat)
    requires Wf(t, h)
    ensures var u := WithId(t, id);
            && u.id == id && Wf(u, h) && NodeOf(u) == NodeOf(t) && FirstKey(u) == FirstKey(t)
            && Flat(u) == Flat(t) && Bag(u) == KidBag(t) + multiset{id}
  {
  }

  ghost predicate Placed(pages: Store, piece: Tree, t: Tree) {
    t.id != 0 && t == WithId(piece, t.id) && Matches(pages, t)
  }

  lemma {:induction false} FirstPageKey(t: Tree, h: nat)
    requires Wf(t, h)
    ensures NodeOf(t).entries != [] && NodeOf(t).entries[0].key == FirstKey(t)
  {
  }

  lemma {:induction false} KidBagAllStep(ts: seq<Tree>, t: Tree)
    ensures KidBagAll(ts + [t]) == KidBagAll(ts) + KidBag(t)
  {
    assert (ts + [t])[..|ts|] == ts;
  }

  /** Subtrees with their pages stored: what one more stored subtree adds. */
  lemma {:induction false} PlaceStep(pieces: seq<Tree>, placed: seq<Tree>, piece: Tree, h: nat, id: nat, ids: seq<nat>)
    requires Wf(piece, h)
    requires FlatAll(placed) == FlatAll(pieces)
    requires BagAll(placed) == KidBagAll(pieces) + multiset(ids)
    ensures var placed' := placed + [WithId(piece, id)];
            && FlatAll(placed') == FlatAll(pieces + [piece])
            && BagAll(placed') == KidBagAll(pieces + [piece]) + multiset(ids + [id])
            && Links(placed') == Links(placed) + [Entry(NodeOf(piece).entries[0].key, [], id)]
  {
    hide Flat, FlatAll, Bag, KidBag, BagAll, KidBagAll, Wf, FirstKey, NodeOf, WithId;
    var u := WithId(piece, id);
    WithIdFacts(piece, h, id);
    FirstPageKey(piece, h);
    FlatAllAppend(placed, [u]);
    FlatAllAppend(pieces, [piece]);
    BagAllAppend(placed, [u]);
    Singletons(u);
    Singletons(piece);
    LinksAppend(placed, [u]);
    KidBagAllStep(pieces, piece);
  }

  /** The parent after its children from `i` to `n` have given way to stored subtrees. */
  lemma {:induction false} Assemble(pages: Store, t: Tree, h: nat, i: nat, n: nat, placed: seq<Tree>)
    requires t.TInner? && Body(t, h) && MatchesKids(pages, t)
    requires i <= n <= |t.kids|
    requires forall j :: 0 <= j < |placed| ==> Wf(placed[j], h - 1) && placed[j].id != 0 && Matches(pages, placed[j])
    ensures var t' := TInner(0, t.kids[..i] + placed + t.kids[n..]);
            && Body(t', h) && MatchesKids(pages, t')
            && Flat(t') == FlatAll(t.kids[..i]) + FlatAll(placed) + FlatAll(t.kids[n..])
            && KidBag(t') == BagAll(t.kids[..i]) + BagAll(placed) + BagAll(t.kids[n..])
            && NodeOf(t').entries == Links(t.kids)[..i] + Links(placed) + Links(t.kids)[n..]
  {
    hide FlatAll, BagAll, Wf, Matches, FirstKey;
    Splice(t.kids[..i], placed, t.kids[n..]);
    LinksSlice(t.kids, 0, i);
    LinksSlice(t.kids, n, |t.kids|);
  }

  lemma {:induction false} LinksSlice(kids: seq<Tree>, a: nat, b: nat)
    requires a <= b <= |kids|
    ensures Links(kids[a..b]) == Links(kids)[a..b]
  {
    hide FirstKey;
  }

  /** Links in key order are accepted by an internal node. */
  lemma {:induction false} LinksValid(kids: seq<Tree>, h: nat)
    requires forall j :: 0 <= j < |kids| ==> Wf(kids[j], h) && kids[j].id != 0
    requires Sorted(FlatAll(kids))
    ensures forall j :: 0 <= j < |kids| ==> ValidEntry(false, j, Links(kids)[j])
  {
    LinksSorted(kids, h);
    var links := Links(kids);
    forall j | 0 <= j < |kids| ensures ValidEntry(false, j, links[j]) {
      FirstEntry(kids[j], h);
      if j > 0 {
        assert Less(links[0].key, links[j].key);
      }
    }
  }

  lemma {:induction false} InnerFacts(t: Tree, h: nat)
    requires t.TInner? && Wf(t, h)
    ensures h > 0 && Body(t, h) && NodeBytes(NodeOf(t)) <= PAGE_SIZE && t.kids != []
    ensures forall i :: 0 <= i < |t.kids| ==> Wf(t.kids[i], h - 1) && t.kids[i].id != 0
    ensures Flat(t) == FlatAll(t.kids) && KidBag(t) == BagAll(t.kids) && FirstKey(t) == FirstKey(t.kids[0])
    ensures NodeOf(t) == Node(false, Links(t.kids))
  {
  }

  /** A node that one insertion has enlarged still splits into at most three pages. */
  lemma {:induction false} EnlargedSplits(t: Tree, h: nat)
    requires Body(t, h)
    requires NodeBytes(NodeOf(t)) <= PAGE_SIZE + 14 + MAX_KEY_SIZE + MAX_VALUE_SIZE
    ensures Splittable(NodeOf(t))
  {
    hide Payload, Wf;
    if t.TInner? {
      forall i | 0 <= i < |t.kids| ensures |FirstKey(t.kids[i])| <= MAX_KEY_SIZE {
        WfBody(t.kids[i], h - 1);
        FirstEntry(t.kids[i], h - 1);
      }
    }
  }

  lemma {:induction false} WfBody(t: Tree, h: nat)
    requires Wf(t, h)
    ensures Body(t, h) && Occupied(t) && NodeBytes(NodeOf(t)) <= PAGE_SIZE
  {
  }

  /** The whole of a node's split, as subtrees. */
  lemma {:induction false} CutNode(t: Tree, h: nat, parts: seq<Node>) returns (pieces: seq<Tree>)
    requires Body(t, h) && Splits(NodeOf(t), parts)
    ensures Pieces(t, h, parts, pieces) && KidsWithin(t, pieces)
    ensures 1 <= |pieces| <= 3 && |pieces| == |parts|
    ensures AllKids(pieces) == KidsOf(t)
  {
    hide Flat, KidBag, KidBagAll, FlatAll, Wf, Body, FirstKey, Links;
    var entries := NodeOf(t).entries;
    assert entries[..|entries|] == entries;
    pieces := CutTree(t, h, parts, |entries|);
    WholeSub(t);
  }

  lemma {:induction false} PiecesMatch(pages: Store, t: Tree, pieces: seq<Tree>)
    requires MatchesKids(pages, t) && KidsWithin(t, pieces)
    ensures forall i :: 0 <= i < |pieces| ==> MatchesKids(pages, pieces[i])
  {
    hide Matches;
    forall i | 0 <= i < |pieces| ensures MatchesKids(pages, pieces[i]) {
      if pieces[i].TInner? {
        forall j | 0 <= j < |pieces[i].kids| ensures Matches(pages, pieces[i].kids[j]) {
          assert pieces[i].kids[j] in KidsOf(pieces[i]);
          assert pieces[i].kids[j] in KidsOf(t);
        }
      }
    }
  }

  // ----- Removal

  /** Looking for `key` in a leaf at the position found by the search, and removing it. */
  lemma {:induction false} LeafRemove(s: seq<Entry>, n: nat, key: Bytes)
    requires Sorted(s) && n == UpperBound(s, key) && n > 0
    ensures s[n - 1].key == key ==> HasKey(s, key) && Remove(s, key) == s[..n - 1] + s[n..]
    ensures s[n - 1].key != key ==> !HasKey(s, key)
  {
    StrictTotalOrder();
    if s[n - 1].key == key {
      assert s == s[..n - 1] + ([s[n - 1]] + s[n..]);
      RemoveAfter(s[..n - 1], [s[n - 1]] + s[n..], key);
      assert ([s[n - 1]] + s[n..])[1..] == s[n..];
    } else {
      forall i | 0 <= i < |s| ensures s[i].key != key {
        if i >= n {
          assert i == n || Less(s[n].key, s[i].key);
        } else if i < n - 1 {
          assert Less(s[i].key, s[n - 1].key);
        }
      }
    }
  }

  lemma {:induction false} RemovePayload(s: seq<Entry>, i: nat)
    requires i < |s|
    ensures Payload(s[..i] + s[i + 1..]) <= Payload(s)
  {
    assert s == s[..i] + ([s[i]] + s[i + 1..]);
    PayloadAppend(s[..i], [s[i]] + s[i + 1..]);
    PayloadAppend([s[i]], s[i + 1..]);
    PayloadAppend(s[..i], s[i + 1..]);
  }

  /** A key outside the child chosen for it is nowhere in the parent. */
  lemma {:induction false} MissingUp(kids: seq<Tree>, h: nat, i: nat, key: Bytes)
    requires i < |kids|
    requires forall j :: 0 <= j < |kids| ==> Wf(kids[j], h)
    requires Sorted(FlatAll(kids))
    requires Leq(FirstKey(kids[i]), key)
    requires i + 1 < |kids| ==> Less(key, FirstKey(kids[i + 1]))
    ensures HasKey(FlatAll(kids), key) <==> HasKey(Flat(kids[i]), key)
    ensures Remove(FlatAll(kids), key) ==
            FlatAll(kids[..i]) + Remove(Flat(kids[i]), key) + FlatAll(kids[i + 1..])
  {
    hide Flat, FlatAll, Wf, FirstKey, Sorted, Remove;
    Descend(kids, h, i, key);
    HasMiddle(FlatAll(kids[..i]), Flat(kids[i]), FlatAll(kids[i + 1..]), key);
    RemoveMiddle(FlatAll(kids[..i]), Flat(kids[i]), FlatAll(kids[i + 1..]), key);
  }

  /** Two neighbours in one page. */
  ghost function MergeTree(a: Tree, b: Tree): Tree
    requires a.TLeaf? <==> b.TLeaf?
  {
    if a.TLeaf? then TLeaf(0, a.entries + b.entries) else TInner(0, a.kids + b.kids)
  }

  lemma {:induction false} MergeFacts(a: Tree, b: Tree, h: nat)
    requires Body(a, h) && Body(b, h)
    ensures a.TLeaf? <==> b.TLeaf?
    ensures var m := MergeTree(a, b);
            && Body(m, h) && Flat(m) == Flat(a) + Flat(b) && KidBag(m) == KidBag(a) + KidBag(b)
            && NodeOf(m) == Node(NodeOf(a).leaf, NodeOf(a).entries + NodeOf(b).entries)
  {
    if a.TInner? {
      FlatAllAppend(a.kids, b.kids);
      BagAllAppend(a.kids, b.kids);
      LinksAppend(a.kids, b.kids);
    }
  }

  lemma {:induction false} MergeMatches(pages: Store, a: Tree, b: Tree)
    requires (a.TLeaf? <==> b.TLeaf?) && MatchesKids(pages, a) && MatchesKids(pages, b)
    ensures MatchesKids(pages, MergeTree(a, b))
  {
    hide Matches;
  }
}
