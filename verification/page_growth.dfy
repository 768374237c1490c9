/**
 How many pages an insertion takes. The tree before it settles what every page on the path
 will hold, and into how many pages each of them will be split.
 */
module PageGrowth {
  import opened ByteStrings
  import opened Entries
  import opened PageNodes
  import opened PageTrees
  import opened PageTreeSteps
  import opened PageManagers
  import opened PageUpdates
  import opened PageRemoval

  // ----- The split of a page

  ghost predicate IsSplit(leaf: bool, es: seq<Entry>, parts: seq<Node>) {
    AllFit(parts, leaf) && Greedy(parts) && Join(parts) == es
  }

  ghost function SplitOf(leaf: bool, es: seq<Entry>): seq<Node> {
    if exists parts :: IsSplit(leaf, es, parts) then var parts :| IsSplit(leaf, es, parts); parts else []
  }

  lemma {:induction false} SplitIs(leaf: bool, es: seq<Entry>, parts: seq<Node>)
    requires IsSplit(leaf, es, parts)
    ensures SplitOf(leaf, es) == parts
  {
    hide AllFit, Greedy, Join;
    GreedyOnce(leaf, SplitOf(leaf, es), parts);
  }

  function BareParts(parts: seq<Node>): (r: seq<Node>)
    ensures |r| == |parts|
  {
    seq(|parts|, i requires 0 <= i < |parts| => Node(parts[i].leaf, Bare(parts[i].entries)))
  }

  lemma {:induction false} BareJoin(parts: seq<Node>)
    ensures Join(BareParts(parts)) == Bare(Join(parts))
  {
    if parts != [] {
      var init, last := parts[..|parts| - 1], parts[|parts| - 1];
      BareJoin(init);
      assert BareParts(parts)[..|parts| - 1] == BareParts(init);
      BareAppend(Join(init), last.entries);
    }
  }

  /** Pointers make no difference to a split. */
  lemma {:induction false} BareSplit(leaf: bool, es: seq<Entry>, parts: seq<Node>)
    requires IsSplit(leaf, es, parts)
    ensures SplitOf(leaf, Bare(es)) == BareParts(parts)
  {
    hide Payload, Join;
    var bare := BareParts(parts);
    forall i | 0 <= i < |parts|
      ensures Fits(bare[i], leaf) && NodeBytes(bare[i]) == NodeBytes(parts[i])
    {
      assert Fits(parts[i], leaf);
      BarePayload(parts[i].entries);
    }
    forall i, j | 0 <= i < |bare| && j == i + 1 < |bare|
      ensures NoRoom(bare[i], bare[j])
    {
      assert NoRoom(parts[i], parts[j]);
    }
    BareJoin(parts);
    SplitIs(leaf, Bare(es), bare);
  }

  /** A page within the bound for splitting has a split, into at most three. */
  lemma {:induction false} SplitExists(leaf: bool, es: seq<Entry>)
    requires es != [] && Splittable(Node(leaf, es))
    ensures IsSplit(leaf, es, SplitOf(leaf, es)) && 1 <= |SplitOf(leaf, es)| <= 3
  {
    hide Payload, Join, Greedy, AllFit;
    var parts := GreedyExists(leaf, es);
    assert IsSplit(leaf, es, parts);
    SplitIs(leaf, es, parts);
    GreedyThree(leaf, parts);
    JoinNone();
  }

  // ----- What an insertion leaves on a page, and what it takes

  function Heads(parts: seq<Node>): (r: seq<Entry>)
    ensures |r| == |parts|
  {
    seq(|parts|, i requires 0 <= i < |parts| =>
      if parts[i].entries == [] then Entry([], [], 0) else Head(parts[i].entries))
  }

  /** The entries of the top page of `t`, before it is split, once `key` is bound to `value`. */
  ghost function Grow(t: Tree, key: Bytes, value: Bytes): seq<Entry> {
    match t
    case TLeaf(_, entries) => Bare(Put(entries, key, value))
    case TInner(_, kids) =>
      var links, n := Bare(Links(kids)), UpperBound(Links(kids), key);
      if n == 0 then links
      else links[..n - 1] + Heads(SplitOf(kids[n - 1].TLeaf?, Grow(kids[n - 1], key, value))) + links[n..]
  }

  /** How many pages the insertion stores below the top page of `t`. */
  ghost function GrowCost(t: Tree, key: Bytes, value: Bytes): nat {
    match t
    case TLeaf(_, _) => 0
    case TInner(_, kids) =>
      var n := UpperBound(Links(kids), key);
      if n == 0 then 0
      else GrowCost(kids[n - 1], key, value) + |SplitOf(kids[n - 1].TLeaf?, Grow(kids[n - 1], key, value))|
  }

  function RootCost(parts: nat): nat {
    if parts == 1 then 1 else parts + 1
  }

  /** How many pages binding `key` to `value` takes. */
  ghost function InsertPages(v: Version, key: Bytes, value: Bytes): nat {
    match v
    case Empty => 1
    case Rooted(t, _) => GrowCost(t, key, value) + RootCost(|SplitOf(t.TLeaf?, Grow(t, key, value))|)
  }

  /** Between one page and three pages a level, and one for a new root. */
  lemma {:induction false} InsertPagesBound(v: Version, key: Bytes, value: Bytes)
    requires SoundVersion(v) && Storable(key, value)
    ensures HeightOf(v) + 1 <= InsertPages(v, key, value) <= 3 * (HeightOf(v) + 1) + 1
  {
    hide Flat, Wf, Sorted, Less, Grow, SplitOf, FirstKey, Unshared;
    if v.Rooted? {
      LeastKey(key);
      GrowBounds(v.tree, v.height, key, value);
    }
  }

  /** An enlarged page starts with the same key and can be split. */
  ghost predicate Enlarged(t: Tree, es: seq<Entry>) {
    && es != [] && es[0].key == FirstKey(t)
    && Splittable(Node(t.TLeaf?, es))
    && forall i :: 0 <= i < |es| ==> |es[i].key| <= MAX_KEY_SIZE
  }

  lemma {:induction false} GrowBounds(t: Tree, h: nat, key: Bytes, value: Bytes)
    requires Wf(t, h) && Sorted(Flat(t)) && Leq(FirstKey(t), key) && Storable(key, value)
    ensures Enlarged(t, Grow(t, key, value))
    ensures var parts := SplitOf(t.TLeaf?, Grow(t, key, value));
            IsSplit(t.TLeaf?, Grow(t, key, value), parts) && 1 <= |parts| <= 3
    ensures h <= GrowCost(t, key, value) <= 3 * h
    decreases t
  {
    hide Wf, Sorted, Less, FirstKey, Flat, IsSplit, Payload, Enlarged;
    if t.TLeaf? {
      LeafGrows(t, h, key, value);
    } else {
      InnerFacts(t, h);
      var n := PathChild(t, h, key);
      var kid := t.kids[n - 1];
      GrowBounds(kid, h - 1, key, value);
      InnerGrows(t, h, n, key, SplitOf(kid.TLeaf?, Grow(kid, key, value)), Grow(kid, key, value));
    }
    EnlargedFacts(t, Grow(t, key, value));
    SplitExists(t.TLeaf?, Grow(t, key, value));
  }

  lemma {:induction false} EnlargedFacts(t: Tree, es: seq<Entry>)
    requires Enlarged(t, es)
    ensures es != [] && Splittable(Node(t.TLeaf?, es))
  {
  }

  lemma {:induction false} LeafGrows(t: Tree, h: nat, key: Bytes, value: Bytes)
    requires t.TLeaf? && Wf(t, h) && Leq(FirstKey(t), key) && Storable(key, value)
    ensures h == 0 && Enlarged(t, Grow(t, key, value))
  {
    hide Less, Payload;
    var s, r := t.entries, Put(t.entries, key, value);
    PutFirst(s, key, value);
    PutMembers(s, key, value);
    LeafPutBytes(s, key, value);
    BarePayload(r);
    forall i | 0 <= i < |r|
      ensures |r[i].key| <= MAX_KEY_SIZE && |r[i].value| <= MAX_VALUE_SIZE
    {
      assert r[i] in r;
    }
  }

  lemma {:induction false} HeadBytes(parts: seq<Node>, leaf: bool, es: seq<Entry>, i: nat)
    requires IsSplit(leaf, es, parts) && i < |parts|
    requires forall j :: 0 <= j < |es| ==> |es[j].key| <= MAX_KEY_SIZE
    ensures parts[i].entries != [] && |Heads(parts)[i].key| <= MAX_KEY_SIZE
    ensures i == 0 ==> es != [] && Heads(parts)[0].key == es[0].key
    ensures Heads(parts)[i].value == []
  {
    hide Payload, Greedy, Join;
    assert Fits(parts[i], leaf);
    JoinMember(parts, i);
    assert parts[i].entries[0] in es;
    if i == 0 {
      JoinFront(parts);
    }
  }

  lemma {:induction false} JoinMember(parts: seq<Node>, i: nat)
    requires i < |parts|
    ensures forall e :: e in parts[i].entries ==> e in Join(parts)
  {
    if i < |parts| - 1 {
      assert parts[..|parts| - 1][i] == parts[i];
      JoinMember(parts[..|parts| - 1], i);
    }
  }

  lemma {:induction false} InnerGrows(t: Tree, h: nat, n: nat, key: Bytes, parts: seq<Node>, es: seq<Entry>)
    requires t.TInner? && Wf(t, h) && 0 < n <= |t.kids| && Enlarged(t.kids[n - 1], es)
    requires IsSplit(t.kids[n - 1].TLeaf?, es, parts) && 1 <= |parts| <= 3
    ensures var links := Bare(Links(t.kids)); Enlarged(t, links[..n - 1] + Heads(parts) + links[n..])
  {
    hide Wf, Payload, FirstKey, IsSplit;
    InnerFacts(t, h);
    var links, leaf := Bare(Links(t.kids)), t.kids[n - 1].TLeaf?;
    var r := links[..n - 1] + Heads(parts) + links[n..];
    forall i | 0 <= i < |parts|
      ensures |Heads(parts)[i].key| <= MAX_KEY_SIZE && Heads(parts)[i].value == []
    {
      HeadBytes(parts, leaf, es, i);
    }
    HeadBytes(parts, leaf, es, 0);
    forall i | 0 <= i < |t.kids|
      ensures |links[i].key| <= MAX_KEY_SIZE && links[i].value == [] && links[i].key == FirstKey(t.kids[i])
    {
      KidKey(t, h, i);
    }
    BarePayload(Links(t.kids));
    assert links == links[..n - 1] + [links[n - 1]] + links[n..];
    SwapPayload(links[..n - 1], links[n - 1], Heads(parts), links[n..]);
  }

  /** At most three links for one, the first of which has the same key. */
  lemma {:induction false} SwapPayload(a: seq<Entry>, e: Entry, links: seq<Entry>, b: seq<Entry>)
    requires 1 <= |links| <= 3 && links[0].key == e.key
    requires forall i :: 0 <= i < |links| ==> |links[i].key| <= MAX_KEY_SIZE && links[i].value == []
    ensures Payload(a + links + b) <= Payload(a + [e] + b) + 2 * (14 + MAX_KEY_SIZE)
  {
    hide Payload;
    PayloadAppend(a + links, b);
    PayloadAppend(a, links);
    PayloadAppend(a + [e], b);
    PayloadAppend(a, [e]);
    PayloadSingle(e);
    assert links == [links[0]] + links[1..];
    PayloadAppend([links[0]], links[1..]);
    PayloadSingle(links[0]);
    PayloadBound(links[1..], 14 + MAX_KEY_SIZE);
  }

  // ----- Steps of an insertion

  lemma {:induction false} LeafCost(a: Snap, t: Tree, h: nat, node: Node, key: Bytes, value: Bytes)
    requires IsPiece(a.pages, t, h, node) && node.leaf && Sorted(Flat(t)) && Leq(FirstKey(t), key)
             && Storable(key, value)
    ensures UpperBound(node.entries, key) > 0 && Costs(a, a, false, GrowCost(t, key, value))
    ensures Bare(LeafEntries(node.entries, UpperBound(node.entries, key) - 1, key, value)) == Grow(t, key, value)
  {
    hide Bare, Put;
    LeafInserted(a.pages, t, h, node, key, value);
    assert t == TLeaf(t.id, node.entries);
  }

  lemma {:induction false} GrowMore(a: Snap, b: Snap, t: Tree, idx: nat, key: Bytes, value: Bytes)
    requires t.TInner? && idx < |t.kids| && UpperBound(NodeOf(t).entries, key) == idx + 1
    requires Costs(a, b, true, GrowCost(t.kids[idx], key, value))
    ensures Costs(a, b, true, GrowCost(t, key, value))
  {
    hide Grow, SplitOf;
  }

  lemma {:induction false} PartsCount(node: Node, parts: seq<Node>)
    requires Splits(node, parts) && Greedy(parts)
    ensures SplitOf(node.leaf, Bare(node.entries)) == BareParts(parts)
  {
    hide Greedy, Join, SplitOf;
    assert IsSplit(node.leaf, node.entries, parts);
    BareSplit(node.leaf, node.entries, parts);
  }

  lemma {:induction false} BareHeads(parts: seq<Node>)
    ensures Heads(BareParts(parts)) == Heads(parts)
  {
  }

  /** One level up: the links to the parts take the place of the link to the child. */
  lemma {:induction false} GrowStep(t: Tree, h: nat, idx: nat, key: Bytes, value: Bytes, c': Tree, parts: seq<Node>)
    requires t.TInner? && Wf(t, h) && idx < |t.kids| && UpperBound(NodeOf(t).entries, key) == idx + 1
    requires h > 0 && Body(c', h - 1) && Bare(NodeOf(c').entries) == Grow(t.kids[idx], key, value)
    requires Splits(NodeOf(c'), parts) && Greedy(parts)
    ensures GrowCost(t, key, value) == GrowCost(t.kids[idx], key, value) + |parts|
    ensures Grow(t, key, value) == Bare(NodeOf(t).entries)[..idx] + Heads(parts) + Bare(NodeOf(t).entries)[idx + 1..]
  {
    hide Greedy, Splits, SplitOf, Bare, Heads;
    PartsCount(NodeOf(c'), parts);
    BareHeads(parts);
    SameKind(t.kids[idx], c', h - 1);
  }

  lemma {:induction false} SameKind(t: Tree, c': Tree, h: nat)
    requires Wf(t, h) && Body(c', h)
    ensures t.TLeaf? == c'.TLeaf? == NodeOf(c').leaf
  {
  }

  lemma {:induction false} RelinkedBare(
    a: Snap, b: Snap, h: nat, parent: seq<Entry>, idx: nat, children: seq<Node>, pieces: seq<Tree>, placed: seq<Tree>)
    requires idx < |parent| && |children| == |pieces| && Stored(a, b, pieces, placed)
    requires forall i :: 0 <= i < |pieces| ==> IsPiece(a.pages, pieces[i], h, children[i])
    ensures Bare(parent[..idx] + Links(placed) + parent[idx + 1..]) ==
            Bare(parent)[..idx] + Heads(children) + Bare(parent)[idx + 1..]
  {
    hide FirstKey, IsPiece, FlatAll, BagAll, KidBagAll, Matches, WithId;
    forall i | 0 <= i < |children|
      ensures Bare(Links(placed))[i] == Heads(children)[i]
    {
      PieceFacts(a.pages, pieces[i], h, children[i]);
      PlacedKey(b.pages, pieces[i], placed[i]);
    }
    assert Bare(Links(placed)) == Heads(children);
    BareSlices(parent, idx, idx + 1);
    BareAppend(parent[..idx] + Links(placed), parent[idx + 1..]);
    BareAppend(parent[..idx], Links(placed));
  }

  lemma {:induction false} PlacedKey(pages: Store, piece: Tree, placed: Tree)
    requires Placed(pages, piece, placed)
    ensures FirstKey(placed) == FirstKey(piece)
  {
  }

  /** The pages of an insertion: those below the root, and those for the root itself. */
  lemma {:induction false} InsertTotal(v: Version, key: Bytes, value: Bytes)
    ensures v.Empty? ==> InsertPages(v, key, value) == 1
    ensures v.Rooted? ==>
              InsertPages(v, key, value) ==
              GrowCost(v.tree, key, value) + RootCost(|SplitOf(v.tree.TLeaf?, Grow(v.tree, key, value))|)
  {
  }

  lemma {:induction false} RootLeaf(a: Snap, b: Snap, v: Version, t': Tree, node: Node, key: Bytes, value: Bytes,
      obs: seq<nat>)
    requires v.Rooted? && SoundVersion(v) && Inserted(a, b, v.tree, v.height, t', node, key, value, [], obs)
    ensures node.leaf == v.tree.TLeaf?
  {
    hide Flat, Put, Sorted, KidBag, MatchesKids, NodeBytes, FirstKey;
    SameKind(v.tree, t', v.height);
  }

  /** What was stored below the root and what was stored for it is what the insertion takes. */
  lemma {:induction false} InsertCosts(a: Snap, b: Snap, c: Snap, v: Version, t': Tree, node: Node,
      key: Bytes, value: Bytes, obs: seq<nat>, failed: bool)
    requires v.Rooted? && SoundVersion(v) && Inserted(a, b, v.tree, v.height, t', node, key, value, [], obs)
    requires Grown(a, b) && Grown(b, c) && Bare(node.entries) == Grow(v.tree, key, value)
    requires Costs(a, b, false, GrowCost(v.tree, key, value))
    requires Costs(b, c, failed, RootCost(|SplitOf(node.leaf, Bare(node.entries))|))
    ensures failed <==> Available(a.pm) < InsertPages(v, key, value)
    ensures !failed ==> |NewIds(a, c)| == InsertPages(v, key, value)
  {
    hide Grown, Inserted, Costs, SplitOf, Grow, GrowCost, Bare, RootCost, Sound, InsertPages;
    RootLeaf(a, b, v, t', node, key, value, obs);
    InsertTotal(v, key, value);
    GrownTrans(a, b, c);
    CostsTrans(a, b, c, failed, GrowCost(v.tree, key, value), RootCost(|SplitOf(node.leaf, Bare(node.entries))|));
    CostsExactly(a, c, failed, InsertPages(v, key, value));
    CostsCount(a, c, failed, InsertPages(v, key, value));
  }

  // ----- The tree that an insertion makes

  /** Subtrees that differ in the id of the root page only. */
  ghost predicate Reids(pieces: seq<Tree>, placed: seq<Tree>) {
    |placed| == |pieces| && forall i :: 0 <= i < |pieces| ==> placed[i] == WithId(pieces[i], placed[i].id)
  }

  /** `placed` are the subtrees that the split of the top page of `c` makes. */
  ghost predicate CutsInto(c: Tree, placed: seq<Tree>) {
    exists parts :: IsSplit(c.TLeaf?, NodeOf(c).entries, parts) && PartsIn(c, placed, parts)
  }

  ghost predicate PartsIn(c: Tree, placed: seq<Tree>, parts: seq<Node>) {
    && |placed| == |parts| && AllKids(placed) == KidsOf(c)
    && forall i :: 0 <= i < |parts| ==> NodeOf(placed[i]) == parts[i]
  }

  /** `t'` is `t` with `key` bound to `value`, each page on the path split where it has to be. */
  ghost predicate Grew(t: Tree, t': Tree, key: Bytes, value: Bytes) {
    match t
    case TLeaf(_, entries) => t'.TLeaf? && t'.entries == Put(entries, key, value)
    case TInner(_, kids) =>
      var idx := UpperBound(Links(kids), key) - 1;
      && idx >= 0 && t'.TInner?
      && exists c, placed :: Grew(kids[idx], c, key, value) && GrewAt(kids, idx, c, placed, t')
  }

  ghost predicate GrewAt(kids: seq<Tree>, idx: nat, c: Tree, placed: seq<Tree>, t': Tree)
    requires idx < |kids| && t'.TInner?
  {
    CutsInto(c, placed) && t'.kids == kids[..idx] + placed + kids[idx + 1..]
  }

  /** The root after an insertion: the enlarged root itself, or a new one above its parts. */
  ghost predicate Topped(t': Tree, h: nat, v': Version) {
    && v'.Rooted?
    && exists placed :: CutsInto(t', placed) && ToppedBy(placed, h, v')
  }

  ghost predicate ToppedBy(placed: seq<Tree>, h: nat, v': Version)
    requires v'.Rooted?
  {
    if |placed| == 1 then v'.tree == placed[0] && v'.height == h
    else v'.tree.TInner? && v'.tree.kids == placed && v'.height == h + 1
  }

  /** What binding `key` to `value` makes of a tree. */
  ghost predicate InsertShape(v: Version, v': Version, key: Bytes, value: Bytes) {
    match v
    case Empty =>
      v'.Rooted? && v'.tree.TLeaf? && v'.tree.entries == [Entry([], [], 0), Entry(key, value, 0)] && v'.height == 0
    case Rooted(t, h) => exists t' :: Grew(t, t', key, value) && Topped(t', h, v')
  }

  lemma {:induction false} StoredReids(a: Snap, b: Snap, pieces: seq<Tree>, placed: seq<Tree>)
    requires Stored(a, b, pieces, placed)
    ensures Reids(pieces, placed)
  {
    hide Matches, FlatAll, BagAll, KidBagAll, WithId;
    forall i | 0 <= i < |pieces|
      ensures placed[i] == WithId(pieces[i], placed[i].id)
    {
      assert Placed(b.pages, pieces[i], placed[i]);
    }
  }

  lemma {:induction false} ReidsCuts(c: Tree, h: nat, parts: seq<Node>, pieces: seq<Tree>, placed: seq<Tree>)
    requires Pieces(c, h, parts, pieces) && AllKids(pieces) == KidsOf(c) && Reids(pieces, placed)
    requires Splits(NodeOf(c), parts) && Greedy(parts)
    ensures CutsInto(c, placed)
  {
    hide Greedy, Join, Wf, Flat, FlatAll, KidBag, KidBagAll;
    assert IsSplit(c.TLeaf?, NodeOf(c).entries, parts);
    forall i | 0 <= i < |parts|
      ensures NodeOf(placed[i]) == parts[i]
    {
      SameBelow(pieces[i], placed[i].id);
    }
    ReidsKids(pieces, placed);
    assert PartsIn(c, placed, parts);
  }

  lemma {:induction false} ReidsKids(pieces: seq<Tree>, placed: seq<Tree>)
    requires Reids(pieces, placed)
    ensures AllKids(pieces) == AllKids(placed)
  {
    if pieces != [] {
      ReidsKids(pieces[..|pieces| - 1], placed[..|placed| - 1]);
      SameBelow(pieces[|pieces| - 1], placed[|placed| - 1].id);
    }
  }

  lemma {:induction false} SameBelow(t: Tree, id: nat)
    ensures NodeOf(WithId(t, id)) == NodeOf(t) && KidsOf(WithId(t, id)) == KidsOf(t)
  {
  }

  lemma {:induction false} GrewInner(t: Tree, t': Tree, idx: nat, c: Tree, placed: seq<Tree>, key: Bytes, value: Bytes)
    requires t.TInner? && t'.TInner? && idx < |t.kids| && UpperBound(NodeOf(t).entries, key) == idx + 1
    requires Grew(t.kids[idx], c, key, value) && CutsInto(c, placed)
    requires t'.kids == t.kids[..idx] + placed + t.kids[idx + 1..]
    ensures Grew(t, t', key, value)
  {
    hide CutsInto;
    assert GrewAt(t.kids, idx, c, placed, t');
  }

  lemma {:induction false} GrewLeaf(pages: Store, t: Tree, h: nat, node: Node, key: Bytes, value: Bytes)
    requires IsPiece(pages, t, h, node) && node.leaf && Sorted(Flat(t)) && Leq(FirstKey(t), key) && Storable(key, value)
    ensures UpperBound(node.entries, key) > 0
    ensures Grew(t, TLeaf(0, LeafEntries(node.entries, UpperBound(node.entries, key) - 1, key, value)), key, value)
  {
    hide Put;
    LeafInserted(pages, t, h, node, key, value);
    assert t == TLeaf(t.id, node.entries);
  }

  lemma {:induction false} ToppedIs(t': Tree, h: nat, placed: seq<Tree>, v': Version)
    requires CutsInto(t', placed) && v'.Rooted? && ToppedBy(placed, h, v')
    ensures Topped(t', h, v')
  {
    hide CutsInto, ToppedBy;
  }

  lemma {:induction false} ShapeIs(v: Version, v': Version, t': Tree, key: Bytes, value: Bytes)
    requires v.Rooted? && Grew(v.tree, t', key, value) && Topped(t', v.height, v')
    ensures InsertShape(v, v', key, value)
  {
    hide Grew, Topped;
  }
}
