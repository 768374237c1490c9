/**
 How one copy-on-write operation changes the pages of an update: pages are only added,
 under ids from the supply, and the ids of the old and the new tree balance against the
 pages stored and the pages left behind.
 */
module PageUpdates {
  import opened ByteStrings
  import opened Entries
  import opened PageNodes
  import opened PageTrees
  import opened PageTreeSteps
  import opened PageManagers

  /** The pages of one update and the allocator behind them, as a value. */
  datatype Snap = Snap(pages: Store, born: seq<nat>, pm: PageManagerState)

  /** Allocation can go on: no page in use is in the supply. */
  ghost predicate Supplied(s: Snap) {
    && WellSupplied(s.pm)
    && forall x :: x in s.pages ==> x != 0 && !InSupply(s.pm, x)
  }

  lemma {:induction false} SuppliedFacts(s: Snap)
    requires Supplied(s)
    ensures WellSupplied(s.pm)
  {
  }

  ghost function NewIds(a: Snap, b: Snap): seq<nat> {
    if a.born <= b.born then b.born[|a.born|..] else []
  }

  /** From `a` to `b` pages were only added, each under an id taken from the supply. */
  ghost predicate Grown(a: Snap, b: Snap) {
    && a.born <= b.born
    && (forall x :: x in a.pages ==> x in b.pages && b.pages[x] == a.pages[x])
    && (forall x :: x in NewIds(a, b) ==> x in b.pages && InSupply(a.pm, x))
    && (forall x :: x in b.pages ==> x in a.pages || x in NewIds(a, b))
    && (forall x :: InSupply(b.pm, x) <==> InSupply(a.pm, x) && x !in NewIds(a, b))
    && Distinct(NewIds(a, b))
    && multiset(b.pm.freePageIDs) <= multiset(a.pm.freePageIDs)
    && b.pm == a.pm.(freePageIDs := b.pm.freePageIDs, nextPageID := b.pm.nextPageID)
    && a.pm.nextPageID <= b.pm.nextPageID
    && Available(a.pm) == Available(b.pm) + |NewIds(a, b)|
  }

  /** An operation that takes `n` pages: it fails exactly when there are fewer. */
  ghost predicate Costs(a: Snap, b: Snap, failed: bool, n: nat) {
    if failed then Available(a.pm) < n else |NewIds(a, b)| == n
  }

  lemma {:induction false} CostsNone(a: Snap)
    ensures Costs(a, a, false, 0)
  {
  }

  lemma {:induction false} CostsMore(a: Snap, b: Snap, n: nat, m: nat)
    requires Costs(a, b, true, n) && n <= m
    ensures Costs(a, b, true, m)
  {
  }

  lemma {:induction false} CostsTrans(a: Snap, b: Snap, c: Snap, failed: bool, n: nat, m: nat)
    requires Grown(a, b) && Grown(b, c) && Costs(a, b, false, n) && Costs(b, c, failed, m)
    ensures Costs(a, c, failed, n + m)
  {
    hide Distinct, InSupply;
    NewIdsTrans(a, b, c);
  }

  lemma {:induction false} CostsCount(a: Snap, b: Snap, failed: bool, n: nat)
    requires Costs(a, b, failed, n)
    ensures !failed ==> |NewIds(a, b)| == n
  {
  }

  /** Failure, seen from the pages that could be reserved before. */
  lemma {:induction false} CostsExactly(a: Snap, b: Snap, failed: bool, n: nat)
    requires Grown(a, b) && Costs(a, b, failed, n)
    ensures failed <==> Available(a.pm) < n
  {
    hide Distinct, InSupply;
  }

  lemma {:induction false} GrownRefl(a: Snap)
    ensures Grown(a, a) && NewIds(a, a) == []
  {
  }

  /** A page stored under a reserved id. */
  lemma {:induction false} GrownOne(a: Snap, b: Snap, id: nat, node: Node)
    requires Supplied(a) && WellSupplied(b.pm) && Reserved(a.pm, b.pm, id)
    requires b.pages == a.pages[id := node] && b.born == a.born + [id]
    ensures Grown(a, b) && Supplied(b) && NewIds(a, b) == [id] && Costs(a, b, false, 1)
    ensures id != 0 && id !in a.pages
  {
    assert NewIds(a, b) == [id];
    assert forall x :: x in a.pages ==> !InSupply(a.pm, x);
    assert forall x :: multiset([id])[x] <= 1;
  }

  lemma {:induction false} GrownTrans(a: Snap, b: Snap, c: Snap)
    requires Grown(a, b) && Grown(b, c)
    ensures Grown(a, c)
    ensures NewIds(a, c) == NewIds(a, b) + NewIds(b, c)
  {
    hide Distinct, NewIds, InSupply;
    NewIdsTrans(a, b, c);
    assert forall x :: x in NewIds(a, b) ==> !InSupply(b.pm, x);
    DistinctAppend(NewIds(a, b), NewIds(b, c));
  }

  lemma {:induction false} NewIdsTrans(a: Snap, b: Snap, c: Snap)
    requires a.born <= b.born <= c.born
    ensures NewIds(a, c) == NewIds(a, b) + NewIds(b, c)
    ensures forall x :: x in NewIds(a, c) <==> x in NewIds(a, b) || x in NewIds(b, c)
  {
    assert NewIds(a, c) == NewIds(a, b) + NewIds(b, c);
  }

  lemma {:induction false} DistinctAppend(a: seq<nat>, b: seq<nat>)
    requires Distinct(a) && Distinct(b) && forall x :: x in a ==> x !in b
    ensures Distinct(a + b)
  {
    forall x ensures multiset(a + b)[x] <= 1 {
      assert x in a <==> multiset(a)[x] > 0;
      assert x in b <==> multiset(b)[x] > 0;
      assert multiset(a + b) == multiset(a) + multiset(b);
    }
  }

  lemma {:induction false} GrownKeeps(a: Snap, b: Snap)
    requires Grown(a, b)
    ensures forall t {:trigger Matches(b.pages, t)} :: Matches(a.pages, t) ==> Matches(b.pages, t)
    ensures forall t {:trigger MatchesKids(b.pages, t)} :: MatchesKids(a.pages, t) ==> MatchesKids(b.pages, t)
  {
    GrowthKeeps(a.pages, b.pages);
  }

  lemma {:induction false} PlaceNew(pages: Store, piece: Tree, id: nat)
    requires MatchesKids(pages, piece) && id != 0
    requires id in pages && pages[id] == NodeOf(piece)
    ensures Placed(pages, piece, WithId(piece, id))
  {
  }

  /** A subtree whose root page `node` is not stored yet. */
  ghost predicate IsPiece(pages: Store, piece: Tree, h: nat, node: Node) {
    Wf(piece, h) && NodeOf(piece) == node && MatchesKids(pages, piece)
  }

  lemma {:induction false} PieceFacts(pages: Store, piece: Tree, h: nat, node: Node)
    requires IsPiece(pages, piece, h, node)
    ensures Wf(piece, h) && NodeOf(piece) == node && MatchesKids(pages, piece)
    ensures node.entries != [] && node.entries[0].key == FirstKey(piece)
  {
  }

  lemma {:induction false} PieceKeeps(a: Snap, b: Snap, h: nat)
    requires Grown(a, b)
    ensures forall piece, node {:trigger IsPiece(b.pages, piece, h, node)} ::
              IsPiece(a.pages, piece, h, node) ==> IsPiece(b.pages, piece, h, node)
  {
    GrownKeeps(a, b);
  }

  lemma {:induction false} EmptyStored(a: Snap)
    ensures Grown(a, a) && Stored(a, a, [], []) && Links([]) == []
  {
  }

  /** `t'` stands for `t` with new content: the pages below it, counted with the obsolete ones. */
  ghost predicate Rewritten(a: Snap, b: Snap, t: Tree, h: nat, t': Tree, node: Node, obs: seq<nat>, obs': seq<nat>) {
    && Body(t', h) && node == NodeOf(t') && MatchesKids(b.pages, t')
    && KidBag(t') + multiset(obs') == KidBag(t) + multiset(obs) + multiset(NewIds(a, b))
    && multiset(obs') <= multiset(obs) + KidBag(t)
  }

  /** `t'` is `t` with `key` bound to `value`; its root page `node` may need splitting. */
  ghost predicate Inserted(
    a: Snap, b: Snap, t: Tree, h: nat, t': Tree, node: Node, key: Bytes, value: Bytes, obs: seq<nat>, obs': seq<nat>)
  {
    && Rewritten(a, b, t, h, t', node, obs, obs')
    && Occupied(t') && Flat(t') == Put(Flat(t), key, value) && FirstKey(t') == FirstKey(t)
    && NodeBytes(node) <= PAGE_SIZE + 14 + MAX_KEY_SIZE + MAX_VALUE_SIZE
  }

  lemma {:induction false} InsertedFacts(
    a: Snap, b: Snap, t: Tree, h: nat, t': Tree, node: Node, key: Bytes, value: Bytes, obs: seq<nat>, obs': seq<nat>)
    requires Inserted(a, b, t, h, t', node, key, value, obs, obs')
    ensures Body(t', h) && node == NodeOf(t') && MatchesKids(b.pages, t') && Occupied(t')
    ensures Flat(t') == Put(Flat(t), key, value) && FirstKey(t') == FirstKey(t)
    ensures NodeBytes(node) <= PAGE_SIZE + 14 + MAX_KEY_SIZE + MAX_VALUE_SIZE
  {
  }

  /** `t'` is `t` with the children from `i` to `n` replaced by freshly stored `pieces`. */
  ghost predicate Replaced(a: Snap, b: Snap, t: Tree, h: nat, i: nat, n: nat, pieces: seq<Tree>, t': Tree, node: Node)
    requires t.TInner? && i <= n <= |t.kids|
  {
    && Body(t', h) && node == NodeOf(t') && MatchesKids(b.pages, t')
    && Flat(t') == FlatAll(t.kids[..i]) + FlatAll(pieces) + FlatAll(t.kids[n..])
    && KidBag(t') == BagAll(t.kids[..i]) + KidBagAll(pieces) + BagAll(t.kids[n..]) + multiset(NewIds(a, b))
  }

  /** Since `a`, the pages of `pieces` have been stored; `placed` are the stored subtrees. */
  ghost predicate Stored(a: Snap, b: Snap, pieces: seq<Tree>, placed: seq<Tree>) {
    && |placed| == |pieces|
    && (forall j :: 0 <= j < |pieces| ==> Placed(b.pages, pieces[j], placed[j]))
    && FlatAll(placed) == FlatAll(pieces)
    && BagAll(placed) == KidBagAll(pieces) + multiset(NewIds(a, b))
  }

  lemma {:induction false} StoredFacts(a: Snap, b: Snap, pieces: seq<Tree>, placed: seq<Tree>)
    requires Stored(a, b, pieces, placed)
    ensures |placed| == |pieces|
  {
  }

  lemma {:induction false} StoredStep(a: Snap, b: Snap, c: Snap, pieces: seq<Tree>, placed: seq<Tree>, piece: Tree,
      h: nat, id: nat)
    requires Stored(a, b, pieces, placed) && Grown(a, b) && Grown(b, c)
    requires Wf(piece, h) && MatchesKids(b.pages, piece)
    requires id != 0 && c.pages == b.pages[id := NodeOf(piece)] && NewIds(b, c) == [id]
    ensures Stored(a, c, pieces + [piece], placed + [WithId(piece, id)])
    ensures Links(placed + [WithId(piece, id)]) == Links(placed) + [Entry(NodeOf(piece).entries[0].key, [], id)]
  {
    hide Flat, FlatAll, Bag, KidBag, BagAll, KidBagAll, Wf, Matches, MatchesKids, NodeOf, WithId, FirstKey, Grown;
    GrownTrans(a, b, c);
    GrownKeeps(b, c);
    PlaceStep(pieces, placed, piece, h, id, NewIds(a, b));
    PlaceNew(c.pages, piece, id);
  }

  /** Entries that may be stored: a non-empty key, and both parts within their limits. */
  predicate Storable(key: Bytes, value: Bytes) {
    0 < |key| <= MAX_KEY_SIZE && |value| <= MAX_VALUE_SIZE
  }

  /** What may be stored is exactly what a leaf page can hold behind the empty key at its front. */
  lemma {:induction false} StorableFits(key: Bytes, value: Bytes)
    ensures Storable(key, value) <==>
            key != [] && ValidNode(Node(true, [Entry([], [], 0), Entry(key, value, 0)]))
    ensures Storable(key, value) <==> key != [] && ValidEntry(true, 1, Entry(key, value, 0))
  {
    var first, e := Entry([], [], 0), Entry(key, value, 0);
    var n := Node(true, [first, e]);
    assert n.entries[1..] == [e] && [e][1..] == [];
    assert Payload([e]) == EntryBytes(e) && Payload(n.entries) == EntryBytes(first) + EntryBytes(e);
    assert ValidEntry(true, 0, n.entries[0]);
    if key != [] && ValidNode(n) {
      assert ValidEntry(true, 1, n.entries[1]);
    }
    if Storable(key, value) {
      assert Less(n.entries[0].key, n.entries[1].key);
      assert Sorted(n.entries);
    }
  }

  /** The entries of a leaf after an insertion at the position found by the search. */
  function LeafEntries(entries: seq<Entry>, idx: nat, key: Bytes, value: Bytes): seq<Entry>
    requires idx < |entries|
  {
    var e := Entry(key, value, 0);
    if entries[idx].key == key then entries[..idx] + [e] + entries[idx + 1..]
    else entries[..idx + 1] + [e] + entries[idx + 1..]
  }

  lemma {:induction false} LeafEntriesArePut(s: seq<Entry>, key: Bytes, value: Bytes)
    requires s != [] && Sorted(s) && Leq(s[0].key, key)
    ensures UpperBound(s, key) > 0
    ensures LeafEntries(s, UpperBound(s, key) - 1, key, value) == Put(s, key, value)
  {
    hide Put;
    var n := UpperBound(s, key);
    LeafPut(s, n, key, value);
    assert s[n - 1 := Entry(key, value, 0)] == s[..n - 1] + [Entry(key, value, 0)] + s[n..];
  }

  lemma {:induction false} LeafPutValid(s: seq<Entry>, key: Bytes, value: Bytes)
    requires s != [] && Sorted(s) && Leq(s[0].key, key) && Storable(key, value)
    requires forall i :: 0 <= i < |s| ==> LeafEntry(s[i])
    ensures var entries := Put(s, key, value);
            && entries != [] && entries[0].key == s[0].key
            && (forall i :: 0 <= i < |entries| ==> LeafEntry(entries[i]) && ValidEntry(true, i, entries[i]))
            && Payload(entries) <= Payload(s) + 14 + MAX_KEY_SIZE + MAX_VALUE_SIZE
  {
    hide Put, Payload, ToMap;
    LeafPutBytes(s, key, value);
    PutFirst(s, key, value);
    PutIsUpdate(s, key, value);
    var entries := Put(s, key, value);
    forall i | 0 <= i < |entries| ensures LeafEntry(entries[i]) && ValidEntry(true, i, entries[i]) {
      assert entries[i] in entries;
      if i > 0 {
        assert Less(entries[0].key, entries[i].key);
      }
    }
  }

  lemma {:induction false} LeafInserted(pages: Store, t: Tree, h: nat, node: Node, key: Bytes, value: Bytes)
    requires IsPiece(pages, t, h, node) && node.leaf && Sorted(Flat(t)) && Leq(FirstKey(t), key) && Storable(key, value)
    ensures UpperBound(node.entries, key) > 0
    ensures var entries := LeafEntries(node.entries, UpperBound(node.entries, key) - 1, key, value);
            var t' := TLeaf(0, entries);
            && entries == Put(Flat(t), key, value)
            && Encode(true, entries, 2 * PAGE_SIZE) == Some(Node(true, entries))
            && Body(t', h) && Occupied(t') && FirstKey(t') == FirstKey(t)
            && NodeBytes(Node(true, entries)) <= PAGE_SIZE + 14 + MAX_KEY_SIZE + MAX_VALUE_SIZE
  {
    hide Put, Payload, LeafEntries, Sorted;
    WfBody(t, h);
    assert t == TLeaf(t.id, node.entries);
    LeafEntriesArePut(node.entries, key, value);
    LeafPutValid(node.entries, key, value);
  }

  lemma {:induction false} LeafRewritten(a: Snap, t: Tree, h: nat, node: Node, key: Bytes, value: Bytes, obs: seq<nat>)
    requires IsPiece(a.pages, t, h, node) && node.leaf && Sorted(Flat(t)) && Leq(FirstKey(t), key)
             && Storable(key, value)
    ensures UpperBound(node.entries, key) > 0 && Grown(a, a)
    ensures var entries := LeafEntries(node.entries, UpperBound(node.entries, key) - 1, key, value);
            Inserted(a, a, t, h, TLeaf(0, entries), Node(true, entries), key, value, obs, obs)
  {
    LeafInserted(a.pages, t, h, node, key, value);
    GrownRefl(a);
  }

  /** The child that the search selects for `key`. */
  lemma {:induction false} ChildFor(pages: Store, t: Tree, h: nat, node: Node, key: Bytes)
    returns (idx: nat, child: Tree)
    requires IsPiece(pages, t, h, node) && !node.leaf && Sorted(Flat(t)) && Leq(FirstKey(t), key)
    ensures t.TInner? && h > 0 && idx < |t.kids| == |node.entries| && child == t.kids[idx]
    ensures UpperBound(node.entries, key) == idx + 1
    ensures Leq(FirstKey(child), key) && (idx + 1 < |t.kids| ==> Less(key, FirstKey(t.kids[idx + 1])))
    ensures node.entries[idx].ptr == child.id && child.id in pages && child.id != 0
    ensures ValidNode(pages[child.id]) && IsPiece(pages, child, h - 1, pages[child.id])
    ensures Sorted(Flat(child))
  {
    InnerFacts(t, h);
    var n := UpperBound(node.entries, key);
    idx := n - 1;
    child := t.kids[idx];
    assert node.entries[0] == LinkOf(t.kids[0]) && node.entries[idx] == LinkOf(child);
    assert idx + 1 < |t.kids| ==> node.entries[idx + 1] == LinkOf(t.kids[idx + 1]);
    assert Matches(pages, child);
    Descend(t.kids, h - 1, idx, key);
    PageIsValid(child, h - 1);
  }

  /** What a split child looks like from its parent. */
  lemma {:induction false} InsertStep(
    a: Snap, b: Snap, t: Tree, h: nat, node: Node, idx: nat, key: Bytes, value: Bytes,
    c': Tree, parts: seq<Node>, pieces: seq<Tree>)
    requires IsPiece(a.pages, t, h, node) && t.TInner? && Sorted(Flat(t)) && Grown(a, b)
    requires idx < |t.kids| && Leq(FirstKey(t.kids[idx]), key)
    requires idx + 1 < |t.kids| ==> Less(key, FirstKey(t.kids[idx + 1]))
    requires h > 0 && Body(c', h - 1) && Occupied(c') && MatchesKids(b.pages, c')
    requires Flat(c') == Put(Flat(t.kids[idx]), key, value) && FirstKey(c') == FirstKey(t.kids[idx])
    requires Pieces(c', h - 1, parts, pieces) && KidsWithin(c', pieces) && parts != []
    ensures MatchesKids(b.pages, t) && Wf(t, h)
    ensures forall i :: 0 <= i < |pieces| ==> IsPiece(b.pages, pieces[i], h - 1, parts[i])
    ensures FirstKey(pieces[0]) == FirstKey(t.kids[idx])
    ensures FlatAll(t.kids[..idx]) + FlatAll(pieces) + FlatAll(t.kids[idx + 1..]) == Put(Flat(t), key, value)
    ensures Sorted(Put(Flat(t), key, value))
  {
    hide Matches, MatchesKids, Put, Sorted, NodeOf, Flat, FirstKey;
    InnerFacts(t, h);
    GrownKeeps(a, b);
    PiecesMatch(b.pages, c', pieces);
    FirstEntry(c', h - 1);
    WfBody(pieces[0], h - 1);
    FirstEntry(pieces[0], h - 1);
    assert FlatAll(pieces)[0] == Flat(pieces[0])[0];
    PutInChild(t.kids, h - 1, idx, key, value, pieces);
    Splice(t.kids[..idx], pieces, t.kids[idx + 1..]);
    PutIsUpdate(Flat(t), key, value);
  }

  lemma {:induction false} BagShift(
    left: multiset<nat>, right: multiset<nat>, kid: multiset<nat>, kid': multiset<nat>,
    obs: multiset<nat>, below: multiset<nat>, n1: multiset<nat>, n2: multiset<nat>, id: nat)
    requires kid' + below == kid + obs + n1
    ensures left + kid' + right + n2 + (below + multiset{id}) == (left + (multiset{id} + kid) + right) + obs + (n1 + n2)
  {
    calc {
      left + kid' + right + n2 + (below + multiset{id});
      left + right + n2 + multiset{id} + (kid' + below);
      left + right + n2 + multiset{id} + (kid + obs + n1);
      (left + (multiset{id} + kid) + right) + obs + (n1 + n2);
    }
  }

  /** One level up: the child's page joins the obsolete ones. */
  lemma {:induction false} InsertedInner(
    a: Snap, b: Snap, c: Snap, t: Tree, h: nat, idx: nat, key: Bytes, value: Bytes,
    c': Tree, child': Node, parts: seq<Node>, pieces: seq<Tree>, t': Tree, node': Node, obs: seq<nat>, below: seq<nat>)
    requires Grown(a, b) && Grown(b, c)
    requires h > 0 && t.TInner? && Wf(t, h) && idx < |t.kids| && Leq(FirstKey(t), key)
    requires Inserted(a, b, t.kids[idx], h - 1, c', child', key, value, obs, below)
    requires Pieces(c', h - 1, parts, pieces)
    requires Replaced(b, c, t, h, idx, idx + 1, pieces, t', node') && Occupied(t')
    requires FlatAll(t.kids[..idx]) + FlatAll(pieces) + FlatAll(t.kids[idx + 1..]) == Put(Flat(t), key, value)
    requires NodeBytes(node') <= PAGE_SIZE + 2 * (14 + MAX_KEY_SIZE)
    ensures Inserted(a, c, t, h, t', node', key, value, obs, below + [t.kids[idx].id])
  {
    hide FlatAll, BagAll, KidBag, KidBagAll, Flat, Grown, NewIds, Wf, Body, FirstKey, NodeOf, Put, Payload, MatchesKids;
    GrownTrans(a, b, c);
    InnerFacts(t, h);
    SplitAt(t.kids, idx);
    BagShift(BagAll(t.kids[..idx]), BagAll(t.kids[idx + 1..]), KidBag(t.kids[idx]), KidBag(c'),
             multiset(obs), multiset(below), multiset(NewIds(a, b)), multiset(NewIds(b, c)), t.kids[idx].id);
    assert multiset(below + [t.kids[idx].id]) == multiset(below) + multiset{t.kids[idx].id};
    assert Bag(t.kids[idx]) == multiset{t.kids[idx].id} + KidBag(t.kids[idx]);
    assert multiset(below) + multiset{t.kids[idx].id} <= multiset(obs) + Bag(t.kids[idx]);
    WfBody(t, h);
    FirstEntry(t, h);
    FirstEntry(t', h);
    PutFirst(Flat(t), key, value);
  }

  // ----- Versions of the whole tree

  /** One version of the tree: none at all, or a rooted tree of some height. */
  datatype Version = Empty | Rooted(tree: Tree, height: nat)

  function HeightOf(v: Version): nat {
    if v.Empty? then 0 else v.height
  }

  ghost function VersionBag(v: Version): multiset<nat> {
    if v.Empty? then multiset{} else Bag(v.tree)
  }

  ghost function Live(v: Version): set<nat> {
    set x | x in VersionBag(v)
  }

  ghost function VersionFlat(v: Version): seq<Entry> {
    if v.Empty? then [] else Flat(v.tree)
  }

  /** The user's map: every entry but the sentinel. */
  ghost function Contents(v: Version): map<Bytes, Bytes> {
    ToMap(VersionFlat(v)) - {[]}
  }

  ghost predicate SoundVersion(v: Version) {
    v.Rooted? ==> Sound(v.tree, v.height)
  }

  ghost predicate Holds(v: Version, root: nat, pages: Store) {
    && SoundVersion(v)
    && root == (if v.Empty? then 0 else v.tree.id)
    && (v.Rooted? ==> Matches(pages, v.tree))
  }

  /**
   One completed operation: the tree's pages, with those released, are the old tree's
   pages with those stored, and every page id still has exactly one owner.
   */
  ghost predicate Stepped(a: Snap, b: Snap, v: Version, v': Version, released: seq<nat>) {
    && Grown(a, b.(pm := b.pm.(pendingFreePageIDs := a.pm.pendingFreePageIDs)))
    && b.pm.pendingFreePageIDs == a.pm.pendingFreePageIDs + released
    && VersionBag(v') + multiset(released) == VersionBag(v) + multiset(NewIds(a, b))
    && Owned(b.pm, Live(v'))
  }

  lemma {:induction false} LiveBag(v: Version)
    requires SoundVersion(v)
    ensures multiset(Live(v)) == VersionBag(v)
  {
    hide Bag, Wf, Flat, Sorted;
  }

  /** Conservation is kept by allocation from the supply and release from the tree. */
  lemma {:induction false} OwnedStep(
    a: PageManagerState, b: PageManagerState, live: multiset<nat>, live': multiset<nat>, stored: seq<nat>,
    released: seq<nat>)
    requires WellSupplied(b) && a.nextPageID >= 1
    requires forall x: nat :: OwnerBag(a, live)[x] == if 1 <= x < a.nextPageID then 1 else 0
    requires forall x :: x in stored ==> InSupply(a, x)
    requires forall x: nat :: InSupply(b, x) <==> InSupply(a, x) && x !in stored
    requires Distinct(stored) && multiset(b.freePageIDs) <= multiset(a.freePageIDs)
    requires b == a.(freePageIDs := b.freePageIDs, nextPageID := b.nextPageID) && a.nextPageID <= b.nextPageID
    requires live' + multiset(released) == live + multiset(stored)
    ensures var c := b.(pendingFreePageIDs := b.pendingFreePageIDs + released);
            forall x: nat :: OwnerBag(c, live')[x] == if 1 <= x < c.nextPageID then 1 else 0
  {
    var c := b.(pendingFreePageIDs := b.pendingFreePageIDs + released);
    forall x: nat ensures OwnerBag(c, live')[x] == if 1 <= x < c.nextPageID then 1 else 0 {
      assert multiset(c.pendingFreePageIDs) == multiset(b.pendingFreePageIDs) + multiset(released);
      assert (live' + multiset(released))[x] == (live + multiset(stored))[x];
      assert OwnerBag(a, live)[x] == if 1 <= x < a.nextPageID then 1 else 0;
      assert x in a.freePageIDs <==> multiset(a.freePageIDs)[x] > 0;
      assert x in b.freePageIDs <==> multiset(b.freePageIDs)[x] > 0;
      assert x in stored <==> multiset(stored)[x] > 0;
      assert InSupply(b, x) <==> InSupply(a, x) && x !in stored;
    }
  }

  /** The pages of the new version and those released balance those of the old and those stored. */
  ghost predicate Balanced(a: Snap, b: Snap, v: Version, v': Version, released: seq<nat>) {
    && VersionBag(v') + multiset(released) == VersionBag(v) + multiset(NewIds(a, b))
    && multiset(released) <= VersionBag(v)
  }

  /** A page the allocator will take back. */
  ghost predicate Releasable(s: PageManagerState, x: nat) {
    && 1 <= x < s.nextPageID
    && x !in s.freePageIDs && x !in s.freeListPageIDs
    && x !in s.retiredPageIDs && x !in s.pendingFreePageIDs
  }

  lemma {:induction false} LiveIsReleasable(s: PageManagerState, live: set<nat>, x: nat)
    requires Owned(s, live) && x in live
    ensures Releasable(s, x) && !InSupply(s, x)
  {
    assert multiset(live)[x] == 1;
    assert OwnerBag(s, multiset(live))[x] == if 1 <= x < s.nextPageID then 1 else 0;
    assert x in s.freePageIDs <==> multiset(s.freePageIDs)[x] > 0;
    assert x in s.retiredPageIDs <==> multiset(s.retiredPageIDs)[x] > 0;
    assert x in s.pendingFreePageIDs <==> multiset(s.pendingFreePageIDs)[x] > 0;
    assert x in s.freeListPageIDs <==> multiset(s.freeListPageIDs)[x] > 0;
  }

  /** After a balanced operation no page is shared, and all that it leaves behind can be released. */
  lemma {:induction false} BalancedUnshared(a: Snap, b: Snap, v: Version, v': Version, released: seq<nat>)
    requires Grown(a, b) && Owned(a.pm, Live(v)) && SoundVersion(v) && Balanced(a, b, v, v', released)
    ensures forall x :: VersionBag(v')[x] <= 1
    ensures Distinct(released)
    ensures forall x :: x in released ==> Releasable(b.pm, x)
  {
    hide Bag, Wf, Flat, Sorted, OwnerBag;
    LiveBag(v);
    forall x: nat ensures VersionBag(v')[x] + multiset(released)[x] <= 1 {
      assert (VersionBag(v') + multiset(released))[x] == (VersionBag(v) + multiset(NewIds(a, b)))[x];
      if x in Live(v) {
        LiveIsReleasable(a.pm, Live(v), x);
      }
    }
    forall x | x in released ensures Releasable(b.pm, x) {
      assert x in multiset(released);
      assert x in Live(v);
      LiveIsReleasable(a.pm, Live(v), x);
      assert !InSupply(b.pm, x);
    }
  }

  /** A balanced operation, once its released pages are queued, is a complete step. */
  lemma {:induction false} BalancedSteps(a: Snap, b: Snap, c: Snap, v: Version, v': Version, released: seq<nat>)
    requires Grown(a, b) && Supplied(b) && Owned(a.pm, Live(v)) && Balanced(a, b, v, v', released)
    requires SoundVersion(v) && SoundVersion(v')
    requires c == b.(pm := b.pm.(pendingFreePageIDs := b.pm.pendingFreePageIDs + released))
    ensures Stepped(a, c, v, v', released) && multiset(released) <= VersionBag(v)
    ensures Supplied(c)
  {
    hide Bag, Wf, Flat, Sorted;
    LiveBag(v);
    LiveBag(v');
    OwnedStep(a.pm, b.pm, VersionBag(v), VersionBag(v'), NewIds(a, b), released);
    assert c.(pm := c.pm.(pendingFreePageIDs := a.pm.pendingFreePageIDs)) == b;
  }

  /** The tree above freshly stored pieces: the only piece itself, or a new root over all. */
  ghost predicate NewRoot(c: Snap, d: Snap, placed: seq<Tree>, h: nat, v': Version) {
    && v'.Rooted? && placed != []
    && if |placed| == 1 then d == c && v' == Rooted(placed[0], h)
       else && v'.height == h + 1 && v'.tree == TInner(v'.tree.id, placed)
            && v'.tree.id != 0 && NewIds(c, d) == [v'.tree.id]
            && d.pages == c.pages[v'.tree.id := NodeOf(v'.tree)]
  }

  lemma {:induction false} NewRootHolds(b: Snap, c: Snap, d: Snap, h: nat, pieces: seq<Tree>, parts: seq<Node>,
      placed: seq<Tree>, v': Version)
    requires Grown(b, c) && Grown(c, d) && Stored(b, c, pieces, placed)
    requires 1 <= |pieces| <= 3 && |pieces| == |parts|
    requires forall i :: 0 <= i < |pieces| ==> IsPiece(b.pages, pieces[i], h, parts[i])
    requires NewRoot(c, d, placed, h, v')
    ensures Wf(v'.tree, v'.height) && v'.tree.id != 0 && Matches(d.pages, v'.tree)
    ensures Flat(v'.tree) == FlatAll(pieces)
    ensures Bag(v'.tree) == KidBagAll(pieces) + multiset(NewIds(b, d))
  {
    hide Flat, FlatAll, Bag, KidBag, BagAll, KidBagAll, Wf, Matches, MatchesKids, NodeOf, FirstKey, Grown, WithId;
    GrownTrans(b, c, d);
    GrownKeeps(c, d);
    forall i | 0 <= i < |placed| ensures Wf(placed[i], h) {
      WithIdFacts(pieces[i], h, placed[i].id);
    }
    if |placed| == 1 {
      Singletons(placed[0]);
      GrownRefl(c);
      assert placed == [placed[0]];
    } else {
      TopNode(placed, h, v'.tree, d.pages);
    }
  }

  /** Two or three children make a root that fits a page. */
  lemma {:induction false} TopNode(placed: seq<Tree>, h: nat, top: Tree, pages: Store)
    requires 1 <= |placed| <= 3 && top == TInner(top.id, placed) && top.id in pages && pages[top.id] == NodeOf(top)
    requires forall i :: 0 <= i < |placed| ==> Wf(placed[i], h) && placed[i].id != 0 && Matches(pages, placed[i])
    ensures Wf(top, h + 1) && Matches(pages, top)
    ensures Flat(top) == FlatAll(placed) && Bag(top) == BagAll(placed) + multiset{top.id}
  {
    hide FlatAll, BagAll, Wf, Matches, Payload;
    TopBytes(placed, h);
    assert Body(top, h + 1);
    TopWf(top, h + 1);
    TopMatches(top, pages);
  }

  lemma {:induction false} TopWf(t: Tree, h: nat)
    requires Body(t, h) && Occupied(t) && NodeBytes(NodeOf(t)) <= PAGE_SIZE
    ensures Wf(t, h)
  {
  }

  lemma {:induction false} TopMatches(t: Tree, pages: Store)
    requires t.id in pages && pages[t.id] == NodeOf(t) && MatchesKids(pages, t)
    ensures Matches(pages, t)
  {
  }

  lemma {:induction false} TopBytes(placed: seq<Tree>, h: nat)
    requires 1 <= |placed| <= 3
    requires forall i :: 0 <= i < |placed| ==> Wf(placed[i], h)
    ensures HEADER_SIZE + Payload(Links(placed)) <= PAGE_SIZE
  {
    forall i | 0 <= i < |placed| ensures EntryBytes(Links(placed)[i]) <= 14 + MAX_KEY_SIZE {
      FirstEntry(placed[i], h);
    }
    PayloadBound(Links(placed), 14 + MAX_KEY_SIZE);
  }

  /** The whole insertion, from the old root to the new one. */
  lemma {:induction false} InsertedVersion(
    a: Snap, b: Snap, d: Snap, v: Version, key: Bytes, value: Bytes, t': Tree, node': Node, obs: seq<nat>,
    pieces: seq<Tree>, v': Version)
    requires Grown(a, b) && Grown(b, d) && v.Rooted? && v'.Rooted? && SoundVersion(v) && Storable(key, value)
    requires Inserted(a, b, v.tree, v.height, t', node', key, value, [], obs)
    requires KidBagAll(pieces) == KidBag(t') && FlatAll(pieces) == Flat(t')
    requires Wf(v'.tree, v'.height) && v'.tree.id != 0
    requires Flat(v'.tree) == FlatAll(pieces) && Bag(v'.tree) == KidBagAll(pieces) + multiset(NewIds(b, d))
    requires Owned(a.pm, Live(v))
    ensures Balanced(a, d, v, v', obs + [v.tree.id]) && SoundVersion(v')
    ensures Contents(v') == Contents(v)[key := value]
  {
    hide Flat, FlatAll, KidBag, BagAll, KidBagAll, Wf, Body, Matches, MatchesKids, NodeOf, FirstKey, Grown, Put, ToMap;
    hide Sorted, OwnerBag;
    GrownTrans(a, b, d);
    assert multiset(obs + [v.tree.id]) == multiset(obs) + multiset{v.tree.id};
    assert Bag(v.tree) == multiset{v.tree.id} + KidBag(v.tree);
    BagTop(KidBag(v.tree), KidBag(t'), multiset(obs), multiset(NewIds(a, b)), multiset(NewIds(b, d)), v.tree.id);
    assert Balanced(a, d, v, v', obs + [v.tree.id]);
    BalancedUnshared(a, d, v, v', obs + [v.tree.id]);
    PutIsUpdate(Flat(v.tree), key, value);
    WfBody(v.tree, v.height);
    FirstEntry(v.tree, v.height);
    WfBody(v'.tree, v'.height);
    FirstEntry(v'.tree, v'.height);
    PutAboveSentinel(Flat(v.tree), key, value);
  }

  lemma {:induction false} PutAboveSentinel(s: seq<Entry>, key: Bytes, value: Bytes)
    requires s != [] && s[0].key == [] && key != []
    ensures Put(s, key, value) != [] && Put(s, key, value)[0].key == []
  {
    StrictTotalOrder();
    PutFirst(s, key, value);
  }

  lemma {:induction false} BagTop(kid: multiset<nat>, kid': multiset<nat>, obs: multiset<nat>, n1: multiset<nat>,
      n2: multiset<nat>, id: nat)
    requires kid' + obs == kid + multiset{} + n1
    ensures kid' + n2 + (obs + multiset{id}) == (multiset{id} + kid) + (n1 + n2)
  {
    calc {
      kid' + n2 + (obs + multiset{id});
      n2 + multiset{id} + (kid' + obs);
      n2 + multiset{id} + (kid + multiset{} + n1);
      (multiset{id} + kid) + (n1 + n2);
    }
  }

  lemma {:induction false} NotBefore(s: seq<nat>, i: nat)
    requires Distinct(s) && i < |s|
    ensures s[i] !in s[..i]
  {
    assert s == s[..i] + [s[i]] + s[i + 1..];
    var bag: multiset<nat> := multiset(s);
    assert bag == multiset(s[..i]) + multiset{s[i]} + multiset(s[i + 1..]);
    assert bag[s[i]] <= 1;
  }

  lemma {:induction false} GrownPages(a: Snap, b: Snap)
    requires Grown(a, b)
    ensures forall x :: x in a.pages ==> x in b.pages && b.pages[x] == a.pages[x]
  {
  }

  lemma {:induction false} RootFacts(v: Version, root: nat, pages: Store, key: Bytes)
    requires Holds(v, root, pages) && root != 0
    ensures v.Rooted? && root == v.tree.id && root in pages
    ensures ValidNode(pages[root]) && IsPiece(pages, v.tree, v.height, pages[root])
    ensures Sorted(Flat(v.tree)) && Leq(FirstKey(v.tree), key)
  {
    PageIsValid(v.tree, v.height);
  }

  lemma {:induction false} RootPieces(pages: Store, t: Tree, h: nat, parts: seq<Node>, pieces: seq<Tree>)
    requires Pieces(t, h, parts, pieces) && KidsWithin(t, pieces) && MatchesKids(pages, t)
    ensures forall i :: 0 <= i < |pieces| ==> IsPiece(pages, pieces[i], h, parts[i])
    ensures KidBagAll(pieces) == KidBag(t) && FlatAll(pieces) == Flat(t)
  {
    hide Matches, MatchesKids, Wf, KidBagAll, KidBag, Flat, FlatAll;
    PiecesMatch(pages, t, pieces);
  }

  /** A root over stored pieces is accepted: its links ascend and fit a page. */
  lemma {:induction false} TopEncodes(
    b: Snap, c: Snap, pieces: seq<Tree>, parts: seq<Node>, placed: seq<Tree>, h: nat, s: seq<Entry>)
    requires Stored(b, c, pieces, placed) && 1 <= |pieces| <= 3 && |pieces| == |parts|
    requires forall i :: 0 <= i < |pieces| ==> IsPiece(b.pages, pieces[i], h, parts[i])
    requires FlatAll(pieces) == s && Sorted(s)
    ensures Encode(false, Links(placed), PAGE_SIZE).Some?
  {
    hide FlatAll, BagAll, KidBagAll, Wf, Matches, MatchesKids, NodeOf, FirstKey, WithId, Sorted, Payload;
    forall i | 0 <= i < |placed| ensures Wf(placed[i], h) {
      WithIdFacts(pieces[i], h, placed[i].id);
    }
    LinksValid(placed, h);
    TopBytes(placed, h);
  }

  lemma {:induction false} FirstLeaf(key: Bytes, value: Bytes)
    requires Storable(key, value)
    ensures var entries := [Entry([], [], 0), Entry(key, value, 0)];
            && Encode(true, entries, PAGE_SIZE) == Some(Node(true, entries))
            && HEADER_SIZE + Payload(entries) <= PAGE_SIZE
  {
    var s, e := Entry([], [], 0), Entry(key, value, 0);
    assert [s, e] == [s] + [e];
    PayloadAppend([s], [e]);
    PayloadSingle(s);
    PayloadSingle(e);
  }

  lemma {:induction false} FirstVersion(a: Snap, b: Snap, v: Version, v': Version, key: Bytes, value: Bytes, id: nat)
    requires Storable(key, value) && v.Empty? && id != 0 && NewIds(a, b) == [id]
    requires v' == Rooted(TLeaf(id, [Entry([], [], 0), Entry(key, value, 0)]), 0)
    requires id in b.pages && b.pages[id] == NodeOf(v'.tree)
    ensures Holds(v', id, b.pages) && Balanced(a, b, v, v', [])
    ensures Contents(v') == Contents(v)[key := value]
  {
    var s, e := Entry([], [], 0), Entry(key, value, 0);
    FirstMap(s, e);
    FirstSound(v'.tree, key, value);
    assert Bag(v'.tree) == multiset{id};
  }

  lemma {:induction false} FirstMap(s: Entry, e: Entry)
    ensures ToMap([s, e]) == map[e.key := e.value][s.key := s.value]
  {
    assert [s, e][1..] == [e];
    assert ToMap([e]) == ToMap([e][1..])[e.key := e.value];
    assert [e][1..] == [];
  }

  lemma {:induction false} FirstSound(t: Tree, key: Bytes, value: Bytes)
    requires Storable(key, value) && t.id != 0 && t == TLeaf(t.id, [Entry([], [], 0), Entry(key, value, 0)])
    ensures Sound(t, 0)
  {
    FirstLeaf(key, value);
    assert Less([], key);
    assert Sorted(t.entries);
    assert Bag(t) == multiset{t.id};
  }

  lemma {:induction false} SortedAfterPut(v: Version, key: Bytes, value: Bytes)
    requires v.Rooted? && SoundVersion(v)
    ensures Sorted(Put(Flat(v.tree), key, value))
  {
    PutIsUpdate(Flat(v.tree), key, value);
  }

  // ----- Removal

  /** `t'` is `t` without `key`; its root page `node` fits but may be empty. */
  ghost predicate Removed(
    a: Snap, b: Snap, t: Tree, h: nat, t': Tree, node: Node, key: Bytes, obs: seq<nat>, obs': seq<nat>)
  {
    && Rewritten(a, b, t, h, t', node, obs, obs')
    && HasKey(Flat(t), key) && Flat(t') == Remove(Flat(t), key)
    && NodeBytes(node) <= PAGE_SIZE
  }

  lemma {:induction false} LeafRemoved(a: Snap, t: Tree, h: nat, node: Node, key: Bytes, obs: seq<nat>)
    requires IsPiece(a.pages, t, h, node) && node.leaf && Sorted(Flat(t)) && Leq(FirstKey(t), key)
    ensures Grown(a, a) && UpperBound(node.entries, key) > 0
    ensures var i := UpperBound(node.entries, key) - 1;
            var entries := node.entries[..i] + node.entries[i + 1..];
            if node.entries[i].key == key then
              && Encode(true, entries, PAGE_SIZE) == Some(Node(true, entries))
              && Removed(a, a, t, h, TLeaf(0, entries), Node(true, entries), key, obs, obs)
            else !HasKey(Flat(t), key)
  {
    hide Remove, Payload, MatchesKids;
    WfBody(t, h);
    assert t == TLeaf(t.id, node.entries);
    GrownRefl(a);
    var n := UpperBound(node.entries, key);
    LeafRemove(node.entries, n, key);
    if node.entries[n - 1].key == key {
      RemovePayload(node.entries, n - 1);
      var entries := node.entries[..n - 1] + node.entries[n..];
      LeafRemovedValid(node.entries, n - 1, entries);
      LeafRemovedMatches(a.pages, entries);
    }
  }

  lemma {:induction false} LeafRemovedMatches(pages: Store, entries: seq<Entry>)
    ensures MatchesKids(pages, TLeaf(0, entries))
  {
  }

  lemma {:induction false} LeafRemovedValid(s: seq<Entry>, i: nat, r: seq<Entry>)
    requires i < |s| && Sorted(s) && forall j :: 0 <= j < |s| ==> LeafEntry(s[j])
    requires r == s[..i] + s[i + 1..]
    ensures forall j :: 0 <= j < |r| ==> LeafEntry(r[j]) && ValidEntry(true, j, r[j])
  {
    forall j | 0 <= j < |r| ensures LeafEntry(r[j]) && ValidEntry(true, j, r[j]) {
      var k := if j < i then j else j + 1;
      assert r[j] == s[k];
      if k > 0 {
        assert Less(s[0].key, s[k].key);
      }
    }
  }

  /**
   One level up from a removal: the children from `i` to `n`, the changed one among
   them, have given way to `pieces`, and their pages have joined the obsolete ones.
   */
  lemma {:induction false} RemovedInner(
    a: Snap, b: Snap, c: Snap, t: Tree, h: nat, i: nat, n: nat, key: Bytes, pieces: seq<Tree>, t': Tree, node': Node,
    obs: seq<nat>, obs': seq<nat>)
    requires Grown(a, b) && Grown(b, c) && t.TInner? && Wf(t, h) && i <= n <= |t.kids|
    requires Replaced(b, c, t, h, i, n, pieces, t', node')
    requires KidBagAll(pieces) + multiset(obs') == BagAll(t.kids[i..n]) + multiset(obs) + multiset(NewIds(a, b))
    requires multiset(obs') <= multiset(obs) + BagAll(t.kids[i..n])
    requires HasKey(Flat(t), key) && NodeBytes(node') <= PAGE_SIZE
    requires FlatAll(t.kids[..i]) + FlatAll(pieces) + FlatAll(t.kids[n..]) == Remove(Flat(t), key)
    ensures Removed(a, c, t, h, t', node', key, obs, obs')
  {
    hide FlatAll, BagAll, KidBag, KidBagAll, Flat, Grown, NewIds, Wf, Body, FirstKey, NodeOf, Remove, Payload;
    hide MatchesKids, HasKey;
    GrownTrans(a, b, c);
    InnerFacts(t, h);
    assert t.kids == t.kids[..i] + t.kids[i..n] + t.kids[n..];
    Splice(t.kids[..i], t.kids[i..n], t.kids[n..]);
    BagSlide(BagAll(t.kids[..i]), BagAll(t.kids[n..]), BagAll(t.kids[i..n]), KidBagAll(pieces),
             multiset(obs), multiset(obs'), multiset(NewIds(a, b)), multiset(NewIds(b, c)));
  }

  lemma {:induction false} BagSlide(
    left: multiset<nat>, right: multiset<nat>, mid: multiset<nat>, mid': multiset<nat>,
    obs: multiset<nat>, obs': multiset<nat>, n1: multiset<nat>, n2: multiset<nat>)
    requires mid' + obs' == mid + obs + n1 && obs' <= obs + mid
    ensures left + mid' + right + n2 + obs' == (left + mid + right) + obs + (n1 + n2)
    ensures obs' <= obs + (left + mid + right)
  {
    calc {
      left + mid' + right + n2 + obs';
      left + right + n2 + (mid' + obs');
      left + right + n2 + (mid + obs + n1);
      (left + mid + right) + obs + (n1 + n2);
    }
  }

  /** The outcome of a removal below some page. */
  datatype Removal = Fails | Missing | Deleted(node: Node)

  /** Replacing links by one whose key is no longer than the first of them saves space. */
  lemma {:induction false} OneLinkBytes(kids: seq<Tree>, i: nat, n: nat, piece: Tree)
    requires i < n <= |kids| && |FirstKey(piece)| <= |FirstKey(kids[i])|
    ensures Payload(Links(kids)[..i] + [LinkOf(piece)] + Links(kids)[n..]) <= Payload(Links(kids))
  {
    hide FirstKey;
    var s := Links(kids);
    var rest := s[i + 1..n] + s[n..];
    assert s == s[..i] + ([s[i]] + rest);
    PayloadAppend(s[..i], [s[i]] + rest);
    PayloadAppend([s[i]], rest);
    PayloadAppend(s[i + 1..n], s[n..]);
    PayloadAppend(s[..i] + [LinkOf(piece)], s[n..]);
    PayloadAppend(s[..i], [LinkOf(piece)]);
    PayloadSingle(s[i]);
    PayloadSingle(LinkOf(piece));
  }

  /** The parent rebuilt around one stored piece. */
  lemma {:induction false} RebuiltParent(
    a: Snap, b: Snap, t: Tree, h: nat, i: nat, n: nat, piece: Tree, child: Node, placed: seq<Tree>)
    requires Grown(a, b) && t.TInner? && Wf(t, h) && h > 0 && MatchesKids(a.pages, t) && i < n <= |t.kids|
    requires IsPiece(a.pages, piece, h - 1, child) && Stored(a, b, [piece], placed)
    requires Sorted(FlatAll(t.kids[..i]) + Flat(piece) + FlatAll(t.kids[n..]))
    ensures var t' := TInner(0, t.kids[..i] + placed + t.kids[n..]);
            var entries := NodeOf(t).entries[..i] + Links(placed) + NodeOf(t).entries[n..];
            && Replaced(a, b, t, h, i, n, [piece], t', Node(false, entries))
            && (forall j :: 0 <= j < |entries| ==> ValidEntry(false, j, entries[j]))
            && (|FirstKey(piece)| <= |FirstKey(t.kids[i])| ==> HEADER_SIZE + Payload(entries) <= PAGE_SIZE)
  {
    hide FlatAll, Bag, BagAll, KidBagAll, Wf, Matches, MatchesKids, FirstKey, Payload, Grown, NodeOf, WithId, Sorted;
    InnerFacts(t, h);
    GrownKeeps(a, b);
    Singletons(piece);
    forall j | 0 <= j < |placed| ensures Wf(placed[j], h - 1) && FirstKey(placed[j]) == FirstKey(piece) {
      assert [piece][j] == piece;
      WithIdFacts(piece, h - 1, placed[j].id);
    }
    Assemble(b.pages, t, h, i, n, placed);
    var t' := TInner(0, t.kids[..i] + placed + t.kids[n..]);
    LinksValid(t'.kids, h - 1);
    InnerNode(t');
    if |FirstKey(piece)| <= |FirstKey(t.kids[i])| {
      OneLinkBytes(t.kids, i, n, placed[0]);
      assert Links(placed) == [LinkOf(placed[0])];
    }
  }

  lemma {:induction false} InnerNode(t: Tree)
    requires t.TInner?
    ensures NodeOf(t) == Node(false, Links(t.kids))
  {
  }

  /** Both nodes in one page, when they fit. */
  function MergeNodes(left: Node, right: Node): Option<Node> {
    if HEADER_SIZE + Payload(left.entries) + Payload(right.entries) <= PAGE_SIZE
    then Some(Node(left.leaf, left.entries + right.entries))
    else None
  }

  /**
   After a removal in child `idx`, the page that is to take the place of the children
   from `i` to `n`: the changed child alone, or merged with a neighbour.
   */
  ghost predicate Choice(
    a: Snap, b: Snap, t: Tree, h: nat, idx: nat, key: Bytes,
    i: nat, n: nat, page: Node, piece: Tree, obs: seq<nat>, obs': seq<nat>)
    requires t.TInner? && i <= idx < n <= |t.kids|
  {
    && h > 0 && Body(piece, h - 1) && page == NodeOf(piece) && NodeBytes(page) <= PAGE_SIZE
    && MatchesKids(b.pages, piece)
    && FlatAll(t.kids[..i]) + Flat(piece) + FlatAll(t.kids[n..]) == Remove(Flat(t), key)
    && KidBag(piece) + multiset(obs') == BagAll(t.kids[i..n]) + multiset(obs) + multiset(NewIds(a, b))
    && multiset(obs') <= multiset(obs) + BagAll(t.kids[i..n])
    && (FirstKey(t.kids[idx]) != key ==> Occupied(piece) && FirstKey(piece) == FirstKey(t.kids[i]))
  }

  lemma {:induction false} ChoiceNode(
    a: Snap, b: Snap, t: Tree, h: nat, idx: nat, key: Bytes, page: Node, piece: Tree, obs: seq<nat>, obs': seq<nat>)
    requires t.TInner? && idx < |t.kids| && Wf(t, h)
    requires Choice(a, b, t, h, idx, key, idx, idx + 1, page, piece, obs, obs')
    ensures page == NodeOf(piece)
    ensures forall i :: 0 <= i < |t.kids| ==> (t.kids[i].TLeaf? <==> piece.TLeaf?)
  {
    hide Flat, FlatAll, BagAll, KidBag, KidBagAll, NodeOf, Remove, MatchesKids, NewIds, Wf;
    InnerFacts(t, h);
    forall i | 0 <= i < |t.kids| ensures t.kids[i].TLeaf? <==> piece.TLeaf? {
      WfBody(t.kids[i], h - 1);
    }
  }

  lemma {:induction false} ChoiceAlone(
    a: Snap, b: Snap, t: Tree, h: nat, idx: nat, key: Bytes, page: Node, piece: Tree, obs: seq<nat>, below: seq<nat>)
    requires t.TInner? && idx < |t.kids| && Wf(t, h) && h > 0 && Sorted(Flat(t))
    requires Leq(FirstKey(t.kids[idx]), key) && (idx + 1 < |t.kids| ==> Less(key, FirstKey(t.kids[idx + 1])))
    requires Removed(a, b, t.kids[idx], h - 1, piece, page, key, obs, below)
    ensures Choice(a, b, t, h, idx, key, idx, idx + 1, page, piece, obs, below + [t.kids[idx].id])
    ensures HasKey(Flat(t), key)
  {
    hide FlatAll, BagAll, KidBag, KidBagAll, Flat, Body, Wf, FirstKey, NodeOf, Payload, MatchesKids, NewIds, Sorted;
    hide Remove, HasKey;
    InnerFacts(t, h);
    MissingUp(t.kids, h - 1, idx, key);
    var kid := t.kids[idx];
    Singletons(kid);
    assert t.kids[idx..idx + 1] == [kid];
    assert multiset(below + [kid.id]) == multiset(below) + multiset{kid.id};
    assert Bag(kid) == multiset{kid.id} + KidBag(kid);
    BagPlus(KidBag(kid), KidBag(piece), multiset(obs), multiset(below), multiset(NewIds(a, b)), kid.id);
    WfBody(kid, h - 1);
    FirstEntry(kid, h - 1);
    if FirstKey(kid) != key {
      RemoveKeepsFirst(Flat(kid), key);
      NonEmptyFirst(piece, h - 1);
    }
  }

  lemma {:induction false} BagPlus(
    kid: multiset<nat>, piece: multiset<nat>, obs: multiset<nat>, below: multiset<nat>, n1: multiset<nat>, id: nat)
    requires piece + below == kid + obs + n1 && below <= obs + kid
    ensures piece + (below + multiset{id}) == (multiset{id} + kid) + obs + n1
    ensures below + multiset{id} <= obs + (multiset{id} + kid)
  {
    calc {
      piece + (below + multiset{id});
      (piece + below) + multiset{id};
      (kid + obs + n1) + multiset{id};
      (multiset{id} + kid) + obs + n1;
    }
  }

  lemma {:induction false} RemoveKeepsFirst(s: seq<Entry>, key: Bytes)
    requires s != [] && s[0].key != key
    ensures Remove(s, key) != [] && Remove(s, key)[0] == s[0]
  {
  }

  lemma {:induction false} NonEmptyFirst(t: Tree, h: nat)
    requires Body(t, h) && Flat(t) != []
    ensures Occupied(t) && FirstKey(t) == Flat(t)[0].key
  {
    assert Occupied(t) by {
      if t.TInner? && t.kids == [] {
        assert FlatAll(t.kids) == [];
      }
    }
    FirstEntry(t, h);
  }

  lemma {:induction false} ChoiceLeft(
    a: Snap, b: Snap, t: Tree, h: nat, idx: nat, key: Bytes, page: Node, piece: Tree, obs: seq<nat>, obs': seq<nat>)
    requires t.TInner? && 0 < idx < |t.kids| && Wf(t, h) && MatchesKids(b.pages, t)
    requires Choice(a, b, t, h, idx, key, idx, idx + 1, page, piece, obs, obs')
    requires MergeNodes(NodeOf(t.kids[idx - 1]), page).Some?
    ensures (t.kids[idx - 1].TLeaf? <==> piece.TLeaf?)
    ensures Choice(a, b, t, h, idx, key, idx - 1, idx + 1, MergeNodes(NodeOf(t.kids[idx - 1]), page).value,
                   MergeTree(t.kids[idx - 1], piece), obs, obs' + [t.kids[idx - 1].id])
  {
    hide FlatAll, BagAll, KidBag, KidBagAll, Flat, Body, Wf, FirstKey, NodeOf, Payload, Matches, NewIds, Sorted, Remove;
    hide HasKey, MergeTree;
    InnerFacts(t, h);
    var left := t.kids[idx - 1];
    WfBody(left, h - 1);
    MergeFacts(left, piece, h - 1);
    KidMatches(b.pages, t, idx - 1);
    MergeMatches(b.pages, left, piece);
    PayloadAppend(NodeOf(left).entries, page.entries);
    TakeStep(t.kids, idx - 1);
    Splice(t.kids[..idx - 1], [left], []);
    assert t.kids[..idx - 1] + [left] + [] == t.kids[..idx];
    Singletons(left);
    assert FlatAll([]) == [] && BagAll([]) == multiset{} by { NoTrees(); }
    assert t.kids[idx - 1..idx + 1] == [left] + t.kids[idx..idx + 1];
    BagAllAppend([left], t.kids[idx..idx + 1]);
    FlatRegroup(FlatAll(t.kids[..idx - 1]), Flat(left), Flat(piece), FlatAll(t.kids[idx + 1..]));
    MergedBags(Bag(left), KidBag(left), BagAll(t.kids[idx..idx + 1]), KidBag(piece), obs, obs', multiset(NewIds(a, b)),
               left.id);
    MergedFirst(left, piece, h - 1);
  }

  lemma {:induction false} NoTrees()
    ensures FlatAll([]) == [] && BagAll([]) == multiset{}
  {
  }

  lemma {:induction false} FlatRegroup(a: seq<Entry>, b: seq<Entry>, c: seq<Entry>, d: seq<Entry>)
    ensures (a + b) + c + d == a + (b + c) + d
  {
  }

  lemma {:induction false} KidMatches(pages: Store, t: Tree, i: nat)
    requires t.TInner? && i < |t.kids| && MatchesKids(pages, t)
    ensures Matches(pages, t.kids[i]) && MatchesKids(pages, t.kids[i])
    ensures t.kids[i].id in pages && pages[t.kids[i].id] == NodeOf(t.kids[i])
  {
  }

  /** Merging moves a sibling's own page among the obsolete ones. */
  lemma {:induction false} MergedBags(
    sib: multiset<nat>, sibKids: multiset<nat>, rest: multiset<nat>, piece: multiset<nat>,
    obs: seq<nat>, obs': seq<nat>, n1: multiset<nat>, id: nat)
    requires sib == multiset{id} + sibKids
    requires piece + multiset(obs') == rest + multiset(obs) + n1 && multiset(obs') <= multiset(obs) + rest
    ensures (sibKids + piece) + multiset(obs' + [id]) == (sib + rest) + multiset(obs) + n1
    ensures (piece + sibKids) + multiset(obs' + [id]) == (rest + sib) + multiset(obs) + n1
    ensures multiset(obs' + [id]) <= multiset(obs) + (sib + rest)
  {
    assert multiset(obs' + [id]) == multiset(obs') + multiset{id};
    assert sibKids + piece == piece + sibKids && sib + rest == rest + sib;
    calc {
      (sibKids + piece) + (multiset(obs') + multiset{id});
      (multiset{id} + sibKids) + (piece + multiset(obs'));
      (multiset{id} + sibKids) + (rest + multiset(obs) + n1);
      (sib + rest) + multiset(obs) + n1;
    }
  }

  lemma {:induction false} MergedFirst(l: Tree, r: Tree, h: nat)
    requires Body(l, h) && Body(r, h) && (l.TLeaf? <==> r.TLeaf?)
    ensures Occupied(l) ==> Occupied(MergeTree(l, r)) && FirstKey(MergeTree(l, r)) == FirstKey(l)
  {
    MergeFacts(l, r, h);
  }

  lemma {:induction false} ChoiceRight(
    a: Snap, b: Snap, t: Tree, h: nat, idx: nat, key: Bytes, page: Node, piece: Tree, obs: seq<nat>, obs': seq<nat>)
    requires t.TInner? && idx + 1 < |t.kids| && Wf(t, h) && MatchesKids(b.pages, t)
    requires Choice(a, b, t, h, idx, key, idx, idx + 1, page, piece, obs, obs')
    requires MergeNodes(page, NodeOf(t.kids[idx + 1])).Some?
    ensures (t.kids[idx + 1].TLeaf? <==> piece.TLeaf?)
    ensures Choice(a, b, t, h, idx, key, idx, idx + 2, MergeNodes(page, NodeOf(t.kids[idx + 1])).value,
                   MergeTree(piece, t.kids[idx + 1]), obs, obs' + [t.kids[idx + 1].id])
  {
    hide FlatAll, BagAll, KidBag, KidBagAll, Flat, Body, Wf, FirstKey, NodeOf, Payload, Matches, NewIds, Sorted, Remove;
    hide HasKey, MergeTree;
    InnerFacts(t, h);
    var right := t.kids[idx + 1];
    WfBody(right, h - 1);
    MergeFacts(piece, right, h - 1);
    KidMatches(b.pages, t, idx + 1);
    MergeMatches(b.pages, piece, right);
    PayloadAppend(page.entries, NodeOf(right).entries);
    Splice([], [right], t.kids[idx + 2..]);
    assert [] + [right] + t.kids[idx + 2..] == t.kids[idx + 1..];
    Singletons(right);
    NoTrees();
    assert t.kids[idx..idx + 2] == t.kids[idx..idx + 1] + [right];
    BagAllAppend(t.kids[idx..idx + 1], [right]);
    FlatRegroup2(FlatAll(t.kids[..idx]), Flat(piece), Flat(right), FlatAll(t.kids[idx + 2..]));
    MergedBags(Bag(right), KidBag(right), BagAll(t.kids[idx..idx + 1]), KidBag(piece), obs, obs',
               multiset(NewIds(a, b)), right.id);
    MergedFirst(piece, right, h - 1);
  }

  lemma {:induction false} FlatRegroup2(a: seq<Entry>, b: seq<Entry>, c: seq<Entry>, d: seq<Entry>)
    ensures a + b + ([] + c + d) == a + (b + c) + d
  {
  }

  /** A choice that is not empty is a piece ready to be stored. */
  lemma {:induction false} ChoicePiece(
    a: Snap, b: Snap, t: Tree, h: nat, idx: nat, key: Bytes,
    i: nat, n: nat, page: Node, piece: Tree, obs: seq<nat>, obs': seq<nat>)
    requires t.TInner? && i <= idx < n <= |t.kids| && Sorted(Flat(t)) && page.entries != []
    requires Choice(a, b, t, h, idx, key, i, n, page, piece, obs, obs')
    ensures IsPiece(b.pages, piece, h - 1, page)
    ensures Sorted(FlatAll(t.kids[..i]) + Flat(piece) + FlatAll(t.kids[n..]))
    ensures FirstKey(t.kids[idx]) != key ==> FirstKey(piece) == FirstKey(t.kids[i])
  {
    hide Body, Flat, FlatAll, BagAll, KidBag, Sorted, Remove, ToMap, FirstKey, Payload, MatchesKids;
    RemoveIsDelete(Flat(t), key);
    TopWf(piece, h - 1);
  }

  /** A choice that is empty leaves the parent without the child. */
  lemma {:induction false} ChoiceEmpty(
    a: Snap, b: Snap, t: Tree, h: nat, idx: nat, key: Bytes, page: Node, piece: Tree, obs: seq<nat>, obs': seq<nat>)
    requires Grown(a, b) && t.TInner? && idx < |t.kids| && Wf(t, h) && MatchesKids(b.pages, t)
    requires Sorted(Flat(t)) && HasKey(Flat(t), key) && page.entries == []
    requires Choice(a, b, t, h, idx, key, idx, idx + 1, page, piece, obs, obs')
    ensures var entries := NodeOf(t).entries[..idx] + NodeOf(t).entries[idx + 1..];
            var t' := TInner(0, t.kids[..idx] + t.kids[idx + 1..]);
            && Encode(false, entries, PAGE_SIZE) == Some(Node(false, entries))
            && Removed(a, b, t, h, t', Node(false, entries), key, obs, obs')
  {
    hide Body, Flat, FlatAll, BagAll, KidBag, Sorted, Remove, ToMap, FirstKey, Payload, MatchesKids, HasKey, NodeOf, Wf;
    hide Grown;
    InnerFacts(t, h);
    EmptyPiece(piece);
    RemoveIsDelete(Flat(t), key);
    Assemble(b.pages, t, h, idx, idx + 1, []);
    NoTrees();
    var t' := TInner(0, t.kids[..idx] + [] + t.kids[idx + 1..]);
    var entries := NodeOf(t).entries[..idx] + NodeOf(t).entries[idx + 1..];
    assert t.kids[..idx] + [] + t.kids[idx + 1..] == t.kids[..idx] + t.kids[idx + 1..];
    assert NodeOf(t).entries[..idx] + Links([]) + NodeOf(t).entries[idx + 1..] == entries;
    InnerNode(t');
    BodyKids(t', h);
    LinksValid(t'.kids, h - 1);
    RemovePayload(NodeOf(t).entries, idx);
    GrownRefl(b);
    assert FlatAll(t.kids[..idx]) + [] + FlatAll(t.kids[idx + 1..]) ==
           FlatAll(t.kids[..idx]) + FlatAll(t.kids[idx + 1..]);
    assert KidBagAll([]) == multiset{} by { NoBags(); }
    RemovedInner(a, b, b, t, h, idx, idx + 1, key, [], t', Node(false, entries), obs, obs');
  }

  lemma {:induction false} NoBags()
    ensures KidBagAll([]) == multiset{}
  {
  }

  lemma {:induction false} BodyKids(t: Tree, h: nat)
    requires t.TInner? && Body(t, h)
    ensures h > 0 && forall i :: 0 <= i < |t.kids| ==> Wf(t.kids[i], h - 1) && t.kids[i].id != 0
    ensures Flat(t) == FlatAll(t.kids)
  {
  }

  lemma {:induction false} EmptyPiece(t: Tree)
    requires NodeOf(t).entries == []
    ensures Flat(t) == [] && KidBag(t) == multiset{}
  {
    if t.TInner? {
      assert |Links(t.kids)| == |t.kids|;
    }
  }

  lemma {:induction false} KeyInChild(pages: Store, t: Tree, h: nat, node: Node, idx: nat, key: Bytes)
    requires IsPiece(pages, t, h, node) && t.TInner? && h > 0 && idx < |t.kids| && Sorted(Flat(t))
    requires Leq(FirstKey(t.kids[idx]), key) && (idx + 1 < |t.kids| ==> Less(key, FirstKey(t.kids[idx + 1])))
    ensures HasKey(Flat(t), key) <==> HasKey(Flat(t.kids[idx]), key)
  {
    hide FlatAll, Wf, Sorted, HasKey, FirstKey;
    InnerFacts(t, h);
    MissingUp(t.kids, h - 1, idx, key);
  }

  lemma {:induction false} KidOccupied(t: Tree, h: nat, i: nat)
    requires t.TInner? && h > 0 && Wf(t, h) && i < |t.kids|
    ensures NodeOf(t.kids[i]).entries != [] && Links(t.kids)[i].ptr == t.kids[i].id
  {
    InnerFacts(t, h);
    WfBody(t.kids[i], h - 1);
  }

  lemma {:induction false} ChoiceRemoved(
    a: Snap, b: Snap, c: Snap, t: Tree, h: nat, idx: nat, key: Bytes,
    i: nat, n: nat, page: Node, piece: Tree, t': Tree, node': Node, obs: seq<nat>, obs': seq<nat>)
    requires Grown(a, b) && Grown(b, c) && t.TInner? && Wf(t, h) && i <= idx < n <= |t.kids|
    requires Choice(a, b, t, h, idx, key, i, n, page, piece, obs, obs')
    requires Replaced(b, c, t, h, i, n, [piece], t', node') && NodeBytes(node') <= PAGE_SIZE && HasKey(Flat(t), key)
    ensures Removed(a, c, t, h, t', node', key, obs, obs')
  {
    hide Flat, FlatAll, BagAll, KidBag, KidBagAll, Wf, Body, Grown, MatchesKids, Remove, HasKey, FirstKey, NodeOf;
    hide Payload, Replaced, Removed;
    Singletons(piece);
    SingleBag(piece);
    RemovedInner(a, b, c, t, h, i, n, key, [piece], t', node', obs, obs');
  }

  lemma {:induction false} SingleBag(piece: Tree)
    ensures KidBagAll([piece]) == KidBag(piece)
  {
    KidBagAllStep([], piece);
    assert [] + [piece] == [piece];
  }

  /** The whole removal, from the old root to a new root. */
  lemma {:induction false} RemovedVersion(
    a: Snap, b: Snap, d: Snap, v: Version, key: Bytes, t': Tree, node': Node, obs: seq<nat>, v': Version)
    requires Grown(a, b) && Grown(b, d) && v.Rooted? && SoundVersion(v) && key != []
    requires Removed(a, b, v.tree, v.height, t', node', key, [], obs)
    requires VersionBag(v') == KidBag(t') + multiset(NewIds(b, d))
    requires if v'.Rooted? then Wf(v'.tree, v'.height) && v'.tree.id != 0 && Flat(v'.tree) == Flat(t')
             else |Flat(t')| == 1
    requires Owned(a.pm, Live(v))
    ensures Balanced(a, d, v, v', obs + [v.tree.id]) && SoundVersion(v')
    ensures key in Contents(v) && Contents(v') == Contents(v) - {key}
  {
    hide Flat, Bag, KidBag, Wf, Body, Matches, MatchesKids, NodeOf, FirstKey, Grown, Remove, ToMap, Sorted, OwnerBag;
    hide Owned, HasKey;
    GrownTrans(a, b, d);
    assert multiset(obs + [v.tree.id]) == multiset(obs) + multiset{v.tree.id};
    TopBag(v.tree);
    BagTop(KidBag(v.tree), KidBag(t'), multiset(obs), multiset(NewIds(a, b)), multiset(NewIds(b, d)), v.tree.id);
    assert Balanced(a, d, v, v', obs + [v.tree.id]);
    BalancedUnshared(a, d, v, v', obs + [v.tree.id]);
    RemoveIsDelete(Flat(v.tree), key);
    ToMapKeys(Flat(v.tree));
    WfBody(v.tree, v.height);
    FirstEntry(v.tree, v.height);
    RemoveKeepsFirst(Flat(v.tree), key);
    if v'.Rooted? {
      WfBody(v'.tree, v'.height);
      FirstEntry(v'.tree, v'.height);
    } else {
      assert Flat(t') == [Flat(t')[0]];
      OnlySentinel(Flat(t')[0]);
    }
  }

  lemma {:induction false} TopBag(t: Tree)
    ensures Bag(t) == multiset{t.id} + KidBag(t)
  {
  }

  lemma {:induction false} OnlySentinel(e: Entry)
    requires e.key == []
    ensures ToMap([e]) - {[]} == map[] && ToMap([]) == map[]
  {
    assert [e][1..] == [];
  }

  /** What the updated root can look like; it always keeps the sentinel. */
  lemma {:induction false} UpdatedRoot(
    a: Snap, b: Snap, v: Version, key: Bytes, t': Tree, node': Node, obs: seq<nat>)
    requires v.Rooted? && SoundVersion(v) && key != []
    requires Removed(a, b, v.tree, v.height, t', node', key, [], obs)
    ensures node'.entries != [] && Wf(t', v.height)
    ensures node'.leaf && |node'.entries| == 1 ==> |Flat(t')| == 1 && KidBag(t') == multiset{}
    ensures !node'.leaf && |node'.entries| == 1 ==>
              && t'.TInner? && v.height > 0 && |t'.kids| == 1 && node'.entries[0].ptr == t'.kids[0].id
              && Wf(t'.kids[0], v.height - 1) && t'.kids[0].id != 0 && Matches(b.pages, t'.kids[0])
              && Flat(t'.kids[0]) == Flat(t') && Bag(t'.kids[0]) == KidBag(t')
  {
    hide Remove, Sorted, Payload, HasKey;
    WfBody(v.tree, v.height);
    FirstEntry(v.tree, v.height);
    RemoveKeepsFirst(Flat(v.tree), key);
    NonEmptyFirst(t', v.height);
    if !node'.leaf && |node'.entries| == 1 {
      assert t'.kids == [t'.kids[0]];
      Singletons(t'.kids[0]);
    }
  }

  /** The updated root stored under a fresh id. */
  lemma {:induction false} StoredRoot(b: Snap, d: Snap, t': Tree, h: nat, node': Node, id: nat)
    requires Grown(b, d) && Wf(t', h) && node' == NodeOf(t') && MatchesKids(b.pages, t') && id != 0
    requires d.pages == b.pages[id := node'] && NewIds(b, d) == [id]
    ensures var u := WithId(t', id);
            && Wf(u, h) && u.id == id && Flat(u) == Flat(t') && Matches(d.pages, u)
            && Bag(u) == KidBag(t') + multiset(NewIds(b, d))
  {
    hide Flat, KidBag, Bag, Wf, Matches, MatchesKids, NodeOf, Grown, WithId;
    GrownKeeps(b, d);
    WithIdFacts(t', h, id);
    PlaceNew(d.pages, t', id);
  }

  /** The new version after a removal, whichever way the root was rebuilt. */
  lemma {:induction false} RemovedFacts(a: Snap, b: Snap, t: Tree, h: nat, t': Tree, node: Node, key: Bytes,
      obs: seq<nat>, obs': seq<nat>)
    requires Removed(a, b, t, h, t', node, key, obs, obs')
    ensures node == NodeOf(t') && MatchesKids(b.pages, t')
    ensures if t'.TLeaf? then node.leaf && |node.entries| == |t'.entries| else !node.leaf && |node.entries| == |t'.kids|
  {
  }

  lemma {:induction false} NothingStored(v: Version, key: Bytes)
    requires v.Empty?
    ensures key !in Contents(v)
  {
  }

  lemma {:induction false} KeyInVersion(v: Version, key: Bytes)
    requires v.Rooted? && key != []
    ensures HasKey(Flat(v.tree), key) <==> key in Contents(v)
  {
    hide Flat;
    ToMapKeys(Flat(v.tree));
  }

  lemma {:induction false} SamePending(a: Snap, b: Snap)
    requires Grown(a, b)
    ensures a.pm.pendingFreePageIDs == b.pm.pendingFreePageIDs
  {
  }
}
