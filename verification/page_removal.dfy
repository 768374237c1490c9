/**
 When a removal fails. The tree before it settles what every page on the path would hold
 afterwards, and so whether some page would outgrow its size.
 */
module PageRemoval {
  import opened ByteStrings
  import opened Entries
  import opened PageNodes
  import opened PageTrees
  import opened PageTreeSteps
  import opened PageUpdates

  /** Entries without their pointers. */
  function Bare(es: seq<Entry>): (r: seq<Entry>)
    ensures |r| == |es|
  {
    seq(|es|, i requires 0 <= i < |es| => es[i].(ptr := 0))
  }

  /** What is left on a page: its entries, or none because they would not fit. */
  datatype Left = Overflow | Keeps(entries: seq<Entry>)

  function Head(es: seq<Entry>): Entry
    requires es != []
  {
    Entry(es[0].key, [], 0)
  }

  /**
   The page for a changed child with entries `es`, and the children it replaces: a child
   of at most a quarter page joins its left or else its right neighbour if both fit a page.
   */
  ghost function Pick(kids: seq<Tree>, idx: nat, es: seq<Entry>): (r: (nat, nat, seq<Entry>))
    requires idx < |kids|
    ensures r.0 <= idx < r.1 <= |kids|
  {
    var small := HEADER_SIZE + Payload(es) <= PAGE_SIZE / 4;
    if small && idx > 0 && HEADER_SIZE + Payload(NodeOf(kids[idx - 1]).entries) + Payload(es) <= PAGE_SIZE then
      (idx - 1, idx + 1, Bare(NodeOf(kids[idx - 1]).entries) + es)
    else if small && idx + 1 < |kids|
            && HEADER_SIZE + Payload(es) + Payload(NodeOf(kids[idx + 1]).entries) <= PAGE_SIZE then
      (idx, idx + 2, es + Bare(NodeOf(kids[idx + 1]).entries))
    else (idx, idx + 1, es)
  }

  /** The parent's page with one link to `piece` in place of the links from `i` to `n`. */
  ghost function Relinked(kids: seq<Tree>, i: nat, n: nat, piece: seq<Entry>): Left
    requires i < n <= |kids|
  {
    var links := Bare(Links(kids));
    if piece == [] then Keeps(links[..i] + links[n..])
    else
      var entries := links[..i] + [Head(piece)] + links[n..];
      if HEADER_SIZE + Payload(entries) <= PAGE_SIZE then Keeps(entries) else Overflow
  }

  /** The parent's page once child `idx` has the entries `es`. */
  ghost function Rejoined(kids: seq<Tree>, idx: nat, es: seq<Entry>): Left
    requires idx < |kids|
  {
    var (i, n, piece) := Pick(kids, idx, es);
    Relinked(kids, i, n, piece)
  }

  /** What removing `key` leaves on the top page of `t`. */
  ghost function After(t: Tree, key: Bytes): Left {
    match t
    case TLeaf(_, entries) => Keeps(Bare(Remove(entries, key)))
    case TInner(_, kids) =>
      var n := UpperBound(Links(kids), key);
      if n == 0 then Keeps(Bare(Links(kids)))
      else
        match After(kids[n - 1], key)
        case Overflow => Overflow
        case Keeps(es) => Rejoined(kids, n - 1, es)
  }

  lemma {:induction false} BareAppend(a: seq<Entry>, b: seq<Entry>)
    ensures Bare(a + b) == Bare(a) + Bare(b)
  {
  }

  lemma {:induction false} BareSlices(s: seq<Entry>, i: nat, n: nat)
    requires i <= n <= |s|
    ensures Bare(s)[..i] == Bare(s[..i]) && Bare(s)[n..] == Bare(s[n..])
  {
  }

  lemma {:induction false} BarePayload(s: seq<Entry>)
    ensures Payload(Bare(s)) == Payload(s)
  {
    if s != [] {
      BarePayload(s[1..]);
      assert Bare(s)[1..] == Bare(s[1..]);
    }
  }

  lemma {:induction false} LeafAfter(t: Tree, key: Bytes)
    requires t.TLeaf? && Sorted(t.entries) && HasKey(t.entries, key)
    ensures var n := UpperBound(t.entries, key);
            n > 0 && After(t, key) == Keeps(Bare(t.entries[..n - 1] + t.entries[n..]))
  {
    hide Remove, Bare;
    var n := UpperBound(t.entries, key);
    var i :| 0 <= i < |t.entries| && t.entries[i].key == key;
    StrictTotalOrder();
    assert i == 0 || Less(t.entries[0].key, t.entries[i].key);
    LeafRemove(t.entries, n, key);
  }

  /** The parent rebuilt by a removal has the entries that `Relinked` gives. */
  lemma {:induction false} RebuiltBare(
    kids: seq<Tree>, i: nat, n: nat, piece: Tree, child: Node, placed: seq<Tree>, parent: seq<Entry>)
    requires i < n <= |kids| && child == NodeOf(piece) && child.entries != [] && child.entries[0].key == FirstKey(piece)
    requires |placed| == 1 && FirstKey(placed[0]) == FirstKey(piece)
    requires parent == Links(kids)
    ensures var entries := parent[..i] + Links(placed) + parent[n..];
            Relinked(kids, i, n, Bare(child.entries)) ==
              if HEADER_SIZE + Payload(entries) <= PAGE_SIZE then Keeps(Bare(entries)) else Overflow
  {
    hide Payload, FirstKey, NodeOf;
    var entries := parent[..i] + Links(placed) + parent[n..];
    assert Links(placed) == [LinkOf(placed[0])];
    assert Bare(Links(placed)) == [Head(Bare(child.entries))];
    BareSlices(parent, i, n);
    BareAppend(parent[..i] + Links(placed), parent[n..]);
    BareAppend(parent[..i], Links(placed));
    BarePayload(entries);
  }

  lemma {:induction false} LeafShrinks(pages: Store, t: Tree, h: nat, node: Node, key: Bytes)
    requires IsPiece(pages, t, h, node) && node.leaf && Sorted(Flat(t))
    ensures var n := UpperBound(node.entries, key);
            n > 0 && node.entries[n - 1].key == key ==>
              && HasKey(Flat(t), key)
              && After(t, key) == Keeps(Bare(node.entries[..n - 1] + node.entries[n..]))
              && Shrank(t, TLeaf(0, node.entries[..n - 1] + node.entries[n..]), key)
    ensures DropCost(t, key) == 0
  {
    hide After, Bare;
    var n := UpperBound(node.entries, key);
    assert t == TLeaf(t.id, node.entries);
    if n > 0 && node.entries[n - 1].key == key {
      LeafAfter(t, key);
      LeafRemove(node.entries, n, key);
    }
  }

  lemma {:induction false} InnerAfter(t: Tree, key: Bytes, idx: nat, below: Left)
    requires t.TInner? && idx < |t.kids| && UpperBound(NodeOf(t).entries, key) == idx + 1
    requires After(t.kids[idx], key) == below
    ensures After(t, key) == if below.Overflow? then Overflow else Rejoined(t.kids, idx, below.entries)
  {
    hide Rejoined;
  }

  lemma {:induction false} PlacedFirst(a: Snap, b: Snap, piece: Tree, placed: seq<Tree>)
    requires Stored(a, b, [piece], placed)
    ensures |placed| == 1 && FirstKey(placed[0]) == FirstKey(piece) && placed[0] == WithId(piece, placed[0].id)
  {
    assert Placed(b.pages, [piece][0], placed[0]);
  }

  lemma {:induction false} NoPayload(es: seq<Entry>)
    ensures es == [] ==> Payload(es) == 0 && Bare(es) == []
    ensures Bare(es) == [] ==> es == []
  {
  }

  lemma {:induction false} EmptyRelinked(kids: seq<Tree>, idx: nat)
    requires idx < |kids|
    ensures Relinked(kids, idx, idx + 1, Bare([])) == Keeps(Bare(Links(kids)[..idx] + Links(kids)[idx + 1..]))
  {
    BareSlices(Links(kids), idx, idx + 1);
    BareAppend(Links(kids)[..idx], Links(kids)[idx + 1..]);
  }

  // ----- The tree that a removal makes

  /** The subtree on the page that `Pick` chooses for the changed child `c`. */
  ghost function PickTree(kids: seq<Tree>, idx: nat, c: Tree): Tree
    requires idx < |kids|
  {
    var (i, n, _) := Pick(kids, idx, Bare(NodeOf(c).entries));
    if i < idx && (kids[idx - 1].TLeaf? <==> c.TLeaf?) then MergeTree(kids[idx - 1], c)
    else if n == idx + 2 && (c.TLeaf? <==> kids[idx + 1].TLeaf?) then MergeTree(c, kids[idx + 1])
    else c
  }

  /** `piece`, on some page, in place of the children from `i` to `n`. */
  ghost predicate OneFor(kids: seq<Tree>, i: nat, n: nat, piece: Tree, t': Tree)
    requires i < n <= |kids|
  {
    t'.TInner? && exists id :: t'.kids == kids[..i] + [WithId(piece, id)] + kids[n..]
  }

  ghost predicate ShrankAt(kids: seq<Tree>, idx: nat, c: Tree, t': Tree)
    requires idx < |kids|
  {
    var (i, n, es) := Pick(kids, idx, Bare(NodeOf(c).entries));
    if es == [] then t'.TInner? && t'.kids == kids[..i] + kids[n..]
    else OneFor(kids, i, n, PickTree(kids, idx, c), t')
  }

  /** `t'` is `t` without `key`, each page on the path rebuilt around what is left below it. */
  ghost predicate Shrank(t: Tree, t': Tree, key: Bytes) {
    match t
    case TLeaf(_, entries) => t'.TLeaf? && t'.entries == Remove(entries, key)
    case TInner(_, kids) =>
      var idx := UpperBound(Links(kids), key) - 1;
      idx >= 0 && exists c :: Shrank(kids[idx], c, key) && ShrankAt(kids, idx, c, t')
  }

  /** The root after a removal: none, its only child, or the page as it is left. */
  ghost predicate Uncapped(t': Tree, h: nat, v': Version) {
    if (t'.TLeaf? && |t'.entries| == 1) || (t'.TInner? && t'.kids == []) then v'.Empty?
    else if t'.TInner? && |t'.kids| == 1 then v'.Rooted? && v'.tree == t'.kids[0] && v'.height + 1 == h
    else v'.Rooted? && v'.height == h && v'.tree == WithId(t', v'.tree.id)
  }

  /** What removing `key` makes of a tree. */
  ghost predicate DeleteShape(v: Version, v': Version, key: Bytes) {
    v.Rooted? && exists t' :: Shrank(v.tree, t', key) && Uncapped(t', v.height, v')
  }

  lemma {:induction false} ShrankInner(t: Tree, t': Tree, idx: nat, c: Tree, key: Bytes)
    requires t.TInner? && idx < |t.kids| && UpperBound(NodeOf(t).entries, key) == idx + 1
    requires Shrank(t.kids[idx], c, key) && ShrankAt(t.kids, idx, c, t')
    ensures Shrank(t, t', key)
  {
    hide ShrankAt;
  }

  lemma {:induction false} ShapeOf(v: Version, v': Version, t': Tree, key: Bytes)
    requires v.Rooted? && Shrank(v.tree, t', key) && Uncapped(t', v.height, v')
    ensures DeleteShape(v, v', key)
  {
    hide Shrank, Uncapped;
  }

  // ----- Which pages are joined

  /** `kids'` are `kids` with `x` in place of those from `i` to `n`. */
  ghost predicate OneInPlace(kids: seq<Tree>, i: nat, n: nat, x: Tree, kids': seq<Tree>)
    requires i < n <= |kids|
  {
    kids' == kids[..i] + [x] + kids[n..]
  }

  /** The children if the changed one just stayed beside the others. */
  ghost function Beside(kids: seq<Tree>, idx: nat, c: Tree): (r: seq<Tree>)
    requires idx < |kids|
    ensures |r| == |kids|
  {
    kids[..idx] + [c] + kids[idx + 1..]
  }

  /** `left` and `right` share a page, which holds both. */
  ghost predicate Shares(kids: seq<Tree>, at: nat, left: Tree, right: Tree, kids': seq<Tree>)
    requires at + 1 < |kids|
  {
    && MergeBytes(NodeOf(left), NodeOf(right)) <= PAGE_SIZE && (left.TLeaf? <==> right.TLeaf?)
    && exists id :: OneInPlace(kids, at, at + 2, WithId(MergeTree(left, right), id), kids')
  }

  ghost predicate StaysAlone(kids: seq<Tree>, idx: nat, c: Tree, kids': seq<Tree>)
    requires idx < |kids|
  {
    NodeOf(c).entries != [] && exists id :: OneInPlace(kids, idx, idx + 1, WithId(c, id), kids')
  }

  /**
   The children once child `idx` has become `c`. It goes if nothing is left and it was the
   only one. Where recovery would reject it beside its neighbours it shares a page with the
   left one, if there is room, or else with the right one; and only there.
   */
  ghost predicate Rejoins(kids: seq<Tree>, idx: nat, c: Tree, kids': seq<Tree>)
    requires idx < |kids|
  {
    if |kids| == 1 && NodeOf(c).entries == [] then kids' == []
    else if !Crowded(Beside(kids, idx, c), idx) then StaysAlone(kids, idx, c, kids')
    else if idx > 0 && MergeBytes(NodeOf(kids[idx - 1]), NodeOf(c)) <= PAGE_SIZE then
      Shares(kids, idx - 1, kids[idx - 1], c, kids')
    else idx + 1 < |kids| && Shares(kids, idx, c, kids[idx + 1], kids')
  }

  /** `t'` is `t` without `key`, pages joined on every level of the path where they have to be. */
  ghost predicate Joins(t: Tree, t': Tree, key: Bytes) {
    match t
    case TLeaf(_, entries) => t'.TLeaf? && t'.entries == Remove(entries, key)
    case TInner(_, kids) =>
      var idx := UpperBound(Links(kids), key) - 1;
      idx >= 0 && t'.TInner? && exists c :: Joins(kids[idx], c, key) && Rejoins(kids, idx, c, t'.kids)
  }

  /** A removal joins the pages that recovery would object to, and no others. */
  ghost predicate DeleteJoins(v: Version, v': Version, key: Bytes) {
    v.Rooted? && exists t' :: Joins(v.tree, t', key) && Uncapped(t', v.height, v')
  }

  lemma {:induction false} WithIdBytes(t: Tree, id: nat)
    ensures NodeOf(WithId(t, id)) == NodeOf(t)
  {
  }

  /** What is picked, in terms of what recovery would reject. */
  lemma {:induction false} PickMeans(kids: seq<Tree>, idx: nat, c: Tree)
    requires idx < |kids|
    requires forall i :: 0 <= i < |kids| ==> NodeBytes(NodeOf(kids[i])) <= PAGE_SIZE && NodeOf(kids[i]).entries != []
    ensures var (i, n, piece) := Pick(kids, idx, Bare(NodeOf(c).entries));
            && (piece == [] <==> |kids| == 1 && NodeOf(c).entries == [])
            && (if !Crowded(Beside(kids, idx, c), idx) then i == idx && n == idx + 1
                else if idx > 0 && MergeBytes(NodeOf(kids[idx - 1]), NodeOf(c)) <= PAGE_SIZE then
                  i == idx - 1 && n == idx + 1
                else
                  && i == idx && n == idx + 2 <= |kids|
                  && MergeBytes(NodeOf(c), NodeOf(kids[idx + 1])) <= PAGE_SIZE)
  {
    hide Payload, NodeOf, Bare;
    var es, all := Bare(NodeOf(c).entries), Beside(kids, idx, c);
    BarePayload(NodeOf(c).entries);
    NoPayload(NodeOf(c).entries);
    assert all[idx] == c;
    if idx > 0 {
      NoPayload(NodeOf(kids[idx - 1]).entries);
      assert all[idx - 1] == kids[idx - 1];
    }
    if idx + 1 < |kids| {
      NoPayload(NodeOf(kids[idx + 1]).entries);
      assert all[idx + 1] == kids[idx + 1];
    }
  }

  lemma {:induction false} RejoinsAt(kids: seq<Tree>, idx: nat, c: Tree, t': Tree)
    requires idx < |kids| && ShrankAt(kids, idx, c, t')
    requires forall i :: 0 <= i < |kids| ==> (kids[i].TLeaf? <==> c.TLeaf?)
    requires forall i :: 0 <= i < |kids| ==> NodeBytes(NodeOf(kids[i])) <= PAGE_SIZE && NodeOf(kids[i]).entries != []
    ensures t'.TInner? && Rejoins(kids, idx, c, t'.kids)
  {
    hide Payload, NodeOf, NodeBytes, Bare, WithId, MergeTree, Crowded, MergeBytes, Beside, Pick;
    PickMeans(kids, idx, c);
    var (i, n, piece) := Pick(kids, idx, Bare(NodeOf(c).entries));
    if piece != [] {
      var x := PickTree(kids, idx, c);
      var id :| t'.kids == kids[..i] + [WithId(x, id)] + kids[n..];
      assert OneInPlace(kids, i, n, WithId(x, id), t'.kids);
      if n == i + 1 {
        StillThere(kids, idx, c);
      }
    } else {
      assert kids[..0] + kids[1..] == [];
    }
  }

  lemma {:induction false} StillThere(kids: seq<Tree>, idx: nat, c: Tree)
    requires idx < |kids|
    requires forall i :: 0 <= i < |kids| ==> NodeBytes(NodeOf(kids[i])) <= PAGE_SIZE
    ensures |kids| > 1 && NodeOf(c).entries == [] ==> Crowded(Beside(kids, idx, c), idx)
  {
    var all := Beside(kids, idx, c);
    assert all[idx] == c && (idx > 0 ==> all[idx - 1] == kids[idx - 1]);
    assert idx + 1 < |kids| ==> all[idx + 1] == kids[idx + 1];
  }

  lemma {:induction false} ShrankKind(t: Tree, t': Tree, key: Bytes)
    requires Shrank(t, t', key)
    ensures t.TLeaf? <==> t'.TLeaf?
  {
    hide Pick, PickTree;
  }

  lemma {:induction false} KidsShape(t: Tree, h: nat, i: nat)
    requires t.TInner? && Wf(t, h) && i < |t.kids|
    ensures h > 0 && Wf(t.kids[i], h - 1) && (t.kids[i].TLeaf? <==> h == 1)
    ensures NodeBytes(NodeOf(t.kids[i])) <= PAGE_SIZE && NodeOf(t.kids[i]).entries != []
  {
    InnerFacts(t, h);
    WfBody(t.kids[i], h - 1);
  }

  lemma {:induction false} ShrankJoins(t: Tree, h: nat, t': Tree, key: Bytes)
    requires Wf(t, h) && Shrank(t, t', key)
    ensures Joins(t, t', key)
    decreases t
  {
    hide Wf, ShrankAt, Rejoins, NodeOf, Payload;
    if t.TInner? {
      var idx := UpperBound(Links(t.kids), key) - 1;
      var c :| Shrank(t.kids[idx], c, key) && ShrankAt(t.kids, idx, c, t');
      KidsShape(t, h, idx);
      forall i | 0 <= i < |t.kids|
        ensures Wf(t.kids[i], h - 1) && (t.kids[i].TLeaf? <==> h == 1)
        ensures NodeBytes(NodeOf(t.kids[i])) <= PAGE_SIZE && NodeOf(t.kids[i]).entries != []
      {
        KidsShape(t, h, i);
      }
      ShrankKind(t.kids[idx], c, key);
      ShrankJoins(t.kids[idx], h - 1, c, key);
      RejoinsAt(t.kids, idx, c, t');
    }
  }

  lemma {:induction false} ShapeJoins(v: Version, v': Version, key: Bytes)
    requires SoundVersion(v) && DeleteShape(v, v', key)
    ensures DeleteJoins(v, v', key)
  {
    hide Shrank, Joins, Uncapped, Wf;
    var t' :| Shrank(v.tree, t', key) && Uncapped(t', v.height, v');
    ShrankJoins(v.tree, v.height, t', key);
  }

  /** A root of the old height has two children at least; a changed child that it still has is not rejected. */
  lemma {:induction false} RootSettled(v: Version, v': Version, key: Bytes)
    requires DeleteJoins(v, v', key) && v'.Rooted? && v.tree.TInner? && v'.tree.TInner? && v'.height == v.height
    ensures |v'.tree.kids| >= 2
    ensures var idx := UpperBound(Links(v.tree.kids), key) - 1;
            0 <= idx < |v.tree.kids| && (|v'.tree.kids| == |v.tree.kids| ==> !Crowded(v'.tree.kids, idx))
  {
    hide NodeOf, Payload, UpperBound, MergeTree;
    var t' :| Joins(v.tree, t', key) && Uncapped(t', v.height, v');
    var idx := UpperBound(Links(v.tree.kids), key) - 1;
    var c :| Joins(v.tree.kids[idx], c, key) && Rejoins(v.tree.kids, idx, c, t'.kids);
    if |t'.kids| == |v.tree.kids| {
      var id :| OneInPlace(v.tree.kids, idx, idx + 1, WithId(c, id), t'.kids);
      WithIdBytes(c, id);
    }
  }

  /** A leaf at the root goes with its last key, and only then. */
  lemma {:induction false} LastKeyGone(v: Version, v': Version, key: Bytes)
    requires SoundVersion(v) && DeleteJoins(v, v', key) && v.tree.TLeaf? && SoundVersion(v')
    ensures v'.Empty? <==> Contents(v') == map[]
  {
    hide Wf, Remove, Unshared, ToMap;
    var t' :| Joins(v.tree, t', key) && Uncapped(t', v.height, v');
    if v'.Rooted? {
      var es := Flat(v'.tree);
      assert es == t'.entries && |es| != 1;
      WfOccupied(v'.tree, v'.height);
      ToMapKeys(es);
      StrictTotalOrder();
      assert Less(es[0].key, es[1].key) && HasKey(es, es[1].key);
      assert es[1].key in Contents(v');
    } else {
      NoEntries();
    }
  }

  lemma {:induction false} NoEntries()
    ensures ToMap([]) == map[]
  {
  }

  lemma {:induction false} WfOccupied(t: Tree, h: nat)
    requires Wf(t, h) && t.TLeaf?
    ensures t.entries != []
  {
    WfBody(t, h);
  }

  lemma {:induction false} WithIdSame(t: Tree, id: nat)
    ensures WithId(t, id).id == id
  {
  }

  lemma {:induction false} OneForIs(kids: seq<Tree>, i: nat, n: nat, piece: Tree, placed: seq<Tree>, t': Tree)
    requires i < n <= |kids| && |placed| == 1 && placed[0] == WithId(piece, placed[0].id)
    requires t'.TInner? && t'.kids == kids[..i] + placed + kids[n..]
    ensures OneFor(kids, i, n, piece, t')
  {
    assert placed == [WithId(piece, placed[0].id)];
  }

  // ----- What a removal takes

  /** How many pages the removal stores below the top page of `t`. */
  ghost function DropCost(t: Tree, key: Bytes): nat {
    match t
    case TLeaf(_, _) => 0
    case TInner(_, kids) =>
      var n := UpperBound(Links(kids), key);
      if n == 0 then 0
      else DropCost(kids[n - 1], key) + RelinkCost(kids, n - 1, After(kids[n - 1], key))
  }

  /** The changed child is stored unless nothing is left of it. */
  ghost function RelinkCost(kids: seq<Tree>, idx: nat, below: Left): nat
    requires idx < |kids|
  {
    if below.Overflow? || Pick(kids, idx, below.entries).2 == [] then 0 else 1
  }

  /** How many pages removing `key` takes; a root of at most one entry is not stored. */
  ghost function DeletePages(v: Version, key: Bytes): nat {
    if v.Empty? || !HasKey(Flat(v.tree), key) then 0
    else DropCost(v.tree, key) + TopCost(After(v.tree, key))
  }

  function TopCost(left: Left): nat {
    if left.Overflow? || |left.entries| <= 1 then 0 else 1
  }

  lemma {:induction false} DropCostBound(t: Tree, h: nat, key: Bytes)
    requires Wf(t, h)
    ensures DropCost(t, key) <= h
    decreases t
  {
    hide After, Pick, NodeOf;
    if t.TInner? {
      var n := UpperBound(Links(t.kids), key);
      if n > 0 {
        DropCostBound(t.kids[n - 1], h - 1, key);
      }
    }
  }

  /** At most one page a level. */
  lemma {:induction false} DeletePagesBound(v: Version, key: Bytes)
    requires SoundVersion(v)
    ensures DeletePages(v, key) <= HeightOf(v) + 1
  {
    hide After, Wf, DropCost;
    if v.Rooted? {
      DropCostBound(v.tree, v.height, key);
    }
  }

  lemma {:induction false} InnerDrop(t: Tree, key: Bytes, idx: nat, below: Left)
    requires t.TInner? && idx < |t.kids| && UpperBound(NodeOf(t).entries, key) == idx + 1
    requires After(t.kids[idx], key) == below
    ensures DropCost(t, key) == DropCost(t.kids[idx], key) + RelinkCost(t.kids, idx, below)
  {
    hide After, RelinkCost;
  }

  lemma {:induction false} DropMore(a: Snap, b: Snap, t: Tree, idx: nat, key: Bytes)
    requires t.TInner? && idx < |t.kids| && UpperBound(NodeOf(t).entries, key) == idx + 1
    requires Costs(a, b, true, DropCost(t.kids[idx], key))
    ensures Costs(a, b, true, DropCost(t, key))
  {
    hide After, RelinkCost;
  }

  lemma {:induction false} NoRelink(kids: seq<Tree>, idx: nat)
    requires idx < |kids|
    ensures RelinkCost(kids, idx, Overflow) == 0
  {
  }

  lemma {:induction false} TopNone()
    ensures TopCost(Overflow) == 0
  {
  }

  lemma {:induction false} NoDelete(v: Version, key: Bytes)
    requires v.Empty? || !HasKey(Flat(v.tree), key)
    ensures DeletePages(v, key) == 0
  {
  }

  lemma {:induction false} DeleteTotal(v: Version, key: Bytes)
    requires v.Rooted? && HasKey(Flat(v.tree), key)
    ensures DeletePages(v, key) == DropCost(v.tree, key) + TopCost(After(v.tree, key))
  {
  }

  // ----- Why a removal fails

  /** The child that a search for `key` descends to. */
  lemma {:induction false} PathChild(t: Tree, h: nat, key: Bytes) returns (n: nat)
    requires t.TInner? && Wf(t, h) && Sorted(Flat(t)) && Leq(FirstKey(t), key)
    ensures h > 0 && 0 < n <= |t.kids| && n == UpperBound(Links(t.kids), key)
    ensures Wf(t.kids[n - 1], h - 1) && Sorted(Flat(t.kids[n - 1]))
    ensures Leq(FirstKey(t.kids[n - 1]), key) && (n < |t.kids| ==> Less(key, FirstKey(t.kids[n])))
  {
    hide Wf, Sorted, Less, FirstKey, Flat, FlatAll;
    InnerFacts(t, h);
    n := UpperBound(Links(t.kids), key);
    assert Links(t.kids)[0].key == FirstKey(t.kids[0]);
    assert n > 0 ==> Links(t.kids)[n - 1].key == FirstKey(t.kids[n - 1]);
    assert n < |t.kids| ==> Links(t.kids)[n].key == FirstKey(t.kids[n]);
    Descend(t.kids, h - 1, n - 1, key);
  }

  lemma {:induction false} KidKey(t: Tree, h: nat, i: nat)
    requires t.TInner? && Wf(t, h) && i < |t.kids|
    ensures |FirstKey(t.kids[i])| <= MAX_KEY_SIZE
  {
    hide FirstKey, Flat;
    InnerFacts(t, h);
    WfBody(t.kids[i], h - 1);
    FirstEntry(t.kids[i], h - 1);
  }

  /** `next` comes directly after `key`. */
  ghost predicate Adjacent(s: seq<Entry>, key: Bytes, next: Bytes) {
    exists i, j :: 0 <= i && j == i + 1 < |s| && s[i].key == key && s[j].key == next
  }

  /** Some page has a link with the key `key` and no room for `next` in its place. */
  ghost predicate Cramped(t: Tree, key: Bytes, next: Bytes) {
    t.TInner? && exists i :: 0 <= i < |t.kids| && (CrampedAt(t, i, key, next) || Cramped(t.kids[i], key, next))
  }

  ghost predicate CrampedAt(t: Tree, i: nat, key: Bytes, next: Bytes)
    requires t.TInner? && i < |t.kids|
  {
    FirstKey(t.kids[i]) == key && NodeBytes(NodeOf(t)) + |next| - |key| > PAGE_SIZE
  }

  ghost predicate SameHead(es: seq<Entry>, s: seq<Entry>) {
    (es == [] <==> s == []) && (es != [] && s != [] ==> es[0].key == s[0].key)
  }

  ghost predicate LongerNext(t: Tree, key: Bytes, next: Bytes) {
    Adjacent(Flat(t), key, next) && |next| > |key| && Cramped(t, key, next)
  }

  /** What a removal leaves starts as the entries without the key do; and it fails for want of room only. */
  ghost predicate Explains(t: Tree, key: Bytes, left: Left) {
    match left
    case Overflow => exists next :: LongerNext(t, key, next)
    case Keeps(es) => SameHead(es, Remove(Flat(t), key))
  }

  lemma {:induction false} AfterExplains(t: Tree, h: nat, key: Bytes)
    requires Wf(t, h) && Sorted(Flat(t)) && Leq(FirstKey(t), key) && HasKey(Flat(t), key)
    ensures Explains(t, key, After(t, key))
    decreases t
  {
    hide Wf, Sorted, Less, FirstKey, FlatAll, Remove, Rejoined, HasKey, Explains;
    if t.TLeaf? {
      LeafExplains(t, key);
    } else {
      var n := PathChild(t, h, key);
      InnerFacts(t, h);
      var kid := t.kids[n - 1];
      Descend(t.kids, h - 1, n - 1, key);
      HasMiddle(FlatAll(t.kids[..n - 1]), Flat(kid), FlatAll(t.kids[n..]), key);
      AfterExplains(kid, h - 1, key);
      match After(kid, key)
      case Overflow => OverflowUp(t, h, n - 1, key);
      case Keeps(es) => RejoinedExplains(t, h, n - 1, key, es);
    }
  }

  lemma {:induction false} LeafExplains(t: Tree, key: Bytes)
    requires t.TLeaf?
    ensures Explains(t, key, After(t, key))
  {
    hide Remove;
  }

  lemma {:induction false} AdjacentWithin(a: seq<Entry>, b: seq<Entry>, c: seq<Entry>, key: Bytes, next: Bytes)
    requires Adjacent(b, key, next)
    ensures Adjacent(a + b + c, key, next)
  {
    var i, j :| 0 <= i && j == i + 1 < |b| && b[i].key == key && b[j].key == next;
    var s := a + b + c;
    assert s[|a| + i] == b[i] && s[|a| + j] == b[j];
  }

  lemma {:induction false} OverflowUp(t: Tree, h: nat, idx: nat, key: Bytes)
    requires t.TInner? && Wf(t, h) && idx < |t.kids| && Explains(t.kids[idx], key, Overflow)
    ensures Explains(t, key, Overflow)
  {
    hide Wf, FlatAll, FirstKey, NodeOf;
    InnerFacts(t, h);
    var next :| LongerNext(t.kids[idx], key, next);
    SplitAt(t.kids, idx);
    AdjacentWithin(FlatAll(t.kids[..idx]), Flat(t.kids[idx]), FlatAll(t.kids[idx + 1..]), key, next);
    assert LongerNext(t, key, next);
  }

  /** The first entry below a row of children. */
  lemma {:induction false} FlatHead(kids: seq<Tree>, h: nat)
    requires forall j :: 0 <= j < |kids| ==> Wf(kids[j], h)
    ensures (kids == [] <==> FlatAll(kids) == []) && (kids != [] ==> FlatAll(kids)[0].key == FirstKey(kids[0]))
  {
    hide Wf, FirstKey, Flat;
    if kids != [] {
      WfBody(kids[0], h);
      FirstEntry(kids[0], h);
    }
  }

  /** The page that takes the place of child `idx` starts as what is left of the children it replaces. */
  lemma {:induction false} PickHead(t: Tree, h: nat, idx: nat, es: seq<Entry>)
    requires t.TInner? && Wf(t, h) && idx < |t.kids|
    ensures var (i, n, piece) := Pick(t.kids, idx, es);
            && (piece == [] ==> es == [] && i == idx && n == idx + 1)
            && (i < idx ==> piece != [] && piece[0].key == FirstKey(t.kids[i]))
            && (i == idx && es != [] ==> piece != [] && piece[0].key == es[0].key)
            && (i == idx && es == [] && piece != [] ==> n == idx + 2 && piece[0].key == FirstKey(t.kids[idx + 1]))
  {
    hide Wf, FirstKey, Payload;
    InnerFacts(t, h);
    if idx > 0 {
      FirstPageKey(t.kids[idx - 1], h - 1);
    }
    if idx + 1 < |t.kids| {
      FirstPageKey(t.kids[idx + 1], h - 1);
    }
  }

  lemma {:induction false} RejoinedExplains(t: Tree, h: nat, idx: nat, key: Bytes, es: seq<Entry>)
    requires t.TInner? && Wf(t, h) && Sorted(Flat(t)) && idx < |t.kids| && HasKey(Flat(t.kids[idx]), key)
    requires Leq(FirstKey(t.kids[idx]), key) && (idx + 1 < |t.kids| ==> Less(key, FirstKey(t.kids[idx + 1])))
    requires Explains(t.kids[idx], key, Keeps(es))
    ensures Explains(t, key, Rejoined(t.kids, idx, es))
  {
    hide Wf, Sorted, Less, FirstKey, FlatAll, Flat, Remove, HasKey, Pick, Payload, Links, Bare, Cramped;
    InnerFacts(t, h);
    var (i, n, piece) := Pick(t.kids, idx, es);
    PickHead(t, h, idx, es);
    Descend(t.kids, h - 1, idx, key);
    var a, f, b := FlatAll(t.kids[..idx]), Flat(t.kids[idx]), FlatAll(t.kids[idx + 1..]);
    RemoveMiddle(a, f, b, key);
    if Rejoined(t.kids, idx, es).Keeps? {
      FlatHead(t.kids[..idx], h - 1);
      FlatHead(t.kids[idx + 1..], h - 1);
      RelinkedHead(t.kids, i, n, piece);
      if idx > 0 {
        assert t.kids[..idx][0] == t.kids[0];
      }
      if idx + 1 < |t.kids| {
        assert t.kids[idx + 1..][0] == t.kids[idx + 1];
      }
    } else {
      RelinkedRoom(t, h, i, n, piece);
      FlatFirst(t.kids[idx], h - 1);
      RemoveFirst(f, key);
      assert i == idx && es != [];
      AdjacentWithin(a, f, b, key, piece[0].key);
      CrampedHere(t, idx, key, piece[0].key);
      assert LongerNext(t, key, piece[0].key);
    }
  }

  lemma {:induction false} CrampedHere(t: Tree, i: nat, key: Bytes, next: Bytes)
    requires t.TInner? && i < |t.kids| && CrampedAt(t, i, key, next)
    ensures Cramped(t, key, next)
  {
    hide FirstKey, NodeOf, CrampedAt;
  }

  lemma {:induction false} FlatFirst(t: Tree, h: nat)
    requires Wf(t, h)
    ensures Flat(t) != [] && Flat(t)[0].key == FirstKey(t)
  {
    WfBody(t, h);
    FirstEntry(t, h);
  }

  /** Removing a key that is not the first keeps the first; else the second comes first. */
  lemma {:induction false} RemoveFirst(s: seq<Entry>, key: Bytes)
    requires s != []
    ensures s[0].key != key ==> Remove(s, key) != [] && Remove(s, key)[0] == s[0]
    ensures s[0].key == key && Remove(s, key) != [] ==> Adjacent(s, key, Remove(s, key)[0].key)
  {
    if s[0].key == key && Remove(s, key) != [] {
      assert Remove(s, key) == s[1..];
      assert s[1..][0] == s[1];
    }
  }

  lemma {:induction false} RelinkedHead(kids: seq<Tree>, i: nat, n: nat, piece: seq<Entry>)
    requires i < n <= |kids| && Relinked(kids, i, n, piece).Keeps?
    ensures var es := Relinked(kids, i, n, piece).entries;
            && (i > 0 ==> es != [] && es[0].key == FirstKey(kids[0]))
            && (i == 0 && piece != [] ==> es != [] && es[0].key == piece[0].key)
            && (i == 0 && piece == [] ==>
                  (es == [] <==> n == |kids|) && (n < |kids| ==> es[0].key == FirstKey(kids[n])))
  {
    hide FirstKey, Payload;
  }

  /** A parent that overflows got a longer key than the one it had, and had too little room for it. */
  lemma {:induction false} RelinkedRoom(t: Tree, h: nat, i: nat, n: nat, piece: seq<Entry>)
    requires t.TInner? && Wf(t, h) && i < n <= |t.kids| && Relinked(t.kids, i, n, piece).Overflow?
    ensures piece != [] && |piece[0].key| > |FirstKey(t.kids[i])|
    ensures NodeBytes(NodeOf(t)) + |piece[0].key| - |FirstKey(t.kids[i])| > PAGE_SIZE
    ensures n == i + 2 ==> |piece[0].key| > |FirstKey(t.kids[i + 1])|
  {
    hide FirstKey, Payload, Wf;
    InnerFacts(t, h);
    var links := Bare(Links(t.kids));
    BarePayload(Links(t.kids));
    assert links == links[..i] + links[i..n] + links[n..];
    PayloadAppend(links[..i] + links[i..n], links[n..]);
    PayloadAppend(links[..i], links[i..n]);
    PayloadAppend(links[..i] + [Head(piece)], links[n..]);
    PayloadAppend(links[..i], [Head(piece)]);
    PayloadSingle(Head(piece));
    PayloadTake(links[i..n], 0);
    assert links[i..n][0] == links[i];
    if n == i + 2 {
      PayloadTake(links[i..n], 1);
      assert links[i..n][1] == links[i + 1];
    }
  }

  // ----- The same for a whole version

  /** `next` is the smallest key above `key`. */
  ghost predicate Successor(m: map<Bytes, Bytes>, key: Bytes, next: Bytes) {
    next in m && Less(key, next) && forall k :: k in m && Less(key, k) ==> Leq(next, k)
  }

  /**
   A removal fails only if the next key is longer, and some page that has the key as a link
   has too little room for the difference.
   */
  lemma {:induction false} OverflowMeans(v: Version, key: Bytes)
    requires v.Rooted? && SoundVersion(v) && key in Contents(v) && After(v.tree, key) == Overflow
    ensures exists next :: Successor(Contents(v), key, next) && |next| > |key| && Cramped(v.tree, key, next)
  {
    hide Wf, Sorted, Less, FirstKey, Flat, ToMap, After, HasKey, Successor, Cramped;
    KeyInVersion(v, key);
    LeastKey(key);
    AfterExplains(v.tree, v.height, key);
    var next :| LongerNext(v.tree, key, next);
    AdjacentSucceeds(Flat(v.tree), key, next);
  }

  lemma {:induction false} LeastKey(key: Bytes)
    ensures Leq([], key)
  {
  }

  lemma {:induction false} AdjacentSucceeds(s: seq<Entry>, key: Bytes, next: Bytes)
    requires Sorted(s) && Adjacent(s, key, next)
    ensures Successor(ToMap(s) - {[]}, key, next)
  {
    hide Less, ToMap;
    StrictTotalOrder();
    ToMapKeys(s);
    var i, j :| 0 <= i && j == i + 1 < |s| && s[i].key == key && s[j].key == next;
    assert Less(s[i].key, s[j].key);
    assert forall l :: 0 <= l < i ==> Less(s[l].key, s[i].key);
    assert !Less(key, []) by { LeastKey(key); }
    forall k | k in ToMap(s) && Less(key, k)
      ensures Leq(next, k)
    {
      var l :| 0 <= l < |s| && s[l].key == k;
      assert l > j ==> Less(s[j].key, s[l].key);
    }
  }
}
