/**
 Trees that show what the page tree does not promise: a removal that fails although the
 key is there, a split that leaves a page which recovery does not accept, and a root with
 a single link, which recovery does not accept either.
 */
module PageWitnesses {
  import opened ByteStrings
  import opened Entries
  import opened PageNodes
  import opened PageTrees
  import opened PageUpdates
  import opened PageLoading
  import opened PageRemoval
  import opened PageGrowth

  function Zeros(n: nat): (r: Bytes)
    ensures |r| == n
  {
    seq(n, _ => 0)
  }

  /** A key of `n` bytes that starts with `first`. */
  function Key(first: Byte, n: nat): (k: Bytes)
    ensures |k| == n + 1 && k[0] == first
  {
    [first] + Zeros(n)
  }

  lemma {:induction false} KeyOrder(a: Byte, n: nat, b: Byte, m: nat)
    ensures a < b ==> Less(Key(a, n), Key(b, m))
    ensures Less(Key(a, 0), Key(a, 1 + m))
    ensures Less([], Key(a, n))
  {
  }

  // ----- A removal that fails

  function Big(first: Byte, n: nat): Entry {
    Entry(Key(first, n), Zeros(3000), 0)
  }

  const SENTINEL := Entry([], [], 0)

  function Small(first: Byte): Entry {
    Entry(Key(first, 0), [], 0)
  }

  /** Six leaves, all but one behind keys of full length; the fifth starts with a short key. */
  function FullKids(): (kids: seq<Tree>)
    ensures |kids| == 6
  {
    [TLeaf(1, [SENTINEL, Big(1, 0)]), TLeaf(2, [Big(2, 999)]), TLeaf(3, [Big(3, 999)]), TLeaf(4, [Big(4, 999)]),
     TLeaf(5, [Small(5), Big(5, 999)]), TLeaf(6, [Big(6, 0)])]
  }

  function FullTree(): Tree {
    TInner(7, FullKids())
  }

  lemma {:induction false} LeafOne(id: nat, a: Entry)
    requires LeafEntry(a) && HEADER_SIZE + EntryBytes(a) <= PAGE_SIZE
    ensures Wf(TLeaf(id, [a]), 0) && NodeBytes(NodeOf(TLeaf(id, [a]))) == HEADER_SIZE + EntryBytes(a)
  {
    PayloadSingle(a);
  }

  lemma {:induction false} LeafTwo(id: nat, a: Entry, b: Entry)
    requires LeafEntry(a) && LeafEntry(b) && HEADER_SIZE + EntryBytes(a) + EntryBytes(b) <= PAGE_SIZE
    ensures Wf(TLeaf(id, [a, b]), 0)
    ensures NodeBytes(NodeOf(TLeaf(id, [a, b]))) == HEADER_SIZE + EntryBytes(a) + EntryBytes(b)
  {
    assert [a, b] == [a] + [b];
    PayloadAppend([a], [b]);
    PayloadSingle(a);
    PayloadSingle(b);
  }

  lemma {:induction false} FullLeaf(i: nat)
    requires i < 6
    ensures Wf(FullKids()[i], 0) && FullKids()[i].id != 0 && NodeBytes(NodeOf(FullKids()[i])) > PAGE_SIZE / 4
    ensures FirstKey(FullKids()[i]) == [[], Key(2, 999), Key(3, 999), Key(4, 999), Key(5, 0), Key(6, 0)][i]
  {
    hide Wf, NodeOf, Payload, Zeros, Key;
    match i
    case 0 => LeafTwo(1, SENTINEL, Big(1, 0));
    case 1 => LeafOne(2, Big(2, 999));
    case 2 => LeafOne(3, Big(3, 999));
    case 3 => LeafOne(4, Big(4, 999));
    case 4 => LeafTwo(5, Small(5), Big(5, 999));
    case 5 => LeafOne(6, Big(6, 0));
  }

  function Link(key: Bytes, id: nat): Entry {
    Entry(key, [], id)
  }

  lemma {:induction false} FullLinks()
    ensures Links(FullKids()) == [Link([], 1), Link(Key(2, 999), 2), Link(Key(3, 999), 3), Link(Key(4, 999), 4),
                                  Link(Key(5, 0), 5), Link(Key(6, 0), 6)]
  {
    hide FirstKey, Key;
    forall i | 0 <= i < 6
      ensures FirstKey(FullKids()[i]) == [[], Key(2, 999), Key(3, 999), Key(4, 999), Key(5, 0), Key(6, 0)][i]
    {
      FullLeaf(i);
    }
  }

  lemma {:induction false} PayloadSix(a: Entry, b: Entry, c: Entry, d: Entry, e: Entry, f: Entry)
    ensures Payload([a, b, c, d, e, f]) ==
              EntryBytes(a) + EntryBytes(b) + EntryBytes(c) + EntryBytes(d) + EntryBytes(e) + EntryBytes(f)
  {
    assert [a, b, c, d, e, f] == [a, b] + [c, d] + [e, f];
    PayloadAppend([a, b] + [c, d], [e, f]);
    PayloadAppend([a, b], [c, d]);
    assert Payload([a, b]) == EntryBytes(a) + EntryBytes(b) by { LeafPair(a, b); }
    assert Payload([c, d]) == EntryBytes(c) + EntryBytes(d) by { LeafPair(c, d); }
    assert Payload([e, f]) == EntryBytes(e) + EntryBytes(f) by { LeafPair(e, f); }
  }

  lemma {:induction false} LeafPair(a: Entry, b: Entry)
    ensures Payload([a, b]) == EntryBytes(a) + EntryBytes(b)
  {
    assert [a, b] == [a] + [b];
    PayloadAppend([a], [b]);
    PayloadSingle(a);
    PayloadSingle(b);
  }

  lemma {:induction false} FullShape()
    ensures Wf(FullTree(), 1) && Tidy(FullTree())
  {
    hide FirstKey, Key, Payload, NodeOf;
    var kids := FullKids();
    forall i | 0 <= i < 6
      ensures Wf(kids[i], 0) && kids[i].id != 0 && kids[i].TLeaf? && !Crowded(kids, i)
    {
      FullLeaf(i);
    }
    FullLinks();
    var l := Links(kids);
    PayloadSix(l[0], l[1], l[2], l[3], l[4], l[5]);
    FullNode();
  }

  lemma {:induction false} FullNode()
    ensures NodeOf(FullTree()) == Node(false, Links(FullKids()))
  {
  }

  lemma {:induction false} FullFlat()
    ensures Flat(FullTree()) ==
            [SENTINEL, Big(1, 0), Big(2, 999), Big(3, 999), Big(4, 999), Small(5), Big(5, 999), Big(6, 0)]
  {
    hide Big, Small;
    var k := FullKids();
    assert k[1..] == [k[1], k[2], k[3], k[4], k[5]];
    assert k[2..] == [k[2], k[3], k[4], k[5]];
    assert k[1..][1..] == k[2..] && k[2..][1..] == k[3..] && k[3..][1..] == k[4..] && k[4..][1..] == k[5..];
    assert k[5..][1..] == [];
    assert FlatAll(k[5..]) == Flat(k[5]);
    assert FlatAll(k[4..]) == Flat(k[4]) + FlatAll(k[5..]);
    assert FlatAll(k[3..]) == Flat(k[3]) + FlatAll(k[4..]);
    assert FlatAll(k[2..]) == Flat(k[2]) + FlatAll(k[3..]);
    assert FlatAll(k[1..]) == Flat(k[1]) + FlatAll(k[2..]);
  }

  lemma {:induction false} FullSorted()
    ensures Sorted(Flat(FullTree())) && HasKey(Flat(FullTree()), Key(5, 0))
  {
    hide Key, Zeros, Less;
    FullFlat();
    var s := Flat(FullTree());
    var first, size := [0, 1, 2, 3, 4, 5, 5, 6], [0, 0, 999, 999, 999, 0, 999, 0];
    assert s[0].key == [] && forall i :: 1 <= i < 8 ==> s[i].key == Key(first[i], size[i]);
    forall i, j | 0 <= i < j < 8
      ensures Less(s[i].key, s[j].key)
    {
      assert first[i] < first[j] || (i == 5 && j == 6);
      KeyOrder(first[i], size[i], first[j], size[j]);
      KeyOrder(first[j], size[j], first[j], size[j]);
      KeyOrder(5, 0, 5, 998);
    }
    assert s[5].key == Key(5, 0);
  }

  /**
   A well-formed tree in recovery's sense from which a stored key cannot be removed: the
   fifth leaf's next key is longer, and the root has no room for it.
   */
  lemma {:induction false} RemovalCanFail()
    ensures Sound(FullTree(), 1) && Tidy(FullTree())
    ensures HasKey(Flat(FullTree()), Key(5, 0))
    ensures After(FullTree(), Key(5, 0)) == Overflow
  {
    hide Wf, Tidy, Flat, Key, Less, HasKey, Payload, Rejoined, Unshared;
    FullShape();
    FullSorted();
    FullLinks();
    FullPlace();
    FullAfter();
    FullUnshared();
  }

  function KidIds(kids: seq<Tree>): (ids: seq<nat>)
    ensures |ids| == |kids|
  {
    seq(|kids|, i requires 0 <= i < |kids| => kids[i].id)
  }

  lemma {:induction false} LeafBag(kids: seq<Tree>)
    requires forall i :: 0 <= i < |kids| ==> kids[i].TLeaf?
    ensures BagAll(kids) == multiset(KidIds(kids))
  {
    if kids != [] {
      LeafBag(kids[1..]);
      assert KidIds(kids) == [kids[0].id] + KidIds(kids[1..]);
      assert Bag(kids[0]) == multiset{kids[0].id};
      assert multiset(KidIds(kids)) == multiset{kids[0].id} + multiset(KidIds(kids[1..]));
    }
  }

  /** Leaves on different pages, none of them the page of their parent. */
  lemma {:induction false} LeavesUnshared(id: nat, kids: seq<Tree>, ids: seq<nat>)
    requires forall i :: 0 <= i < |kids| ==> kids[i].TLeaf?
    requires KidIds(kids) == ids && id !in ids && forall x :: multiset(ids)[x] <= 1
    ensures Unshared(TInner(id, kids))
  {
    hide BagAll;
    LeafBag(kids);
    var t := TInner(id, kids);
    assert Bag(t) == multiset{id} + multiset(ids);
    assert id !in multiset(ids);
  }

  lemma {:induction false} FullUnshared()
    ensures Unshared(FullTree()) && FirstKey(FullTree()) == []
  {
    hide Big, Small, Unshared, BagAll;
    LeavesUnshared(7, FullKids(), [1, 2, 3, 4, 5, 6]);
  }

  lemma {:induction false} FullPlace()
    ensures UpperBound(Links(FullKids()), Key(5, 0)) == 5
  {
    hide Key, Less;
    FullLinks();
    var l, n := Links(FullKids()), UpperBound(Links(FullKids()), Key(5, 0));
    KeyOrder(5, 0, 6, 0);
    KeyOrder(2, 999, 5, 0);
    KeyOrder(3, 999, 5, 0);
    KeyOrder(4, 999, 5, 0);
    StrictTotalOrder();
    assert n == 6 ==> Leq(l[5].key, Key(5, 0));
    assert Less(Key(5, 0), l[n].key);
  }

  lemma {:induction false} FullAfter()
    ensures After(FullKids()[4], Key(5, 0)) == Keeps([Big(5, 999)])
    ensures Rejoined(FullKids(), 4, [Big(5, 999)]) == Overflow
  {
    hide Key, Zeros, Payload;
    var leaf := FullKids()[4];
    assert leaf.entries == [Small(5), Big(5, 999)];
    assert leaf.entries[1..] == [Big(5, 999)];
    assert Remove(leaf.entries, Key(5, 0)) == [Big(5, 999)];
    assert Bare([Big(5, 999)]) == [Big(5, 999)];
    PayloadSingle(Big(5, 999));
    FullLinks();
    var links := Bare(Links(FullKids()));
    var entries := links[..4] + [Head([Big(5, 999)])] + links[5..];
    assert entries == [Link([], 0), Link(Key(2, 999), 0), Link(Key(3, 999), 0), Link(Key(4, 999), 0),
                       Link(Key(5, 999), 0), Link(Key(6, 0), 0)];
    PayloadSix(entries[0], entries[1], entries[2], entries[3], entries[4], entries[5]);
  }

  // ----- A split that recovery rejects

  function Sized(first: Byte, n: nat): Entry {
    Entry(Key(first, 0), Zeros(n), 0)
  }

  /** A leaf of 4010 bytes. */
  function Full(): seq<Entry> {
    [SENTINEL, Sized(1, 3000), Sized(2, 950)]
  }

  /** The full leaf and one of 131 bytes, side by side. */
  predicate BesideFull(t: Tree) {
    && t.TInner? && |t.kids| == 2 && t.kids[0].TLeaf? && t.kids[0].entries == Full()
    && t.kids[1].TLeaf? && t.kids[1].entries == [Sized(9, 100)]
  }

  lemma {:induction false} PayloadThree(a: Entry, b: Entry, c: Entry)
    ensures Payload([a, b, c]) == EntryBytes(a) + EntryBytes(b) + EntryBytes(c)
  {
    assert [a, b, c] == [a, b] + [c];
    PayloadAppend([a, b], [c]);
    LeafPair(a, b);
    PayloadSingle(c);
  }

  lemma {:induction false} FullBytes()
    ensures HEADER_SIZE + Payload(Full()) == 4010
  {
    hide Payload;
    PayloadThree(SENTINEL, Sized(1, 3000), Sized(2, 950));
  }

  lemma {:induction false} PutLast(s: seq<Entry>, e: Entry)
    requires forall i :: 0 <= i < |s| ==> Less(s[i].key, e.key)
    requires e.ptr == 0
    ensures Put(s, e.key, e.value) == s + [e]
  {
    hide Less;
    if s != [] {
      PutLast(s[1..], e);
      assert s + [e] == [s[0]] + (s[1..] + [e]);
    }
  }

  /** A page that fits is not cut. */
  lemma {:induction false} Uncut(node: Node, parts: seq<Node>)
    requires IsSplit(node.leaf, node.entries, parts) && node.entries != [] && NodeBytes(node) <= PAGE_SIZE
    ensures parts == [node]
  {
    hide Payload, Join;
    JoinNone();
    JoinStep([], node);
    assert [] + [node] == [node];
    GreedyOnce(node.leaf, parts, [node]);
  }

  /** Greedy splitting cuts off the one entry that does not fit beside the others. */
  lemma {:induction false} LastAlone(s: seq<Entry>, e: Entry, parts: seq<Node>)
    requires IsSplit(true, s + [e], parts) && s != [] && HEADER_SIZE + Payload(s) <= PAGE_SIZE
    requires HEADER_SIZE + EntryBytes(e) <= PAGE_SIZE < HEADER_SIZE + Payload(s) + EntryBytes(e)
    ensures parts == [Node(true, s), Node(true, [e])]
  {
    hide Payload, Join;
    var left, right := Node(true, s), Node(true, [e]);
    PayloadSingle(e);
    JoinNone();
    JoinStep([], left);
    JoinStep([left], right);
    assert [] + [left] == [left] && [left] + [right] == [left, right];
    GreedyOnce(true, parts, [left, right]);
  }

  /** An entry that fits behind the others of a leaf at the root. */
  lemma {:induction false} LeafTakes(v: Version, v': Version, e: Entry)
    requires v.Rooted? && v.tree.TLeaf? && v.height == 0 && InsertShape(v, v', e.key, e.value) && e.ptr == 0
    requires forall i :: 0 <= i < |v.tree.entries| ==> Less(v.tree.entries[i].key, e.key)
    requires HEADER_SIZE + Payload(v.tree.entries + [e]) <= PAGE_SIZE
    ensures v'.Rooted? && v'.tree.TLeaf? && v'.tree.entries == v.tree.entries + [e] && v'.height == 0
  {
    hide Payload, Put, Less, IsSplit;
    var t' :| Grew(v.tree, t', e.key, e.value) && Topped(t', 0, v');
    PutLast(v.tree.entries, e);
    var placed :| CutsInto(t', placed) && ToppedBy(placed, 0, v');
    var parts :| IsSplit(true, t'.entries, parts) && PartsIn(t', placed, parts);
    Uncut(NodeOf(t'), parts);
    assert NodeOf(placed[0]) == parts[0];
  }

  /** An entry that does not fit beside the full leaf at the root gets a leaf of its own. */
  lemma {:induction false} FullSplits(v: Version, v': Version)
    requires v.Rooted? && v.tree.TLeaf? && v.height == 0 && v.tree.entries == Full()
    requires InsertShape(v, v', Key(9, 0), Zeros(100))
    ensures v'.Rooted? && BesideFull(v'.tree) && v'.height == 1
  {
    hide Payload, Put, Less, IsSplit, Key, Zeros, Full;
    var e := Sized(9, 100);
    var t' :| Grew(v.tree, t', e.key, e.value) && Topped(t', 0, v');
    FullBelow(9);
    PutLast(Full(), e);
    var placed :| CutsInto(t', placed) && ToppedBy(placed, 0, v');
    var parts :| IsSplit(true, t'.entries, parts) && PartsIn(t', placed, parts);
    FullBytes();
    KeyBytes(9, 100);
    LastAlone(Full(), e, parts);
    assert NodeOf(placed[0]) == parts[0] && NodeOf(placed[1]) == parts[1];
  }

  lemma {:induction false} KeyBytes(first: Byte, n: nat)
    ensures EntryBytes(Sized(first, n)) == EntryBytes(SENTINEL) + 1 + n
  {
  }

  lemma {:induction false} FullBelow(k: Byte)
    requires k > 2
    ensures Full() != [] && forall i :: 0 <= i < |Full()| ==> Less(Full()[i].key, Key(k, 0))
  {
    hide Key, Less, Zeros;
    KeyOrder(1, 0, k, 0);
    KeyOrder(2, 0, k, 0);
    KeyOrder(k, 0, k, 0);
  }

  lemma {:induction false} BesideTidy(t: Tree)
    requires BesideFull(t)
    ensures Tidy(t)
  {
    hide Payload;
    FullBytes();
    PayloadSingle(Sized(9, 100));
  }

  /** The search for the new key ends in the first leaf. */
  lemma {:induction false} BesidePath(t: Tree)
    requires BesideFull(t)
    ensures UpperBound(Links(t.kids), Key(3, 0)) == 1
  {
    hide Key, Less;
    var l := Links(t.kids);
    assert l[0].key == [] && l[1].key == Sized(9, 100).key == Key(9, 0);
    KeyOrder(3, 0, 9, 0);
    KeyOrder(3, 0, 3, 0);
    StrictTotalOrder();
    var n := UpperBound(l, Key(3, 0));
    assert n < 2 ==> Less(Key(3, 0), l[n].key);
  }

  /** The root with the two parts in place of the first leaf. */
  lemma {:induction false} BesideGrew(t: Tree, t': Tree)
    requires BesideFull(t) && Grew(t, t', Key(3, 0), Zeros(300))
    ensures t'.TInner? && |t'.kids| == 3 && t'.kids[2] == t.kids[1]
    ensures t'.kids[0].TLeaf? && t'.kids[0].entries == Full()
    ensures t'.kids[1].TLeaf? && t'.kids[1].entries == [Sized(3, 300)]
  {
    hide Key, Zeros, Payload, IsSplit, Put, Less, Full;
    BesidePath(t);
    var kids, e := t.kids, Sized(3, 300);
    var c, placed :| Grew(kids[0], c, Key(3, 0), Zeros(300)) && GrewAt(kids, 0, c, placed, t');
    FullBelow(3);
    PutLast(Full(), e);
    var parts :| IsSplit(c.TLeaf?, NodeOf(c).entries, parts) && PartsIn(c, placed, parts);
    FullBytes();
    KeyBytes(3, 300);
    LastAlone(Full(), e, parts);
    assert NodeOf(placed[0]) == parts[0] && NodeOf(placed[1]) == parts[1];
    assert t'.kids == placed + [kids[1]];
  }

  /** A root that need not be cut stays one page, with the same children. */
  lemma {:induction false} UncutRoot(t': Tree, v': Version)
    requires t'.TInner? && Topped(t', 1, v') && NodeOf(t').entries != [] && NodeBytes(NodeOf(t')) <= PAGE_SIZE
    ensures v'.Rooted? && v'.tree.TInner? && v'.tree.kids == t'.kids
  {
    hide Payload, IsSplit;
    var placed :| CutsInto(t', placed) && ToppedBy(placed, 1, v');
    var parts :| IsSplit(t'.TLeaf?, NodeOf(t').entries, parts) && PartsIn(t', placed, parts);
    Uncut(NodeOf(t'), parts);
    assert NodeOf(placed[0]) == parts[0];
    assert placed[..0] == [];
  }

  /**
   Recovery's occupancy check holds before the insertion and fails after it, whichever pages
   the tree is on and whichever are taken for the insertion.
   */
  lemma {:induction false} SplitCanUntidy(t: Tree, v': Version)
    requires BesideFull(t) && InsertShape(Rooted(t, 1), v', Key(3, 0), Zeros(300))
    ensures Tidy(t) && v'.Rooted? && !Tidy(v'.tree)
  {
    hide Payload, Tidy, Key, Zeros, Grew, Topped;
    BesideTidy(t);
    var t' :| Grew(t, t', Key(3, 0), Zeros(300)) && Topped(t', 1, v');
    BesideGrew(t, t');
    ThreeLinks(t');
    UncutRoot(t', v');
    UntidyKids(v'.tree);
  }

  lemma {:induction false} ThreeLinks(t': Tree)
    requires t'.TInner? && |t'.kids| == 3 && t'.kids[2].TLeaf? && t'.kids[2].entries == [Sized(9, 100)]
    requires t'.kids[0].TLeaf? && t'.kids[0].entries == Full()
    requires t'.kids[1].TLeaf? && t'.kids[1].entries == [Sized(3, 300)]
    ensures NodeOf(t').entries != [] && NodeBytes(NodeOf(t')) <= PAGE_SIZE
  {
    hide Payload, Zeros;
    var l := Links(t'.kids);
    assert l == [l[0], l[1], l[2]];
    PayloadThree(l[0], l[1], l[2]);
  }

  lemma {:induction false} UntidyKids(t: Tree)
    requires t.TInner? && |t.kids| == 3 && t.kids[2].TLeaf? && t.kids[2].entries == [Sized(9, 100)]
    requires t.kids[1].TLeaf? && t.kids[1].entries == [Sized(3, 300)]
    ensures !Tidy(t)
  {
    hide Payload, Zeros;
    PayloadSingle(Sized(3, 300));
    PayloadSingle(Sized(9, 100));
    assert Crowded(t.kids, 1);
  }

  // ----- A root that recovery rejects

  /** Two internal pages of one child each; the second child has one entry, with a key of full length. */
  function Narrow(): Tree {
    TInner(5, [TInner(3, [TLeaf(1, [SENTINEL, Sized(1, 0)])]), TInner(4, [TLeaf(2, [Entry(Key(2, 999), [], 0)])])])
  }

  lemma {:induction false} OneLeafWf(id: nat, leaf: Tree)
    requires leaf.TLeaf? && Wf(leaf, 0) && leaf.id != 0 && |FirstKey(leaf)| <= MAX_KEY_SIZE
    ensures Wf(TInner(id, [leaf]), 1) && FirstKey(TInner(id, [leaf])) == FirstKey(leaf)
  {
    hide Payload;
    assert Links([leaf]) == [LinkOf(leaf)];
    PayloadSingle(LinkOf(leaf));
  }

  lemma {:induction false} TwoKidsWf(id: nat, a: Tree, b: Tree)
    requires Wf(a, 1) && Wf(b, 1) && a.id != 0 && b.id != 0
    requires |FirstKey(a)| + |FirstKey(b)| <= 2 * MAX_KEY_SIZE
    ensures Wf(TInner(id, [a, b]), 2) && FirstKey(TInner(id, [a, b])) == FirstKey(a)
  {
    hide Payload;
    assert Links([a, b]) == [LinkOf(a), LinkOf(b)];
    LeafPair(LinkOf(a), LinkOf(b));
  }

  lemma {:induction false} NarrowWf()
    ensures Wf(Narrow(), 2) && FirstKey(Narrow()) == []
  {
    hide Key, Zeros, Wf;
    var a, b := Narrow().kids[0], Narrow().kids[1];
    LeafTwo(1, SENTINEL, Sized(1, 0));
    LeafOne(2, Entry(Key(2, 999), [], 0));
    OneLeafWf(3, a.kids[0]);
    OneLeafWf(4, b.kids[0]);
    assert a == TInner(3, [a.kids[0]]) && b == TInner(4, [b.kids[0]]);
    TwoKidsWf(5, a, b);
    assert Narrow() == TInner(5, [a, b]);
  }

  lemma {:induction false} NarrowSorted()
    ensures Sorted(Flat(Narrow())) && HasKey(Flat(Narrow()), Key(2, 999))
  {
    hide Key, Less, Zeros;
    NarrowFlat();
    KeyOrder(1, 0, 2, 999);
    KeyOrder(2, 999, 2, 999);
    assert Flat(Narrow())[2].key == Key(2, 999);
  }

  lemma {:induction false} NarrowFlat()
    ensures Flat(Narrow()) == [SENTINEL, Sized(1, 0), Entry(Key(2, 999), [], 0)]
  {
    hide Key, Zeros, Sized;
    var t := Narrow();
    var a, b := t.kids[0], t.kids[1];
    Singletons(a.kids[0]);
    Singletons(b.kids[0]);
    assert a.kids == [a.kids[0]] && b.kids == [b.kids[0]];
    assert t.kids == [a] + [b];
    FlatAllAppend([a], [b]);
    Singletons(a);
    Singletons(b);
  }

  lemma {:induction false} OneLeafBag(id: nat, leaf: Tree)
    requires leaf.TLeaf?
    ensures Bag(TInner(id, [leaf])) == multiset{id, leaf.id}
  {
    hide BagAll;
    Singletons(leaf);
    assert Bag(leaf) == multiset{leaf.id};
  }

  lemma {:induction false} NarrowUnshared()
    ensures Unshared(Narrow())
  {
    hide Key, Zeros, Sized, Bag, BagAll, Unshared;
    var t := Narrow();
    var a, b := t.kids[0], t.kids[1];
    OneLeafBag(3, a.kids[0]);
    OneLeafBag(4, b.kids[0]);
    assert a == TInner(3, [a.kids[0]]) && b == TInner(4, [b.kids[0]]);
    PairBag(5, a, b);
    FiveIds(t);
  }

  lemma {:induction false} PairBag(id: nat, a: Tree, b: Tree)
    ensures Bag(TInner(id, [a, b])) == multiset{id} + Bag(a) + Bag(b)
  {
    assert [a, b] == [a] + [b];
    BagAllAppend([a], [b]);
    Singletons(a);
    Singletons(b);
  }

  lemma {:induction false} FiveIds(t: Tree)
    requires Bag(t) == multiset{5} + multiset{3, 1} + multiset{4, 2}
    ensures Unshared(t)
  {
    hide Bag;
  }

  /**
   Removing the long key empties the second page, and the two pages become one with a single
   link; the root is then left with one entry and gives way to it.
   */
  lemma {:induction false} RootCanNarrow()
    ensures Sound(Narrow(), 2) && HasKey(Flat(Narrow()), Key(2, 999))
    ensures var kids := Narrow().kids;
            && After(kids[1], Key(2, 999)) == Keeps([])
            && Pick(kids, 1, []).0 == 0 && Pick(kids, 1, []).1 == 2 && |Pick(kids, 1, []).2| == 1
            && After(Narrow(), Key(2, 999)).Keeps? && |After(Narrow(), Key(2, 999)).entries| == 1
  {
    hide Payload, Key, Less, Zeros, Wf, Flat, Sorted, HasKey, Unshared, Sized;
    NarrowWf();
    NarrowSorted();
    NarrowUnshared();
    NarrowPaths();
    NarrowAfter();
  }

  lemma {:induction false} NarrowPaths()
    ensures UpperBound(Links(Narrow().kids), Key(2, 999)) == 2
    ensures UpperBound(Links(Narrow().kids[1].kids), Key(2, 999)) == 1
  {
    hide Key, Less, Zeros, Sized;
    var l, m := Links(Narrow().kids), Links(Narrow().kids[1].kids);
    var a, b := Narrow().kids[0], Narrow().kids[1];
    assert FirstKey(a) == FirstKey(a.kids[0]) == [] && FirstKey(b) == FirstKey(b.kids[0]) == Key(2, 999);
    assert l[1].key == Key(2, 999) && m[0].key == Key(2, 999) && l[0].key == [];
    KeyOrder(2, 999, 2, 999);
    StrictTotalOrder();
    var n, k := UpperBound(l, Key(2, 999)), UpperBound(m, Key(2, 999));
  }

  lemma {:induction false} NarrowAfter()
    requires UpperBound(Links(Narrow().kids), Key(2, 999)) == 2
    requires UpperBound(Links(Narrow().kids[1].kids), Key(2, 999)) == 1
    ensures var kids := Narrow().kids;
            && After(kids[1], Key(2, 999)) == Keeps([])
            && Pick(kids, 1, []).0 == 0 && Pick(kids, 1, []).1 == 2 && |Pick(kids, 1, []).2| == 1
            && After(Narrow(), Key(2, 999)).Keeps? && |After(Narrow(), Key(2, 999)).entries| == 1
  {
    hide Key, Zeros, Sized, UpperBound;
    var kids := Narrow().kids;
    var leaf := kids[1].kids[0];
    assert Remove(leaf.entries, Key(2, 999)) == [];
    assert After(leaf, Key(2, 999)) == Keeps([]);
    assert Links(kids[0].kids) == [Link([], 1)];
    PayloadSingle(Link([], 1));
    assert Payload([]) == 0;
    PayloadSingle(Link([], 0));
    var links := Bare(Links(kids));
    assert links[..0] + [Link([], 0)] + links[2..] == [Link([], 0)];
  }
}
