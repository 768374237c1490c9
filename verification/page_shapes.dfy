/**
 Trees without regard to the pages they are on. Insertion and removal make the same tree of
 trees that differ in their page ids only, and fail alike.
 */
module PageShapes {
  import opened ByteStrings
  import opened Entries
  import opened PageNodes
  import opened PageTrees
  import opened PageTreeSteps
  import opened PageUpdates
  import opened PageRemoval
  import opened PageGrowth

  /** The tree with every page id dropped. */
  ghost function Plain(t: Tree): Tree {
    match t
    case TLeaf(_, entries) => TLeaf(0, entries)
    case TInner(_, kids) => TInner(0, PlainAll(kids))
  }

  ghost function PlainAll(kids: seq<Tree>): (r: seq<Tree>)
    ensures |r| == |kids|
    ensures forall i :: 0 <= i < |kids| ==> r[i] == Plain(kids[i])
  {
    if kids == [] then [] else [Plain(kids[0])] + PlainAll(kids[1..])
  }

  ghost predicate Alike(t: Tree, u: Tree) {
    Plain(t) == Plain(u)
  }

  ghost predicate AllAlike(ts: seq<Tree>, us: seq<Tree>) {
    |ts| == |us| && forall i :: 0 <= i < |ts| ==> Alike(ts[i], us[i])
  }

  lemma {:induction false} AlikeParts(t: Tree, u: Tree)
    requires Alike(t, u)
    ensures t.TLeaf? == u.TLeaf?
    ensures t.TLeaf? ==> t.entries == u.entries
    ensures t.TInner? ==> AllAlike(t.kids, u.kids)
  {
    if t.TInner? {
      forall i | 0 <= i < |t.kids| ensures Alike(t.kids[i], u.kids[i]) {
        assert PlainAll(t.kids)[i] == PlainAll(u.kids)[i];
      }
    }
  }

  lemma {:induction false} AlikeInner(t: Tree, u: Tree)
    requires t.TInner? && u.TInner? && AllAlike(t.kids, u.kids)
    ensures Alike(t, u)
  {
    forall i | 0 <= i < |t.kids| ensures PlainAll(t.kids)[i] == PlainAll(u.kids)[i] {
      assert Alike(t.kids[i], u.kids[i]);
    }
    assert PlainAll(t.kids) == PlainAll(u.kids);
  }

  lemma {:induction false} AlikeId(t: Tree, id: nat)
    ensures Alike(t, WithId(t, id))
  {
  }

  // ----- What does not depend on ids

  lemma {:induction false} AlikeFirst(t: Tree, u: Tree)
    requires Alike(t, u)
    ensures FirstKey(t) == FirstKey(u)
  {
    AlikeParts(t, u);
    if t.TInner? && t.kids != [] {
      AlikeFirst(t.kids[0], u.kids[0]);
    }
  }

  lemma {:induction false} AlikeLinks(ts: seq<Tree>, us: seq<Tree>)
    requires AllAlike(ts, us)
    ensures Bare(Links(ts)) == Bare(Links(us))
  {
    hide FirstKey;
    forall i | 0 <= i < |ts| ensures Bare(Links(ts))[i] == Bare(Links(us))[i] {
      AlikeFirst(ts[i], us[i]);
    }
  }

  lemma {:induction false} AlikePage(t: Tree, u: Tree)
    requires Alike(t, u)
    ensures Bare(NodeOf(t).entries) == Bare(NodeOf(u).entries) && NodeOf(t).leaf == NodeOf(u).leaf
    ensures Payload(NodeOf(t).entries) == Payload(NodeOf(u).entries)
  {
    hide FirstKey, Payload, Plain;
    AlikeParts(t, u);
    if t.TInner? {
      AlikeLinks(t.kids, u.kids);
    }
    BarePayload(NodeOf(t).entries);
    BarePayload(NodeOf(u).entries);
  }

  lemma {:induction false} SameSearch(a: seq<Entry>, b: seq<Entry>, key: Bytes)
    requires Bare(a) == Bare(b)
    ensures UpperBound(a, key) == UpperBound(b, key)
  {
    if a != [] {
      assert Bare(a)[0] == Bare(b)[0];
      assert Bare(a[1..]) == Bare(a)[1..] == Bare(b)[1..] == Bare(b[1..]);
      SameSearch(a[1..], b[1..], key);
    }
  }

  lemma {:induction false} AlikePath(t: Tree, u: Tree, key: Bytes)
    requires Alike(t, u) && t.TInner?
    ensures u.TInner? && AllAlike(t.kids, u.kids) && Bare(Links(t.kids)) == Bare(Links(u.kids))
    ensures UpperBound(Links(t.kids), key) == UpperBound(Links(u.kids), key)
  {
    hide Plain, Links, Bare;
    AlikeParts(t, u);
    AlikeLinks(t.kids, u.kids);
    SameSearch(Links(t.kids), Links(u.kids), key);
  }

  lemma {:induction false} AlikePick(ts: seq<Tree>, us: seq<Tree>, idx: nat, es: seq<Entry>)
    requires AllAlike(ts, us) && idx < |ts|
    ensures Pick(ts, idx, es) == Pick(us, idx, es)
  {
    hide Plain, NodeOf, Bare, Payload, Alike;
    if idx > 0 {
      AlikePage(ts[idx - 1], us[idx - 1]);
    }
    if idx + 1 < |ts| {
      AlikePage(ts[idx + 1], us[idx + 1]);
    }
  }

  /** A removal fails alike in trees that are alike. */
  lemma {:induction false} AfterAlike(t: Tree, u: Tree, key: Bytes)
    requires Alike(t, u)
    ensures After(t, key) == After(u, key)
    decreases t
  {
    hide Plain, Bare, Links, Pick, Alike, UpperBound, Relinked;
    if t.TLeaf? {
      AlikeParts(t, u);
    } else {
      AlikePath(t, u, key);
      var n := UpperBound(Links(t.kids), key);
      if n > 0 {
        AfterAlike(t.kids[n - 1], u.kids[n - 1], key);
        if After(t.kids[n - 1], key).Keeps? {
          RejoinedAlike(t.kids, u.kids, n - 1, After(t.kids[n - 1], key).entries);
        }
      }
    }
  }

  lemma {:induction false} RejoinedAlike(ts: seq<Tree>, us: seq<Tree>, idx: nat, es: seq<Entry>)
    requires AllAlike(ts, us) && idx < |ts|
    ensures Rejoined(ts, idx, es) == Rejoined(us, idx, es)
  {
    hide Pick, Bare, Links, Alike;
    AlikePick(ts, us, idx, es);
    AlikeLinks(ts, us);
  }

  // ----- Removal

  lemma {:induction false} AlikeMerge(a: Tree, b: Tree, c: Tree, d: Tree)
    requires Alike(a, c) && Alike(b, d) && a.TLeaf? == b.TLeaf?
    ensures c.TLeaf? == d.TLeaf? && Alike(MergeTree(a, b), MergeTree(c, d))
  {
    AlikeParts(a, c);
    AlikeParts(b, d);
    if a.TInner? {
      AlikeInner(MergeTree(a, b), MergeTree(c, d));
    }
  }

  lemma {:induction false} AlikePicked(ts: seq<Tree>, us: seq<Tree>, idx: nat, c: Tree, d: Tree)
    requires AllAlike(ts, us) && idx < |ts| && Alike(c, d)
    ensures Bare(NodeOf(c).entries) == Bare(NodeOf(d).entries)
    ensures Alike(PickTree(ts, idx, c), PickTree(us, idx, d))
  {
    hide Plain, NodeOf, Bare, Payload, Alike, Pick, MergeTree;
    AlikePage(c, d);
    AlikePick(ts, us, idx, Bare(NodeOf(c).entries));
    AlikeParts(c, d);
    if idx > 0 {
      AlikeParts(ts[idx - 1], us[idx - 1]);
      if ts[idx - 1].TLeaf? == c.TLeaf? {
        AlikeMerge(ts[idx - 1], c, us[idx - 1], d);
      }
    }
    if idx + 1 < |ts| {
      AlikeParts(ts[idx + 1], us[idx + 1]);
      if c.TLeaf? == ts[idx + 1].TLeaf? {
        AlikeMerge(c, ts[idx + 1], d, us[idx + 1]);
      }
    }
  }

  lemma {:induction false} ShrankAtAlike(ts: seq<Tree>, us: seq<Tree>, idx: nat, c: Tree, d: Tree, t': Tree, u': Tree)
    requires AllAlike(ts, us) && idx < |ts| && Alike(c, d) && ShrankAt(ts, idx, c, t') && ShrankAt(us, idx, d, u')
    ensures Alike(t', u')
  {
    hide Plain, NodeOf, Bare, Pick, PickTree, Alike, WithId;
    AlikePicked(ts, us, idx, c, d);
    AlikePick(ts, us, idx, Bare(NodeOf(c).entries));
    var (i, n, es) := Pick(ts, idx, Bare(NodeOf(c).entries));
    if es != [] {
      var p, q := PickTree(ts, idx, c), PickTree(us, idx, d);
      var x :| t'.kids == ts[..i] + [WithId(p, x)] + ts[n..];
      var y :| u'.kids == us[..i] + [WithId(q, y)] + us[n..];
      AlikeIds(p, x, q, y);
    }
    AlikeInner(t', u');
  }

  lemma {:induction false} AlikeIds(p: Tree, x: nat, q: Tree, y: nat)
    requires Alike(p, q)
    ensures Alike(WithId(p, x), WithId(q, y))
  {
    AlikeId(p, x);
    AlikeId(q, y);
  }

  lemma {:induction false} ShrankAlike(t: Tree, u: Tree, t': Tree, u': Tree, key: Bytes)
    requires Alike(t, u) && Shrank(t, t', key) && Shrank(u, u', key)
    ensures Alike(t', u')
    decreases t
  {
    hide Bare, Links, Alike, UpperBound, ShrankAt;
    if t.TLeaf? {
      AlikeParts(t, u);
      LeavesAlike(t', u');
    } else {
      AlikePath(t, u, key);
      var idx := UpperBound(Links(t.kids), key) - 1;
      var c :| Shrank(t.kids[idx], c, key) && ShrankAt(t.kids, idx, c, t');
      var d :| Shrank(u.kids[idx], d, key) && ShrankAt(u.kids, idx, d, u');
      ShrankAlike(t.kids[idx], u.kids[idx], c, d, key);
      ShrankAtAlike(t.kids, u.kids, idx, c, d, t', u');
    }
  }

  lemma {:induction false} LeavesAlike(t: Tree, u: Tree)
    requires t.TLeaf? && u.TLeaf? && t.entries == u.entries
    ensures Alike(t, u)
  {
  }

  // ----- Insertion

  /** Two rows of subtrees with the same numbers of children are alike if their children are, in a row. */
  lemma {:induction false} AlikeRows(ps: seq<Tree>, qs: seq<Tree>)
    requires |ps| == |qs| && AllAlike(AllKids(ps), AllKids(qs))
    requires forall i :: 0 <= i < |ps| ==> ps[i].TInner? && qs[i].TInner? && |ps[i].kids| == |qs[i].kids|
    ensures AllAlike(ps, qs)
  {
    hide Alike;
    if ps != [] {
      var p, q := ps[|ps| - 1], qs[|qs| - 1];
      var a, b := AllKids(ps[..|ps| - 1]), AllKids(qs[..|qs| - 1]);
      assert AllKids(ps) == a + p.kids && AllKids(qs) == b + q.kids;
      forall i | 0 <= i < |a| ensures Alike(a[i], b[i]) {
        assert AllKids(ps)[i] == a[i] && AllKids(qs)[i] == b[i];
      }
      forall i | 0 <= i < |p.kids| ensures Alike(p.kids[i], q.kids[i]) {
        assert AllKids(ps)[|a| + i] == p.kids[i] && AllKids(qs)[|b| + i] == q.kids[i];
      }
      AlikeRows(ps[..|ps| - 1], qs[..|qs| - 1]);
      AlikeInner(p, q);
      forall i | 0 <= i < |ps| ensures Alike(ps[i], qs[i]) {
        if i < |ps| - 1 {
          assert Alike(ps[..|ps| - 1][i], qs[..|qs| - 1][i]);
        }
      }
    }
  }

  lemma {:induction false} CutsAlike(c: Tree, d: Tree, ps: seq<Tree>, qs: seq<Tree>)
    requires Alike(c, d) && CutsInto(c, ps) && CutsInto(d, qs)
    ensures AllAlike(ps, qs)
  {
    hide Alike, IsSplit, SplitOf, AllKids;
    AlikeParts(c, d);
    AlikePage(c, d);
    var a :| IsSplit(c.TLeaf?, NodeOf(c).entries, a) && PartsIn(c, ps, a);
    var b :| IsSplit(d.TLeaf?, NodeOf(d).entries, b) && PartsIn(d, qs, b);
    BareSplit(c.TLeaf?, NodeOf(c).entries, a);
    BareSplit(d.TLeaf?, NodeOf(d).entries, b);
    SplitKinds(c.TLeaf?, NodeOf(c).entries, a);
    SplitKinds(d.TLeaf?, NodeOf(d).entries, b);
    forall i | 0 <= i < |ps|
      ensures ps[i].TLeaf? == qs[i].TLeaf? == c.TLeaf?
      ensures |NodeOf(ps[i]).entries| == |NodeOf(qs[i]).entries|
    {
      assert BareParts(a)[i] == BareParts(b)[i];
      assert NodeOf(ps[i]) == a[i] && NodeOf(qs[i]) == b[i];
    }
    if c.TInner? {
      AlikeRows(ps, qs);
    } else {
      SplitIs(true, c.entries, a);
      SplitIs(true, d.entries, b);
      forall i | 0 <= i < |ps| ensures Alike(ps[i], qs[i]) {
        assert NodeOf(ps[i]) == a[i] == NodeOf(qs[i]);
        LeavesAlike(ps[i], qs[i]);
      }
    }
  }

  lemma {:induction false} SplitKinds(leaf: bool, es: seq<Entry>, parts: seq<Node>)
    requires IsSplit(leaf, es, parts)
    ensures forall i :: 0 <= i < |parts| ==> parts[i].leaf == leaf
  {
    hide Join, Greedy;
    forall i | 0 <= i < |parts| ensures parts[i].leaf == leaf {
      assert Fits(parts[i], leaf);
    }
  }

  lemma {:induction false} GrewAlike(t: Tree, u: Tree, t': Tree, u': Tree, key: Bytes, value: Bytes)
    requires Alike(t, u) && Grew(t, t', key, value) && Grew(u, u', key, value)
    ensures Alike(t', u')
    decreases t
  {
    hide Bare, Links, Alike, UpperBound, CutsInto;
    if t.TLeaf? {
      AlikeParts(t, u);
      LeavesAlike(t', u');
    } else {
      AlikePath(t, u, key);
      var idx := UpperBound(Links(t.kids), key) - 1;
      var c, ps :| Grew(t.kids[idx], c, key, value) && GrewAt(t.kids, idx, c, ps, t');
      var d, qs :| Grew(u.kids[idx], d, key, value) && GrewAt(u.kids, idx, d, qs, u');
      GrewAlike(t.kids[idx], u.kids[idx], c, d, key, value);
      CutsAlike(c, d, ps, qs);
      AlikeInner(t', u');
    }
  }

  // ----- Whole versions

  /** The same tree, on whatever pages. */
  ghost predicate Like(v: Version, w: Version) {
    match v
    case Empty => w.Empty?
    case Rooted(t, h) => w.Rooted? && w.height == h && Alike(t, w.tree)
  }

  lemma {:induction false} LikeItself(v: Version)
    ensures Like(v, v)
  {
  }

  lemma {:induction false} ToppedLike(t': Tree, u': Tree, h: nat, v': Version, w': Version)
    requires Alike(t', u') && Topped(t', h, v') && Topped(u', h, w')
    ensures Like(v', w')
  {
    hide Alike, CutsInto;
    var ps :| CutsInto(t', ps) && ToppedBy(ps, h, v');
    var qs :| CutsInto(u', qs) && ToppedBy(qs, h, w');
    CutsAlike(t', u', ps, qs);
    if |ps| != 1 {
      AlikeInner(v'.tree, w'.tree);
    }
  }

  /** An insertion makes one tree. */
  lemma {:induction false} InsertLike(v: Version, w: Version, v': Version, w': Version, key: Bytes, value: Bytes)
    requires Like(v, w) && InsertShape(v, v', key, value) && InsertShape(w, w', key, value)
    ensures Like(v', w')
  {
    hide Alike, Grew, Topped;
    if v.Empty? {
      LeavesAlike(v'.tree, w'.tree);
    } else {
      var t' :| Grew(v.tree, t', key, value) && Topped(t', v.height, v');
      var u' :| Grew(w.tree, u', key, value) && Topped(u', w.height, w');
      GrewAlike(v.tree, w.tree, t', u', key, value);
      ToppedLike(t', u', v.height, v', w');
    }
  }

  lemma {:induction false} UncappedLike(t': Tree, u': Tree, h: nat, v': Version, w': Version)
    requires Alike(t', u') && Uncapped(t', h, v') && Uncapped(u', h, w')
    ensures Like(v', w')
  {
    hide Alike, WithId;
    AlikeParts(t', u');
    if v'.Rooted? && w'.Rooted? {
      AlikeIds(t', v'.tree.id, u', w'.tree.id);
    }
  }

  /** A removal makes one tree. */
  lemma {:induction false} DeleteLike(v: Version, w: Version, v': Version, w': Version, key: Bytes)
    requires Like(v, w) && DeleteShape(v, v', key) && DeleteShape(w, w', key)
    ensures Like(v', w')
  {
    hide Alike, Shrank, Uncapped;
    var t' :| Shrank(v.tree, t', key) && Uncapped(t', v.height, v');
    var u' :| Shrank(w.tree, u', key) && Uncapped(u', w.height, w');
    ShrankAlike(v.tree, w.tree, t', u', key);
    UncappedLike(t', u', v.height, v', w');
  }
}
