/**
 Nodes of the in-memory B+Tree on the heap: which objects make up a tree, what tree they
 represent, and how its leaves are chained.
 */
module MemoryNodes {
  import opened ByteStrings
  import opened Entries
  import opened BPlusTrees

  class Node {
    var leaf: bool
    var keys: seq<Bytes>
    var values: seq<Bytes>
    var children: seq<Node>
    var next: Node?

    constructor (leaf: bool, keys: seq<Bytes>, values: seq<Bytes>, children: seq<Node>, next: Node?)
      ensures this.leaf == leaf && this.keys == keys && this.values == values
      ensures this.children == children && this.next == next
    {
      this.leaf := leaf;
      this.keys := keys;
      this.values := values;
      this.children := children;
      this.next := next;
    }
  }

  /** The objects of a tree, without what they hold. */
  datatype Shape = SLeaf(obj: Node) | SInner(obj: Node, kids: seq<Shape>)

  ghost function Objs(s: Shape): set<Node>
    decreases s
  {
    match s
    case SLeaf(obj) => {obj}
    case SInner(obj, kids) => {obj} + ObjsAll(kids)
  }

  ghost function ObjsAll(kids: seq<Shape>): set<Node>
    decreases kids
  {
    set i, o | 0 <= i < |kids| && o in Objs(kids[i]) :: o
  }

  /** No object is in two places. */
  ghost predicate Apart(s: Shape)
    decreases s
  {
    s.SInner? ==> s.obj !in ObjsAll(s.kids) && KidsApart(s.kids)
  }

  ghost predicate KidsApart(kids: seq<Shape>)
    decreases kids
  {
    && (forall i :: 0 <= i < |kids| ==> Apart(kids[i]))
    && (forall i, j :: 0 <= i < j < |kids| ==> Objs(kids[i]) !! Objs(kids[j]))
  }

  ghost function ChildObjs(kids: seq<Shape>): seq<Node> {
    seq(|kids|, i requires 0 <= i < |kids| => kids[i].obj)
  }

  ghost function KeysOf(s: seq<Entry>): seq<Bytes> {
    seq(|s|, i requires 0 <= i < |s| => s[i].key)
  }

  ghost function ValuesOf(s: seq<Entry>): seq<Bytes> {
    seq(|s|, i requires 0 <= i < |s| => s[i].value)
  }

  /** The objects hold the tree. */
  ghost predicate Rep(s: Shape, t: BTree)
    reads Objs(s)
    decreases s
  {
    match s
    case SLeaf(obj) => t.Leaf? && obj.leaf && obj.keys == KeysOf(t.entries) && obj.values == ValuesOf(t.entries)
    case SInner(obj, kids) =>
      t.Inner? && !obj.leaf && obj.keys == t.keys && obj.children == ChildObjs(kids) && KidsRep(kids, t.kids)
  }

  ghost predicate KidsRep(kids: seq<Shape>, ts: seq<BTree>)
    reads ObjsAll(kids)
    decreases kids
  {
    |kids| == |ts| && forall i :: 0 <= i < |kids| ==> Rep(kids[i], ts[i])
  }

  ghost function Leaves(s: Shape): seq<Node>
    decreases s
  {
    match s
    case SLeaf(obj) => [obj]
    case SInner(_, kids) => LeavesAll(kids)
  }

  ghost function LeavesAll(kids: seq<Shape>): seq<Node>
    decreases kids
  {
    if kids == [] then [] else Leaves(kids[0]) + LeavesAll(kids[1..])
  }

  ghost predicate LinkedAt(leaves: seq<Node>, i: nat, after: Node?)
    requires i < |leaves|
    reads leaves[i]
  {
    leaves[i].next == if i + 1 < |leaves| then leaves[i + 1] else after
  }

  /** Each leaf points to the next one, the last to `after`. */
  ghost predicate Chained(leaves: seq<Node>, after: Node?)
    reads set x | x in leaves
  {
    forall i: nat :: i < |leaves| ==> LinkedAt(leaves, i, after)
  }

  // ----- Objects

  lemma {:induction false} ObjOf(s: Shape)
    ensures s.obj in Objs(s)
  {
  }

  lemma {:induction false} KidObjs(kids: seq<Shape>, i: nat)
    requires i < |kids|
    ensures Objs(kids[i]) <= ObjsAll(kids)
  {
  }

  lemma {:induction false} ObjsAllAppend(a: seq<Shape>, b: seq<Shape>)
    ensures ObjsAll(a + b) == ObjsAll(a) + ObjsAll(b)
  {
    forall o | o in ObjsAll(a) + ObjsAll(b) ensures o in ObjsAll(a + b) {
      if o in ObjsAll(a) {
        var i :| 0 <= i < |a| && o in Objs(a[i]);
        assert o in Objs((a + b)[i]);
      } else {
        var i :| 0 <= i < |b| && o in Objs(b[i]);
        assert o in Objs((a + b)[|a| + i]);
      }
    }
    forall o | o in ObjsAll(a + b) ensures o in ObjsAll(a) + ObjsAll(b) {
      var i :| 0 <= i < |a + b| && o in Objs((a + b)[i]);
      if i < |a| {
        assert o in Objs(a[i]);
      } else {
        assert o in Objs(b[i - |a|]);
      }
    }
  }

  lemma {:induction false} ObjsAllOne(s: Shape)
    ensures ObjsAll([s]) == Objs(s)
  {
    assert [s][0] == s;
    forall o | o in Objs(s) ensures o in ObjsAll([s]) {
      assert o in Objs([s][0]);
    }
  }

  /** Neighbouring groups of subtrees. */
  lemma {:induction false} KidsApartAppend(a: seq<Shape>, b: seq<Shape>)
    ensures KidsApart(a + b) <==> KidsApart(a) && KidsApart(b) && ObjsAll(a) !! ObjsAll(b)
  {
    var c := a + b;
    if KidsApart(c) {
      forall i | 0 <= i < |a| ensures Apart(a[i]) {
        assert c[i] == a[i];
      }
      forall i | 0 <= i < |b| ensures Apart(b[i]) {
        assert c[|a| + i] == b[i];
      }
      forall i, j | 0 <= i < j < |a| ensures Objs(a[i]) !! Objs(a[j]) {
        assert c[i] == a[i] && c[j] == a[j];
      }
      forall i, j | 0 <= i < j < |b| ensures Objs(b[i]) !! Objs(b[j]) {
        assert c[|a| + i] == b[i] && c[|a| + j] == b[j];
      }
      forall o | o in ObjsAll(a) ensures o !in ObjsAll(b) {
        var i :| 0 <= i < |a| && o in Objs(a[i]);
        forall j | 0 <= j < |b| ensures o !in Objs(b[j]) {
          assert c[i] == a[i] && c[|a| + j] == b[j];
        }
      }
    }
    if KidsApart(a) && KidsApart(b) && ObjsAll(a) !! ObjsAll(b) {
      forall i, j | 0 <= i < j < |c| ensures Objs(c[i]) !! Objs(c[j]) {
        if i < |a| <= j {
          KidObjs(a, i);
          KidObjs(b, j - |a|);
        }
      }
    }
  }

  lemma {:induction false} KidsApartOne(s: Shape)
    ensures KidsApart([s]) <==> Apart(s)
  {
    assert [s][0] == s;
  }

  lemma {:induction false} KidsRepAppend(a: seq<Shape>, b: seq<Shape>, ta: seq<BTree>, tb: seq<BTree>)
    requires |a| == |ta|
    ensures KidsRep(a + b, ta + tb) <==> KidsRep(a, ta) && KidsRep(b, tb)
  {
    if KidsRep(a + b, ta + tb) {
      forall i | 0 <= i < |a| ensures Rep(a[i], ta[i]) {
        assert (a + b)[i] == a[i] && (ta + tb)[i] == ta[i];
      }
      forall i | 0 <= i < |b| ensures Rep(b[i], tb[i]) {
        assert (a + b)[|a| + i] == b[i] && (ta + tb)[|a| + i] == tb[i];
      }
    }
  }

  lemma {:induction false} KidsRepOne(s: Shape, t: BTree)
    ensures KidsRep([s], [t]) <==> Rep(s, t)
  {
    assert [s][0] == s && [t][0] == t;
  }

  /** The parts of a list of subtrees around position `i`. */
  lemma {:induction false} RepAt(kids: seq<Shape>, ts: seq<BTree>, i: nat)
    requires KidsRep(kids, ts) && KidsApart(kids) && i < |kids|
    ensures Rep(kids[i], ts[i]) && KidsRep(kids[..i], ts[..i]) && KidsRep(kids[i + 1..], ts[i + 1..])
    ensures Apart(kids[i]) && KidsApart(kids[..i]) && KidsApart(kids[i + 1..])
    ensures ObjsAll(kids) == ObjsAll(kids[..i]) + Objs(kids[i]) + ObjsAll(kids[i + 1..])
    ensures ObjsAll(kids[..i]) !! Objs(kids[i]) && ObjsAll(kids[..i]) !! ObjsAll(kids[i + 1..])
            && Objs(kids[i]) !! ObjsAll(kids[i + 1..])
  {
    hide Objs, ObjsAll, Rep, Apart, KidsApart;
    assert kids == kids[..i] + ([kids[i]] + kids[i + 1..]);
    assert ts == ts[..i] + ([ts[i]] + ts[i + 1..]);
    KidsRepAppend(kids[..i], [kids[i]] + kids[i + 1..], ts[..i], [ts[i]] + ts[i + 1..]);
    KidsRepAppend([kids[i]], kids[i + 1..], [ts[i]], ts[i + 1..]);
    KidsApartAppend(kids[..i], [kids[i]] + kids[i + 1..]);
    KidsApartAppend([kids[i]], kids[i + 1..]);
    KidsApartOne(kids[i]);
    ObjsAllAppend(kids[..i], [kids[i]] + kids[i + 1..]);
    ObjsAllAppend([kids[i]], kids[i + 1..]);
    ObjsAllOne(kids[i]);
  }

  lemma {:induction false} LeavesAllAppend(a: seq<Shape>, b: seq<Shape>)
    ensures LeavesAll(a + b) == LeavesAll(a) + LeavesAll(b)
  {
    if a == [] {
      assert a + b == b;
    } else {
      assert (a + b)[1..] == a[1..] + b;
      LeavesAllAppend(a[1..], b);
    }
  }

  lemma {:induction false} LeavesAllOne(s: Shape)
    ensures LeavesAll([s]) == Leaves(s)
  {
    assert LeavesAll([s][1..]) == [];
  }

  lemma {:induction false} LeavesAt(kids: seq<Shape>, i: nat)
    requires i < |kids|
    ensures LeavesAll(kids) == LeavesAll(kids[..i]) + Leaves(kids[i]) + LeavesAll(kids[i + 1..])
  {
    assert kids == kids[..i] + ([kids[i]] + kids[i + 1..]);
    LeavesAllAppend(kids[..i], [kids[i]] + kids[i + 1..]);
    LeavesAllAppend([kids[i]], kids[i + 1..]);
    LeavesAllOne(kids[i]);
  }

  /** Leaves are objects of the tree. */
  lemma {:induction false} LeavesAreObjs(s: Shape)
    ensures forall x :: x in Leaves(s) ==> x in Objs(s)
    decreases s, 0
  {
    if s.SInner? {
      forall x | x in Leaves(s) ensures x in Objs(s) {
        var i := LeafInKid(s.kids, x);
        LeavesAreObjs(s.kids[i]);
      }
    }
  }

  lemma {:induction false} LeafInKid(kids: seq<Shape>, x: Node) returns (i: nat)
    requires x in LeavesAll(kids)
    ensures i < |kids| && x in Leaves(kids[i])
    decreases kids
  {
    if x in Leaves(kids[0]) {
      i := 0;
    } else {
      var j := LeafInKid(kids[1..], x);
      i := j + 1;
    }
  }

  /** A group of subtrees in the middle is replaced. */
  lemma {:induction false} RepPut(a: seq<Shape>, b: seq<Shape>, c: seq<Shape>, ta: seq<BTree>, tb: seq<BTree>,
      tc: seq<BTree>)
    requires KidsRep(a, ta) && KidsRep(b, tb) && KidsRep(c, tc)
    ensures KidsRep(a + b + c, ta + tb + tc)
  {
    hide Rep, ObjsAll;
    KidsRepAppend(a, b, ta, tb);
    KidsRepAppend(a + b, c, ta + tb, tc);
  }

  lemma {:induction false} ApartPut(a: seq<Shape>, b: seq<Shape>, c: seq<Shape>)
    requires KidsApart(a) && KidsApart(b) && KidsApart(c)
    requires ObjsAll(a) !! ObjsAll(b) && ObjsAll(a) !! ObjsAll(c) && ObjsAll(b) !! ObjsAll(c)
    ensures KidsApart(a + b + c) && ObjsAll(a + b + c) == ObjsAll(a) + ObjsAll(b) + ObjsAll(c)
  {
    hide KidsApart, ObjsAll;
    KidsApartAppend(a, b);
    ObjsAllAppend(a, b);
    KidsApartAppend(a + b, c);
    ObjsAllAppend(a + b, c);
  }

  // ----- Chains

  ghost function Head(leaves: seq<Node>, after: Node?): Node? {
    if leaves == [] then after else leaves[0]
  }

  lemma {:induction false} ChainSplit(a: seq<Node>, b: seq<Node>, after: Node?)
    requires Chained(a + b, after)
    ensures Chained(a, Head(b, after)) && Chained(b, after)
  {
    forall i: nat | i < |a| ensures LinkedAt(a, i, Head(b, after)) {
      assert LinkedAt(a + b, i, after);
    }
    forall i: nat | i < |b| ensures LinkedAt(b, i, after) {
      assert LinkedAt(a + b, |a| + i, after);
    }
  }

  lemma {:induction false} ChainJoin(a: seq<Node>, b: seq<Node>, after: Node?)
    requires Chained(a, Head(b, after)) && Chained(b, after)
    ensures Chained(a + b, after)
  {
    forall i: nat | i < |a + b| ensures LinkedAt(a + b, i, after) {
      if i < |a| {
        assert LinkedAt(a, i, Head(b, after));
      } else {
        assert LinkedAt(b, i - |a|, after);
      }
    }
  }

  /** Every subtree has a leaf. */
  lemma {:induction false} HasLeaf(s: Shape, t: BTree, h: nat)
    requires Rep(s, t) && Formed(t, h)
    ensures Leaves(s) != []
    decreases h
  {
    if s.SInner? {
      assert Rep(s.kids[0], t.kids[0]);
      HasLeaf(s.kids[0], t.kids[0], h - 1);
      LeavesAt(s.kids, 0);
    }
  }

  /** The leaves of some subtrees, which `after` follows. */
  lemma {:induction false} LeavesAllAreObjs(kids: seq<Shape>)
    ensures forall x :: x in LeavesAll(kids) ==> x in ObjsAll(kids)
  {
    forall x | x in LeavesAll(kids) ensures x in ObjsAll(kids) {
      var i := LeafInKid(kids, x);
      LeavesAreObjs(kids[i]);
      KidObjs(kids, i);
    }
  }
}
