/**
 From tree operations to a prepared update: a batch of mutations runs on a working copy,
 and what it leaves behind is a plan that the commit protocol can carry out.
 */
module KvUpdates {
  import opened ByteStrings
  import opened Entries
  import opened PageNodes
  import opened PageTrees
  import opened PageManagers
  import opened PageUpdates
  import opened PageRemoval
  import opened PageGrowth
  import opened PageShapes
  import opened PageLoading
  import opened FreeLists
  import opened PageTreeOps
  import opened CommitProtocol

  /** Any number of completed operations, one after the other. */
  ghost predicate Advanced(a: Snap, b: Snap, v: Version, v': Version) {
    && Grown(a, b.(pm := b.pm.(pendingFreePageIDs := a.pm.pendingFreePageIDs)))
    && a.pm.pendingFreePageIDs <= b.pm.pendingFreePageIDs
    && Owned(b.pm, Live(v'))
    && forall x :: x in Live(v') ==> x in Live(v) || x in NewIds(a, b)
  }

  lemma {:induction false} AdvancedRefl(a: Snap, v: Version)
    requires Owned(a.pm, Live(v))
    ensures Advanced(a, a, v, v)
  {
    hide Owned;
    GrownRefl(a);
    assert a.(pm := a.pm.(pendingFreePageIDs := a.pm.pendingFreePageIDs)) == a;
  }

  ghost function Requeued(s: Snap, pending: seq<nat>): Snap {
    s.(pm := s.pm.(pendingFreePageIDs := pending))
  }

  lemma {:induction false} GrownRequeued(a: Snap, b: Snap, pending: seq<nat>)
    requires Grown(a, Requeued(b, a.pm.pendingFreePageIDs))
    ensures Grown(Requeued(a, pending), Requeued(b, pending))
  {
    assert NewIds(a, Requeued(b, a.pm.pendingFreePageIDs)) == NewIds(Requeued(a, pending), Requeued(b, pending));
    assert forall x :: InSupply(Requeued(a, pending).pm, x) <==> InSupply(a.pm, x);
    assert forall x :: InSupply(Requeued(b, pending).pm, x) <==> InSupply(Requeued(b, a.pm.pendingFreePageIDs).pm, x);
  }

  lemma {:induction false} GrownBorn(a: Snap, b: Snap)
    requires Grown(a, b)
    ensures a.born <= b.born
  {
  }

  lemma {:induction false} AdvancedStep(a: Snap, b: Snap, c: Snap, v: Version, v': Version, v'': Version,
      released: seq<nat>)
    requires Advanced(a, b, v, v') && Stepped(b, c, v', v'', released)
    ensures Advanced(a, c, v, v'')
  {
    hide Owned, Grown, VersionBag;
    var p := a.pm.pendingFreePageIDs;
    assert Requeued(a, p) == a;
    GrownRequeued(b, c, p);
    GrownTrans(a, Requeued(b, p), Requeued(c, p));
    GrownBorn(a, Requeued(b, p));
    GrownBorn(Requeued(b, p), Requeued(c, p));
    NewIdsTrans(a, Requeued(b, p), Requeued(c, p));
    forall x | x in Live(v'') ensures x in Live(v) || x in NewIds(a, c) {
      assert x in VersionBag(v'') + multiset(released);
      assert x in VersionBag(v') || x in multiset(NewIds(b, c));
      assert x in Live(v') || x in NewIds(b, c);
    }
  }

  datatype Change = Rejected(index: nat) | OutOfPages | Done(changed: bool)

  /** A mutation that is refused in every state: its key or value cannot be stored. */
  predicate Unstorable(op: Mutation) {
    if op.Delete? then !(0 < |op.key| <= MAX_KEY_SIZE) else !Storable(op.key, op.value)
  }

  /** A mutation that is refused by the tree `u`: an unstorable one, or a removal that would make a page overflow. */
  ghost predicate Refused(op: Mutation, u: Version) {
    || Unstorable(op)
    || (op.Delete? && u.Rooted? && op.key in Contents(u) && After(u.tree, op.key) == Overflow)
  }

  /** What the map says about it: such a removal has a longer key after it. */
  ghost predicate Refusable(op: Mutation, m: map<Bytes, Bytes>) {
    || Unstorable(op)
    || (op.Delete? && op.key in m && exists next :: Successor(m, op.key, next) && |next| > |op.key|)
  }

  lemma {:induction false} RefusedMeans(op: Mutation, u: Version)
    requires SoundVersion(u) && Refused(op, u)
    ensures Refusable(op, Contents(u))
  {
    hide Contents, After, Successor, Cramped;
    if !Unstorable(op) {
      OverflowMeans(u, op.key);
    }
  }

  /** A mutation that changes the tree where the map is `m`; setting a key always does. */
  predicate Alters(op: Mutation, m: map<Bytes, Bytes>) {
    op.Set? || op.key in m
  }

  ghost predicate AltersAt(batch: Batch, m: map<Bytes, Bytes>, i: nat)
    requires i < |batch|
  {
    Alters(batch[i], ApplyAll(m, batch[..i]))
  }

  /** Some mutation sets a key, or removes one that is there when its turn comes. */
  lemma {:induction false} AltersMeans(batch: Batch, m: map<Bytes, Bytes>)
    ensures (exists i :: 0 <= i < |batch| && AltersAt(batch, m, i)) <==>
            exists i :: 0 <= i < |batch| && (batch[i].Set? || batch[i].key in ApplyAll(m, batch[..i]))
  {
    hide ApplyAll;
    if i :| 0 <= i < |batch| && (batch[i].Set? || batch[i].key in ApplyAll(m, batch[..i])) {
      assert AltersAt(batch, m, i);
    }
  }

  /** Without such a mutation the batch only removes keys that are missing. */
  lemma {:induction false} IdleMeans(batch: Batch, m: map<Bytes, Bytes>, n: nat)
    requires n <= |batch| && forall i :: 0 <= i < |batch| ==> !AltersAt(batch, m, i)
    ensures ApplyAll(m, batch[..n]) == m && forall i :: 0 <= i < n ==> batch[i].Delete? && batch[i].key !in m
    decreases n
  {
    if n > 0 {
      IdleMeans(batch, m, n - 1);
      assert !AltersAt(batch, m, n - 1);
      assert batch[..n][..n - 1] == batch[..n - 1];
      assert m - {batch[n - 1].key} == m;
    }
  }

  // ----- The trees that a batch makes, one after the other

  /** What one mutation makes of the tree `u`. */
  ghost predicate Makes(u: Version, u': Version, op: Mutation) {
    match op
    case Set(key, value) => InsertShape(u, u', key, value)
    case Delete(key) => if key in Contents(u) then DeleteShape(u, u', key) else u' == u
  }

  /** The trees before and after each of the first mutations, none of which is refused. */
  ghost predicate Chain(v: Version, batch: Batch, us: seq<Version>) {
    && 1 <= |us| <= |batch| + 1 && us[0] == v
    && (forall j :: 0 <= j < |us| ==> SoundVersion(us[j]) && Contents(us[j]) == ApplyAll(Contents(v), batch[..j]))
    && (forall j :: 0 <= j < |us| - 1 ==> !Refused(batch[j], us[j]) && Makes(us[j], us[j + 1], batch[j]))
  }

  /** Mutation `i` is refused by the tree that the mutations before it make of `v`. */
  ghost predicate RefusedAt(v: Version, batch: Batch, i: nat) {
    exists us :: Chain(v, batch, us) && |us| == i + 1 && i < |batch| && Refused(batch[i], us[i])
  }

  /** No mutation is refused, and `v'` is the tree that they make of `v`. */
  ghost predicate Accepted(v: Version, batch: Batch, v': Version) {
    exists us :: Chain(v, batch, us) && |us| == |batch| + 1 && us[|batch|] == v'
  }

  lemma {:induction false} ChainStart(v: Version, batch: Batch)
    requires SoundVersion(v)
    ensures Chain(v, batch, [v])
  {
  }

  lemma {:induction false} ChainStep(v: Version, batch: Batch, us: seq<Version>, u': Version)
    requires Chain(v, batch, us) && |us| <= |batch|
    requires !Refused(batch[|us| - 1], us[|us| - 1]) && Makes(us[|us| - 1], u', batch[|us| - 1])
    requires SoundVersion(u') && Contents(u') == ApplyAll(Contents(v), batch[..|us|])
    ensures Chain(v, batch, us + [u'])
  {
    hide Refused, Makes, Sound, Contents, ApplyAll;
    var r := us + [u'];
    forall j | 0 <= j < |r| - 1 ensures !Refused(batch[j], r[j]) && Makes(r[j], r[j + 1], batch[j]) {
      if j < |us| - 1 {
        assert Makes(us[j], us[j + 1], batch[j]);
      }
    }
  }

  /** The trees are determined but for the pages they are on. */
  lemma {:induction false} ChainLike(v: Version, batch: Batch, us: seq<Version>, ws: seq<Version>, j: nat)
    requires Chain(v, batch, us) && Chain(v, batch, ws) && j < |us| && j < |ws|
    ensures Like(us[j], ws[j])
  {
    hide Refused, Sound, Contents, ApplyAll, InsertShape, DeleteShape, Like;
    if j == 0 {
      LikeItself(v);
    } else {
      ChainLike(v, batch, us, ws, j - 1);
      assert Makes(us[j - 1], us[j - 1 + 1], batch[j - 1]) && Makes(ws[j - 1], ws[j - 1 + 1], batch[j - 1]);
      MakesLike(us[j - 1], ws[j - 1], us[j], ws[j], batch[j - 1]);
    }
  }

  lemma {:induction false} MakesLike(u: Version, w: Version, u': Version, w': Version, op: Mutation)
    requires Like(u, w) && Contents(u) == Contents(w) && Makes(u, u', op) && Makes(w, w', op)
    ensures Like(u', w')
  {
    hide Contents, InsertShape, DeleteShape, Like;
    match op
    case Set(key, value) => InsertLike(u, w, u', w', key, value);
    case Delete(key) =>
      if key in Contents(u) {
        DeleteLike(u, w, u', w', key);
      }
  }

  lemma {:induction false} RefusedLike(op: Mutation, u: Version, w: Version)
    requires Like(u, w) && Contents(u) == Contents(w)
    ensures Refused(op, u) <==> Refused(op, w)
  {
    hide Contents, After, Alike;
    if op.Delete? && u.Rooted? {
      AfterAlike(u.tree, w.tree, op.key);
    }
  }

  /** Which mutation is refused first, if any, is settled by the tree and the batch. */
  lemma {:induction false} RefusedOnce(v: Version, batch: Batch, i: nat, us: seq<Version>)
    requires RefusedAt(v, batch, i) && Chain(v, batch, us)
    ensures |us| <= i + 1
    ensures |us| <= |batch| && Refused(batch[|us| - 1], us[|us| - 1]) ==> |us| == i + 1
  {
    hide Refused, Sound, Contents, ApplyAll, Makes;
    var ws :| Chain(v, batch, ws) && |ws| == i + 1 && i < |batch| && Refused(batch[i], ws[i]);
    if |us| > i + 1 {
      ChainLike(v, batch, us, ws, i);
      RefusedLike(batch[i], us[i], ws[i]);
    } else {
      ChainLike(v, batch, us, ws, |us| - 1);
      RefusedLike(batch[|us| - 1], us[|us| - 1], ws[|us| - 1]);
    }
  }

  /** A batch is refused at one mutation or at none. */
  lemma {:induction false} RefusedOrAccepted(v: Version, batch: Batch, i: nat, j: nat, v': Version)
    requires RefusedAt(v, batch, i)
    ensures RefusedAt(v, batch, j) ==> j == i
    ensures !Accepted(v, batch, v')
  {
    hide Refused, Chain;
    if RefusedAt(v, batch, j) {
      var us :| Chain(v, batch, us) && |us| == j + 1 && j < |batch| && Refused(batch[j], us[j]);
      RefusedOnce(v, batch, i, us);
    }
    if Accepted(v, batch, v') {
      var us :| Chain(v, batch, us) && |us| == |batch| + 1 && us[|batch|] == v';
      RefusedOnce(v, batch, i, us);
    }
  }

  /** What the map says about a refused mutation. */
  lemma {:induction false} RefusedAtMeans(v: Version, batch: Batch, i: nat)
    requires RefusedAt(v, batch, i)
    ensures i < |batch| && Refusable(batch[i], ApplyAll(Contents(v), batch[..i]))
  {
    hide Contents, ApplyAll, Refused, Refusable, Sound, Makes;
    var us :| Chain(v, batch, us) && |us| == i + 1 && i < |batch| && Refused(batch[i], us[i]);
    RefusedMeans(batch[i], us[i]);
  }

  // ----- How many pages a batch can take

  /** At most this many pages for `n` mutations of a tree of height `h`, which may grow by one each time. */
  function BatchPages(h: nat, n: nat): nat {
    if n == 0 then 0 else BatchPages(h, n - 1) + 3 * (h + n - 1) + 4
  }

  lemma {:induction false} BatchPagesGrow(h: nat, n: nat, m: nat)
    requires n <= m
    ensures BatchPages(h, n) <= BatchPages(h, m)
    decreases m
  {
    if n < m {
      BatchPagesGrow(h, n, m - 1);
    }
  }

  ghost function MutationPages(op: Mutation, u: Version): nat {
    match op
    case Set(key, value) => InsertPages(u, key, value)
    case Delete(key) => DeletePages(u, key)
  }

  lemma {:induction false} MutationBound(op: Mutation, u: Version)
    requires SoundVersion(u) && !Unstorable(op)
    ensures MutationPages(op, u) <= 3 * HeightOf(u) + 4
  {
    hide InsertPages, DeletePages, Sound;
    match op
    case Set(key, value) => InsertPagesBound(u, key, value);
    case Delete(key) => DeletePagesBound(u, key);
  }

  /** After `i` mutations: what they took, and how high the tree may have become. */
  ghost predicate Within(a: Snap, b: Snap, v: Version, v': Version, i: nat) {
    |NewIds(a, b)| <= BatchPages(HeightOf(v), i) && HeightOf(v') <= HeightOf(v) + i
  }

  lemma {:induction false} WithinStep(a: Snap, b: Snap, c: Snap, v: Version, u: Version, v': Version, i: nat,
      op: Mutation)
    requires Within(a, b, v, u, i) && SoundVersion(u) && !Unstorable(op)
    requires a.born <= b.born <= c.born && |NewIds(b, c)| <= MutationPages(op, u) && HeightOf(v') <= HeightOf(u) + 1
    ensures Within(a, c, v, v', i + 1)
  {
    hide MutationPages, Sound;
    NewIdsTrans(a, b, c);
    MutationBound(op, u);
  }

  /** A mutation for which the pages do not suffice shows that there were too few for the batch. */
  lemma {:induction false} WithinFails(a: Snap, b: Snap, v: Version, u: Version, i: nat, n: nat, op: Mutation)
    requires Advanced(a, b, v, u) && Within(a, b, v, u, i) && SoundVersion(u) && !Unstorable(op)
    requires Available(b.pm) < MutationPages(op, u) && i < n
    ensures Available(a.pm) < BatchPages(HeightOf(v), n)
  {
    hide MutationPages, Sound, Owned;
    MutationBound(op, u);
    AdvancedCount(a, b, v, u);
    BatchPagesGrow(HeightOf(v), i + 1, n);
  }

  /** Pages reserved are pages no longer available. */
  lemma {:induction false} AdvancedCount(a: Snap, b: Snap, v: Version, v': Version)
    requires Advanced(a, b, v, v')
    ensures a.born <= b.born && Available(a.pm) == Available(b.pm) + |NewIds(a, b)|
    ensures |b.pm.freePageIDs| <= |a.pm.freePageIDs| && a.pm.nextPageID <= b.pm.nextPageID
  {
    hide Owned;
    var c := b.(pm := b.pm.(pendingFreePageIDs := a.pm.pendingFreePageIDs));
    assert NewIds(a, c) == NewIds(a, b);
    var before, after := multiset(a.pm.freePageIDs), multiset(b.pm.freePageIDs);
    assert before == after + (before - after);
    assert |multiset(a.pm.freePageIDs)| == |a.pm.freePageIDs| && |multiset(b.pm.freePageIDs)| == |b.pm.freePageIDs|;
  }

  lemma {:induction false} SteppedBorn(a: Snap, b: Snap, v: Version, v': Version, released: seq<nat>)
    requires Stepped(a, b, v, v', released)
    ensures a.born <= b.born
  {
  }

  /**
   Applies the mutations in order to the working copy. If none is refused, the tree holds
   the map that they lead to, and is the one that they make one after the other. The first
   that is refused is refused by the tree that the mutations before it have made; and page
   ids run out only if there were fewer of them than a batch of this length can take.
   */
  method ApplyMutations(tree: PageTree, batch: Batch, ghost v: Version) returns (r: Change, ghost v': Version)
    requires tree.Ready() && !tree.callbackErr
    requires Holds(v, tree.root, tree.pages) && Owned(tree.pm.Snapshot(), Live(v))
    modifies tree, tree.pm
    ensures r.Done? ==> tree.Ready() && Holds(v', tree.root, tree.pages) && Advanced(old(tree.Now()), tree.Now(), v, v')
    ensures r.Done? ==> Contents(v') == ApplyAll(Contents(v), batch)
    ensures r.Done? ==> Within(old(tree.Now()), tree.Now(), v, v', |batch|)
    ensures r.Done? ==> (r.changed <==> exists i :: 0 <= i < |batch| && AltersAt(batch, Contents(v), i))
    ensures r.Done? && !r.changed ==> v' == v
    ensures r.Done? ==> forall i :: 0 <= i < |batch| ==> !Unstorable(batch[i])
    ensures r.Done? ==> Accepted(v, batch, v')
    ensures r.Rejected? ==> RefusedAt(v, batch, r.index)
    ensures r.OutOfPages? ==> Available(old(tree.pm.Snapshot())) < BatchPages(HeightOf(v), |batch|)
  {
    hide Holds, Owned, Advanced, Stepped, Supplied, Contents, VersionBag, Within, Sound, NewIds, Grown;
    hide ApplyAll, BatchPages, Chain, Refused, Makes, MutationPages, Unstorable;
    var changed := false;
    v' := v;
    AdvancedRefl(tree.Now(), v);
    ghost var a, us := tree.Now(), [v];
    WithinStart(a, v);
    StartAlters(batch, Contents(v));
    HeldSound(v, tree.root, tree.pages);
    ChainStart(v, batch);
    var i := 0;
    while i < |batch|
      invariant 0 <= i <= |batch|
      invariant tree.Ready() && !tree.callbackErr
      invariant Holds(v', tree.root, tree.pages) && Owned(tree.pm.Snapshot(), Live(v'))
      invariant Advanced(a, tree.Now(), v, v') && Within(a, tree.Now(), v, v', i)
      invariant Contents(v') == ApplyAll(Contents(v), batch[..i])
      invariant !changed ==> v' == v
      invariant changed <==> exists j :: 0 <= j < i && AltersAt(batch, Contents(v), j)
      invariant forall j :: 0 <= j < i ==> !Unstorable(batch[j])
      invariant |us| == i + 1 && us[i] == v' && Chain(v, batch, us)
    {
      ApplyStep(Contents(v), batch, i);
      HeldSound(v', tree.root, tree.pages);
      ghost var b, u := tree.Now(), v';
      ghost var released;
      AdvancedCount(a, b, v, u);
      var one;
      one, v', released := ApplyOne(tree, batch[i], u);
      if one.Short? {
        WithinFails(a, b, v, u, i, |batch|, batch[i]);
        return OutOfPages, u;
      }
      if one.Refused? {
        return Rejected(i), u;
      }
      if one.altered {
        SteppedBorn(b, tree.Now(), u, v', released);
        WithinStep(a, b, tree.Now(), v, u, v', i, batch[i]);
        AdvancedStep(a, b, tree.Now(), v, u, v', released);
        AdvancedOwned(a, tree.Now(), v, v');
        changed := true;
      } else {
        WithinIdle(a, b, v, u, i);
      }
      HeldSound(v', tree.root, tree.pages);
      ChainStep(v, batch, us, v');
      us := us + [v'];
      assert AltersAt(batch, Contents(v), i) <==> one.altered;
      i := i + 1;
    }
    TakeAll(batch);
    r := Done(changed);
  }

  datatype One = Refused | Short | Made(altered: bool)

  /** One mutation of the working copy. */
  method ApplyOne(tree: PageTree, op: Mutation, ghost u: Version)
    returns (r: One, ghost u': Version, ghost released: seq<nat>)
    requires tree.Ready() && !tree.callbackErr
    requires Holds(u, tree.root, tree.pages) && Owned(tree.pm.Snapshot(), Live(u))
    modifies tree, tree.pm
    ensures r.Refused? ==> Refused(op, u)
    ensures r.Short? <==> !Unstorable(op) && Available(old(tree.pm.Snapshot())) < MutationPages(op, u)
    ensures r.Made? ==> tree.Ready() && !tree.callbackErr && Holds(u', tree.root, tree.pages)
    ensures r.Made? ==> !Unstorable(op) && !Refused(op, u) && Makes(u, u', op)
    ensures r.Made? ==> Contents(u') == Apply(Contents(u), op) && HeightOf(u') <= HeightOf(u) + 1
    ensures r.Made? ==> (r.altered <==> Alters(op, Contents(u)))
    ensures r.Made? && r.altered ==>
              Stepped(old(tree.Now()), tree.Now(), u, u', released)
              && |NewIds(old(tree.Now()), tree.Now())| <= MutationPages(op, u)
    ensures r.Made? && !r.altered ==> u' == u && tree.Now() == old(tree.Now())
  {
    hide Holds, Owned, Stepped, Supplied, Contents, VersionBag, Sound, NewIds, Grown;
    hide InsertPages, DeletePages, After, Successor, Cramped, InsertShape, DeleteShape;
    match op {
      case Delete(key) =>
        var deleted;
        deleted, u', released := tree.Delete(key, u);
        if tree.callbackErr {
          return Short, u', released;
        }
        if deleted.None? {
          return One.Refused, u', released;
        }
        if deleted.value {
          ShapeLower(u, u', key);
        } else {
          u' := u;
          assert Contents(u) - {key} == Contents(u);
        }
        r := Made(deleted.value);
      case Set(key, value) =>
        var ok;
        ok, u', released := tree.Insert(key, value, u);
        if tree.callbackErr {
          return Short, u', released;
        }
        if !ok {
          return One.Refused, u', released;
        }
        ShapeHeight(u, u', key, value);
        r := Made(true);
    }
  }

  lemma {:induction false} ShapeLower(v: Version, v': Version, key: Bytes)
    requires DeleteShape(v, v', key)
    ensures HeightOf(v') <= HeightOf(v)
  {
    hide Shrank;
  }

  /** An insertion makes the tree at most one level higher. */
  lemma {:induction false} ShapeHeight(v: Version, v': Version, key: Bytes, value: Bytes)
    requires InsertShape(v, v', key, value)
    ensures HeightOf(v') <= HeightOf(v) + 1
  {
    hide Grew, CutsInto;
  }

  lemma {:induction false} WithinStart(a: Snap, v: Version)
    ensures Within(a, a, v, v, 0)
  {
  }

  lemma {:induction false} WithinIdle(a: Snap, b: Snap, v: Version, v': Version, i: nat)
    requires Within(a, b, v, v', i)
    ensures Within(a, b, v, v', i + 1)
  {
  }

  lemma {:induction false} StartAlters(batch: Batch, m: map<Bytes, Bytes>)
    ensures ApplyAll(m, batch[..0]) == m
  {
  }

  lemma {:induction false} HeldSound(v: Version, root: nat, pages: Store)
    requires Holds(v, root, pages)
    ensures SoundVersion(v)
  {
  }

  // ----- How many pages a commit can take

  /** The pages of the batch, and those of a free list that names every page. */
  function CommitPages(next: nat, h: nat, n: nat): nat {
    BatchPages(h, n) + PagesOf(next + BatchPages(h, n))
  }

  /** The ids above `next` may not suffice for a batch of `n` mutations of a tree of height `h`. */
  predicate NearlyFull(next: nat, h: nat, n: nat) {
    FreshFrom(next) < CommitPages(next, h, n)
  }

  lemma {:induction false} BatchShort(s: PageManagerState, h: nat, n: nat)
    requires Available(s) < BatchPages(h, n)
    ensures NearlyFull(s.nextPageID, h, n)
  {
    hide PagesOf, BatchPages;
  }

  /** A list that does not fit any more shows that there were too few ids for the commit. */
  lemma {:induction false} ListShort(a: Snap, b: Snap, v: Version, v': Version, n: nat, disk: Pages)
    requires Advanced(a, b, v, v') && Within(a, b, v, v', n) && a.pm.nextPageID >= 1
    requires SnapshotNeeds(b.pm, disk) > Fresh(b.pm)
    ensures NearlyFull(a.pm.nextPageID, HeightOf(v), n)
  {
    hide PagesOf, BatchPages, SnapshotNeeds, Owned;
    AdvancedCount(a, b, v, v');
    SnapshotNeedsBound(b.pm, disk, Live(v'));
    var k := BatchPages(HeightOf(v), n);
    PagesPositive(a.pm.nextPageID + k);
    if Fresh(a.pm) > k {
      PagesGrow(b.pm.nextPageID, a.pm.nextPageID + k);
    }
  }

  lemma {:induction false} PagesPositive(n: nat)
    requires n >= 1
    ensures PagesOf(n) >= 1
  {
  }

  lemma {:induction false} AdvancedOwned(a: Snap, b: Snap, v: Version, v': Version)
    requires Advanced(a, b, v, v')
    ensures Owned(b.pm, Live(v'))
  {
  }

  lemma {:induction false} ApplyStep(m: map<Bytes, Bytes>, batch: Batch, i: nat)
    requires i < |batch|
    ensures ApplyAll(m, batch[..i + 1]) == Apply(ApplyAll(m, batch[..i]), batch[i])
  {
    assert batch[..i + 1][..i] == batch[..i];
  }

  /** The pages an update has added to those it started from. */
  function NewPages(before: Store, after: Store): Store {
    map x | x in after && x !in before :: after[x]
  }

  lemma {:induction false} AdvancedPages(a: Snap, b: Snap, v: Version, v': Version)
    requires Advanced(a, b, v, v')
    ensures b.pages == a.pages + NewPages(a.pages, b.pages)
  {
    hide Owned, VersionBag;
  }

  /** Completed operations make a plan. */
  lemma {:induction false} AdvancedPrepares(mem: Mem, a: Snap, b: Snap, v': Version, batch: Batch)
    requires Advanced(a, b, mem.v, v') && Supplied(a) && Supplied(b)
    requires a.pages == mem.pages && a.pm == mem.pm && Holds(v', RootId(v'), b.pages)
    requires Contents(v') == ApplyAll(Contents(mem.v), batch)
    ensures Prepared(mem, Plan(batch, b.pm, v', NewPages(a.pages, b.pages)))
  {
    hide Owned, Holds, Contents, ApplyAll, VersionBag;
    var writes := NewPages(a.pages, b.pages);
    var c := Requeued(b, a.pm.pendingFreePageIDs);
    assert NewIds(a, c) == NewIds(a, b);
    assert mem.pages + writes == b.pages;
    forall x | x in writes ensures 1 <= x < b.pm.nextPageID && InSupply(mem.pm, x) {
      assert x in NewIds(a, c);
      assert !InSupply(b.pm, x);
    }
    forall x | mem.pm.nextPageID <= x < b.pm.nextPageID ensures x in writes {
      assert InSupply(a.pm, x);
      assert x !in a.pm.freePageIDs;
      assert multiset(a.pm.freePageIDs)[x] == 0;
      assert multiset(c.pm.freePageIDs)[x] == 0;
      assert x !in c.pm.freePageIDs;
      assert x in NewIds(a, c);
    }
  }
}
