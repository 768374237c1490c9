/**
 The free list as it is stored: chained pages of at most 508 ids each. Writing it picks
 the number of pages, reusing old list pages where it can; reading it back checks every
 link, count and id.
 */
module FreeLists {
  import opened Entries
  import opened PageManagers
  import opened PageLoading

  const CAPACITY: nat := 508

  datatype RootMetadata = RootMetadata(
    generation: nat,
    rootPageID: nat,
    pageCount: nat,
    freeListHeadPageID: nat,
    freeListTailPageID: nat,
    headSequence: nat,
    tailSequence: nat,
    maxSequence: nat)

  /** The lists a metadata record stands for. */
  datatype Lists = Lists(free: seq<nat>, retired: seq<nat>, pages: seq<nat>)

  predicate ValidListNode(n: ListNode) {
    1 <= |n.pageIDs| <= CAPACITY && forall i :: 0 <= i < |n.pageIDs| ==> n.pageIDs[i] != 0
  }

  /** The page holds a list node that its reader accepts. */
  predicate IsListPage(disk: Pages, id: nat) {
    id in disk && disk[id].ListPage? && ValidListNode(disk[id].list)
  }

  // ----- Choosing the number of pages

  function Min(a: nat, b: nat): nat {
    if a < b then a else b
  }

  /** How many pages hold `n` ids. */
  function PagesOf(n: nat): nat {
    (n + CAPACITY - 1) / CAPACITY
  }

  /** A number of pages that suffices, with none empty, once `c` old list pages are taken for them. */
  predicate Settles(total: nat, recyclable: nat, c: nat)
    requires recyclable <= total
  {
    1 <= c <= PagesOf(total) && PagesOf(total - Min(c, recyclable)) == c
  }

  /** Pages and reused pages: such a number, or without one all pages new. */
  ghost predicate NodePlan(total: nat, recyclable: nat, nodes: nat, reused: nat)
    requires recyclable <= total
  {
    if exists c: nat :: Settles(total, recyclable, c)
    then Settles(total, recyclable, nodes) && reused == Min(nodes, recyclable)
    else nodes == PagesOf(total) && reused == 0
  }

  lemma {:induction false} PagesGrow(n: nat, m: nat)
    requires n <= m
    ensures PagesOf(n) <= PagesOf(m)
  {
  }

  /** There is one plan. */
  lemma {:induction false} NodePlanOnce(total: nat, recyclable: nat, nodes: nat, reused: nat, nodes': nat, reused': nat)
    requires recyclable <= total
    requires NodePlan(total, recyclable, nodes, reused) && NodePlan(total, recyclable, nodes', reused')
    ensures nodes == nodes' && reused == reused'
  {
    hide PagesOf;
    if exists c: nat :: Settles(total, recyclable, c) {
      var lo, hi := Min(nodes, nodes'), if nodes < nodes' then nodes' else nodes;
      PagesGrow(total - Min(hi, recyclable), total - Min(lo, recyclable));
    }
  }

  /** How many new pages the list takes. */
  ghost function ListNeeds(total: nat, recyclable: nat): nat
    requires recyclable <= total
  {
    if exists c: nat :: Settles(total, recyclable, c)
    then var c: nat :| Settles(total, recyclable, c); c - Min(c, recyclable)
    else PagesOf(total)
  }

  lemma {:induction false} ListNeedsIs(total: nat, recyclable: nat, nodes: nat, reused: nat)
    requires recyclable <= total && NodePlan(total, recyclable, nodes, reused)
    ensures nodes == reused + ListNeeds(total, recyclable) && ListNeeds(total, recyclable) <= PagesOf(total)
  {
    hide PagesOf;
    if exists c: nat :: Settles(total, recyclable, c) {
      var c: nat :| Settles(total, recyclable, c) && ListNeeds(total, recyclable) == c - Min(c, recyclable);
      NodePlanOnce(total, recyclable, nodes, reused, c, Min(c, recyclable));
    }
  }

  /**
   How many pages the list takes, and how many of them reuse old list pages. Reused pages
   leave the list themselves; the pages chosen hold the remaining ids with none empty.
   */
  method SearchNodeCount(total: nat, recyclable: nat) returns (nodes: nat, reused: nat)
    requires recyclable <= total
    ensures total == 0 ==> nodes == 0 && reused == 0
    ensures total > 0 ==> nodes >= 1 && (nodes - 1) * CAPACITY < total - reused <= nodes * CAPACITY
    ensures reused <= recyclable && reused <= nodes
    ensures NodePlan(total, recyclable, nodes, reused)
  {
    nodes, reused := 0, 0;
    if total > 0 {
      var maxNodes := (total + CAPACITY - 1) / CAPACITY;
      var candidate := 1;
      while candidate <= maxNodes
        invariant 1 <= candidate
        invariant forall c :: 1 <= c < candidate ==> !Settles(total, recyclable, c)
      {
        var reuse := if candidate > recyclable then recyclable else candidate;
        var needed := (total - reuse + CAPACITY - 1) / CAPACITY;
        if needed == candidate {
          assert Settles(total, recyclable, candidate);
          return candidate, reuse;
        }
        candidate := candidate + 1;
      }
      nodes := maxNodes;
    }
  }

  // ----- The chain of pages

  function Chunk(entries: seq<nat>, i: nat): seq<nat> {
    entries[Min(i * CAPACITY, |entries|)..Min((i + 1) * CAPACITY, |entries|)]
  }

  /** The content of the `i`-th page of the list. */
  function ChainNode(nodes: seq<nat>, entries: seq<nat>, i: nat): ListNode
    requires i < |nodes|
  {
    ListNode(if i + 1 < |nodes| then nodes[i + 1] else 0, i * CAPACITY, Chunk(entries, i))
  }

  function SnapshotMetadata(generation: nat, root: nat, pageCount: nat, l: Lists): RootMetadata {
    RootMetadata(generation, root, pageCount,
                 if l.pages == [] then 0 else l.pages[0],
                 if l.pages == [] then 0 else l.pages[|l.pages| - 1],
                 0, |l.free| + |l.retired|, |l.free|)
  }

  /** The list pages of a snapshot are in the file. */
  ghost predicate ChainWritten(disk: Pages, l: Lists) {
    forall i :: 0 <= i < |l.pages| ==>
      l.pages[i] in disk && disk[l.pages[i]] == ListPage(ChainNode(l.pages, l.free + l.retired, i))
  }

  /** As many pages as the entries need, none of them empty. */
  ghost predicate Fitting(l: Lists) {
    var n := |l.free| + |l.retired|;
    if n == 0 then l.pages == [] else |l.pages| >= 1 && (|l.pages| - 1) * CAPACITY < n <= |l.pages| * CAPACITY
  }

  // ----- What a stored list stands for

  function NodeAt(disk: Pages, id: nat): ListNode {
    if id in disk && disk[id].ListPage? then disk[id].list else ListNode(0, 0, [])
  }

  ghost function EntriesOf(disk: Pages, pages: seq<nat>): seq<nat> {
    if pages == [] then []
    else EntriesOf(disk, pages[..|pages| - 1]) + NodeAt(disk, pages[|pages| - 1]).pageIDs
  }

  /** Page `id` may be part of the list, or on it. */
  predicate Listable(m: RootMetadata, id: nat) {
    1 <= id <= m.pageCount && id != m.rootPageID
  }

  ghost predicate SequenceAt(disk: Pages, m: RootMetadata, pages: seq<nat>, i: nat)
    requires i < |pages|
  {
    NodeAt(disk, pages[i]).sequence == m.headSequence + |EntriesOf(disk, pages[..i])|
  }

  /** The chain of list pages from the head, each with the sequence number it should have. */
  ghost predicate Chained(disk: Pages, m: RootMetadata, pages: seq<nat>) {
    && (forall i :: 0 <= i < |pages| ==> IsListPage(disk, pages[i]) && Listable(m, pages[i]))
    && (pages != [] ==> pages[0] == m.freeListHeadPageID)
    && (forall i :: 0 <= i < |pages| - 1 ==> NodeAt(disk, pages[i]).nextPageID == pages[i + 1])
    && (forall i :: 0 <= i < |pages| ==> SequenceAt(disk, m, pages, i))
    && (forall x :: x in EntriesOf(disk, pages) ==> Listable(m, x))
    && Distinct(pages + EntriesOf(disk, pages))
  }

  /** The lists that the metadata and the list pages stand for. */
  ghost predicate ListStands(disk: Pages, m: RootMetadata, l: Lists) {
    if m.freeListHeadPageID == 0 then
      && m.freeListTailPageID == 0 && m.headSequence == 0 && m.tailSequence == 0 && m.maxSequence == 0
      && l == Lists([], [], [])
    else
      && m.headSequence <= m.maxSequence <= m.tailSequence
      && l.pages != [] && Chained(disk, m, l.pages)
      && NodeAt(disk, l.pages[|l.pages| - 1]).nextPageID == 0
      && l.pages[|l.pages| - 1] == m.freeListTailPageID
      && EntriesOf(disk, l.pages) == l.free + l.retired
      && |l.free| == m.maxSequence - m.headSequence
      && m.tailSequence == m.headSequence + |l.free + l.retired|
  }

  /** The pages of a snapshot carry its entries in order, cut into runs of 508. */
  lemma {:induction false} ChainEntries(disk: Pages, l: Lists, i: nat)
    requires ChainWritten(disk, l) && i <= |l.pages|
    ensures EntriesOf(disk, l.pages[..i]) == (l.free + l.retired)[..Min(i * CAPACITY, |l.free + l.retired|)]
  {
    var entries := l.free + l.retired;
    if i > 0 {
      ChainEntries(disk, l, i - 1);
      assert l.pages[..i][..i - 1] == l.pages[..i - 1];
      assert l.pages[..i][i - 1] == l.pages[i - 1];
      var a, b := Min((i - 1) * CAPACITY, |entries|), Min(i * CAPACITY, |entries|);
      assert entries[..b] == entries[..a] + entries[a..b];
    }
  }

  lemma {:induction false} ChunkBounds(l: Lists, i: nat)
    requires Fitting(l) && i < |l.pages|
    ensures i * CAPACITY < |l.free + l.retired|
    ensures 1 <= |Chunk(l.free + l.retired, i)| <= CAPACITY
    ensures (i + 1) * CAPACITY < |l.free + l.retired| ==> i + 1 < |l.pages|
  {
    var n := |l.pages|;
    assert i * CAPACITY <= (n - 1) * CAPACITY;
    if i + 1 >= n {
      assert (i + 1) * CAPACITY == n * CAPACITY;
    } else {
      assert (i + 1) * CAPACITY <= (n - 1) * CAPACITY;
    }
  }

  /** One page of a written list is a list page with the right link and number. */
  lemma {:induction false} ChainPage(disk: Pages, l: Lists, m: RootMetadata, i: nat)
    requires ChainWritten(disk, l) && Fitting(l) && i < |l.pages| && m.headSequence == 0
    requires forall x :: x in l.pages + (l.free + l.retired) ==> x != 0
    ensures IsListPage(disk, l.pages[i]) && SequenceAt(disk, m, l.pages, i)
    ensures NodeAt(disk, l.pages[i]).nextPageID == (if i + 1 < |l.pages| then l.pages[i + 1] else 0)
  {
    hide EntriesOf;
    var entries := l.free + l.retired;
    ChunkBounds(l, i);
    ChainEntries(disk, l, i);
    forall j | 0 <= j < |Chunk(entries, i)| ensures Chunk(entries, i)[j] != 0 {
      assert Chunk(entries, i)[j] in l.pages + entries;
    }
  }

  /** Reading back a written free list gives the same lists in the same order. */
  lemma {:induction false} SnapshotRoundTrip(disk: Pages, l: Lists, generation: nat, root: nat, pageCount: nat)
    requires ChainWritten(disk, l) && Fitting(l) && Distinct(l.pages + (l.free + l.retired))
    requires forall x :: x in l.pages + (l.free + l.retired) ==> 1 <= x <= pageCount && x != root
    ensures ListStands(disk, SnapshotMetadata(generation, root, pageCount, l), l)
    ensures forall i :: 0 <= i < |l.pages| ==> IsListPage(disk, l.pages[i])
  {
    var m, entries := SnapshotMetadata(generation, root, pageCount, l), l.free + l.retired;
    if l.pages == [] {
      assert l.free == [] && l.retired == [];
    } else {
      hide Distinct, Chunk, ChainNode, EntriesOf, ChainWritten;
      forall i | 0 <= i < |l.pages|
        ensures IsListPage(disk, l.pages[i]) && Listable(m, l.pages[i]) && SequenceAt(disk, m, l.pages, i)
        ensures NodeAt(disk, l.pages[i]).nextPageID == (if i + 1 < |l.pages| then l.pages[i + 1] else 0)
      {
        ChainPage(disk, l, m, i);
        assert l.pages[i] in l.pages + entries;
      }
      ChainEntries(disk, l, |l.pages|);
      assert l.pages[..|l.pages|] == l.pages;
      assert entries[..|entries|] == entries;
      forall x | x in entries ensures Listable(m, x) {
        assert x in l.pages + entries;
      }
    }
  }

  // ----- Reading a stored list

  lemma {:induction false} EntriesStep(disk: Pages, pages: seq<nat>, id: nat)
    ensures EntriesOf(disk, pages + [id]) == EntriesOf(disk, pages) + NodeAt(disk, id).pageIDs
  {
    assert (pages + [id])[..|pages|] == pages;
  }

  /** A stored list stands for one set of lists only. */
  lemma {:induction false} ListStandsOnce(disk: Pages, m: RootMetadata, l: Lists, l': Lists)
    requires ListStands(disk, m, l) && ListStands(disk, m, l')
    ensures l == l'
  {
    if m.freeListHeadPageID != 0 {
      if |l.pages| <= |l'.pages| {
        ChainEnds(disk, m, l.pages, l'.pages);
      } else {
        ChainEnds(disk, m, l'.pages, l.pages);
      }
      assert l.free == (l.free + l.retired)[..|l.free|] && l'.free == (l'.free + l'.retired)[..|l.free|];
      assert l.retired == (l.free + l.retired)[|l.free|..] && l'.retired == (l'.free + l'.retired)[|l.free|..];
    }
  }

  lemma {:induction false} ChainEnds(disk: Pages, m: RootMetadata, p: seq<nat>, q: seq<nat>)
    requires Chained(disk, m, p) && Chained(disk, m, q) && p != [] && |p| <= |q|
    requires NodeAt(disk, p[|p| - 1]).nextPageID == 0
    ensures p == q
  {
    SameChain(disk, m, p, q, |p|);
    assert p[..|p|][|p| - 1] == q[..|p|][|p| - 1];
    if |p| < |q| {
      GoesOn(disk, m, q, |p|);
      assert false;
    }
  }

  lemma {:induction false} GoesOn(disk: Pages, m: RootMetadata, q: seq<nat>, n: nat)
    requires Chained(disk, m, q) && 0 < n < |q|
    ensures NodeAt(disk, q[n - 1]).nextPageID != 0
  {
    assert NodeAt(disk, q[n - 1]).nextPageID == q[n];
    assert Listable(m, q[n]);
  }

  lemma {:induction false} SameChain(disk: Pages, m: RootMetadata, p: seq<nat>, q: seq<nat>, n: nat)
    requires Chained(disk, m, p) && Chained(disk, m, q) && n <= |p| && n <= |q|
    ensures p[..n] == q[..n]
  {
    if n > 0 {
      SameChain(disk, m, p, q, n - 1);
      if n > 1 {
        assert p[..n - 1][n - 2] == q[..n - 1][n - 2];
        assert NodeAt(disk, p[n - 2]).nextPageID == p[n - 1] && NodeAt(disk, q[n - 2]).nextPageID == q[n - 1];
      }
      assert p[..n] == p[..n - 1] + [p[n - 1]] && q[..n] == q[..n - 1] + [q[n - 1]];
    }
  }

  /** The part of the chain that has been read, before the last check. */
  ghost predicate ReadSoFar(disk: Pages, m: RootMetadata, pages: seq<nat>, entries: seq<nat>) {
    && (forall i :: 0 <= i < |pages| ==> IsListPage(disk, pages[i]) && Listable(m, pages[i]))
    && (pages != [] ==> pages[0] == m.freeListHeadPageID)
    && (forall i :: 0 <= i < |pages| - 1 ==> NodeAt(disk, pages[i]).nextPageID == pages[i + 1])
    && (forall i :: 0 <= i < |pages| ==> SequenceAt(disk, m, pages, i))
    && entries == EntriesOf(disk, pages)
    && (forall x :: x in entries ==> Listable(m, x))
    && Distinct(pages) && Distinct(entries)
  }

  /** Where the reader is on the chain. */
  ghost function NextOf(disk: Pages, m: RootMetadata, pages: seq<nat>): nat {
    if pages == [] then m.freeListHeadPageID else NodeAt(disk, pages[|pages| - 1]).nextPageID
  }

  /** The ids of one page may all be added to those read before. */
  ghost predicate Addable(m: RootMetadata, ids: seq<nat>, pages: seq<nat>, entries: seq<nat>) {
    && (forall x :: x in ids ==> Listable(m, x) && x !in pages)
    && Distinct(entries + ids)
  }

  /** Splits a run of entries where the reusable ones end. */
  ghost predicate SplitsAt(entries: seq<nat>, free: seq<nat>, retired: seq<nat>, limit: nat) {
    entries == free + retired && |free| == Min(|entries|, limit)
  }

  lemma {:induction false} DistinctStep(s: seq<nat>, x: nat)
    requires Distinct(s)
    ensures Distinct(s + [x]) <==> x !in s
  {
    assert multiset(s + [x]) == multiset(s) + multiset{x};
    assert x in s <==> multiset(s)[x] > 0;
    if x in s {
      var bag: multiset<nat> := multiset(s + [x]);
      assert bag[x] > 1;
    } else {
      forall y ensures multiset(s + [x])[y] <= 1 {
        assert multiset(s)[y] <= 1;
      }
    }
  }

  lemma {:induction false} DistinctPrefix(s: seq<nat>, t: seq<nat>)
    requires Distinct(s + t)
    ensures Distinct(s) && Distinct(t)
    ensures forall x :: x in s ==> x !in t
  {
    assert multiset(s + t) == multiset(s) + multiset(t);
    forall x ensures multiset(s)[x] + multiset(t)[x] <= 1 {
      assert multiset(s + t)[x] <= 1;
    }
    forall x | x in s ensures x !in t {
      assert multiset(s)[x] > 0;
    }
  }

  /** Adds the ids of one list page to the lists, checking each. */
  method TakeIds(m: RootMetadata, ids: seq<nat>, pages: seq<nat>, free: seq<nat>, retired: seq<nat>)
    returns (ok: bool, free': seq<nat>, retired': seq<nat>)
    requires m.headSequence <= m.maxSequence
    requires SplitsAt(free + retired, free, retired, m.maxSequence - m.headSequence) && Distinct(free + retired)
    requires forall i :: 0 <= i < |ids| ==> ids[i] != 0
    ensures ok <==> Addable(m, ids, pages, free + retired)
    ensures ok ==> SplitsAt(free + retired + ids, free', retired', m.maxSequence - m.headSequence)
  {
    hide Distinct;
    free', retired' := free, retired;
    ghost var entries := free + retired;
    var i := 0;
    assert entries + ids[..0] == entries;
    while i < |ids|
      invariant 0 <= i <= |ids|
      invariant SplitsAt(entries + ids[..i], free', retired', m.maxSequence - m.headSequence)
      invariant Distinct(entries + ids[..i])
      invariant forall x :: x in ids[..i] ==> Listable(m, x) && x !in pages
    {
      var id := ids[i];
      TakeStep(ids, i);
      DistinctStep(entries + ids[..i], id);
      assert entries + ids[..i + 1] == entries + ids[..i] + [id];
      NotAddable(m, ids, i, pages, entries);
      if id > m.pageCount || id == m.rootPageID || id in pages || id in free' + retired' {
        return false, free', retired';
      }
      if m.headSequence + |free'| + |retired'| < m.maxSequence {
        assert retired' == [];
        free' := free' + [id];
      } else {
        retired' := retired' + [id];
      }
      i := i + 1;
    }
    TakeAll(ids);
    ok := true;
  }

  lemma {:induction false} NotAddable(m: RootMetadata, ids: seq<nat>, i: nat, pages: seq<nat>, entries: seq<nat>)
    requires i < |ids|
    ensures Addable(m, ids, pages, entries) ==>
              Listable(m, ids[i]) && ids[i] !in pages && Distinct(entries + ids[..i + 1])
  {
    if Addable(m, ids, pages, entries) {
      assert entries + ids == entries + ids[..i + 1] + ids[i + 1..];
      DistinctPrefix(entries + ids[..i + 1], ids[i + 1..]);
      assert ids[i] in ids;
    }
  }

  /** One more page of the chain has been read. */
  lemma {:induction false} ReadStep(disk: Pages, m: RootMetadata, pages: seq<nat>, entries: seq<nat>, id: nat)
    requires ReadSoFar(disk, m, pages, entries) && id == NextOf(disk, m, pages)
    requires Follows(disk, m, pages, entries, id)
    ensures ReadSoFar(disk, m, pages + [id], entries + NodeAt(disk, id).pageIDs)
    ensures 1 <= id <= m.pageCount && id !in pages
    ensures NodeAt(disk, id).nextPageID == 0 ==> id == m.freeListTailPageID
  {
    hide Distinct;
    EntriesStep(disk, pages, id);
    DistinctStep(pages, id);
    var pages' := pages + [id];
    forall i | 0 <= i < |pages'| ensures SequenceAt(disk, m, pages', i) {
      if i < |pages| {
        assert pages'[..i] == pages[..i];
        assert SequenceAt(disk, m, pages, i);
      } else {
        assert pages'[..i] == pages;
      }
    }
  }

  /** Page `id` can follow the pages read so far. */
  ghost predicate Follows(disk: Pages, m: RootMetadata, pages: seq<nat>, entries: seq<nat>, id: nat) {
    && Listable(m, id) && id !in pages && IsListPage(disk, id)
    && NodeAt(disk, id).sequence == m.headSequence + |entries|
    && Addable(m, NodeAt(disk, id).pageIDs, pages + [id], entries)
    && (NodeAt(disk, id).nextPageID == 0 ==> id == m.freeListTailPageID)
  }

  /** Reads one page of the chain, with all its checks. */
  method ReadPage(disk: Pages, m: RootMetadata, pages: seq<nat>, free: seq<nat>, retired: seq<nat>, pageID: nat)
    returns (ok: bool, free': seq<nat>, retired': seq<nat>)
    requires m.headSequence <= m.maxSequence && pageID != 0
    requires SplitsAt(free + retired, free, retired, m.maxSequence - m.headSequence) && Distinct(free + retired)
    ensures ok <==> Follows(disk, m, pages, free + retired, pageID)
    ensures ok ==>
              SplitsAt(free + retired + NodeAt(disk, pageID).pageIDs, free', retired', m.maxSequence - m.headSequence)
  {
    hide Distinct, Addable;
    ok, free', retired' := false, free, retired;
    if pageID > m.pageCount || pageID == m.rootPageID || pageID in pages {
      return;
    }
    if !IsListPage(disk, pageID) || NodeAt(disk, pageID).sequence != m.headSequence + |free| + |retired| {
      return;
    }
    var node := NodeAt(disk, pageID);
    ok, free', retired' := TakeIds(m, node.pageIDs, pages + [pageID], free, retired);
    if node.nextPageID == 0 && pageID != m.freeListTailPageID {
      ok := false;
    }
  }

  /** What the next page of a list that stands must look like. */
  lemma {:induction false} WantedNext(disk: Pages, m: RootMetadata, l: Lists, n: nat)
    requires ListStands(disk, m, l) && m.freeListHeadPageID != 0 && n < |l.pages|
    ensures var id, entries := l.pages[n], EntriesOf(disk, l.pages[..n]);
            && Follows(disk, m, l.pages[..n], entries, id)
            && NodeAt(disk, id).nextPageID == (if n + 1 < |l.pages| then l.pages[n + 1] else 0)
  {
    hide Distinct;
    var id, entries := l.pages[n], EntriesOf(disk, l.pages[..n]);
    PagesNonzero(disk, m, l);
    assert SequenceAt(disk, m, l.pages, n);
    TakeStep(l.pages, n);
    EntriesStep(disk, l.pages[..n], id);
    EntriesPrefix(disk, l.pages, n + 1);
    var all := EntriesOf(disk, l.pages);
    DistinctPrefix(l.pages, all);
    assert l.pages == l.pages[..n + 1] + l.pages[n + 1..];
    DistinctPrefix(l.pages[..n + 1], l.pages[n + 1..]);
    DistinctPrefix(l.pages[..n], [id]);
    assert id in [id];
    var k := |EntriesOf(disk, l.pages[..n + 1])|;
    assert all == all[..k] + all[k..];
    assert all[..k] == EntriesOf(disk, l.pages[..n + 1]);
    DistinctPrefix(all[..k], all[k..]);
    forall x | x in NodeAt(disk, id).pageIDs ensures Listable(m, x) && x !in l.pages[..n] + [id] {
      assert x in all[..k];
      assert x in all;
      assert x !in l.pages;
    }
    assert Addable(m, NodeAt(disk, id).pageIDs, l.pages[..n] + [id], entries);
    assert Listable(m, id) && id !in l.pages[..n];
    if n + 1 < |l.pages| {
      assert NodeAt(disk, l.pages[n]).nextPageID == l.pages[n + 1] != 0;
    }
  }

  lemma {:induction false} EntriesPrefix(disk: Pages, pages: seq<nat>, n: nat)
    requires n <= |pages|
    ensures EntriesOf(disk, pages[..n]) <= EntriesOf(disk, pages)
    decreases |pages|
  {
    if n < |pages| {
      EntriesPrefix(disk, pages[..|pages| - 1], n);
      assert pages[..|pages| - 1][..n] == pages[..n];
    } else {
      assert pages[..n] == pages;
    }
  }

  /** Everything read and every page disjoint from the entries: the list stands. */
  lemma {:induction false} ReadAll(disk: Pages, m: RootMetadata, pages: seq<nat>, free: seq<nat>, retired: seq<nat>)
    requires m.freeListHeadPageID != 0 && m.headSequence <= m.maxSequence <= m.tailSequence
    requires ReadSoFar(disk, m, pages, free + retired) && pages != [] && NextOf(disk, m, pages) == 0
    requires pages[|pages| - 1] == m.freeListTailPageID
    requires SplitsAt(free + retired, free, retired, m.maxSequence - m.headSequence)
    requires m.headSequence + |free + retired| == m.tailSequence
    requires forall x :: x in pages ==> x !in free + retired
    ensures ListStands(disk, m, Lists(free, retired, pages))
  {
    DistinctBoth(pages, free + retired);
  }

  lemma {:induction false} DistinctBoth(s: seq<nat>, t: seq<nat>)
    requires Distinct(s) && Distinct(t) && forall x :: x in s ==> x !in t
    ensures Distinct(s + t)
  {
    assert multiset(s + t) == multiset(s) + multiset(t);
    forall x ensures multiset(s + t)[x] <= 1 {
      assert x in s <==> multiset(s)[x] > 0;
      assert x in t <==> multiset(t)[x] > 0;
    }
  }

  ghost function Unread(m: RootMetadata, pages: seq<nat>): set<nat> {
    set x | 1 <= x <= m.pageCount && x !in pages
  }

  lemma {:induction false} UnreadShrinks(m: RootMetadata, pages: seq<nat>, id: nat)
    requires 1 <= id <= m.pageCount && id !in pages
    ensures |Unread(m, pages + [id])| < |Unread(m, pages)|
  {
    assert Unread(m, pages) == Unread(m, pages + [id]) + {id};
  }

  /**
   Reads the stored free list of a metadata record, whatever the pages hold. It succeeds if
   and only if the record and the pages stand for some lists, and then returns those.
   */
  method LoadFreeList(disk: Pages, m: RootMetadata) returns (r: Option<Lists>)
    ensures r.Some? <==> exists l :: ListStands(disk, m, l)
    ensures r.Some? ==> ListStands(disk, m, r.value)
  {
    hide Distinct, ListStands, ReadSoFar, Follows, EntriesOf;
    if m.freeListHeadPageID == 0 {
      NoList(disk, m);
      if m.freeListTailPageID != 0 || m.headSequence != 0 || m.tailSequence != 0 || m.maxSequence != 0 {
        return None;
      }
      return Some(Lists([], [], []));
    }
    ghost var want: Option<Lists> := None;
    if exists l :: ListStands(disk, m, l) {
      ghost var l :| ListStands(disk, m, l);
      want := Some(l);
      WantedRecord(disk, m, l);
    }
    if m.freeListTailPageID == 0 || m.headSequence > m.maxSequence || m.maxSequence > m.tailSequence {
      return None;
    }
    r := ReadChain(disk, m, want);
  }

  /** What has been read of the chain, and where it goes on; `want` is what it must turn out to be. */
  ghost predicate Reading(disk: Pages, m: RootMetadata, want: Option<Lists>, pages: seq<nat>, free: seq<nat>,
      retired: seq<nat>, pageID: nat)
    requires m.headSequence <= m.maxSequence
  {
    && ReadSoFar(disk, m, pages, free + retired) && pageID == NextOf(disk, m, pages)
    && SplitsAt(free + retired, free, retired, m.maxSequence - m.headSequence)
    && (pageID == 0 ==> pages != [] && pages[|pages| - 1] == m.freeListTailPageID)
    && (want.Some? ==> pages <= want.value.pages
                       && pageID == (if |pages| < |want.value.pages| then want.value.pages[|pages|] else 0))
  }

  /** Follows the chain from the head, page by page. */
  method ReadChain(disk: Pages, m: RootMetadata, ghost want: Option<Lists>) returns (r: Option<Lists>)
    requires m.freeListHeadPageID != 0 && m.headSequence <= m.maxSequence <= m.tailSequence
    requires want.Some? ==> ListStands(disk, m, want.value)
    ensures want.Some? ==> r.Some?
    ensures r.Some? ==> ListStands(disk, m, r.value)
  {
    hide Distinct, ListStands, Reading, Follows, EntriesOf, SplitsAt;
    var pages: seq<nat>, free: seq<nat>, retired: seq<nat> := [], [], [];
    var pageID := m.freeListHeadPageID;
    ReadingStart(disk, m, want);
    while pageID != 0
      invariant Reading(disk, m, want, pages, free, retired, pageID)
      decreases |Unread(m, pages)|
    {
      ReadingFacts(disk, m, want, pages, free, retired, pageID);
      var ok, free', retired' := ReadPage(disk, m, pages, free, retired, pageID);
      if !ok {
        return None;
      }
      ReadingStep(disk, m, want, pages, free, retired, pageID, free', retired');
      pages, free, retired := pages + [pageID], free', retired';
      pageID := NodeAt(disk, pageID).nextPageID;
    }
    ReadingEnd(disk, m, want, pages, free, retired);
    if m.headSequence + |free| + |retired| != m.tailSequence {
      return None;
    }
    if exists x :: x in pages && x in free + retired {
      return None;
    }
    return Some(Lists(free, retired, pages));
  }

  lemma {:induction false} ReadingStart(disk: Pages, m: RootMetadata, want: Option<Lists>)
    requires m.freeListHeadPageID != 0 && m.headSequence <= m.maxSequence
    requires want.Some? ==> ListStands(disk, m, want.value)
    ensures Reading(disk, m, want, [], [], [], m.freeListHeadPageID)
  {
    hide Distinct, ListStands, ReadSoFar;
    NothingRead(disk, m);
    var none: seq<nat> := [];
    assert none + none == [];
    if want.Some? {
      WantedRecord(disk, m, want.value);
    }
  }

  lemma {:induction false} ReadingFacts(
    disk: Pages, m: RootMetadata, want: Option<Lists>, pages: seq<nat>, free: seq<nat>, retired: seq<nat>, pageID: nat)
    requires m.freeListHeadPageID != 0 && m.headSequence <= m.maxSequence
    requires Reading(disk, m, want, pages, free, retired, pageID) && pageID != 0
    requires want.Some? ==> ListStands(disk, m, want.value)
    ensures SplitsAt(free + retired, free, retired, m.maxSequence - m.headSequence) && Distinct(free + retired)
    ensures want.Some? ==> Follows(disk, m, pages, free + retired, pageID)
  {
    hide Distinct, ListStands, ReadSoFar, Follows, SplitsAt;
    ReadEntries(disk, m, pages, free + retired);
    if want.Some? {
      WantedNext(disk, m, want.value, |pages|);
      assert pages == want.value.pages[..|pages|];
    }
  }

  lemma {:induction false} ReadingStep(
    disk: Pages, m: RootMetadata, want: Option<Lists>, pages: seq<nat>, free: seq<nat>, retired: seq<nat>, pageID: nat,
    free': seq<nat>, retired': seq<nat>)
    requires m.freeListHeadPageID != 0 && m.headSequence <= m.maxSequence
    requires Reading(disk, m, want, pages, free, retired, pageID) && pageID != 0
    requires want.Some? ==> ListStands(disk, m, want.value)
    requires Follows(disk, m, pages, free + retired, pageID)
    requires SplitsAt(free + retired + NodeAt(disk, pageID).pageIDs, free', retired', m.maxSequence - m.headSequence)
    ensures Reading(disk, m, want, pages + [pageID], free', retired', NodeAt(disk, pageID).nextPageID)
    ensures |Unread(m, pages + [pageID])| < |Unread(m, pages)|
  {
    hide Distinct, ListStands, ReadSoFar, Follows, Unread;
    ReadStep(disk, m, pages, free + retired, pageID);
    UnreadShrinks(m, pages, pageID);
    if want.Some? {
      WantedNext(disk, m, want.value, |pages|);
      assert pages == want.value.pages[..|pages|];
    }
  }

  lemma {:induction false} ReadingEnd(disk: Pages, m: RootMetadata, want: Option<Lists>, pages: seq<nat>,
      free: seq<nat>, retired: seq<nat>)
    requires m.freeListHeadPageID != 0 && m.headSequence <= m.maxSequence <= m.tailSequence
    requires Reading(disk, m, want, pages, free, retired, 0)
    requires want.Some? ==> ListStands(disk, m, want.value)
    ensures want.Some? ==>
              m.headSequence + |free| + |retired| == m.tailSequence && !exists x :: x in pages && x in free + retired
    ensures m.headSequence + |free| + |retired| == m.tailSequence
            && !(exists x :: x in pages && x in free + retired) ==>
              ListStands(disk, m, Lists(free, retired, pages))
  {
    hide Distinct, ListStands, ReadSoFar, Unread;
    if want.Some? {
      WantedWhole(disk, m, want.value, pages, free, retired);
    }
    if m.headSequence + |free| + |retired| == m.tailSequence && !exists x :: x in pages && x in free + retired {
      ReadAll(disk, m, pages, free, retired);
    }
  }

  lemma {:induction false} NoList(disk: Pages, m: RootMetadata)
    requires m.freeListHeadPageID == 0
    ensures ListStands(disk, m, Lists([], [], [])) <==>
            m.freeListTailPageID == 0 && m.headSequence == 0 && m.tailSequence == 0 && m.maxSequence == 0
    ensures (exists l :: ListStands(disk, m, l)) ==> ListStands(disk, m, Lists([], [], []))
  {
  }

  lemma {:induction false} WantedRecord(disk: Pages, m: RootMetadata, l: Lists)
    requires ListStands(disk, m, l) && m.freeListHeadPageID != 0
    ensures m.freeListTailPageID != 0 && m.headSequence <= m.maxSequence <= m.tailSequence
    ensures l.pages != [] && l.pages[0] == m.freeListHeadPageID
  {
    assert Listable(m, l.pages[|l.pages| - 1]);
  }

  lemma {:induction false} NothingRead(disk: Pages, m: RootMetadata)
    ensures ReadSoFar(disk, m, [], []) && Distinct([])
  {
  }

  lemma {:induction false} ReadEntries(disk: Pages, m: RootMetadata, pages: seq<nat>, entries: seq<nat>)
    requires ReadSoFar(disk, m, pages, entries)
    ensures entries == EntriesOf(disk, pages) && Distinct(entries)
  {
  }

  lemma {:induction false} PagesNonzero(disk: Pages, m: RootMetadata, l: Lists)
    requires ListStands(disk, m, l)
    ensures forall i :: 0 <= i < |l.pages| ==> l.pages[i] != 0
  {
    forall i | 0 <= i < |l.pages| ensures l.pages[i] != 0 {
      assert Listable(m, l.pages[i]);
    }
  }

  lemma {:induction false} WantedWhole(disk: Pages, m: RootMetadata, l: Lists, pages: seq<nat>, free: seq<nat>,
      retired: seq<nat>)
    requires ListStands(disk, m, l) && m.freeListHeadPageID != 0
    requires ReadSoFar(disk, m, pages, free + retired) && pages <= l.pages
    requires |pages| < |l.pages| ==> l.pages[|pages|] == 0
    ensures m.headSequence + |free| + |retired| == m.tailSequence
    ensures forall x :: x in pages ==> x !in free + retired
  {
    PagesNonzero(disk, m, l);
    assert pages == l.pages;
    DistinctPrefix(l.pages, EntriesOf(disk, l.pages));
  }

  // ----- Writing a snapshot of the lists

  /** The ids by which the file grows from `a` to `b`. */
  function FreshIds(a: nat, b: nat): seq<nat> {
    if a < b then FreshIds(a, b - 1) + [b - 1] else []
  }

  lemma {:induction false} FreshIdsAre(a: nat, b: nat)
    ensures forall x :: x in FreshIds(a, b) <==> a <= x < b
    ensures Distinct(FreshIds(a, b))
    decreases b
  {
    if a < b {
      FreshIdsAre(a, b - 1);
      DistinctStep(FreshIds(a, b - 1), b - 1);
    }
  }

  function RemoveId(s: seq<nat>, x: nat): seq<nat> {
    if s == [] then []
    else if s[0] == x then s[1..]
    else [s[0]] + RemoveId(s[1..], x)
  }

  lemma {:induction false} RemoveIdBag(s: seq<nat>, x: nat)
    requires x in s
    ensures multiset(RemoveId(s, x)) + multiset{x} == multiset(s) && |RemoveId(s, x)| == |s| - 1
  {
    assert s == [s[0]] + s[1..];
    if s[0] != x {
      RemoveIdBag(s[1..], x);
    }
  }

  /**
   A snapshot for the next generation: pages retired before become reusable, pages released
   since and the old list pages become retired, and the new list is stored in old list
   pages taken from the reusable ones and in pages that extend the file.
   */
  ghost predicate Snapshotted(s: PageManagerState, s': PageManagerState, disk: Pages, l: Lists) {
    && s' == s.(nextPageID := s'.nextPageID, freePageIDs := l.free, retiredPageIDs := l.retired,
                freeListPageIDs := l.pages)
    && s.nextPageID <= s'.nextPageID
    && l.retired == s.pendingFreePageIDs + s.freeListPageIDs
    && multiset(l.free) + multiset(l.pages) ==
       multiset(s.freePageIDs + s.retiredPageIDs) + multiset(FreshIds(s.nextPageID, s'.nextPageID))
    && (forall x :: x in l.pages && x < s.nextPageID ==> x in s.freePageIDs + s.retiredPageIDs && IsListPage(disk, x))
    && (forall x :: x in l.free ==> x in s.freePageIDs + s.retiredPageIDs)
    && Fitting(l)
  }

  /** The ids whose pages hold a readable list node, in order. */
  function ListPagesIn(disk: Pages, ids: seq<nat>): seq<nat> {
    if ids == [] then []
    else
      var init, last := ListPagesIn(disk, ids[..|ids| - 1]), ids[|ids| - 1];
      if IsListPage(disk, last) then init + [last] else init
  }

  /** Every list page among the ids, as often as it is there, and nothing else. */
  lemma {:induction false} ListPagesAre(disk: Pages, ids: seq<nat>)
    ensures forall x :: multiset(ListPagesIn(disk, ids))[x] == if IsListPage(disk, x) then multiset(ids)[x] else 0
    ensures multiset(ListPagesIn(disk, ids)) <= multiset(ids) && |ListPagesIn(disk, ids)| <= |ids|
    ensures forall x :: x in ListPagesIn(disk, ids) <==> x in ids && IsListPage(disk, x)
  {
    hide IsListPage;
    var r := ListPagesIn(disk, ids);
    if ids != [] {
      var init, last := ids[..|ids| - 1], ids[|ids| - 1];
      ListPagesAre(disk, init);
      assert ids == init + [last];
      assert multiset(ids) == multiset(init) + multiset{last};
      assert multiset(ListPagesIn(disk, init) + [last]) == multiset(ListPagesIn(disk, init)) + multiset{last};
    }
    forall x ensures x in r <==> x in ids && IsListPage(disk, x) {
      assert x in r <==> multiset(r)[x] > 0;
      assert x in ids <==> multiset(ids)[x] > 0;
    }
  }

  /** Reads every eligible page to find those that hold a list node. */
  method Recyclable(disk: Pages, eligible: seq<nat>) returns (r: seq<nat>)
    ensures r == ListPagesIn(disk, eligible)
  {
    r := [];
    var i := 0;
    while i < |eligible|
      invariant 0 <= i <= |eligible|
      invariant r == ListPagesIn(disk, eligible[..i])
    {
      assert eligible[..i + 1][..i] == eligible[..i];
      if IsListPage(disk, eligible[i]) {
        r := r + [eligible[i]];
      }
      i := i + 1;
    }
    TakeAll(eligible);
  }

  /** Pages for the list: reused ones leave the eligible list, the others extend the file. */
  ghost predicate Assigned(
    disk: Pages, eligible: seq<nat>, next: nat, eligible': seq<nat>, next': nat, nodes: seq<nat>, recyclable: seq<nat>)
  {
    && next <= next'
    && multiset(eligible') + multiset(nodes) == multiset(eligible) + multiset(FreshIds(next, next'))
    && (forall x :: x in nodes ==> (x in eligible && IsListPage(disk, x)) || next <= x < next')
    && multiset(recyclable) <= multiset(eligible')
    && (forall x :: x in recyclable ==> IsListPage(disk, x))
    && (forall x :: x in eligible' ==> x in eligible)
    && |eligible'| + |nodes| == |eligible| + (next' - next)
  }

  lemma {:induction false} BagMove(e: multiset<nat>, e': multiset<nat>, n: multiset<nat>, q: multiset<nat>, x: nat)
    requires e' + multiset{x} == e && e + n == q
    ensures e' + (n + multiset{x}) == q
  {
    assert e' + (n + multiset{x}) == (e' + multiset{x}) + n;
  }

  lemma {:induction false} BagBoth(e: multiset<nat>, n: multiset<nat>, q: multiset<nat>, f: multiset<nat>, x: nat)
    requires e + n == q + f
    ensures e + (n + multiset{x}) == q + (f + multiset{x})
  {
    assert e + (n + multiset{x}) == (e + n) + multiset{x};
    assert q + (f + multiset{x}) == (q + f) + multiset{x};
  }

  lemma {:induction false} AssignReused(
    disk: Pages, eligible: seq<nat>, next: nat, e: seq<nat>, next': nat, nodes: seq<nat>, recyclable: seq<nat>)
    requires Assigned(disk, eligible, next, e, next', nodes, recyclable) && recyclable != []
    ensures var x := recyclable[|recyclable| - 1];
            Assigned(disk, eligible, next, RemoveId(e, x), next', nodes + [x], recyclable[..|recyclable| - 1])
  {
    hide FreshIds, RemoveId;
    var x, rest := recyclable[|recyclable| - 1], recyclable[..|recyclable| - 1];
    assert recyclable == rest + [x];
    assert multiset(recyclable) == multiset(rest) + multiset{x};
    assert multiset(recyclable)[x] > 0;
    assert multiset(e)[x] > 0;
    RemoveIdBag(e, x);
    assert multiset(nodes + [x]) == multiset(nodes) + multiset{x};
    BagMove(multiset(e), multiset(RemoveId(e, x)), multiset(nodes),
            multiset(eligible) + multiset(FreshIds(next, next')), x);
    assert x in multiset(e) && x in eligible;
    assert multiset(rest) <= multiset(RemoveId(e, x)) by {
      forall y ensures multiset(rest)[y] <= multiset(RemoveId(e, x))[y] {
        assert (multiset(rest) + multiset{x})[y] <= (multiset(RemoveId(e, x)) + multiset{x})[y];
      }
    }
    forall y | y in RemoveId(e, x) ensures y in eligible {
      assert y in multiset(RemoveId(e, x));
      assert y in multiset(e);
    }
  }

  lemma {:induction false} AssignFresh(
    disk: Pages, eligible: seq<nat>, next: nat, e: seq<nat>, next': nat, nodes: seq<nat>, recyclable: seq<nat>)
    requires Assigned(disk, eligible, next, e, next', nodes, recyclable)
    ensures Assigned(disk, eligible, next, e, next' + 1, nodes + [next'], recyclable)
  {
    assert FreshIds(next, next' + 1) == FreshIds(next, next') + [next'];
    assert multiset(nodes + [next']) == multiset(nodes) + multiset{next'};
    assert multiset(FreshIds(next, next' + 1)) == multiset(FreshIds(next, next')) + multiset{next'};
    BagBoth(multiset(e), multiset(nodes), multiset(eligible), multiset(FreshIds(next, next')), next');
  }

  /** Assigns pages to the new list; fails when the file cannot grow any further. */
  method AssignNodes(disk: Pages, eligible: seq<nat>, recyclable: seq<nat>, nodes: nat, reused: nat, next: nat)
    returns (ok: bool, eligible': seq<nat>, next': nat, nodeIDs: seq<nat>)
    requires reused <= |recyclable| && reused <= nodes
    requires multiset(recyclable) <= multiset(eligible) && forall x :: x in recyclable ==> IsListPage(disk, x)
    ensures ok ==> exists left :: Assigned(disk, eligible, next, eligible', next', nodeIDs, left)
    ensures ok ==> |nodeIDs| == nodes && |eligible'| == |eligible| - reused && next' == next + nodes - reused
    ensures ok <==> nodes - reused <= FreshFrom(next)
    ensures next <= next'
  {
    hide Assigned;
    eligible', next', nodeIDs := eligible, next, [];
    var left := recyclable;
    NothingAssigned(disk, eligible, next, recyclable);
    var i := 0;
    while i < nodes
      invariant 0 <= i <= nodes && |nodeIDs| == i
      invariant Assigned(disk, eligible, next, eligible', next', nodeIDs, left)
      invariant i <= reused ==> |left| == |recyclable| - i
      invariant |eligible'| == |eligible| - Min(i, reused)
      invariant next' == next + i - Min(i, reused)
      invariant i - Min(i, reused) <= FreshFrom(next)
    {
      if i < reused {
        var x := left[|left| - 1];
        AssignReused(disk, eligible, next, eligible', next', nodeIDs, left);
        AssignedCount(disk, eligible, next, RemoveId(eligible', x), next', nodeIDs + [x], left[..|left| - 1]);
        AssignedCount(disk, eligible, next, eligible', next', nodeIDs, left);
        nodeIDs := nodeIDs + [x];
        eligible' := RemoveId(eligible', x);
        left := left[..|left| - 1];
      } else {
        if next' > MAX_PAGE_ID {
          return false, eligible', next', nodeIDs;
        }
        AssignFresh(disk, eligible, next, eligible', next', nodeIDs, left);
        nodeIDs := nodeIDs + [next'];
        next' := next' + 1;
      }
      i := i + 1;
    }
    ok := true;
  }

  lemma {:induction false} NothingAssigned(disk: Pages, eligible: seq<nat>, next: nat, recyclable: seq<nat>)
    requires multiset(recyclable) <= multiset(eligible) && forall x :: x in recyclable ==> IsListPage(disk, x)
    ensures Assigned(disk, eligible, next, eligible, next, [], recyclable)
  {
  }

  lemma {:induction false} AssignedCount(
    disk: Pages, eligible: seq<nat>, next: nat, e: seq<nat>, next': nat, nodes: seq<nat>, recyclable: seq<nat>)
    requires Assigned(disk, eligible, next, e, next', nodes, recyclable)
    ensures |e| + |nodes| == |eligible| + (next' - next)
  {
  }

  /** How many new pages a snapshot takes. */
  ghost function SnapshotNeeds(s: PageManagerState, disk: Pages): nat {
    var eligible, protected := s.freePageIDs + s.retiredPageIDs, s.pendingFreePageIDs + s.freeListPageIDs;
    ListPagesAre(disk, eligible);
    ListNeeds(|eligible| + |protected|, |ListPagesIn(disk, eligible)|)
  }

  lemma {:induction false} SnapshotNeedsIs(s: PageManagerState, disk: Pages, nodes: nat, reused: nat)
    requires var eligible, protected := s.freePageIDs + s.retiredPageIDs, s.pendingFreePageIDs + s.freeListPageIDs;
             var total, recyclable := |eligible| + |protected|, |ListPagesIn(disk, eligible)|;
             recyclable <= total && NodePlan(total, recyclable, nodes, reused)
    ensures nodes == reused + SnapshotNeeds(s, disk)
  {
    hide NodePlan, ListNeeds;
    var eligible, protected := s.freePageIDs + s.retiredPageIDs, s.pendingFreePageIDs + s.freeListPageIDs;
    ListNeedsIs(|eligible| + |protected|, |ListPagesIn(disk, eligible)|, nodes, reused);
  }

  /** No more than hold the ids of all pages there are. */
  lemma {:induction false} SnapshotNeedsBound(s: PageManagerState, disk: Pages, live: set<nat>)
    requires Owned(s, live)
    ensures SnapshotNeeds(s, disk) <= PagesOf(s.nextPageID)
  {
    hide PagesOf, NodePlan, ListNeeds, Owned;
    var eligible, protected := s.freePageIDs + s.retiredPageIDs, s.pendingFreePageIDs + s.freeListPageIDs;
    ListPagesAre(disk, eligible);
    var total, recyclable := |eligible| + |protected|, |ListPagesIn(disk, eligible)|;
    var nodes, reused := SomePlan(total, recyclable);
    ListNeedsIs(total, recyclable, nodes, reused);
    OwnedCount(s, live);
    PagesGrow(total, s.nextPageID);
  }

  lemma {:induction false} SomePlan(total: nat, recyclable: nat) returns (nodes: nat, reused: nat)
    requires recyclable <= total
    ensures NodePlan(total, recyclable, nodes, reused)
  {
    hide PagesOf;
    if exists c: nat :: Settles(total, recyclable, c) {
      nodes :| Settles(total, recyclable, nodes);
      reused := Min(nodes, recyclable);
    } else {
      nodes, reused := PagesOf(total), 0;
    }
  }

  /** There are fewer listed pages than ids. */
  lemma {:induction false} OwnedCount(s: PageManagerState, live: set<nat>)
    requires Owned(s, live)
    ensures |s.freePageIDs + s.retiredPageIDs| + |s.pendingFreePageIDs + s.freeListPageIDs| < s.nextPageID
  {
    var all := s.freePageIDs + s.retiredPageIDs + s.pendingFreePageIDs + s.freeListPageIDs;
    var bag: multiset<nat> := multiset(all);
    assert bag == multiset(s.freePageIDs) + multiset(s.retiredPageIDs)
                  + multiset(s.pendingFreePageIDs) + multiset(s.freeListPageIDs);
    forall x: nat ensures bag[x] <= if 1 <= x < s.nextPageID then 1 else 0 {
      assert OwnerBag(s, multiset(live))[x] == if 1 <= x < s.nextPageID then 1 else 0;
    }
    BagWithin(bag, s.nextPageID);
    assert |bag| == |all|;
  }

  lemma {:induction false} BagWithin(b: multiset<nat>, n: nat)
    requires n >= 1 && forall x: nat :: b[x] <= if 1 <= x < n then 1 else 0
    ensures |b| < n
    decreases n
  {
    if n == 1 {
      assert b == multiset{};
    } else {
      var rest := b[n - 1 := 0];
      BagWithin(rest, n - 1);
      assert b == rest + if b[n - 1] == 1 then multiset{n - 1} else multiset{};
    }
  }

  ghost function Moved(s: PageManagerState, next: nat, l: Lists): PageManagerState {
    s.(nextPageID := next, freePageIDs := l.free, retiredPageIDs := l.retired, freeListPageIDs := l.pages)
  }

  /** The lists for a new generation and where the file then ends. */
  method PlanSnapshot(free: seq<nat>, retired: seq<nat>, pending: seq<nat>, list: seq<nat>, nextPageID: nat,
      disk: Pages, ghost s: PageManagerState)
    returns (ok: bool, l: Lists, next: nat)
    requires free == s.freePageIDs && retired == s.retiredPageIDs && pending == s.pendingFreePageIDs
    requires list == s.freeListPageIDs && nextPageID == s.nextPageID
    ensures ok ==> Snapshotted(s, Moved(s, next, l), disk, l)
    ensures ok ==> next == nextPageID + SnapshotNeeds(s, disk)
    ensures ok <==> SnapshotNeeds(s, disk) <= Fresh(s)
    ensures nextPageID <= next
  {
    hide FreshIds, Snapshotted, RemoveId, Assigned, NodePlan, ListNeeds, PagesOf, SnapshotNeeds, Fitting;
    var eligible := free + retired;
    var protected := pending + list;
    var recyclable := Recyclable(disk, eligible);
    ListPagesAre(disk, eligible);
    var nodes, reused := SearchNodeCount(|eligible| + |protected|, |recyclable|);
    SnapshotNeedsIs(s, disk, nodes, reused);
    var eligible', nodeIDs;
    ok, eligible', next, nodeIDs := AssignNodes(disk, eligible, recyclable, nodes, reused, nextPageID);
    l := Lists(eligible', protected, nodeIDs);
    if ok {
      ghost var left :| Assigned(disk, eligible, nextPageID, eligible', next, nodeIDs, left);
      AssignedSnapshot(s, Moved(s, next, l), disk, l, left);
    }
  }

  /** Writes the lists for a new generation; the page manager moves on to them. */
  method WriteFreeListSnapshot(pm: PageManager, disk: Pages, generation: nat, root: nat)
    returns (ok: bool, m: RootMetadata, l: Lists)
    requires pm.nextPageID >= 1
    modifies pm
    ensures ok ==> Snapshotted(old(pm.Snapshot()), pm.Snapshot(), disk, l)
    ensures ok ==> pm.nextPageID >= 1 && m == SnapshotMetadata(generation, root, pm.nextPageID - 1, l)
    ensures ok ==> pm.freePageSet == old(pm.freePageSet) - (set x | x in l.pages)
    ensures ok ==> pm.nextPageID == old(pm.nextPageID) + SnapshotNeeds(old(pm.Snapshot()), disk)
    ensures ok <==> SnapshotNeeds(old(pm.Snapshot()), disk) <= Fresh(old(pm.Snapshot()))
  {
    hide Snapshotted, SnapshotNeeds;
    var next;
    ok, l, next := PlanSnapshot(pm.freePageIDs, pm.retiredPageIDs, pm.pendingFreePageIDs, pm.freeListPageIDs,
                                pm.nextPageID, disk, pm.Snapshot());
    pm.nextPageID := next;
    m := SnapshotMetadata(generation, root, pm.nextPageID - 1, l);
    if ok {
      pm.freePageSet := pm.freePageSet - (set x | x in l.pages);
      pm.freePageIDs := l.free;
      pm.retiredPageIDs := l.retired;
      pm.freeListPageIDs := l.pages;
    }
  }

  lemma {:induction false} AssignedSnapshot(s: PageManagerState, s': PageManagerState, disk: Pages, l: Lists,
      left: seq<nat>)
    requires s' == Moved(s, s'.nextPageID, l)
    requires l.retired == s.pendingFreePageIDs + s.freeListPageIDs && Fitting(l)
    requires Assigned(disk, s.freePageIDs + s.retiredPageIDs, s.nextPageID, l.free, s'.nextPageID, l.pages, left)
    ensures Snapshotted(s, s', disk, l)
  {
  }

  /** The ids of a snapshot are distinct and within the file it describes, and each page keeps one owner. */
  lemma {:induction false} SnapshotOwned(s: PageManagerState, s': PageManagerState, disk: Pages, l: Lists,
      live: set<nat>)
    requires Owned(s, live) && Snapshotted(s, s', disk, l)
    ensures Owned(s'.(pendingFreePageIDs := []), live)
    ensures Distinct(l.pages + (l.free + l.retired))
    ensures forall x :: x in l.pages + (l.free + l.retired) ==> 1 <= x < s'.nextPageID && x !in live
  {
    hide FreshIds, Fitting;
    var c := s'.(pendingFreePageIDs := []);
    FreshIdsAre(s.nextPageID, s'.nextPageID);
    forall x: nat ensures OwnerBag(c, multiset(live))[x] == if 1 <= x < c.nextPageID then 1 else 0 {
      SnapshotBags(s, s', disk, l, live, x);
      assert OwnerBag(s, multiset(live))[x] == if 1 <= x < s.nextPageID then 1 else 0;
      FreshCount(s.nextPageID, s'.nextPageID, x);
    }
    var all := l.pages + (l.free + l.retired);
    assert multiset(all) == multiset(l.pages) + (multiset(l.free) + multiset(l.retired));
    forall x: nat ensures multiset(live)[x] + multiset(all)[x] == if 1 <= x < c.nextPageID then 1 else 0 {
      assert OwnerBag(c, multiset(live))[x] == if 1 <= x < c.nextPageID then 1 else 0;
      assert multiset(c.pendingFreePageIDs) == multiset{};
    }
    forall x | x in all ensures 1 <= x < s'.nextPageID && x !in live {
      assert multiset(all)[x] > 0;
      assert x in live <==> multiset(live)[x] > 0;
    }
  }

  lemma {:induction false} FreshCount(a: nat, b: nat, x: nat)
    ensures multiset(FreshIds(a, b))[x] == if a <= x < b then 1 else 0
  {
    hide FreshIds;
    FreshIdsAre(a, b);
    assert x in FreshIds(a, b) <==> multiset(FreshIds(a, b))[x] > 0;
    assert multiset(FreshIds(a, b))[x] <= 1;
  }

  lemma {:induction false} SnapshotBags(s: PageManagerState, s': PageManagerState, disk: Pages, l: Lists,
      live: set<nat>, x: nat)
    requires Snapshotted(s, s', disk, l)
    ensures OwnerBag(s'.(pendingFreePageIDs := []), multiset(live))[x] ==
            OwnerBag(s, multiset(live))[x] + multiset(FreshIds(s.nextPageID, s'.nextPageID))[x]
  {
    hide FreshIds, Fitting;
    assert multiset(s.freePageIDs + s.retiredPageIDs) == multiset(s.freePageIDs) + multiset(s.retiredPageIDs);
    assert multiset(l.retired) == multiset(s.pendingFreePageIDs) + multiset(s.freeListPageIDs);
    assert (multiset(l.free) + multiset(l.pages))[x] ==
           (multiset(s.freePageIDs) + multiset(s.retiredPageIDs))[x]
           + multiset(FreshIds(s.nextPageID, s'.nextPageID))[x];
  }
}
