/**
 B+Tree nodes as the page layer sees them: the decoded entries of one page, the exact
 number of bytes those entries take, the checks made when a node is encoded or
 validated, and the greedy split of an oversized node.
 */
module PageNodes {
  import opened ByteStrings
  import opened Entries

  const PAGE_SIZE := 4096
  const HEADER_SIZE := 16
  const MAX_KEY_SIZE := 1000
  const MAX_VALUE_SIZE := 3000

  datatype Node = Node(leaf: bool, entries: seq<Entry>)

  /** Pointer, offset and record (two lengths, key and value) of one entry. */
  function EntryBytes(e: Entry): nat {
    8 + 2 + 4 + |e.key| + |e.value|
  }

  function Payload(s: seq<Entry>): nat {
    if s == [] then 0 else EntryBytes(s[0]) + Payload(s[1..])
  }

  function NodeBytes(n: Node): nat {
    HEADER_SIZE + Payload(n.entries)
  }

  /** What a node accepts at position `i`, space aside. */
  predicate ValidEntry(leaf: bool, i: nat, e: Entry) {
    && |e.key| <= MAX_KEY_SIZE
    && |e.value| <= MAX_VALUE_SIZE
    && (e.key == [] ==> i == 0 && e.value == [])
    && (if leaf then e.ptr == 0 else e.ptr != 0 && e.value == [])
  }

  /** Appending `entries` in order to a fresh node in a buffer of `capacity` bytes. */
  function Encode(leaf: bool, entries: seq<Entry>, capacity: nat): (r: Option<Node>) {
    if (forall i :: 0 <= i < |entries| ==> ValidEntry(leaf, i, entries[i]))
       && (entries == [] || HEADER_SIZE + Payload(entries) <= capacity)
    then Some(Node(leaf, entries))
    else None
  }

  ghost predicate ValidNode(n: Node) {
    && (forall i :: 0 <= i < |n.entries| ==> ValidEntry(n.leaf, i, n.entries[i]))
    && Sorted(n.entries)
    && NodeBytes(n) <= PAGE_SIZE
  }

  /** The check a reader makes on a page: `ValidNode`, with order compared pairwise. */
  method Validate(n: Node) returns (ok: bool)
    ensures ok <==> ValidNode(n)
  {
    ok := NodeBytes(n) <= PAGE_SIZE
      && forall i :: 0 <= i < |n.entries| ==> ValidEntry(n.leaf, i, n.entries[i]);
    if !ok {
      return;
    }
    StrictTotalOrder();
    var i := 1;
    while i < |n.entries|
      invariant 1 <= i
      invariant i <= |n.entries| || n.entries == []
      invariant i <= |n.entries| ==> Sorted(n.entries[..i])
    {
      if !Less(n.entries[i - 1].key, n.entries[i].key) {
        return false;
      }
      assert n.entries[..i + 1] == n.entries[..i] + [n.entries[i]];
      assert forall j :: 0 <= j < i - 1 ==> Less(n.entries[..i][j].key, n.entries[..i][i - 1].key);
      i := i + 1;
    }
    if n.entries != [] {
      assert n.entries[..i] == n.entries;
    }
  }

  /** How many leading entries have a key of at most `key`. */
  function UpperBound(s: seq<Entry>, key: Bytes): (r: nat)
    ensures r <= |s|
    ensures forall i :: 0 <= i < r ==> Leq(s[i].key, key)
    ensures r < |s| ==> Less(key, s[r].key)
  {
    if s == [] || Less(key, s[0].key) then 0
    else
      var rest := UpperBound(s[1..], key);
      assert forall i :: 1 <= i < rest + 1 ==> s[i] == s[1..][i - 1];
      rest + 1
  }

  lemma {:induction false} PayloadAppend(a: seq<Entry>, b: seq<Entry>)
    ensures Payload(a + b) == Payload(a) + Payload(b)
  {
    if a == [] {
      assert a + b == b;
    } else {
      assert (a + b)[1..] == a[1..] + b;
      PayloadAppend(a[1..], b);
    }
  }

  lemma {:induction false} PayloadSingle(e: Entry)
    ensures Payload([e]) == EntryBytes(e)
  {
    assert [e][1..] == [];
  }

  lemma {:induction false} PayloadBound(s: seq<Entry>, limit: nat)
    requires forall i :: 0 <= i < |s| ==> EntryBytes(s[i]) <= limit
    ensures Payload(s) <= |s| * limit
  {
    if s != [] {
      PayloadBound(s[1..], limit);
    }
  }

  function Join(parts: seq<Node>): seq<Entry> {
    if parts == [] then [] else Join(parts[..|parts| - 1]) + parts[|parts| - 1].entries
  }

  ghost predicate Fits(part: Node, leaf: bool) {
    part.leaf == leaf && part.entries != [] && NodeBytes(part) <= PAGE_SIZE
  }

  /** The end of the longest run of entries from `start` that fits one page. */
  method RunEnd(entries: seq<Entry>, start: nat) returns (end: nat)
    requires start < |entries|
    ensures start < end <= |entries|
    ensures end > start + 1 ==> HEADER_SIZE + Payload(entries[start..end]) <= PAGE_SIZE
    ensures end < |entries| ==>
              HEADER_SIZE + Payload(entries[start..end]) + EntryBytes(entries[end]) > PAGE_SIZE
  {
    end := start + 1;
    while end < |entries| && HEADER_SIZE + Payload(entries[start..end + 1]) <= PAGE_SIZE
      invariant start < end <= |entries|
      invariant end > start + 1 ==> HEADER_SIZE + Payload(entries[start..end]) <= PAGE_SIZE
    {
      end := end + 1;
    }
    if end < |entries| {
      SliceStep(entries, start, end);
      PayloadAppend(entries[start..end], [entries[end]]);
      PayloadSingle(entries[end]);
    }
  }

  ghost predicate Splits(node: Node, parts: seq<Node>) {
    && 1 <= |parts| <= 3
    && Join(parts) == node.entries
    && forall i :: 0 <= i < |parts| ==> Fits(parts[i], node.leaf)
  }

  /** Every entry alone fits a page, and the node is small enough for three pages. */
  ghost predicate Splittable(node: Node) {
    && NodeBytes(node) <= 2 * PAGE_SIZE - 15
    && forall i :: 0 <= i < |node.entries| ==> HEADER_SIZE + EntryBytes(node.entries[i]) <= PAGE_SIZE
  }

  ghost predicate NoRoom(left: Node, right: Node) {
    right.entries != [] && NodeBytes(left) + EntryBytes(right.entries[0]) > PAGE_SIZE
  }

  /** No part has room for the first entry of the next. */
  ghost predicate Greedy(parts: seq<Node>) {
    forall i, j :: 0 <= i < |parts| && j == i + 1 < |parts| ==> NoRoom(parts[i], parts[j])
  }

  /**
   Splits a node into pages. A node of at most 8177 bytes whose entries each fit a page
   always splits, into at most three pages: with four, the first two would hold more
   than 4080 payload bytes and the third with the start of the fourth as many again.
   */
  method NodeSplit3(node: Node) returns (r: Option<seq<Node>>)
    requires node.entries != []
    ensures r.Some? ==> Splits(node, r.value) && Greedy(r.value)
    ensures NodeBytes(node) <= PAGE_SIZE ==> r == Some([node])
    ensures Splittable(node) ==> r.Some?
  {
    if NodeBytes(node) <= PAGE_SIZE {
      assert [node][..0] == [];
      return Some([node]);
    }
    r := GreedyParts(node);
  }

  method GreedyParts(node: Node) returns (r: Option<seq<Node>>)
    requires node.entries != []
    ensures r.Some? ==> Splits(node, r.value) && Greedy(r.value)
    ensures Splittable(node) ==> r.Some?
  {
    hide Payload, Join;
    var entries := node.entries;
    var parts := [];
    var start := 0;
    JoinNone();
    while start < |entries|
      invariant 0 <= start <= |entries| && |parts| <= 3
      invariant Join(parts) == entries[..start]
      invariant forall i :: 0 <= i < |parts| ==> Fits(parts[i], node.leaf)
      invariant Packed(entries, start, |parts|)
      invariant Greedy(parts)
      invariant parts != [] && start < |entries| ==>
                  NodeBytes(parts[|parts| - 1]) + EntryBytes(entries[start]) > PAGE_SIZE
    {
      var end := RunEnd(entries, start);
      if HEADER_SIZE + Payload(entries[start..end]) > PAGE_SIZE {
        assert end == start + 1;
        assert entries[start..end] == [entries[start]];
        PayloadSingle(entries[start]);
        return None;
      }
      PackedStep(entries, start, end, |parts|);
      JoinStep(parts, Node(node.leaf, entries[start..end]));
      assert entries[start..end][0] == entries[start];
      parts := parts + [Node(node.leaf, entries[start..end])];
      SliceJoin(entries, start, end);
      if |parts| > 3 {
        return None;
      }
      start := end;
    }
    TakeAll(entries);
    r := Some(parts);
  }

  lemma {:induction false} JoinNone()
    ensures Join([]) == []
  {
  }

  lemma {:induction false} JoinStep(parts: seq<Node>, part: Node)
    ensures Join(parts + [part]) == Join(parts) + part.entries
  {
    assert (parts + [part])[..|parts|] == parts;
  }

  /** What greedy packing leaves behind after `count` pages when it has reached `start`. */
  ghost predicate Packed(s: seq<Entry>, start: nat, count: nat)
    requires start <= |s|
  {
    && (count == 0 ==> start == 0)
    && (count == 1 && start < |s| ==>
          HEADER_SIZE + Payload(s[..start]) + EntryBytes(s[start]) > PAGE_SIZE)
    && (count == 2 ==> HEADER_SIZE + Payload(s[..start]) > PAGE_SIZE)
    && (count == 3 && start < |s| ==> Payload(s) > 2 * (PAGE_SIZE - HEADER_SIZE) + 1)
  }

  lemma {:induction false} PackedStep(s: seq<Entry>, start: nat, end: nat, count: nat)
    requires start < end <= |s| && count <= 3
    requires Packed(s, start, count)
    requires end < |s| ==> HEADER_SIZE + Payload(s[start..end]) + EntryBytes(s[end]) > PAGE_SIZE
    ensures count < 3 ==> Packed(s, end, count + 1)
    ensures count == 3 ==> Payload(s) > 2 * (PAGE_SIZE - HEADER_SIZE) + 1
  {
    PayloadSteps(s, start, end);
    if end < |s| {
      PayloadTake(s, end);
    }
  }

  lemma {:induction false} PayloadSteps(s: seq<Entry>, start: nat, end: nat)
    requires start < end <= |s|
    ensures Payload(s[..end]) == Payload(s[..start]) + Payload(s[start..end])
    ensures Payload(s[..end]) >= Payload(s[..start]) + EntryBytes(s[start])
  {
    assert s[..end] == s[..start] + s[start..end];
    PayloadAppend(s[..start], s[start..end]);
    assert s[start..end][0] == s[start];
  }

  lemma {:induction false} PayloadTake(s: seq<Entry>, start: nat)
    requires start < |s|
    ensures Payload(s) >= Payload(s[..start]) + EntryBytes(s[start])
  {
    PayloadSteps(s, start, |s|);
    assert s[..|s|] == s;
  }

  // ----- The greedy split is the only one of its kind

  lemma {:induction false} JoinFront(parts: seq<Node>)
    requires parts != []
    ensures Join(parts) == parts[0].entries + Join(parts[1..])
  {
    var init, last := parts[..|parts| - 1], parts[|parts| - 1];
    if init == [] {
      assert parts[1..] == [] && Join(init) == [];
    } else {
      JoinFront(init);
      assert init[1..] + [last] == parts[1..];
      JoinStep(init[1..], last);
    }
  }

  ghost predicate AllFit(parts: seq<Node>, leaf: bool) {
    forall i :: 0 <= i < |parts| ==> Fits(parts[i], leaf)
  }

  /** A part cannot be shorter than the part another packing starts with. */
  lemma {:induction false} FirstLongest(leaf: bool, a: seq<Node>, b: seq<Node>)
    requires a != [] && b != [] && AllFit(a, leaf) && AllFit(b, leaf) && Greedy(a) && Join(a) == Join(b)
    ensures |a[0].entries| >= |b[0].entries|
  {
    hide Payload, Join;
    JoinFront(a);
    JoinFront(b);
    var s, k, m := Join(a), |a[0].entries|, |b[0].entries|;
    if k < m {
      assert a[1..] != [] by { JoinNone(); }
      JoinFront(a[1..]);
      assert Fits(a[1], leaf) && NoRoom(a[0], a[1]);
      assert s[..k] == a[0].entries && s[..m] == b[0].entries;
      assert s[k] == b[0].entries[k] == a[1].entries[0];
      assert b[0].entries[..k] == a[0].entries;
      assert Fits(b[0], leaf);
      PayloadTake(b[0].entries, k);
    }
  }

  lemma {:induction false} GreedyOnce(leaf: bool, a: seq<Node>, b: seq<Node>)
    requires AllFit(a, leaf) && AllFit(b, leaf) && Greedy(a) && Greedy(b) && Join(a) == Join(b)
    ensures a == b
  {
    hide Payload, Join;
    JoinNone();
    if a != [] && b != [] {
      FirstLongest(leaf, a, b);
      FirstLongest(leaf, b, a);
      JoinFront(a);
      JoinFront(b);
      assert Fits(a[0], leaf) && Fits(b[0], leaf);
      assert a[0].entries == Join(a)[..|a[0].entries|] && b[0].entries == Join(b)[..|b[0].entries|];
      assert Join(a[1..]) == Join(a)[|a[0].entries|..] && Join(b[1..]) == Join(b)[|b[0].entries|..];
      GreedyTail(a);
      GreedyTail(b);
      GreedyOnce(leaf, a[1..], b[1..]);
      assert a == [a[0]] + a[1..] && b == [b[0]] + b[1..];
    } else if a != [] {
      assert Fits(a[0], leaf);
      JoinFront(a);
    } else if b != [] {
      assert Fits(b[0], leaf);
      JoinFront(b);
    }
  }

  lemma {:induction false} GreedyTail(a: seq<Node>)
    requires Greedy(a) && a != []
    ensures Greedy(a[1..])
  {
    var r := a[1..];
    forall i, j | 0 <= i < |r| && j == i + 1 < |r|
      ensures NoRoom(r[i], r[j])
    {
      assert NoRoom(a[i + 1], a[j + 1]);
    }
  }

  // ----- A greedy split exists, and is short

  /** The longest start of `s` that fits a page, at most `end` entries long. */
  lemma {:induction false} LongestRun(s: seq<Entry>, end: nat) returns (k: nat)
    requires 1 <= end <= |s| && HEADER_SIZE + EntryBytes(s[0]) <= PAGE_SIZE
    ensures 1 <= k <= end && HEADER_SIZE + Payload(s[..k]) <= PAGE_SIZE
    ensures k < end ==> HEADER_SIZE + Payload(s[..k]) + EntryBytes(s[k]) > PAGE_SIZE
  {
    hide Payload;
    if HEADER_SIZE + Payload(s[..end]) <= PAGE_SIZE {
      k := end;
    } else {
      assert s[..1] == [s[0]];
      PayloadSingle(s[0]);
      k := LongestRun(s, end - 1);
      if k == end - 1 {
        TakeStep(s, k);
        PayloadAppend(s[..k], [s[k]]);
        PayloadSingle(s[k]);
      }
    }
  }

  lemma {:induction false} GreedyExists(leaf: bool, s: seq<Entry>) returns (parts: seq<Node>)
    requires forall i :: 0 <= i < |s| ==> HEADER_SIZE + EntryBytes(s[i]) <= PAGE_SIZE
    ensures AllFit(parts, leaf) && Greedy(parts) && Join(parts) == s
    ensures s != [] ==> parts != []
    decreases |s|
  {
    hide Payload, Join;
    parts := [];
    JoinNone();
    if s != [] {
      var k := LongestRun(s, |s|);
      var rest := GreedyExists(leaf, s[k..]);
      var first := Node(leaf, s[..k]);
      parts := [first] + rest;
      JoinFront(parts);
      assert parts[1..] == rest && s[..k] + s[k..] == s;
      if rest != [] {
        JoinFront(rest);
        assert Fits(rest[0], leaf);
        assert rest[0].entries[0] == s[k..][0] == s[k];
      }
      forall i, j | 0 <= i < |parts| && j == i + 1 < |parts|
        ensures NoRoom(parts[i], parts[j])
      {
        if i > 0 {
          assert NoRoom(rest[i - 1], rest[j - 1]);
        }
      }
    }
  }

  lemma {:induction false} JoinPayload(parts: seq<Node>)
    requires parts != []
    ensures Payload(Join(parts)) == Payload(parts[0].entries) + Payload(Join(parts[1..]))
  {
    JoinFront(parts);
    PayloadAppend(parts[0].entries, Join(parts[1..]));
  }

  /** With four parts, the first two and the next two would each be more than a page. */
  lemma {:induction false} GreedyThree(leaf: bool, parts: seq<Node>)
    requires AllFit(parts, leaf) && Greedy(parts) && HEADER_SIZE + Payload(Join(parts)) <= 2 * PAGE_SIZE - 15
    ensures |parts| <= 3
  {
    hide Payload, Join;
    if |parts| > 3 {
      JoinPayload(parts);
      JoinPayload(parts[1..]);
      JoinPayload(parts[2..]);
      JoinPayload(parts[3..]);
      assert parts[1..][1..] == parts[2..] && parts[2..][1..] == parts[3..];
      assert NoRoom(parts[0], parts[1]) && NoRoom(parts[2], parts[3]);
      HeadPayload(parts[1].entries);
      HeadPayload(parts[3].entries);
    }
  }

  lemma {:induction false} HeadPayload(s: seq<Entry>)
    requires s != []
    ensures Payload(s) >= EntryBytes(s[0])
  {
  }
}
