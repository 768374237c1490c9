/**
 The read cache over a key-value store: entries in order of recent use, looked up through
 a map, filled by reads and dropped by writes.
 */
module LruCache {
  import opened ByteStrings
  import opened Entries

  datatype Cell = Cell(key: Bytes, value: Bytes)

  /** What a call does to the store behind the cache, and whether that store refuses it. */
  datatype Op =
    | Get(key: Bytes, fails: bool)
    | Set(key: Bytes, value: Bytes, fails: bool)
    | Delete(key: Bytes, fails: bool)

  datatype Reply = Failed | Value(value: Option<Bytes>) | Done | Deleted(found: bool)

  datatype Stats = Stats(hits: nat, misses: nat, evictions: nat, backingCalls: nat)

  datatype State = State(store: map<Bytes, Bytes>, order: seq<Cell>, stats: Stats)

  // ----- The bare store

  function Lookup(store: map<Bytes, Bytes>, key: Bytes): Option<Bytes> {
    if key in store then Some(store[key]) else None
  }

  function Bare(store: map<Bytes, Bytes>, op: Op): (map<Bytes, Bytes>, Reply) {
    if op.fails then (store, Failed)
    else match op
      case Get(key, _) => (store, Value(Lookup(store, key)))
      case Set(key, value, _) => (store[key := value], Done)
      case Delete(key, _) => (store - {key}, Deleted(key in store))
  }

  // ----- Recency order

  predicate Holds(order: seq<Cell>, key: Bytes) {
    exists i :: 0 <= i < |order| && order[i].key == key
  }

  function Place(order: seq<Cell>, key: Bytes): (i: nat)
    requires Holds(order, key)
    ensures i < |order| && order[i].key == key
    ensures forall j :: 0 <= j < i ==> order[j].key != key
  {
    if order[0].key == key then 0
    else
      assert exists j :: 0 <= j < |order[1..]| && order[1..][j].key == key by {
        var j :| 0 <= j < |order| && order[j].key == key;
        assert order[1..][j - 1].key == key;
      }
      1 + Place(order[1..], key)
  }

  function Drop(order: seq<Cell>, key: Bytes): (r: seq<Cell>) {
    if Holds(order, key) then
      var i := Place(order, key);
      order[..i] + order[i + 1..]
    else order
  }

  // ----- The cache

  function CacheGet(capacity: nat, s: State, key: Bytes, fails: bool): (State, Reply)
    requires capacity >= 1
  {
    var st := s.stats;
    if Holds(s.order, key) then
      var hit := s.order[Place(s.order, key)];
      (s.(order := [hit] + Drop(s.order, key), stats := st.(hits := st.hits + 1)), Value(Some(hit.value)))
    else
      var missed := st.(misses := st.misses + 1, backingCalls := st.backingCalls + 1);
      if fails then (s.(stats := missed), Failed)
      else if key !in s.store then (s.(stats := missed), Value(None))
      else
        var cell := Cell(key, s.store[key]);
        var r := Value(Some(s.store[key]));
        if |s.order| == capacity then
          (s.(order := [cell] + s.order[..|s.order| - 1],
              stats := missed.(evictions := missed.evictions + 1)), r)
        else (s.(order := [cell] + s.order, stats := missed), r)
  }

  function Step(capacity: nat, s: State, op: Op): (State, Reply)
    requires capacity >= 1
  {
    if op.Get? then CacheGet(capacity, s, op.key, op.fails)
    else
      var (store, reply) := Bare(s.store, op);
      var stats := s.stats.(backingCalls := s.stats.backingCalls + 1);
      (State(store, if op.fails then s.order else Drop(s.order, op.key), stats), reply)
  }

  ghost predicate Distinct(order: seq<Cell>) {
    forall i, j :: 0 <= i < j < |order| ==> order[i].key != order[j].key
  }

  /** Every cached value is the stored value. */
  ghost predicate Coherent(s: State) {
    forall i :: 0 <= i < |s.order| ==> s.order[i].key in s.store && s.store[s.order[i].key] == s.order[i].value
  }

  ghost predicate Good(capacity: nat, s: State) {
    Distinct(s.order) && |s.order| <= capacity && Coherent(s)
  }

  lemma {:induction false} DropKeeps(order: seq<Cell>, key: Bytes)
    requires Distinct(order)
    ensures Distinct(Drop(order, key)) && !Holds(Drop(order, key), key)
    ensures |Drop(order, key)| == |order| - if Holds(order, key) then 1 else 0
    ensures forall c :: c in Drop(order, key) <==> c in order && c.key != key
  {
    var r := Drop(order, key);
    if Holds(order, key) {
      var i := Place(order, key);
      forall c | c in order && c.key != key
        ensures c in r
      {
        var j :| 0 <= j < |order| && order[j] == c;
        assert r[if j < i then j else j - 1] == c;
      }
    }
  }

  lemma {:induction false} StepKeeps(capacity: nat, s: State, op: Op)
    requires capacity >= 1 && Good(capacity, s)
    ensures Good(capacity, Step(capacity, s, op).0)
  {
    hide Place, Drop, Good;
    if op.Get? {
      GetKeeps(capacity, s, op.key, op.fails);
    } else {
      WriteKeeps(capacity, s, op);
    }
  }

  lemma {:induction false} GetKeeps(capacity: nat, s: State, key: Bytes, fails: bool)
    requires capacity >= 1 && Good(capacity, s)
    ensures Good(capacity, CacheGet(capacity, s, key, fails).0)
  {
    hide Place, Drop;
    DropKeeps(s.order, key);
    var s' := CacheGet(capacity, s, key, fails).0;
    var rest := Drop(s.order, key);
    forall i | 0 <= i < |s'.order|
      ensures s'.order[i].key in s'.store && s'.store[s'.order[i].key] == s'.order[i].value
    {
      if i > 0 && Holds(s.order, key) {
        assert s'.order[i] == rest[i - 1] && rest[i - 1] in s.order;
      }
    }
  }

  lemma {:induction false} WriteKeeps(capacity: nat, s: State, op: Op)
    requires capacity >= 1 && Good(capacity, s) && !op.Get?
    ensures Good(capacity, Step(capacity, s, op).0)
  {
    hide Place, Drop;
    DropKeeps(s.order, op.key);
    var s' := Step(capacity, s, op).0;
    forall i | 0 <= i < |s'.order|
      ensures s'.order[i].key in s'.store && s'.store[s'.order[i].key] == s'.order[i].value
    {
      if !op.fails {
        assert Drop(s.order, op.key)[i] in s.order;
      }
    }
  }

  /**
   One call through the cache changes the store as the bare store would change, and answers
   as the bare store would, except that a cached value is returned without asking the store.
   */
  lemma {:induction false} StepTransparent(capacity: nat, s: State, op: Op)
    requires capacity >= 1 && Good(capacity, s)
    ensures var (s', reply) := Step(capacity, s, op);
            var (store, bare) := Bare(s.store, op);
            && s'.store == store
            && (reply == bare
                || (op.Get? && op.fails && Holds(s.order, op.key) && reply == Value(Lookup(s.store, op.key))))
  {
    if op.Get? && Holds(s.order, op.key) {
      var hit := s.order[Place(s.order, op.key)];
      assert hit.key in s.store && s.store[hit.key] == hit.value;
    }
  }

  // ----- Whole runs

  function Run(capacity: nat, s: State, ops: seq<Op>): (State, seq<Reply>)
    requires capacity >= 1
  {
    if ops == [] then (s, [])
    else
      var (s', replies) := Run(capacity, s, ops[..|ops| - 1]);
      var (s'', reply) := Step(capacity, s', ops[|ops| - 1]);
      (s'', replies + [reply])
  }

  function BareRun(store: map<Bytes, Bytes>, ops: seq<Op>): (map<Bytes, Bytes>, seq<Reply>) {
    if ops == [] then (store, [])
    else
      var (store', replies) := BareRun(store, ops[..|ops| - 1]);
      var (store'', reply) := Bare(store', ops[|ops| - 1]);
      (store'', replies + [reply])
  }

  function Empty(store: map<Bytes, Bytes>): State {
    State(store, [], Stats(0, 0, 0, 0))
  }

  function Reads(ops: seq<Op>): nat {
    if ops == [] then 0 else Reads(ops[..|ops| - 1]) + if ops[|ops| - 1].Get? then 1 else 0
  }

  lemma {:induction false} RunGood(capacity: nat, store: map<Bytes, Bytes>, ops: seq<Op>)
    requires capacity >= 1
    ensures var (s, replies) := Run(capacity, Empty(store), ops);
            Good(capacity, s) && |replies| == |ops|
  {
    if ops != [] {
      var init := ops[..|ops| - 1];
      RunGood(capacity, store, init);
      StepKeeps(capacity, Run(capacity, Empty(store), init).0, ops[|ops| - 1]);
    }
  }

  /** Either the bare store's answer, or the stored value where the bare store would have failed. */
  ghost predicate Agrees(store: map<Bytes, Bytes>, op: Op, reply: Reply, bare: Reply) {
    reply == bare || (op.Get? && op.fails && reply == Value(Lookup(store, op.key)))
  }

  ghost predicate RunAgrees(store: map<Bytes, Bytes>, ops: seq<Op>, replies: seq<Reply>, bare: seq<Reply>) {
    && |replies| == |bare| == |ops|
    && forall i :: 0 <= i < |ops| ==> Agrees(BareRun(store, ops[..i]).0, ops[i], replies[i], bare[i])
  }

  /** Over any run the cache is invisible. */
  lemma {:induction false} RunTransparent(capacity: nat, store: map<Bytes, Bytes>, ops: seq<Op>)
    requires capacity >= 1
    ensures var (s, replies) := Run(capacity, Empty(store), ops);
            var (store', bare) := BareRun(store, ops);
            s.store == store' && RunAgrees(store, ops, replies, bare)
  {
    hide Step, Bare, Good, Agrees;
    if ops != [] {
      var init, op := ops[..|ops| - 1], ops[|ops| - 1];
      RunTransparent(capacity, store, init);
      RunGood(capacity, store, init);
      var s := Run(capacity, Empty(store), init).0;
      AgreesStep(capacity, s, op);
      var replies, bare := Run(capacity, Empty(store), ops).1, BareRun(store, ops).1;
      forall i | 0 <= i < |ops|
        ensures Agrees(BareRun(store, ops[..i]).0, ops[i], replies[i], bare[i])
      {
        if i < |init| {
          assert ops[..i] == init[..i];
          assert Agrees(BareRun(store, init[..i]).0, init[i], Run(capacity, Empty(store), init).1[i],
                        BareRun(store, init).1[i]);
        } else {
          assert ops[..i] == init;
        }
      }
    }
  }

  lemma {:induction false} AgreesStep(capacity: nat, s: State, op: Op)
    requires capacity >= 1 && Good(capacity, s)
    ensures Step(capacity, s, op).0.store == Bare(s.store, op).0
    ensures Agrees(s.store, op, Step(capacity, s, op).1, Bare(s.store, op).1)
  {
    StepTransparent(capacity, s, op);
  }

  /** Every read is a hit or a miss, and the store is asked for every miss and every write. */
  lemma {:induction false} RunCounts(capacity: nat, store: map<Bytes, Bytes>, ops: seq<Op>)
    requires capacity >= 1
    ensures var st := Run(capacity, Empty(store), ops).0.stats;
            st.hits + st.misses == Reads(ops) && st.hits + st.backingCalls == |ops|
  {
    if ops != [] {
      RunCounts(capacity, store, ops[..|ops| - 1]);
    }
  }

  // ----- Least recent use

  /** The number of the last read that returned a value for `key`; calls count from one. */
  function LastUse(ops: seq<Op>, replies: seq<Reply>, key: Bytes): (n: nat)
    requires |replies| == |ops|
    ensures n <= |ops|
  {
    if ops == [] then 0
    else
      var op, reply := ops[|ops| - 1], replies[|ops| - 1];
      if op.Get? && op.key == key && reply.Value? && reply.value.Some? then |ops|
      else LastUse(ops[..|ops| - 1], replies[..|ops| - 1], key)
  }

  ghost predicate ByUse(ops: seq<Op>, replies: seq<Reply>, order: seq<Cell>)
    requires |replies| == |ops|
  {
    forall i, j :: 0 <= i < j < |order| ==>
      LastUse(ops, replies, order[j].key) < LastUse(ops, replies, order[i].key)
  }

  lemma {:induction false} DropOrder(order: seq<Cell>, key: Bytes, i: nat, j: nat)
    requires Distinct(order) && i < j < |Drop(order, key)|
    ensures exists i', j' ::
              0 <= i' < j' < |order| && order[i'] == Drop(order, key)[i] && order[j'] == Drop(order, key)[j]
    ensures Drop(order, key)[i].key != key && Drop(order, key)[j].key != key
  {
    var r := Drop(order, key);
    DropKeeps(order, key);
    assert r[i] in r && r[j] in r;
    if Holds(order, key) {
      var at := Place(order, key);
      var i', j' := if i < at then i else i + 1, if j < at then j else j + 1;
      assert order[i'] == r[i] && order[j'] == r[j];
    }
  }

  /** A step that uses no key leaves every last use as it was; a used key becomes the most recent. */
  lemma {:induction false} LastUseStep(ops: seq<Op>, replies: seq<Reply>, op: Op, reply: Reply, key: Bytes)
    requires |replies| == |ops|
    ensures LastUse(ops + [op], replies + [reply], key) ==
              if op.Get? && op.key == key && reply.Value? && reply.value.Some? then |ops| + 1
              else LastUse(ops, replies, key)
  {
    assert (ops + [op])[..|ops|] == ops && (replies + [reply])[..|ops|] == replies;
  }

  lemma {:induction false} ByUseStep(capacity: nat, s: State, op: Op, ops: seq<Op>, replies: seq<Reply>)
    requires capacity >= 1 && Good(capacity, s) && |replies| == |ops| && ByUse(ops, replies, s.order)
    ensures var (s', reply) := Step(capacity, s, op);
            ByUse(ops + [op], replies + [reply], s'.order)
  {
    hide Place, Drop, LastUse, Good, Coherent;
    assert Distinct(s.order) by { GoodDistinct(capacity, s); }
    var (s', reply) := Step(capacity, s, op);
    DropKeeps(s.order, op.key);
    forall i, j | 0 <= i < j < |s'.order|
      ensures LastUse(ops + [op], replies + [reply], s'.order[j].key)
            < LastUse(ops + [op], replies + [reply], s'.order[i].key)
    {
      LastUseStep(ops, replies, op, reply, s'.order[i].key);
      LastUseStep(ops, replies, op, reply, s'.order[j].key);
      if op.Get? && Holds(s.order, op.key) {
        var rest := Drop(s.order, op.key);
        assert s'.order[j] == rest[j - 1] && rest[j - 1] in rest;
        if i > 0 {
          DropOrder(s.order, op.key, i - 1, j - 1);
        }
      } else if !op.Get? && !op.fails {
        DropOrder(s.order, op.key, i, j);
      } else if op.Get? && reply.Value? && reply.value.Some? {
        assert s'.order[j] == s.order[j - 1];
        if i > 0 {
          assert s'.order[i] == s.order[i - 1];
        }
      }
    }
  }

  lemma {:induction false} GoodDistinct(capacity: nat, s: State)
    requires Good(capacity, s)
    ensures Distinct(s.order)
  {
  }

  lemma {:induction false} RunByUse(capacity: nat, store: map<Bytes, Bytes>, ops: seq<Op>)
    requires capacity >= 1
    ensures var (s, replies) := Run(capacity, Empty(store), ops);
            |replies| == |ops| && ByUse(ops, replies, s.order)
  {
    RunGood(capacity, store, ops);
    if ops != [] {
      var init := ops[..|ops| - 1];
      RunByUse(capacity, store, init);
      RunGood(capacity, store, init);
      var (s, replies) := Run(capacity, Empty(store), init);
      ByUseStep(capacity, s, ops[|ops| - 1], init, replies);
      assert init + [ops[|ops| - 1]] == ops;
    }
  }

  /** `victim` alone left the cache, and every key that stayed was used after it. */
  ghost predicate Evicted(ops: seq<Op>, replies: seq<Reply>, before: seq<Cell>, after: seq<Cell>, victim: Bytes)
    requires |replies| == |ops|
  {
    && Holds(before, victim) && !Holds(after, victim)
    && forall k :: Holds(before, k) && k != victim ==>
         Holds(after, k) && LastUse(ops, replies, victim) < LastUse(ops, replies, k)
  }

  /**
   Whatever came before, a cached key leaves the cache only by a write to it or by an
   eviction, and an eviction takes the key least recently used.
   */
  lemma {:induction false} EvictsLeastRecent(capacity: nat, store: map<Bytes, Bytes>, ops: seq<Op>, op: Op)
    requires capacity >= 1
    ensures var (s, replies) := Run(capacity, Empty(store), ops);
            var s' := Step(capacity, s, op).0;
            && |replies| == |ops|
            && (s'.stats.evictions > s.stats.evictions ==>
                  |s.order| == capacity
                  && exists victim :: Evicted(ops, replies, s.order, s'.order, victim))
            && (s'.stats.evictions == s.stats.evictions ==>
                  forall k :: Holds(s.order, k) && !Holds(s'.order, k) ==> !op.Get? && !op.fails && op.key == k)
  {
    hide LastUse, Place, Drop, Run;
    RunGood(capacity, store, ops);
    RunByUse(capacity, store, ops);
    var (s, replies) := Run(capacity, Empty(store), ops);
    var s' := Step(capacity, s, op).0;
    DropKeeps(s.order, op.key);
    if s'.stats.evictions > s.stats.evictions {
      LastLeaves(ops, replies, s.order, Cell(op.key, s.store[op.key]));
    } else {
      forall k | Holds(s.order, k) && !Holds(s'.order, k)
        ensures !op.Get? && !op.fails && op.key == k
      {
        StaysUnlessWritten(capacity, s, op, k);
      }
    }
  }

  lemma {:induction false} LastLeaves(ops: seq<Op>, replies: seq<Reply>, order: seq<Cell>, cell: Cell)
    requires |replies| == |ops| && ByUse(ops, replies, order) && Distinct(order)
    requires order != [] && !Holds(order, cell.key)
    ensures Evicted(ops, replies, order, [cell] + order[..|order| - 1], order[|order| - 1].key)
  {
    hide LastUse;
    var after, victim := [cell] + order[..|order| - 1], order[|order| - 1].key;
    forall k | Holds(order, k) && k != victim
      ensures Holds(after, k) && LastUse(ops, replies, victim) < LastUse(ops, replies, k)
    {
      var i :| 0 <= i < |order| && order[i].key == k;
      assert after[i + 1].key == k;
    }
  }

  lemma {:induction false} StaysUnlessWritten(capacity: nat, s: State, op: Op, key: Bytes)
    requires capacity >= 1 && Distinct(s.order) && Holds(s.order, key)
    requires Step(capacity, s, op).0.stats.evictions == s.stats.evictions
    ensures Holds(Step(capacity, s, op).0.order, key) || (!op.Get? && !op.fails && op.key == key)
  {
    hide Place, Drop, Holds, Distinct;
    if op.Get? {
      ReadStays(capacity, s, op.key, op.fails, key);
    } else if !op.fails && op.key != key {
      DropStays(s.order, op.key, key);
    }
  }

  lemma {:induction false} DropStays(order: seq<Cell>, key: Bytes, other: Bytes)
    requires Distinct(order) && Holds(order, other) && key != other
    ensures Holds(Drop(order, key), other)
  {
    hide Drop;
    var i :| 0 <= i < |order| && order[i].key == other;
    DropKeeps(order, key);
    assert order[i] in Drop(order, key);
    var j :| 0 <= j < |Drop(order, key)| && Drop(order, key)[j] == order[i];
  }

  lemma {:induction false} FrontHolds(cell: Cell, order: seq<Cell>, key: Bytes)
    requires cell.key == key || Holds(order, key)
    ensures Holds([cell] + order, key)
  {
    var r := [cell] + order;
    if cell.key == key {
      assert r[0].key == key;
    } else {
      var i :| 0 <= i < |order| && order[i].key == key;
      assert r[i + 1].key == key;
    }
  }

  lemma {:induction false} ReadStays(capacity: nat, s: State, key: Bytes, fails: bool, other: Bytes)
    requires capacity >= 1 && Distinct(s.order) && Holds(s.order, other)
    requires CacheGet(capacity, s, key, fails).0.stats.evictions == s.stats.evictions
    ensures Holds(CacheGet(capacity, s, key, fails).0.order, other)
  {
    hide Drop, Holds, Distinct;
    if Holds(s.order, key) {
      if key != other {
        DropStays(s.order, key, other);
      }
      FrontHolds(s.order[Place(s.order, key)], Drop(s.order, key), other);
    } else if !fails && key in s.store {
      FrontHolds(Cell(key, s.store[key]), s.order, other);
    }
  }

  // ----- What is held

  /** A read that answers with a value. */
  predicate Finds(op: Op, reply: Reply) {
    op.Get? && reply.Value? && reply.value.Some?
  }

  /** A write that the store has taken. */
  predicate Writes(op: Op, key: Bytes) {
    !op.Get? && !op.fails && op.key == key
  }

  /** Of the keys in the cache the one whose last use is longest ago. */
  ghost predicate LeastRecent(ops: seq<Op>, replies: seq<Reply>, order: seq<Cell>, key: Bytes)
    requires |replies| == |ops|
  {
    Holds(order, key) && forall k :: Holds(order, k) ==> LastUse(ops, replies, key) <= LastUse(ops, replies, k)
  }

  /** A read finds its key in the cache, or in the store without which there is no answer. */
  lemma {:induction false} FindsMeans(capacity: nat, s: State, op: Op)
    requires capacity >= 1 && Good(capacity, s)
    ensures Finds(op, Step(capacity, s, op).1) <==>
            op.Get? && (Holds(s.order, op.key) || (!op.fails && op.key in s.store))
  {
    hide Place, Drop;
  }

  lemma {:induction false} FrontIs(capacity: nat, s: State, op: Op)
    requires capacity >= 1 && Good(capacity, s) && Finds(op, Step(capacity, s, op).1)
    ensures var (s', reply) := Step(capacity, s, op);
            s'.order != [] && s'.order[0] == Cell(op.key, reply.value.value)
  {
    hide Drop;
  }

  /** The most recent key is a hit, whatever the store does, and asking for it moves nothing. */
  lemma {:induction false} FrontHits(capacity: nat, s: State, fails: bool)
    requires capacity >= 1 && s.order != []
    ensures Step(capacity, s, Get(s.order[0].key, fails)) ==
            (s.(stats := s.stats.(hits := s.stats.hits + 1)), Value(Some(s.order[0].value)))
  {
    var key := s.order[0].key;
    assert Holds(s.order, key) && Place(s.order, key) == 0;
    assert [s.order[0]] + Drop(s.order, key) == s.order;
  }

  /** After any history: once a read has found its key, the same read is a hit with the same answer. */
  lemma {:induction false} RepeatHits(capacity: nat, store: map<Bytes, Bytes>, ops: seq<Op>, op: Op, fails: bool)
    requires capacity >= 1
    ensures var (s, reply) := Step(capacity, Run(capacity, Empty(store), ops).0, op);
            Finds(op, reply) ==>
              && s.order != [] && s.order[0].key == op.key
              && var (s', again) := Step(capacity, s, Get(op.key, fails));
                 again == reply && s'.order == s.order && s'.store == s.store
                 && s'.stats == s.stats.(hits := s.stats.hits + 1)
  {
    hide Step, Good;
    RunGood(capacity, store, ops);
    var (s, reply) := Step(capacity, Run(capacity, Empty(store), ops).0, op);
    if Finds(op, reply) {
      FrontIs(capacity, Run(capacity, Empty(store), ops).0, op);
      FrontHits(capacity, s, fails);
    }
  }

  /** Each call counts as what it was: a hit, a miss, an eviction exactly when a full cache takes a new key. */
  lemma {:induction false} StepCounts(capacity: nat, s: State, op: Op)
    requires capacity >= 1 && Good(capacity, s)
    ensures var (s', reply) := Step(capacity, s, op);
            var hit := op.Get? && Holds(s.order, op.key);
            s'.stats == Stats(s.stats.hits + (if hit then 1 else 0),
                              s.stats.misses + (if op.Get? && !hit then 1 else 0),
                              s.stats.evictions + (if Finds(op, reply) && !hit && |s.order| == capacity then 1 else 0),
                              s.stats.backingCalls + (if hit then 0 else 1))
  {
    hide Place, Drop;
  }

  lemma {:induction false} LastIsLeast(ops: seq<Op>, replies: seq<Reply>, order: seq<Cell>, key: Bytes)
    requires |replies| == |ops| && ByUse(ops, replies, order) && Distinct(order) && order != []
    ensures LeastRecent(ops, replies, order, key) <==> key == order[|order| - 1].key
  {
    hide LastUse;
    var last := order[|order| - 1].key;
    forall k | Holds(order, k) && k != last ensures LastUse(ops, replies, last) < LastUse(ops, replies, k) {
      var i :| 0 <= i < |order| && order[i].key == k;
    }
    assert Holds(order, last);
  }

  /**
   What is held after a call, from what was held and the history alone: the key that a read
   has found, and every other key unless it was written or, in a full cache that takes a new
   key, least recently used.
   */
  lemma {:induction false} HeldNext(capacity: nat, store: map<Bytes, Bytes>, ops: seq<Op>, op: Op, key: Bytes)
    requires capacity >= 1
    ensures var (s, replies) := Run(capacity, Empty(store), ops);
            var (s', reply) := Step(capacity, s, op);
            && |replies| == |ops|
            && (Holds(s'.order, key) <==>
                  || (Finds(op, reply) && op.key == key)
                  || (&& Holds(s.order, key) && !Writes(op, key)
                      && !(&& Finds(op, reply) && !Holds(s.order, op.key) && |s.order| == capacity
                           && LeastRecent(ops, replies, s.order, key))))
  {
    hide Run, LastUse, LeastRecent, Good;
    RunGood(capacity, store, ops);
    RunByUse(capacity, store, ops);
    var (s, replies) := Run(capacity, Empty(store), ops);
    GoodDistinct(capacity, s);
    if s.order != [] {
      LastIsLeast(ops, replies, s.order, key);
    }
    HeldStep(capacity, s, op, key);
  }

  lemma {:induction false} HeldStep(capacity: nat, s: State, op: Op, key: Bytes)
    requires capacity >= 1 && Good(capacity, s)
    ensures var (s', reply) := Step(capacity, s, op);
            Holds(s'.order, key) <==>
              || (Finds(op, reply) && op.key == key)
              || (&& Holds(s.order, key) && !Writes(op, key)
                  && !(&& Finds(op, reply) && !Holds(s.order, op.key) && |s.order| == capacity
                       && key == s.order[|s.order| - 1].key))
  {
    hide Place, Drop, Coherent, Holds;
    DropHolds(s.order, op.key, key);
    if op.Get? && Holds(s.order, op.key) {
      FrontHas(s.order[Place(s.order, op.key)], Drop(s.order, op.key), key);
    } else if op.Get? && !op.fails && op.key in s.store {
      var cell := Cell(op.key, s.store[op.key]);
      FrontHas(cell, s.order, key);
      if |s.order| == capacity {
        FrontHas(cell, s.order[..|s.order| - 1], key);
        InitHolds(s.order, key);
      }
    }
  }

  lemma {:induction false} FrontHas(cell: Cell, order: seq<Cell>, key: Bytes)
    ensures Holds([cell] + order, key) <==> cell.key == key || Holds(order, key)
  {
    if cell.key == key || Holds(order, key) {
      FrontHolds(cell, order, key);
    }
  }

  lemma {:induction false} InitHolds(order: seq<Cell>, key: Bytes)
    requires Distinct(order) && order != []
    ensures Holds(order[..|order| - 1], key) <==> Holds(order, key) && key != order[|order| - 1].key
  {
    var init := order[..|order| - 1];
    if Holds(order, key) && key != order[|order| - 1].key {
      var i :| 0 <= i < |order| && order[i].key == key;
      assert init[i].key == key;
    }
  }

  lemma {:induction false} DropHolds(order: seq<Cell>, key: Bytes, other: Bytes)
    requires Distinct(order)
    ensures Holds(Drop(order, key), other) <==> Holds(order, other) && other != key
  {
    hide Drop;
    DropKeeps(order, key);
    if Holds(order, other) && other != key {
      DropStays(order, key, other);
    }
    if Holds(Drop(order, key), other) {
      var i :| 0 <= i < |Drop(order, key)| && Drop(order, key)[i].key == other;
      assert Drop(order, key)[i] in Drop(order, key);
    }
  }

  // ----- The cache as it is kept

  function KeysOf(order: seq<Cell>): set<Bytes> {
    set c | c in order :: c.key
  }

  lemma {:induction false} KeysMore(order: seq<Cell>, last: Cell)
    ensures KeysOf(order + [last]) == KeysOf(order) + {last.key}
  {
    var r := order + [last];
    forall k | k in KeysOf(order) + {last.key} ensures k in KeysOf(r) {
      if k == last.key {
        assert last in r;
      } else {
        var c :| c in order && c.key == k;
        assert c in r;
      }
    }
  }

  lemma {:induction false} KeysCount(order: seq<Cell>)
    requires Distinct(order)
    ensures |KeysOf(order)| == |order|
  {
    if order != [] {
      var init, last := order[..|order| - 1], order[|order| - 1];
      assert order == init + [last];
      KeysCount(init);
      KeysMore(init, last);
      forall c | c in init
        ensures c.key != last.key
      {
        var i :| 0 <= i < |init| && init[i] == c;
        assert order[i].key != order[|order| - 1].key;
      }
      assert last.key !in KeysOf(init);
    }
  }

  class Cache {
    const capacity: nat
    var store: map<Bytes, Bytes>
    var order: seq<Cell>
    var entries: map<Bytes, Cell>
    var stats: Stats

    ghost function Value(): State
      reads this
    {
      State(store, order, stats)
    }

    /** The list and the map hold the same cells, at most `capacity` of them. */
    ghost predicate Linked()
      reads this
    {
      && 1 <= capacity <= 256
      && Distinct(order) && |order| <= capacity
      && entries.Keys == KeysOf(order)
      && forall i :: 0 <= i < |order| ==> entries[order[i].key] == order[i]
    }

    ghost predicate Valid()
      reads this
    {
      Linked() && Good(capacity, Value())
    }

    constructor (capacity: nat, store: map<Bytes, Bytes>)
      requires 1 <= capacity <= 256
      ensures Valid() && this.capacity == capacity && Value() == Empty(store)
    {
      this.capacity := capacity;
      this.store := store;
      order, entries, stats := [], map[], Stats(0, 0, 0, 0);
    }

    /** Whether the map has an entry, and the cell it has, are what the list says. */
    lemma {:induction false} EntryIs(key: Bytes)
      requires Linked()
      ensures key in entries <==> Holds(order, key)
      ensures key in entries ==> entries[key] == order[Place(order, key)]
      ensures |entries| == |order|
    {
      KeysCount(order);
      assert |entries| == |entries.Keys|;
    }

    method Remove(key: Bytes)
      requires Linked() && key in entries
      modifies this`order, this`entries
      ensures Linked() && order == Drop(old(order), key)
    {
      hide Place, Drop;
      EntryIs(key);
      DropKeeps(order, key);
      ghost var was := order;
      order, entries := Drop(order, key), entries - {key};
      forall i | 0 <= i < |order|
        ensures order[i] in was && order[i].key != key
      {
        assert order[i] in order;
      }
      assert entries.Keys == KeysOf(order);
    }

    method Invalidate(key: Bytes)
      requires Linked()
      modifies this`order, this`entries
      ensures Linked() && order == Drop(old(order), key)
    {
      EntryIs(key);
      if key in entries {
        Remove(key);
      }
    }

    /** Puts a cell in front and in the map. */
    method PushFront(cell: Cell)
      requires Linked() && !Holds(order, cell.key) && |order| < capacity
      modifies this`order, this`entries
      ensures Linked() && order == [cell] + old(order)
    {
      ghost var was := order;
      order, entries := [cell] + order, entries[cell.key := cell];
      assert KeysOf(order) == {cell.key} + KeysOf(was);
      assert forall i :: 0 < i < |order| ==> order[i] == was[i - 1];
    }

    method EvictLast()
      requires Linked() && order != []
      modifies this`order, this`entries, this`stats
      ensures Linked() && order == old(order)[..|old(order)| - 1]
      ensures stats == old(stats).(evictions := old(stats).evictions + 1)
    {
      hide Place;
      var last := order[|order| - 1];
      EntryIs(last.key);
      assert Drop(order, last.key) == order[..|order| - 1] by { LastPlace(order); }
      Remove(last.key);
      stats := stats.(evictions := stats.evictions + 1);
    }

    method Get(key: Bytes, fails: bool) returns (r: Reply)
      requires Valid()
      modifies this`order, this`entries, this`stats
      ensures Valid() && (Value(), r) == Step(capacity, old(Value()), Op.Get(key, fails))
    {
      hide Place, Drop, Good;
      EntryIs(key);
      ghost var before := Value();
      StepKeeps(capacity, before, Op.Get(key, fails));
      if key in entries {
        var hit := entries[key];
        stats := stats.(hits := stats.hits + 1);
        HitRoom(capacity, before, key);
        Remove(key);
        PushFront(hit);
        return Reply.Value(Some(hit.value));
      }
      stats := stats.(misses := stats.misses + 1, backingCalls := stats.backingCalls + 1);
      if fails {
        return Failed;
      }
      if key !in store {
        return Reply.Value(None);
      }
      MissRoom(capacity, before, key);
      if |entries| == capacity {
        EvictLast();
      }
      PushFront(Cell(key, store[key]));
      r := Reply.Value(Some(store[key]));
    }

    method Set(key: Bytes, value: Bytes, fails: bool) returns (r: Reply)
      requires Valid()
      modifies this
      ensures Valid() && (Value(), r) == Step(capacity, old(Value()), Op.Set(key, value, fails))
    {
      hide Place, Drop;
      stats := stats.(backingCalls := stats.backingCalls + 1);
      if fails {
        return Failed;
      }
      ghost var before := Value();
      store := store[key := value];
      Invalidate(key);
      StepKeeps(capacity, before, Op.Set(key, value, false));
      r := Done;
    }

    method Delete(key: Bytes, fails: bool) returns (r: Reply)
      requires Valid()
      modifies this
      ensures Valid() && (Value(), r) == Step(capacity, old(Value()), Op.Delete(key, fails))
    {
      hide Place, Drop;
      stats := stats.(backingCalls := stats.backingCalls + 1);
      if fails {
        return Failed;
      }
      ghost var before := Value();
      r := Deleted(key in store);
      store := store - {key};
      Invalidate(key);
      StepKeeps(capacity, before, Op.Delete(key, false));
    }
  }

  method NewCache(capacity: int, store: map<Bytes, Bytes>) returns (c: Cache?)
    ensures c != null <==> 1 <= capacity <= 256
    ensures c != null ==> fresh(c) && c.Valid() && c.capacity == capacity && c.Value() == Empty(store)
  {
    if capacity < 1 || capacity > 256 {
      return null;
    }
    c := new Cache(capacity, store);
  }

  lemma {:induction false} LastPlace(order: seq<Cell>)
    requires Distinct(order) && order != []
    ensures Drop(order, order[|order| - 1].key) == order[..|order| - 1]
  {
    var i := Place(order, order[|order| - 1].key);
    assert i == |order| - 1;
  }

  lemma {:induction false} HitRoom(capacity: nat, s: State, key: Bytes)
    requires Good(capacity, s) && Holds(s.order, key)
    ensures var hit := s.order[Place(s.order, key)];
            && hit.key == key && key in s.store && s.store[key] == hit.value
            && |Drop(s.order, key)| < capacity && !Holds(Drop(s.order, key), key)
  {
    DropKeeps(s.order, key);
  }

  lemma {:induction false} MissRoom(capacity: nat, s: State, key: Bytes)
    requires Good(capacity, s) && !Holds(s.order, key)
    ensures |s.order| <= capacity
    ensures s.order != [] ==> !Holds(s.order[..|s.order| - 1], key)
  {
  }
}
