/**
 The database as clients see it: a map of byte strings, and transactions that buffer
 their changes until they commit. One transaction at a time may write.
 */
module Transactions {
  import opened ByteStrings
  import opened Entries
  import opened TableData

  datatype Change = Put(value: Bytes) | Erase

  type Changes = map<Bytes, Change>

  type ChangeList = seq<(Bytes, Change)>

  const MAX_KEY_BYTES: nat := 1000
  const MAX_VALUE_BYTES: nat := 3000

  /** The map with buffered changes laid over it. */
  function Overlay(d: Data, c: Changes): Data {
    map k | k in d.Keys + c.Keys && (k in c ==> c[k].Put?) :: if k in c then c[k].value else d[k]
  }

  function Applied(d: Data, k: Bytes, c: Change): Data {
    match c
    case Put(v) => d[k := v]
    case Erase => d - {k}
  }

  /** Changes applied one after the other. */
  function ApplyList(d: Data, changes: ChangeList): Data {
    if changes == [] then d
    else
      var last := changes[|changes| - 1];
      Applied(ApplyList(d, changes[..|changes| - 1]), last.0, last.1)
  }

  /** What a history of published lists has made of the empty map. */
  function Replayed(batches: seq<ChangeList>): Data {
    if batches == [] then map[] else ApplyList(Replayed(batches[..|batches| - 1]), batches[|batches| - 1])
  }

  lemma {:induction false} ReplayedMore(batches: seq<ChangeList>, changes: ChangeList)
    ensures Replayed(batches + [changes]) == ApplyList(Replayed(batches), changes)
  {
    assert (batches + [changes])[..|batches|] == batches;
  }

  lemma {:induction false} ListOfOne(d: Data, k: Bytes, c: Change)
    ensures ApplyList(d, [(k, c)]) == Applied(d, k, c)
  {
    assert [(k, c)][..0] == [];
  }

  /** The buffered changes in the order of their keys' first use. */
  function Listed(order: seq<Bytes>, c: Changes): ChangeList
    requires forall k :: k in order ==> k in c
  {
    seq(|order|, i requires 0 <= i < |order| => assert order[i] in order; (order[i], c[order[i]]))
  }

  lemma {:induction false} RecordOverlays(d: Data, c: Changes, k: Bytes, change: Change)
    ensures Overlay(d, c[k := change]) == Applied(Overlay(d, c), k, change)
  {
  }

  ghost predicate NoRepeats(order: seq<Bytes>) {
    forall i, j :: 0 <= i < j < |order| ==> order[i] != order[j]
  }

  /** Applying buffered changes in order gives the map that the transaction has shown. */
  lemma {:induction false} OrderIsOverlay(d: Data, order: seq<Bytes>, c: Changes)
    requires NoRepeats(order) && forall k :: k in order <==> k in c
    ensures ApplyList(d, Listed(order, c)) == Overlay(d, c)
  {
    OrderPrefix(d, order, c, |order|);
    TakeAll(order);
    TakeAll(Listed(order, c));
    assert Foremost(order, c, |order|) == c;
  }

  /** The buffered changes under the first `n` keys. */
  function Foremost(order: seq<Bytes>, c: Changes, n: nat): Changes
    requires n <= |order|
  {
    map k | k in c && k in order[..n] :: c[k]
  }

  lemma {:induction false} ForemostMore(order: seq<Bytes>, c: Changes, n: nat)
    requires 0 < n <= |order| && order[n - 1] in c
    ensures Foremost(order, c, n) == Foremost(order, c, n - 1)[order[n - 1] := c[order[n - 1]]]
  {
    TakeStep(order, n - 1);
  }

  lemma {:induction false} ListedMore(d: Data, order: seq<Bytes>, c: Changes, n: nat)
    requires 0 < n <= |order| && forall k :: k in order ==> k in c
    ensures order[n - 1] in c
    ensures ApplyList(d, Listed(order, c)[..n])
            == Applied(ApplyList(d, Listed(order, c)[..n - 1]), order[n - 1], c[order[n - 1]])
  {
    hide Applied;
    var l := Listed(order, c);
    assert order[n - 1] in order;
    assert l[..n][..n - 1] == l[..n - 1] && l[..n][n - 1] == l[n - 1];
  }

  lemma {:induction false} OrderPrefix(d: Data, order: seq<Bytes>, c: Changes, n: nat)
    requires NoRepeats(order) && n <= |order| && forall k :: k in order ==> k in c
    ensures ApplyList(d, Listed(order, c)[..n]) == Overlay(d, Foremost(order, c, n))
    decreases n
  {
    hide Listed, Applied, NoRepeats;
    if n == 0 {
      assert Overlay(d, Foremost(order, c, 0)) == d;
    } else {
      hide Overlay, Foremost, ApplyList;
      OrderPrefix(d, order, c, n - 1);
      ListedMore(d, order, c, n);
      ForemostMore(order, c, n);
      RecordOverlays(d, Foremost(order, c, n - 1), order[n - 1], c[order[n - 1]]);
    }
  }

  // ----- Ranges

  /** Every binding between the bounds, once, in ascending order of keys. */
  ghost predicate IsRange(d: Data, lo: Bytes, hi: Bytes, items: seq<(Bytes, Bytes)>) {
    && (forall i, j :: 0 <= i < j < |items| ==> Less(items[i].0, items[j].0))
    && (forall i :: 0 <= i < |items| ==>
          items[i].0 in d && d[items[i].0] == items[i].1 && Leq(lo, items[i].0) && Leq(items[i].0, hi))
    && (forall k :: k in d && Leq(lo, k) && Leq(k, hi) ==> exists i :: 0 <= i < |items| && items[i].0 == k)
  }

  /** The smallest of some keys. */
  method Smallest(keys: set<Bytes>) returns (k: Bytes)
    requires keys != {}
    ensures k in keys && forall x :: x in keys ==> Leq(k, x)
  {
    StrictTotalOrder();
    k :| k in keys;
    var rest := keys - {k};
    while rest != {}
      invariant rest <= keys && k in keys
      invariant forall x :: x in keys && x !in rest ==> Leq(k, x)
      decreases rest
    {
      var x :| x in rest;
      if Less(x, k) {
        k := x;
      }
      rest := rest - {x};
    }
  }

  method RangeOf(d: Data, lo: Bytes, hi: Bytes) returns (items: seq<(Bytes, Bytes)>)
    ensures IsRange(d, lo, hi, items)
  {
    hide Less;
    StrictTotalOrder();
    var rest := set k | k in d && Leq(lo, k) && Leq(k, hi);
    items := [];
    while rest != {}
      invariant forall k :: k in rest ==> k in d && Leq(lo, k) && Leq(k, hi)
      invariant forall i, j :: 0 <= i < j < |items| ==> Less(items[i].0, items[j].0)
      invariant forall i :: 0 <= i < |items| ==>
                items[i].0 in d && d[items[i].0] == items[i].1 && Leq(lo, items[i].0) && Leq(items[i].0, hi)
      invariant forall i, k :: 0 <= i < |items| && k in rest ==> Less(items[i].0, k)
      invariant forall k :: k in d && Leq(lo, k) && Leq(k, hi) && k !in rest ==>
                exists i :: 0 <= i < |items| && items[i].0 == k
      decreases rest
    {
      var k := Smallest(rest);
      ghost var was := items;
      items := items + [(k, d[k])];
      rest := rest - {k};
      forall x | x in d && Leq(lo, x) && Leq(x, hi) && x !in rest
        ensures exists i :: 0 <= i < |items| && items[i].0 == x
      {
        if x == k {
          assert items[|was|].0 == k;
        } else {
          var i :| 0 <= i < |was| && was[i].0 == x;
          assert items[i] == was[i];
        }
      }
    }
  }

  // ----- The database

  class Database {
    var data: Data
    var closed: bool
    var writerActive: bool
    ghost var writers: set<Tx>
    ghost var batches: seq<ChangeList>

    /** One open writer at most, nothing has changed since it began, and the map is what was published. */
    ghost predicate Valid()
      reads this, writers
    {
      && (writerActive <==> writers != {})
      && (forall t, u :: t in writers && u in writers ==> t == u)
      && (forall t :: t in writers ==> t.db == this && t.Open() && !t.readOnly && t.base == data)
      && data == Replayed(batches)
    }

    constructor ()
      ensures Valid() && data == map[] && !closed && writers == {} && batches == []
    {
      data, closed, writerActive, writers, batches := map[], false, false, {}, [];
    }

    method Begin(readOnly: bool) returns (tx: Tx?)
      requires Valid()
      modifies this`writerActive, this`writers
      ensures Valid() && data == old(data)
      ensures tx == null <==> closed || (!readOnly && old(writerActive))
      ensures tx != null ==>
                fresh(tx) && tx.Valid() && tx.db == this && tx.readOnly == readOnly && tx.Open() && tx.changes == map[]
      ensures writers == if tx != null && !readOnly then {tx} else old(writers)
    {
      if closed || (!readOnly && writerActive) {
        return null;
      }
      tx := new Tx(this, readOnly, data);
      if !readOnly {
        writerActive := true;
        writers := {tx};
      }
    }

    /** A direct write; it is refused while a transaction is writing. */
    method Set(key: Bytes, value: Bytes) returns (ok: bool)
      requires Valid()
      modifies this`data, this`batches
      ensures Valid()
      ensures ok <==> !closed && !writerActive && key != []
      ensures data == if ok then old(data)[key := value] else old(data)
      ensures batches == if ok then old(batches) + [[(key, Put(value))]] else old(batches)
    {
      if closed || writerActive || key == [] {
        return false;
      }
      ReplayedMore(batches, [(key, Put(value))]);
      ListOfOne(data, key, Put(value));
      data := data[key := value];
      batches := batches + [[(key, Put(value))]];
      ok := true;
    }

    method Delete(key: Bytes) returns (ok: bool, deleted: bool)
      requires Valid()
      modifies this`data, this`batches
      ensures Valid()
      ensures ok <==> !closed && !writerActive
      ensures deleted <==> ok && key != [] && key in old(data)
      ensures data == if deleted then old(data) - {key} else old(data)
      ensures batches == if deleted then old(batches) + [[(key, Erase)]] else old(batches)
    {
      if closed || writerActive {
        return false, false;
      }
      if key == [] || key !in data {
        return true, false;
      }
      ReplayedMore(batches, [(key, Erase)]);
      ListOfOne(data, key, Erase);
      data := data - {key};
      batches := batches + [[(key, Erase)]];
      return true, true;
    }

    /** Publishes all changes or, if one of them is malformed, none. */
    method ApplyBatch(changes: ChangeList) returns (ok: bool)
      modifies this`data, this`batches
      ensures ok <==> !closed && forall i :: 0 <= i < |changes| ==> Wellformed(changes[i].0, changes[i].1)
      ensures data == if ok then ApplyList(old(data), changes) else old(data)
      ensures batches == if ok then old(batches) + [changes] else old(batches)
    {
      if closed {
        return false;
      }
      var i := 0;
      while i < |changes|
        invariant 0 <= i <= |changes|
        invariant forall j :: 0 <= j < i ==> Wellformed(changes[j].0, changes[j].1)
      {
        if !Wellformed(changes[i].0, changes[i].1) {
          return false;
        }
        i := i + 1;
      }
      i := 0;
      while i < |changes|
        invariant 0 <= i <= |changes|
        invariant data == ApplyList(old(data), changes[..i]) && batches == old(batches)
      {
        TakeStep(changes, i);
        assert changes[..i + 1][..i] == changes[..i];
        data := Applied(data, changes[i].0, changes[i].1);
        i := i + 1;
      }
      TakeAll(changes);
      batches := batches + [changes];
      ok := true;
    }
  }

  predicate Wellformed(k: Bytes, c: Change) {
    0 < |k| <= MAX_KEY_BYTES && (c.Put? ==> |c.value| <= MAX_VALUE_BYTES)
  }

  lemma {:induction false} ListedWellformed(order: seq<Bytes>, c: Changes)
    requires forall k :: k in order <==> k in c
    ensures var l := Listed(order, c);
            (forall i :: 0 <= i < |l| ==> Wellformed(l[i].0, l[i].1)) <==> forall k :: k in c ==> Wellformed(k, c[k])
  {
    var l := Listed(order, c);
    if forall i :: 0 <= i < |l| ==> Wellformed(l[i].0, l[i].1) {
      forall k | k in c ensures Wellformed(k, c[k]) {
        var i :| 0 <= i < |order| && order[i] == k;
        assert l[i] == (k, c[k]);
      }
    }
  }

  class Tx {
    const db: Database
    const readOnly: bool
    var closed: bool
    var order: seq<Bytes>
    var changes: Changes
    ghost const base: Data

    constructor (db: Database, readOnly: bool, ghost base: Data)
      ensures this.db == db && this.readOnly == readOnly && this.base == base
      ensures Valid() && Open() && changes == map[]
    {
      this.db := db;
      this.readOnly := readOnly;
      this.base := base;
      closed := false;
      order := [];
      changes := map[];
    }

    ghost predicate Open()
      reads this
    {
      !closed
    }

    /** The order lists each changed key once. */
    ghost predicate Valid()
      reads this
    {
      NoRepeats(order) && forall k :: k in order <==> k in changes
    }

    /** What the transaction sees: the committed map with its own changes. */
    ghost function View(): Data
      reads this, db
    {
      Overlay(db.data, changes)
    }

    method Record(key: Bytes, change: Change)
      requires Valid()
      modifies this`order, this`changes
      ensures Valid() && changes == old(changes)[key := change]
      ensures View() == Applied(old(View()), key, change)
    {
      RecordOverlays(db.data, changes, key, change);
      if key !in changes {
        order := order + [key];
      }
      changes := changes[key := change];
    }

    /** The value a transaction sees under a key. */
    method Value(key: Bytes) returns (r: Option<Bytes>)
      ensures r == if key in View() then Some(View()[key]) else None
    {
      if key in changes {
        return if changes[key].Put? then Some(changes[key].value) else None;
      }
      r := if key in db.data then Some(db.data[key]) else None;
    }

    method Set(key: Bytes, value: Bytes) returns (ok: bool)
      requires Valid()
      modifies this`order, this`changes
      ensures Valid()
      ensures ok <==> !closed && !db.closed && !readOnly && key != []
      ensures View() == if ok then old(View())[key := value] else old(View())
      ensures changes == if ok then old(changes)[key := Put(value)] else old(changes)
    {
      if closed || db.closed || readOnly || key == [] {
        return false;
      }
      Record(key, Put(value));
      ok := true;
    }

    method Delete(key: Bytes) returns (ok: bool, found: bool)
      requires Valid()
      modifies this`order, this`changes
      ensures Valid()
      ensures ok <==> !closed && !db.closed && !readOnly
      ensures found <==> ok && key != [] && key in old(View())
      ensures View() == if found then old(View()) - {key} else old(View())
      ensures changes == if ok && key != [] then old(changes)[key := Erase] else old(changes)
    {
      if closed || db.closed || readOnly {
        return false, false;
      }
      if key == [] {
        return true, false;
      }
      var value := Value(key);
      assert value.None? ==> View() - {key} == View();
      Record(key, Erase);
      return true, value.Some?;
    }

    /** The bindings that the transaction sees between the bounds. */
    method Range(start: Bytes, end: Bytes) returns (r: Option<seq<(Bytes, Bytes)>>)
      ensures r.Some? <==> !closed && !db.closed
      ensures r.Some? ==> IsRange(View(), start, end, r.value)
    {
      if closed || db.closed {
        return None;
      }
      StrictTotalOrder();
      if Less(end, start) {
        return Some([]);
      }
      var items := RangeOf(db.data, start, end);
      var values: Data := map[];
      var i := 0;
      while i < |items|
        invariant 0 <= i <= |items|
        invariant forall k :: k in values <==> exists j :: 0 <= j < i && items[j].0 == k
        invariant forall k :: k in values ==> k in db.data && values[k] == db.data[k]
      {
        values := values[items[i].0 := items[i].1];
        i := i + 1;
      }
      values := Merge(values, start, end);
      items := RangeOf(values, start, end);
      SameRange(db.data, View(), values, start, end, items);
      r := Some(items);
    }

    /** Lays the buffered changes between the bounds over some bindings. */
    method Merge(base: Data, start: Bytes, end: Bytes) returns (values: Data)
      ensures forall k :: Leq(start, k) && Leq(k, end) ==>
                (k in values <==> k in Overlay(base, changes))
                && (k in values ==> values[k] == Overlay(base, changes)[k])
      ensures forall k :: !(Leq(start, k) && Leq(k, end)) ==> (k in values <==> k in base)
    {
      values := base;
      var rest := changes.Keys;
      while rest != {}
        invariant rest <= changes.Keys
        invariant forall k :: Leq(start, k) && Leq(k, end) && k !in rest ==>
                    (k in values <==> k in Overlay(base, changes))
                    && (k in values ==> values[k] == Overlay(base, changes)[k])
        invariant forall k :: k in rest || !(Leq(start, k) && Leq(k, end)) ==>
                  (k in values <==> k in base) && (k in base ==> values[k] == base[k])
        decreases rest
      {
        var k :| k in rest;
        rest := rest - {k};
        if Leq(start, k) && Leq(k, end) {
          if changes[k].Erase? {
            values := values - {k};
          } else {
            values := values[k := changes[k].value];
          }
        }
      }
    }

    /**
     Publishes the changes in one batch. The committed map becomes what the transaction has
     shown, or, if a change is malformed, stays as it is and the transaction stays open.
     */
    method Commit() returns (ok: bool)
      requires Valid() && db.Valid() && (Open() && !readOnly ==> this in db.writers)
               && (!Open() ==> this !in db.writers)
      modifies this`closed, db
      ensures Valid() && db.Valid() && (Open() && !readOnly ==> this in db.writers) && (!Open() ==> this !in db.writers)
      ensures ok <==> !old(closed) && !old(db.closed) && !readOnly && forall k :: k in changes ==>
                Wellformed(k, changes[k])
      ensures db.data == if ok then old(View()) else old(db.data)
      ensures db.batches == if ok then old(db.batches) + [Listed(order, changes)] else old(db.batches)
      ensures ok ==> closed && !db.writerActive
      ensures !ok && !readOnly ==> closed == old(closed) && db.writers == old(db.writers)
    {
      if closed || db.closed {
        return false;
      }
      if readOnly {
        closed := true;
        return false;
      }
      ok := Publish();
      if ok {
        ReplayedMore(old(db.batches), Listed(order, changes));
        closed := true;
        db.writerActive := false;
        db.writers := {};
      }
    }

    method Publish() returns (ok: bool)
      requires Valid()
      modifies db`data, db`batches
      ensures ok <==> !db.closed && forall k :: k in changes ==> Wellformed(k, changes[k])
      ensures db.data == if ok then old(View()) else old(db.data)
      ensures db.batches == if ok then old(db.batches) + [Listed(order, changes)] else old(db.batches)
      ensures ok ==> db.data == ApplyList(old(db.data), Listed(order, changes))
    {
      OrderIsOverlay(db.data, order, changes);
      ListedWellformed(order, changes);
      var mutations := Listed(order, changes);
      ok := db.ApplyBatch(mutations);
    }

    /** Gives the changes up; the committed map stays as it is. */
    method Rollback()
      requires Valid() && db.Valid() && (Open() && !readOnly ==> this in db.writers)
               && (!Open() ==> this !in db.writers)
      modifies this`closed, db`writerActive, db`writers
      ensures Valid() && db.Valid() && closed && this !in db.writers && db.data == old(db.data)
      ensures old(closed) || readOnly ==> db.writers == old(db.writers)
    {
      if closed {
        return;
      }
      closed := true;
      if !readOnly {
        db.writerActive := false;
        db.writers := {};
      }
    }
  }

  lemma {:induction false} SameRange(d: Data, view: Data, values: Data, lo: Bytes, hi: Bytes,
      items: seq<(Bytes, Bytes)>)
    requires IsRange(values, lo, hi, items)
    requires forall k :: Leq(lo, k) && Leq(k, hi) ==>
              (k in values <==> k in view) && (k in values ==> values[k] == view[k])
    ensures IsRange(view, lo, hi, items)
  {
  }
}
