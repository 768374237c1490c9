/**
 Entries of B+Tree nodes, and the reference semantics of an ordered collection of
 entries: `Put`, `Remove` and `Find` on a strictly ascending sequence, and the map
 such a sequence stands for.
 */
module Entries {
  import opened ByteStrings

  /** One record of a node: a value in a leaf, a child page in an internal node. */
  datatype Entry = Entry(key: Bytes, value: Bytes, ptr: nat)

  datatype Option<+T> = None | Some(value: T)

  ghost predicate Sorted(s: seq<Entry>) {
    forall i, j :: 0 <= i < j < |s| ==> Less(s[i].key, s[j].key)
  }

  ghost predicate AllBelow(s: seq<Entry>, k: Bytes) {
    forall i :: 0 <= i < |s| ==> Less(s[i].key, k)
  }

  ghost predicate AllAbove(s: seq<Entry>, k: Bytes) {
    forall i :: 0 <= i < |s| ==> Less(k, s[i].key)
  }

  ghost predicate HasKey(s: seq<Entry>, k: Bytes) {
    exists i :: 0 <= i < |s| && s[i].key == k
  }

  /** `s` with `k` bound to `v`, in key order. */
  function Put(s: seq<Entry>, k: Bytes, v: Bytes): (r: seq<Entry>) {
    if s == [] then [Entry(k, v, 0)]
    else if Less(s[0].key, k) then [s[0]] + Put(s[1..], k, v)
    else if s[0].key == k then [Entry(k, v, 0)] + s[1..]
    else [Entry(k, v, 0)] + s
  }

  /** `s` without its entry for `k`. */
  function Remove(s: seq<Entry>, k: Bytes): (r: seq<Entry>) {
    if s == [] then []
    else if s[0].key == k then s[1..]
    else [s[0]] + Remove(s[1..], k)
  }

  function Find(s: seq<Entry>, k: Bytes): (r: Option<Bytes>) {
    if s == [] then None
    else if s[0].key == k then Some(s[0].value)
    else Find(s[1..], k)
  }

  /** The map that an ascending sequence of entries stands for. */
  function ToMap(s: seq<Entry>): (m: map<Bytes, Bytes>) {
    if s == [] then map[]
    else ToMap(s[1..])[s[0].key := s[0].value]
  }

  lemma {:induction false} ToMapKeys(s: seq<Entry>)
    ensures forall k :: k in ToMap(s) <==> HasKey(s, k)
  {
    if s != [] {
      ToMapKeys(s[1..]);
      forall k ensures k in ToMap(s) <==> HasKey(s, k) {
        if HasKey(s[1..], k) {
          var i :| 0 <= i < |s[1..]| && s[1..][i].key == k;
          assert s[i + 1].key == k;
        }
        if HasKey(s, k) && s[0].key != k {
          var i :| 0 <= i < |s| && s[i].key == k;
          assert s[1..][i - 1].key == k;
        }
      }
    }
  }

  lemma {:induction false} PutAfter(a: seq<Entry>, b: seq<Entry>, k: Bytes, v: Bytes)
    requires AllBelow(a, k)
    ensures Put(a + b, k, v) == a + Put(b, k, v)
  {
    if a == [] {
      assert a + b == b;
    } else {
      assert (a + b)[1..] == a[1..] + b;
      PutAfter(a[1..], b, k, v);
    }
  }

  lemma {:induction false} PutBefore(a: seq<Entry>, b: seq<Entry>, k: Bytes, v: Bytes)
    requires AllAbove(b, k)
    ensures Put(a + b, k, v) == Put(a, k, v) + b
  {
    StrictTotalOrder();
    if a == [] {
      assert a + b == b;
      if b != [] {
        assert Less(k, b[0].key);
      }
    } else {
      assert (a + b)[1..] == a[1..] + b;
      PutBefore(a[1..], b, k, v);
    }
  }

  lemma {:induction false} PutMiddle(a: seq<Entry>, b: seq<Entry>, c: seq<Entry>, k: Bytes, v: Bytes)
    requires AllBelow(a, k) && AllAbove(c, k)
    ensures Put(a + b + c, k, v) == a + Put(b, k, v) + c
  {
    assert a + b + c == a + (b + c);
    PutAfter(a, b + c, k, v);
    PutBefore(b, c, k, v);
  }

  lemma {:induction false} RemoveMiddle(a: seq<Entry>, b: seq<Entry>, c: seq<Entry>, k: Bytes)
    requires AllBelow(a, k) && AllAbove(c, k)
    ensures Remove(a + b + c, k) == a + Remove(b, k) + c
  {
    hide Remove, AllBelow, AllAbove;
    assert a + b + c == a + (b + c);
    RemoveAfter(a, b + c, k);
    RemoveBefore(b, c, k);
    assert a + (Remove(b, k) + c) == a + Remove(b, k) + c;
  }

  lemma {:induction false} RemoveAfter(a: seq<Entry>, b: seq<Entry>, k: Bytes)
    requires AllBelow(a, k)
    ensures Remove(a + b, k) == a + Remove(b, k)
  {
    StrictTotalOrder();
    if a == [] {
      assert a + b == b;
    } else {
      assert (a + b)[1..] == a[1..] + b;
      RemoveAfter(a[1..], b, k);
    }
  }

  lemma {:induction false} RemoveBefore(a: seq<Entry>, b: seq<Entry>, k: Bytes)
    requires AllAbove(b, k)
    ensures Remove(a + b, k) == Remove(a, k) + b
  {
    if a == [] {
      assert a + b == b;
      RemoveMissing(b, k);
    } else {
      assert (a + b)[1..] == a[1..] + b;
      RemoveBefore(a[1..], b, k);
    }
  }

  lemma {:induction false} RemoveMissing(s: seq<Entry>, k: Bytes)
    requires AllAbove(s, k)
    ensures Remove(s, k) == s
  {
    StrictTotalOrder();
    if s != [] {
      RemoveMissing(s[1..], k);
    }
  }

  lemma {:induction false} SortedCons(e: Entry, s: seq<Entry>)
    requires Sorted(s) && AllAbove(s, e.key)
    ensures Sorted([e] + s)
  {
    var r := [e] + s;
    forall i, j | 0 <= i < j < |r| ensures Less(r[i].key, r[j].key) {
      assert r[j] == s[j - 1];
      if i > 0 {
        assert r[i] == s[i - 1];
      }
    }
  }

  lemma {:induction false} SortedTail(s: seq<Entry>)
    requires Sorted(s) && s != []
    ensures Sorted(s[1..]) && AllAbove(s[1..], s[0].key)
  {
    assert s == [s[0]] + s[1..];
    SortedSlices([s[0]], s[1..]);
  }

  lemma {:induction false} PutMembers(s: seq<Entry>, k: Bytes, v: Bytes)
    ensures forall e :: e in Put(s, k, v) ==> e in s || e == Entry(k, v, 0)
  {
    if s != [] {
      PutMembers(s[1..], k, v);
    }
  }

  lemma {:induction false} PutSorted(s: seq<Entry>, k: Bytes, v: Bytes)
    requires Sorted(s)
    ensures Sorted(Put(s, k, v))
  {
    StrictTotalOrder();
    if s != [] {
      SortedTail(s);
      if Less(s[0].key, k) {
        PutSorted(s[1..], k, v);
        PutMembers(s[1..], k, v);
        var rest := Put(s[1..], k, v);
        forall i | 0 <= i < |rest| ensures Less(s[0].key, rest[i].key) {
          assert rest[i] in rest;
        }
        SortedCons(s[0], rest);
      } else if s[0].key == k {
        SortedCons(Entry(k, v, 0), s[1..]);
      } else {
        SortedCons(Entry(k, v, 0), s);
      }
    }
  }

  lemma {:induction false} PutMap(s: seq<Entry>, k: Bytes, v: Bytes)
    ensures ToMap(Put(s, k, v)) == ToMap(s)[k := v]
  {
    if s != [] {
      StrictTotalOrder();
      PutMap(s[1..], k, v);
    }
  }

  /** On ascending sequences `Put` keeps the order and is the update of the map. */
  lemma {:induction false} PutIsUpdate(s: seq<Entry>, k: Bytes, v: Bytes)
    requires Sorted(s)
    ensures Sorted(Put(s, k, v))
    ensures ToMap(Put(s, k, v)) == ToMap(s)[k := v]
    ensures forall e :: e in Put(s, k, v) ==> e in s || e == Entry(k, v, 0)
  {
    hide Put, ToMap, Sorted;
    PutSorted(s, k, v);
    PutMap(s, k, v);
    PutMembers(s, k, v);
  }

  lemma {:induction false} RemoveMembers(s: seq<Entry>, k: Bytes)
    ensures forall e :: e in Remove(s, k) ==> e in s
  {
    if s != [] {
      RemoveMembers(s[1..], k);
    }
  }

  lemma {:induction false} RemoveSorted(s: seq<Entry>, k: Bytes)
    requires Sorted(s)
    ensures Sorted(Remove(s, k))
  {
    if s != [] {
      SortedTail(s);
      if s[0].key != k {
        RemoveSorted(s[1..], k);
        RemoveMembers(s[1..], k);
        var rest := Remove(s[1..], k);
        forall i | 0 <= i < |rest| ensures Less(s[0].key, rest[i].key) {
          assert rest[i] in rest;
        }
        SortedCons(s[0], rest);
      }
    }
  }

  lemma {:induction false} RemoveMap(s: seq<Entry>, k: Bytes)
    requires Sorted(s)
    ensures ToMap(Remove(s, k)) == ToMap(s) - {k}
  {
    if s != [] {
      SortedTail(s);
      RemoveMap(s[1..], k);
      if s[0].key == k {
        StrictTotalOrder();
        ToMapKeys(s[1..]);
        assert k !in ToMap(s[1..]);
      }
    }
  }

  /** On ascending sequences `Remove` keeps the order and is the removal from the map. */
  lemma {:induction false} RemoveIsDelete(s: seq<Entry>, k: Bytes)
    requires Sorted(s)
    ensures Sorted(Remove(s, k))
    ensures ToMap(Remove(s, k)) == ToMap(s) - {k}
    ensures forall e :: e in Remove(s, k) ==> e in s
  {
    hide Remove, ToMap, Sorted;
    RemoveSorted(s, k);
    RemoveMap(s, k);
    RemoveMembers(s, k);
  }

  lemma {:induction false} FindIsLookup(s: seq<Entry>, k: Bytes)
    ensures Find(s, k) == if k in ToMap(s) then Some(ToMap(s)[k]) else None
  {
    if s != [] {
      FindIsLookup(s[1..], k);
    }
  }

  lemma {:induction false} FindAt(s: seq<Entry>, i: nat)
    requires Sorted(s) && i < |s|
    ensures Find(s, s[i].key) == Some(s[i].value)
  {
    StrictTotalOrder();
    if i > 0 {
      assert s[1..][i - 1] == s[i];
      FindAt(s[1..], i - 1);
    }
  }

  lemma {:induction false} FindMissing(s: seq<Entry>, k: Bytes)
    requires !HasKey(s, k)
    ensures Find(s, k) == None
  {
    if s != [] {
      assert s[0].key != k;
      assert forall i :: 0 <= i < |s[1..]| ==> s[1..][i] == s[i + 1];
      FindMissing(s[1..], k);
    }
  }

  lemma {:induction false} SortedSlices(a: seq<Entry>, b: seq<Entry>)
    requires Sorted(a + b)
    ensures Sorted(a) && Sorted(b)
    ensures forall i, j :: 0 <= i < |a| && 0 <= j < |b| ==> Less(a[i].key, b[j].key)
  {
    var s := a + b;
    assert forall i :: 0 <= i < |a| ==> s[i] == a[i];
    assert forall j :: 0 <= j < |b| ==> s[|a| + j] == b[j];
    forall i, j | 0 <= i < j < |b| ensures Less(b[i].key, b[j].key) {
      assert s[|a| + i] == b[i] && s[|a| + j] == b[j];
    }
    forall i, j | 0 <= i < |a| && 0 <= j < |b| ensures Less(a[i].key, b[j].key) {
      assert s[i] == a[i] && s[|a| + j] == b[j];
    }
  }

  lemma {:induction false} TakeStep<T>(s: seq<T>, i: nat)
    requires i < |s|
    ensures s[..i + 1] == s[..i] + [s[i]]
  {
  }

  lemma {:induction false} SliceStep<T>(s: seq<T>, a: nat, b: nat)
    requires a <= b < |s|
    ensures s[a..b + 1] == s[a..b] + [s[b]]
  {
  }

  lemma {:induction false} SliceJoin<T>(s: seq<T>, a: nat, b: nat)
    requires a <= b <= |s|
    ensures s[..b] == s[..a] + s[a..b]
  {
  }

  lemma {:induction false} TakeAll<T>(s: seq<T>)
    ensures s[..|s|] == s
  {
  }

  lemma {:induction false} HasMiddle(a: seq<Entry>, b: seq<Entry>, c: seq<Entry>, key: Bytes)
    requires AllBelow(a, key) && AllAbove(c, key)
    ensures HasKey(a + b + c, key) <==> HasKey(b, key)
  {
    StrictTotalOrder();
    var s := a + b + c;
    if HasKey(s, key) {
      var i :| 0 <= i < |s| && s[i].key == key;
      assert |a| <= i < |a| + |b|;
      assert b[i - |a|].key == key;
    }
    if HasKey(b, key) {
      var i :| 0 <= i < |b| && b[i].key == key;
      assert s[|a| + i].key == key;
    }
  }

  lemma {:induction false} FindMiddle(a: seq<Entry>, b: seq<Entry>, c: seq<Entry>, k: Bytes)
    requires AllBelow(a, k) && AllAbove(c, k)
    ensures Find(a + b + c, k) == Find(b, k)
  {
    StrictTotalOrder();
    if a != [] {
      assert (a + b + c)[1..] == a[1..] + b + c;
      FindMiddle(a[1..], b, c, k);
    } else if b != [] {
      assert a + b + c == b + c;
      assert (b + c)[1..] == [] + b[1..] + c;
      FindMiddle([], b[1..], c, k);
    } else {
      assert a + b + c == c;
      assert !HasKey(c, k);
      FindMissing(c, k);
    }
  }
}
