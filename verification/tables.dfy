/**
 Operations on tables: rows are written together with their index entries, in the view of
 one transaction, and found again through the primary key or through an index.
 */
module Tables {
  import opened ByteStrings
  import opened Entries
  import opened Codecs
  import opened Schemas
  import opened Rows
  import opened Descriptors
  import opened TableData
  import opened IndexUpkeep
  import opened Transactions

  // ----- The published batches

  /** Every batch that was published does one step of the database. */
  ghost predicate Orderly(batches: seq<ChangeList>) {
    forall i :: 0 <= i < |batches| ==> OrderlyAt(batches, i)
  }

  ghost predicate OrderlyAt(batches: seq<ChangeList>, i: nat)
    requires i < |batches|
  {
    exists step :: Does(Replayed(batches[..i]), ApplyList(Replayed(batches[..i]), batches[i]), step)
  }

  lemma {:induction false} OrderlyMore(batches: seq<ChangeList>, changes: ChangeList, step: Step)
    requires Orderly(batches) && Does(Replayed(batches), ApplyList(Replayed(batches), changes), step)
    ensures Orderly(batches + [changes])
  {
    hide Does, ApplyList, Replayed;
    var all := batches + [changes];
    forall i | 0 <= i < |all| ensures OrderlyAt(all, i) {
      if i < |batches| {
        assert OrderlyAt(batches, i) && all[..i] == batches[..i] && all[i] == batches[i];
      } else {
        assert all[..i] == batches && all[i] == changes;
        assert Does(Replayed(all[..i]), ApplyList(Replayed(all[..i]), all[i]), step);
      }
    }
  }

  /** Whatever the operations were, tables and indexes agree. */
  lemma {:induction false} OrderlyKeeps(batches: seq<ChangeList>)
    requires Orderly(batches)
    ensures DatabaseOk(Replayed(batches))
    decreases |batches|
  {
    hide Does, ApplyList, DatabaseOk;
    if batches == [] {
      RunsKeepIndexes([map[]], [], 0);
    } else {
      var n := |batches| - 1;
      var init := batches[..n];
      forall i | 0 <= i < n ensures OrderlyAt(init, i) {
        assert OrderlyAt(batches, i) && init[..i] == batches[..i];
      }
      OrderlyKeeps(init);
      assert OrderlyAt(batches, n);
      var step :| Does(Replayed(init), ApplyList(Replayed(init), batches[n]), step);
      StepKeeps(Replayed(init), Replayed(batches), step);
    }
  }

  // ----- Scanning a prefix

  predicate HasNext(prefix: Bytes) {
    exists i :: 0 <= i < |prefix| && prefix[i] != 255
  }

  /**
   A bound with nothing between `prefix` and it but strings that start with `prefix`; it is
   above all of those unless `prefix` is all 0xff bytes.
   */
  method PrefixEnd(prefix: Bytes) returns (end: Bytes)
    ensures HasNext(prefix) <==> forall x :: Less(prefix + x, end)
    ensures forall k :: Leq(prefix, k) && Less(k, end) ==> prefix <= k
    ensures !HasNext(prefix) ==> end == prefix + [0]
  {
    var i := |prefix|;
    while i > 0
      invariant 0 <= i <= |prefix|
      invariant forall j :: i <= j < |prefix| ==> prefix[j] == 255
    {
      i := i - 1;
      if prefix[i] != 255 {
        end := prefix[..i] + [prefix[i] + 1];
        forall x: Bytes ensures Less(prefix + x, end) {
          assert (prefix + x)[..i] == end[..i];
          assert DiffersAt(prefix + x, end, i);
          LessMeans(prefix + x, end);
        }
        forall k | Leq(prefix, k) && Less(k, end) ensures prefix <= k {
          BelowEnd(prefix, i, k);
        }
        return;
      }
    }
    end := prefix + [0];
    StrictTotalOrder();
    assert !Less(prefix + [0], end);
    forall k | Leq(prefix, k) && Less(k, end) ensures prefix <= k {
      BelowNext(prefix, k);
    }
  }

  lemma {:induction false} BelowEnd(prefix: Bytes, i: nat, k: Bytes)
    requires i < |prefix| && prefix[i] != 255 && forall j :: i < j < |prefix| ==> prefix[j] == 255
    requires Leq(prefix, k) && Less(k, prefix[..i] + [prefix[i] + 1])
    ensures prefix <= k
  {
    hide Less;
    var end := prefix[..i] + [prefix[i] + 1];
    StrictTotalOrder();
    if prefix != k {
      LessMeans(prefix, k);
      var j: nat :| DiffersAt(prefix, k, j);
      if j < |prefix| && j < i {
        assert end[..j] == prefix[..j];
        assert DiffersAt(end, k, j);
        LessMeans(end, k);
      } else if j < |prefix| && j == i {
        assert end[..i] == k[..i];
        if k[i] > end[i] {
          assert DiffersAt(end, k, i);
          LessMeans(end, k);
        } else {
          assert end == k[..i + 1];
          PrefixLeq(end, k);
        }
      }
    }
  }

  lemma {:induction false} BelowNext(prefix: Bytes, k: Bytes)
    requires Leq(prefix, k) && Less(k, prefix + [0])
    ensures prefix <= k
  {
    hide Less;
    var end := prefix + [0];
    StrictTotalOrder();
    if prefix != k {
      LessMeans(prefix, k);
      var j: nat :| DiffersAt(prefix, k, j);
      if j < |prefix| {
        assert end[..j] == prefix[..j];
        assert DiffersAt(end, k, j);
        LessMeans(end, k);
      }
    }
  }

  /** A string is not below its own start. */
  lemma {:induction false} PrefixLeq(p: Bytes, k: Bytes)
    requires p <= k
    ensures Leq(p, k)
  {
    LessMeans(k, p);
  }

  /** The bindings whose keys start with `prefix`, in ascending order. */
  ghost predicate IsScan(d: Data, prefix: Bytes, items: seq<(Bytes, Bytes)>) {
    && (forall i, j :: 0 <= i < j < |items| ==> Less(items[i].0, items[j].0))
    && (forall i :: 0 <= i < |items| ==> items[i].0 in d && d[items[i].0] == items[i].1 && prefix <= items[i].0)
    && (forall k :: k in d && prefix <= k ==> exists i :: 0 <= i < |items| && items[i].0 == k)
  }

  /** All of them; of a prefix of 0xff bytes, only the prefix itself and it followed by one zero byte. */
  method ScanPrefix(d: Data, prefix: Bytes) returns (items: seq<(Bytes, Bytes)>)
    ensures HasNext(prefix) ==> IsScan(d, prefix, items)
    ensures !HasNext(prefix) ==> IsScan(map k | k in d && (k == prefix || k == prefix + [0]) :: d[k], prefix, items)
  {
    hide Less, HasNext, IsScan;
    var end := PrefixEnd(prefix);
    var all := RangeOf(d, prefix, end);
    items := WithPrefix(all, prefix);
    ScanTo(d, prefix, end, all, items);
  }

  /** The bindings kept are those whose keys start with the prefix, in their order. */
  ghost predicate Sifted(all: seq<(Bytes, Bytes)>, n: nat, prefix: Bytes, items: seq<(Bytes, Bytes)>) {
    && n <= |all|
    && (forall j, k :: 0 <= j < k < |items| ==> Less(items[j].0, items[k].0))
    && (forall j, k :: 0 <= j < |items| && n <= k < |all| ==> Less(items[j].0, all[k].0))
    && (forall j :: 0 <= j < |items| ==> items[j] in all && prefix <= items[j].0)
    && (forall k :: 0 <= k < n && prefix <= all[k].0 ==> all[k] in items)
  }

  method WithPrefix(all: seq<(Bytes, Bytes)>, prefix: Bytes) returns (items: seq<(Bytes, Bytes)>)
    requires forall i, j :: 0 <= i < j < |all| ==> Less(all[i].0, all[j].0)
    ensures Sifted(all, |all|, prefix, items)
  {
    hide Less;
    items := [];
    var i := 0;
    while i < |all|
      invariant 0 <= i <= |all| && Sifted(all, i, prefix, items)
    {
      SiftStep(all, i, prefix, items);
      if prefix <= all[i].0 {
        items := items + [all[i]];
      }
      i := i + 1;
    }
  }

  lemma {:induction false} SiftStep(all: seq<(Bytes, Bytes)>, i: nat, prefix: Bytes, items: seq<(Bytes, Bytes)>)
    requires i < |all| && Sifted(all, i, prefix, items)
    requires forall j, k :: 0 <= j < k < |all| ==> Less(all[j].0, all[k].0)
    ensures Sifted(all, i + 1, prefix, if prefix <= all[i].0 then items + [all[i]] else items)
  {
    hide Less;
  }

  lemma {:induction false} ScanTo(d: Data, prefix: Bytes, end: Bytes, all: seq<(Bytes, Bytes)>,
      items: seq<(Bytes, Bytes)>)
    requires IsRange(d, prefix, end, all) && Sifted(all, |all|, prefix, items)
    requires HasNext(prefix) ==> forall x :: Less(prefix + x, end)
    requires !HasNext(prefix) ==> end == prefix + [0]
    ensures HasNext(prefix) ==> IsScan(d, prefix, items)
    ensures !HasNext(prefix) ==> IsScan(map k | k in d && (k == prefix || k == prefix + [0]) :: d[k], prefix, items)
  {
    hide Less, HasNext;
    forall k | k in d && prefix <= k && Leq(k, end) ensures exists i :: 0 <= i < |items| && items[i].0 == k {
      PrefixLeq(prefix, k);
      var j :| 0 <= j < |all| && all[j].0 == k;
      assert all[j] in items;
    }
    forall k | prefix <= k
      ensures if HasNext(prefix) then Leq(k, end) else (Leq(k, end) <==> k == prefix || k == prefix + [0])
    {
      assert k == prefix + k[|prefix|..];
      if HasNext(prefix) {
        StrictBelow(k, end);
      } else {
        UpToZero(prefix, k[|prefix|..]);
      }
    }
    forall i | 0 <= i < |items|
      ensures items[i].0 in d && d[items[i].0] == items[i].1 && prefix <= items[i].0 && Leq(items[i].0, end)
    {
      var j :| 0 <= j < |all| && all[j] == items[i];
    }
  }

  lemma {:induction false} LowFirst(prefix: Bytes)
    requires prefix != [] && prefix[0] != 255
    ensures HasNext(prefix)
  {
  }

  /** Nothing lies between a string and it followed by a zero byte. */
  lemma {:induction false} UpToZero(prefix: Bytes, x: Bytes)
    ensures Leq(prefix + x, prefix + [0]) <==> x == [] || x == [0]
  {
    StrictTotalOrder();
    if x == [] {
      assert DiffersAt(prefix + x, prefix + [0], |prefix|);
      LessMeans(prefix + x, prefix + [0]);
    } else if x != [0] {
      if x[0] > 0 {
        assert (prefix + x)[..|prefix|] == (prefix + [0])[..|prefix|];
        assert DiffersAt(prefix + [0], prefix + x, |prefix|);
      } else {
        assert (prefix + x)[..|prefix| + 1] == prefix + [0];
        assert DiffersAt(prefix + [0], prefix + x, |prefix| + 1);
      }
      LessMeans(prefix + [0], prefix + x);
    }
  }

  lemma {:induction false} StrictBelow(a: Bytes, b: Bytes)
    requires Less(a, b)
    ensures Leq(a, b)
  {
    StrictTotalOrder();
  }

  // ----- Index definitions

  /** The indexes of a table, by name. */
  ghost predicate Loaded(d: Data, s: Schema, indexes: map<Bytes, Index>) {
    && (forall name :: name in indexes ==> indexes[name].name == name && Defined(d, s, indexes[name]))
    && (forall x :: Defined(d, s, x) ==> x.name in indexes && indexes[x.name] == x)
  }

  method ValidateIndex(s: Schema, x: Index) returns (ok: bool)
    requires ValidSchema(s)
    ensures ok <==> ValidIndex(s, x)
  {
    if |x.name| == 0 || |x.name| > 128 || x.column == [] {
      return false;
    }
    var c := FindColumn(s.columns, x.column);
    if c.None? || c.value.primaryKey {
      forall i | 0 <= i < |s.columns| && s.columns[i].name == x.column ensures s.columns[i].primaryKey {
        ColumnIs(s, i);
      }
      return false;
    }
    ghost var i :| 0 <= i < |s.columns| && s.columns[i] == c.value;
    ok := true;
  }

  /** Loads the definitions of a table's indexes; in a store where tables and indexes agree it succeeds. */
  method LoadIndexes(d: Data, s: Schema) returns (r: Option<map<Bytes, Index>>)
    requires ValidSchema(s)
    ensures DefinitionsOk(d, s) ==> r.Some?
    ensures r.Some? ==> Loaded(d, s, r.value)
  {
    hide ValidSchema, ValidIndex, IndexBytes, Escape, HasNext;
    var start := MetadataPrefix(s.name);
    LowFirst(start);
    var items := ScanPrefix(d, start);
    var indexes: map<Bytes, Index> := map[];
    var i := 0;
    while i < |items|
      invariant 0 <= i <= |items|
      invariant forall name :: name in indexes ==> indexes[name].name == name && Defined(d, s, indexes[name])
      invariant forall x, j :: Defined(d, s, x) && 0 <= j < i && items[j].0 == MetadataKey(s.name, x.name) ==>
                x.name in indexes && indexes[x.name] == x
    {
      var key := items[i].0;
      if |key| <= |start| {
        ShortKey(s, start, key);
        i := i + 1;
        continue;
      }
      var name := DecodeEscapedComponent(key[|start|..]);
      ghost var x := Index([], [], false);
      if DefinitionsOk(d, s) {
        x :| Defined(d, s, x) && key == MetadataKey(s.name, x.name);
        DefinedFacts(d, s, x);
      }
      if name.None? {
        return None;
      }
      assert key == MetadataKey(s.name, name.value);
      var index := DecodeIndexMetadata(name.value, items[i].1);
      if DefinitionsOk(d, s) {
        MetadataOnce(s.name, s.name, name.value, x.name);
      }
      if index.None? {
        return None;
      }
      if DefinitionsOk(d, s) {
        IndexOnce(x, index.value);
      }
      var ok := ValidateIndex(s, index.value);
      if !ok {
        return None;
      }
      LoadStep(d, s, indexes, items, i, index.value);
      indexes := indexes[name.value := index.value];
      i := i + 1;
    }
    forall x | Defined(d, s, x) ensures x.name in indexes && indexes[x.name] == x {
      assert MetadataPrefix(s.name) <= MetadataKey(s.name, x.name);
      var j :| 0 <= j < |items| && items[j].0 == MetadataKey(s.name, x.name);
    }
    r := Some(indexes);
  }

  /** A definition has a name after the prefix. */
  lemma {:induction false} ShortKey(s: Schema, start: Bytes, key: Bytes)
    requires start == MetadataPrefix(s.name) && |key| <= |start|
    ensures forall name :: key != MetadataKey(s.name, name)
  {
    forall name ensures key != MetadataKey(s.name, name) {
      EscapeIsBody(name);
    }
  }

  lemma {:induction false} DefinedFacts(d: Data, s: Schema, x: Index)
    requires Defined(d, s, x) && ValidSchema(s)
    ensures StorableIndex(x) && MetadataKey(s.name, x.name)[|MetadataPrefix(s.name)|..] == Escape(x.name)
  {
    hide Escape;
    ColumnOfIndex(s, x);
  }

  lemma {:induction false} LoadStep(d: Data, s: Schema, indexes: map<Bytes, Index>, items: seq<(Bytes, Bytes)>, i: nat,
      y: Index)
    requires ValidSchema(s) && i < |items| && items[i].0 == MetadataKey(s.name, y.name) && Defined(d, s, y)
    requires forall x, j :: Defined(d, s, x) && 0 <= j < i && items[j].0 == MetadataKey(s.name, x.name) ==>
              x.name in indexes && indexes[x.name] == x
    ensures var indexes' := indexes[y.name := y];
            forall x, j :: Defined(d, s, x) && 0 <= j < i + 1 && items[j].0 == MetadataKey(s.name, x.name) ==>
              x.name in indexes' && indexes'[x.name] == x
  {
    hide Defined, MetadataKey, ValidSchema;
    var indexes' := indexes[y.name := y];
    forall x, j | Defined(d, s, x) && 0 <= j < i + 1 && items[j].0 == MetadataKey(s.name, x.name)
      ensures x.name in indexes' && indexes'[x.name] == x
    {
      if j == i {
        MetadataOnce(s.name, s.name, x.name, y.name);
      }
      if x.name == y.name {
        DefinedOnce(d, s, x, y);
      }
    }
  }

  // ----- Index entries of a row

  /** `k` is the entry of the row in one of the indexes. */
  ghost predicate EntryAmong(s: Schema, indexes: map<Bytes, Index>, row: Row, pk: Bytes, k: Bytes) {
    exists name :: name in indexes && k == EntryOf(s, indexes[name], row, pk)
  }

  /** The listed keys are exactly the entries of the row. */
  ghost predicate EntriesFor(s: Schema, indexes: map<Bytes, Index>, row: Row, pk: Bytes, keys: seq<Bytes>) {
    forall k :: k in keys <==> EntryAmong(s, indexes, row, pk, k)
  }

  /** An index refuses the row: its value does not belong there, or another row owns it. */
  ghost predicate Refuses(view: Data, s: Schema, x: Index, row: Row, pk: Bytes, allowExisting: bool) {
    || EncodeValue(ColumnOf(s, x), Lookup(row, x.column)).None?
    || (x.unique && EntryOf(s, x, row, pk) in view && (!allowExisting || view[EntryOf(s, x, row, pk)] != pk))
  }

  /** The entries a row needs; none if some index refuses the row. */
  method TransactionIndexEntries(tx: Tx, s: Schema, indexes: map<Bytes, Index>, row: Row, pk: Bytes,
      allowExisting: bool)
    returns (r: Option<seq<Bytes>>)
    requires ValidSchema(s) && forall name :: name in indexes ==> ValidIndex(s, indexes[name])
    ensures r.Some? <==> forall name :: name in indexes ==>
              !Refuses(tx.View(), s, indexes[name], row, pk, allowExisting)
    ensures r.Some? ==> EntriesFor(s, indexes, row, pk, r.value)
  {
    hide EncodeValue, EntryKey, ValidSchema, ValidIndex;
    var keys: seq<Bytes> := [];
    var rest := indexes.Keys;
    while rest != {}
      invariant rest <= indexes.Keys
      invariant forall name :: name in indexes && name !in rest ==>
                !Refuses(tx.View(), s, indexes[name], row, pk, allowExisting)
      invariant forall k :: k in keys <==>
                exists name :: name in indexes && name !in rest && k == EntryOf(s, indexes[name], row, pk)
      decreases rest
    {
      var name :| name in rest;
      var x := indexes[name];
      ColumnOfIndex(s, x);
      var value := EncodeValue(ColumnOf(s, x), Lookup(row, x.column));
      if value.None? {
        return None;
      }
      var key := EntryKey(s.name, x, value.value, pk);
      assert key == EntryOf(s, x, row, pk);
      if x.unique {
        var existing := tx.Value(key);
        if existing.Some? && (!allowExisting || existing.value != pk) {
          return None;
        }
      }
      ghost var was := keys;
      keys := keys + [key];
      rest := rest - {name};
      forall k ensures k in keys <==> exists n :: n in indexes && n !in rest && k == EntryOf(s, indexes[n], row, pk) {
        if k in was {
          var n :| n in indexes && n !in rest + {name} && k == EntryOf(s, indexes[n], row, pk);
        }
        if k == key {
          assert name in indexes && name !in rest && k == EntryOf(s, indexes[name], row, pk);
        }
      }
    }
    r := Some(keys);
  }

  /** Records the same change under several keys. */
  method RecordAll(tx: Tx, keys: seq<Bytes>, change: Change)
    requires tx.Valid()
    modifies tx`order, tx`changes
    ensures tx.Valid()
    ensures forall k ::
              if k in keys then (k in tx.View() <==> change.Put?) && (change.Put? ==> tx.View()[k] == change.value)
              else && (k in tx.View() <==> k in old(tx.View()))
                   && (k in tx.View() ==> tx.View()[k] == old(tx.View())[k])
    ensures RecordsOf(old(tx.changes), tx.changes, keys, change)
  {
    hide Overlay, RecordsOf;
    RecordsNone(tx.changes, keys, change);
    var i := 0;
    while i < |keys|
      invariant 0 <= i <= |keys| && tx.Valid()
      invariant RecordsOf(old(tx.changes), tx.changes, keys[..i], change)
    {
      RecordsStep(old(tx.changes), tx.changes, keys, i, change);
      tx.Record(keys[i], change);
      i := i + 1;
    }
    TakeAll(keys);
    RecordsShow(tx.db.data, old(tx.changes), tx.changes, keys, change);
  }

  lemma {:induction false} RecordsNone(c: Changes, keys: seq<Bytes>, change: Change)
    ensures RecordsOf(c, c, keys[..0], change)
  {
  }

  lemma {:induction false} RecordsStep(c: Changes, c': Changes, keys: seq<Bytes>, i: nat, change: Change)
    requires i < |keys| && RecordsOf(c, c', keys[..i], change)
    ensures RecordsOf(c, c'[keys[i] := change], keys[..i + 1], change)
  {
    TakeStep(keys, i);
  }

  lemma {:induction false} RecordsShow(d: Data, c: Changes, c': Changes, keys: seq<Bytes>, change: Change)
    requires RecordsOf(c, c', keys, change)
    ensures var (v, v') := (Overlay(d, c), Overlay(d, c'));
            forall k :: if k in keys then (k in v' <==> change.Put?) && (change.Put? ==> v'[k] == change.value)
                        else (k in v' <==> k in v) && (k in v' ==> v'[k] == v[k])
  {
  }

  /** The same change is buffered under all the keys. */
  ghost predicate RecordsOf(c: Changes, c': Changes, keys: seq<Bytes>, change: Change) {
    && (forall k :: k in c' <==> k in c || k in keys)
    && (forall k :: k in c' ==> c'[k] == if k in keys then change else c[k])
  }

  // ----- Rows

  datatype Outcome = Done | Invalid | DuplicatePrimary | DuplicateIndexed | NotFound | Barred | TooLarge

  /** The keys that replacing a row changes: its own, and those of its old and new entries. */
  ghost predicate Touches(d: Data, s: Schema, pk: Bytes, was: Option<Row>, now: Option<Row>, k: Bytes) {
    k == RowAt(s.name, pk) || IsEntry(d, s, was, pk, k) || IsEntry(d, s, now, pk, k)
  }

  /** What replacing a row adds to the buffered changes: those keys, with values that can be stored. */
  ghost predicate Buffered(c: Changes, c': Changes, d: Data, s: Schema, pk: Bytes, was: Option<Row>, now: Option<Row>) {
    && (forall k :: k in c' <==> k in c || Touches(d, s, pk, was, now, k))
    && (forall k :: k in c' && !Touches(d, s, pk, was, now, k) ==> c'[k] == c[k])
    && (forall k :: k in c' && Touches(d, s, pk, was, now, k) && c'[k].Put? ==> |c'[k].value| <= MAX_VALUE_BYTES)
  }

  lemma {:induction false} BufferedBy(
    c: Changes, c1: Changes, c2: Changes, c': Changes, d: Data, s: Schema, indexes: map<Bytes, Index>, pk: Bytes,
    was: Option<Row>, now: Option<Row>, oldKeys: seq<Bytes>, newKeys: seq<Bytes>, row: Change)
    requires Loaded(d, s, indexes)
    requires if was.Some? then EntriesFor(s, indexes, was.value, pk, oldKeys) else oldKeys == []
    requires if now.Some? then EntriesFor(s, indexes, now.value, pk, newKeys) else newKeys == []
    requires RecordsOf(c, c1, oldKeys, Erase) && c2 == c1[RowAt(s.name, pk) := row]
             && RecordsOf(c2, c', newKeys, Put(pk))
    requires (row.Put? ==> |row.value| <= MAX_VALUE_BYTES) && (now.Some? ==> |pk| <= MAX_VALUE_BYTES)
    ensures Buffered(c, c', d, s, pk, was, now)
  {
    hide EntryOf, RowAt, Defined, EntryAmong, IsEntry, EntriesFor, Loaded;
    forall k ensures Touches(d, s, pk, was, now, k) <==> k == RowAt(s.name, pk) || k in oldKeys || k in newKeys {
      KeyIsEntry(d, s, indexes, pk, was, oldKeys, k);
      KeyIsEntry(d, s, indexes, pk, now, newKeys, k);
    }
    assert newKeys != [] ==> |pk| <= MAX_VALUE_BYTES;
    hide Touches;
  }

  lemma {:induction false} KeyIsEntry(d: Data, s: Schema, indexes: map<Bytes, Index>, pk: Bytes, row: Option<Row>,
      keys: seq<Bytes>, k: Bytes)
    requires Loaded(d, s, indexes)
    requires if row.Some? then EntriesFor(s, indexes, row.value, pk, keys) else keys == []
    ensures k in keys <==> IsEntry(d, s, row, pk, k)
  {
    hide EntryOf, Defined;
    if row.Some? {
      AmongIsEntry(d, s, indexes, row.value, pk, k);
    }
  }

  /** A stored row has the same entries as the row it was made from. */
  lemma {:induction false} StoredEntries(s: Schema, row: Row, x: Index, pk: Bytes)
    requires Encodable(s, row) && ValidIndex(s, x)
    ensures EntryOf(s, x, Stored(s, row), pk) == EntryOf(s, x, row, pk)
  {
    hide EncodeValue, EntryKey, RowKey, RowBytes, Fits;
    ColumnOfIndex(s, x);
    var i :| 0 <= i < |s.columns| && s.columns[i].name == x.column && !s.columns[i].primaryKey;
    var ids := Others(s.columns, |s.columns|);
    OthersHave(s.columns, |s.columns|, i);
    var j :| 0 <= j < |ids| && ids[j] == i;
    assert x.column in NamesOf(s.columns, ids);
  }

  /** From a row and its entries to the relation that keeps tables and indexes in agreement. */
  lemma {:induction false} ReplacedBy(d: Data, d': Data, s: Schema, indexes: map<Bytes, Index>, pk: Bytes,
      was: Option<Row>, now: Option<Row>, oldKeys: seq<Bytes>, newKeys: seq<Bytes>)
    requires Loaded(d, s, indexes)
    requires was.Some? ==> HasRow(d, s, pk, was.value) && EntriesFor(s, indexes, was.value, pk, oldKeys)
    requires was.None? ==> RowAt(s.name, pk) !in d && oldKeys == []
    requires now.Some? ==>
              IsPrimary(s, pk) && HasRow(d', s, pk, now.value) && EntriesFor(s, indexes, now.value, pk, newKeys)
    requires now.None? ==> RowAt(s.name, pk) !in d' && newKeys == []
    requires forall k :: k != RowAt(s.name, pk) ==>
      if k in newKeys then k in d' && d'[k] == pk
      else if k in oldKeys then k !in d'
      else (k in d' <==> k in d) && (k in d ==> d'[k] == d[k])
    ensures RowReplaced(d, d', s, pk, was, now)
  {
    hide HasRow, EntryOf, Defined, RowAt;
    forall k ensures (k in newKeys <==> IsEntry(d, s, now, pk, k)) && (k in oldKeys <==> IsEntry(d, s, was, pk, k)) {
      if now.Some? {
        AmongIsEntry(d, s, indexes, now.value, pk, k);
      }
      if was.Some? {
        AmongIsEntry(d, s, indexes, was.value, pk, k);
      }
    }
  }

  lemma {:induction false} AmongIsEntry(d: Data, s: Schema, indexes: map<Bytes, Index>, row: Row, pk: Bytes, k: Bytes)
    requires Loaded(d, s, indexes)
    ensures EntryAmong(s, indexes, row, pk, k) <==> IsEntry(d, s, Some(row), pk, k)
  {
    hide EntryOf, Defined;
    if EntryAmong(s, indexes, row, pk, k) {
      var name :| name in indexes && k == EntryOf(s, indexes[name], row, pk);
      assert Defined(d, s, indexes[name]);
    }
    if IsEntry(d, s, Some(row), pk, k) {
      var x :| Defined(d, s, x) && k == EntryOf(s, x, row, pk);
      assert x.name in indexes && indexes[x.name] == x;
    }
  }

  /** The primary key of a row, encoded. */
  function PrimaryOf(s: Schema, row: Row): Bytes {
    Cell(row, FindPrimary(s.columns))
  }

  /** Another row owns a value that the row would have to own. */
  ghost predicate Conflict(view: Data, s: Schema, row: Row, allowOwn: bool) {
    exists x :: Defined(view, s, x) && x.unique && EntryOf(s, x, row, PrimaryOf(s, row)) in view
                && (!allowOwn || view[EntryOf(s, x, row, PrimaryOf(s, row))] != PrimaryOf(s, row))
  }

  /** What a row that can be stored guarantees for the indexes. */
  lemma {:induction false} EncodableFits(s: Schema, row: Row, x: Index)
    requires Encodable(s, row) && ValidIndex(s, x)
    ensures EncodeValue(ColumnOf(s, x), Lookup(row, x.column)).Some?
  {
    hide EncodeValue, RowKey, RowBytes;
    ColumnOfIndex(s, x);
    var i :| 0 <= i < |s.columns| && s.columns[i].name == x.column && !s.columns[i].primaryKey;
    ColumnIs(s, i);
  }

  lemma {:induction false} RefusedIsConflict(view: Data, s: Schema, indexes: map<Bytes, Index>, row: Row,
      allowOwn: bool)
    requires Encodable(s, row) && Loaded(view, s, indexes)
    ensures (exists name :: name in indexes && Refuses(view, s, indexes[name], row, PrimaryOf(s, row), allowOwn)) <==>
              Conflict(view, s, row, allowOwn)
  {
    hide EncodeValue, EntryOf, Encodable, PrimaryOf, IndexBytes, MetadataKey;
    forall x | Defined(view, s, x) ensures EncodeValue(ColumnOf(s, x), Lookup(row, x.column)).Some? {
      EncodableFits(s, row, x);
    }
    if x :| Defined(view, s, x) && x.unique && EntryOf(s, x, row, PrimaryOf(s, row)) in view
            && (!allowOwn || view[EntryOf(s, x, row, PrimaryOf(s, row))] != PrimaryOf(s, row)) {
      assert x.name in indexes && indexes[x.name] == x;
      assert Refuses(view, s, indexes[x.name], row, PrimaryOf(s, row), allowOwn);
    }
  }

  lemma {:induction false} PrimaryEncodes(s: Schema, row: Row)
    requires Encodable(s, row)
    ensures IsPrimary(s, PrimaryOf(s, row))
  {
    hide EncodeValue, RowBytes, RowKey;
    FitsParts(s, row);
  }

  lemma {:induction false} KeyIsRow(s: Schema, row: Row)
    ensures RowKey(s, row) == RowAt(s.name, PrimaryOf(s, row))
    ensures |RowPrefix(s.name)| <= |RowKey(s, row)| && RowKey(s, row)[|RowPrefix(s.name)|..] == PrimaryOf(s, row)
  {
  }

  /** Without a conflict the values of the row are free, or its own. */
  lemma {:induction false} NoConflictIsFree(view: Data, s: Schema, row: Row, allowOwn: bool)
    requires Encodable(s, row) && !Conflict(view, s, row, allowOwn)
    ensures UniqueFree(view, s, PrimaryOf(s, row), Some(Stored(s, row)))
  {
    hide EntryOf, Encodable, PrimaryOf, IndexBytes, MetadataKey, ValidIndex;
    var pk := PrimaryOf(s, row);
    forall x | Defined(view, s, x) && x.unique && EntryOf(s, x, Stored(s, row), pk) in view
      ensures view[EntryOf(s, x, Stored(s, row), pk)] == pk
    {
      StoredEntries(s, row, x, pk);
    }
  }

  lemma {:induction false} SameEntriesFor(s: Schema, indexes: map<Bytes, Index>, row: Row, pk: Bytes, keys: seq<Bytes>)
    requires Encodable(s, row) && EntriesFor(s, indexes, row, pk, keys) && forall name :: name in indexes ==>
              ValidIndex(s, indexes[name])
    ensures EntriesFor(s, indexes, Stored(s, row), pk, keys)
  {
    hide EntryOf, Encodable, ValidIndex, Stored;
    forall name | name in indexes
      ensures EntryOf(s, indexes[name], Stored(s, row), pk) == EntryOf(s, indexes[name], row, pk)
    {
      StoredEntries(s, row, indexes[name], pk);
    }
    forall k ensures k in keys <==> EntryAmong(s, indexes, Stored(s, row), pk, k) {
      assert k in keys <==> EntryAmong(s, indexes, row, pk, k);
      if EntryAmong(s, indexes, row, pk, k) {
        var name :| name in indexes && k == EntryOf(s, indexes[name], row, pk);
        assert k == EntryOf(s, indexes[name], Stored(s, row), pk);
      }
    }
  }

  lemma {:induction false} RowNotEntry(s: Schema, indexes: map<Bytes, Index>, row: Row, pk: Bytes, keys: seq<Bytes>)
    requires EntriesFor(s, indexes, row, pk, keys)
    ensures RowAt(s.name, pk) !in keys
  {
    hide EntryOf, RowAt;
    FirstBytes(s.name, pk, []);
    forall name | name in indexes ensures RowAt(s.name, pk) != EntryOf(s, indexes[name], row, pk) {
      EntryStarts(s, indexes[name], row, pk);
    }
  }

  /** Inserts a row with its index entries, or changes nothing and says why. */
  method InsertRow(tx: Tx, s: Schema, indexes: map<Bytes, Index>, row: Row) returns (r: Outcome)
    requires tx.Valid() && ValidSchema(s) && Loaded(tx.View(), s, indexes)
    modifies tx`order, tx`changes
    ensures tx.Valid()
    ensures r.Invalid? <==> !Encodable(s, row)
    ensures !Admitted(s, row) ==> r.Invalid?
    ensures r.DuplicatePrimary? <==> Encodable(s, row) && RowKey(s, row) in old(tx.View())
    ensures r.DuplicateIndexed? <==>
              Encodable(s, row) && RowKey(s, row) !in old(tx.View()) && Conflict(old(tx.View()), s, row, false)
    ensures !r.NotFound? && (!r.Done? ==> tx.changes == old(tx.changes))
    ensures r.Done? ==> RowReplaced(old(tx.View()), tx.View(), s, PrimaryOf(s, row), None, Some(Stored(s, row)))
    ensures r.Done? ==> UniqueFree(old(tx.View()), s, PrimaryOf(s, row), Some(Stored(s, row)))
    ensures r.Done? ==>
              Buffered(old(tx.changes), tx.changes, old(tx.View()), s, PrimaryOf(s, row), None, Some(Stored(s, row)))
    ensures !r.Barred? && !r.TooLarge?
  {
    hide Encodable, RowKey, RowBytes, PrimaryOf, IsPrimary, EntryOf, RowOf, RowAt, Overlay, Refuses, EntriesFor;
    hide ValidSchema, ValidIndex, RowReplaced, UniqueFree, IndexBytes, Conflict, Buffered, Admitted;
    var enc := EncodeRow(s, row);
    if enc.None? {
      return Invalid;
    }
    var key, value := enc.value.0, enc.value.1;
    KeyIsRow(s, row);
    var pk := key[|RowPrefix(s.name)|..];
    var existing := tx.Value(key);
    if existing.Some? {
      return DuplicatePrimary;
    }
    RefusedIsConflict(tx.View(), s, indexes, row, false);
    var entries := TransactionIndexEntries(tx, s, indexes, row, pk, false);
    if entries.None? {
      return DuplicateIndexed;
    }
    NoConflictIsFree(tx.View(), s, row, false);
    SameEntriesFor(s, indexes, row, pk, entries.value);
    RowNotEntry(s, indexes, row, pk, entries.value);
    RowRoundTrip(s, row);
    PrimaryEncodes(s, row);
    RowSizes(s, row);
    tx.Record(key, Put(value));
    ghost var recorded := tx.changes;
    RecordAll(tx, entries.value, Put(pk));
    ReplacedBy(old(tx.View()), tx.View(), s, indexes, pk, None, Some(Stored(s, row)), [], entries.value);
    BufferedBy(old(tx.changes), old(tx.changes), recorded, tx.changes, old(tx.View()), s, indexes, pk, None,
               Some(Stored(s, row)), [], entries.value, Put(value));
    r := Done;
  }

  lemma {:induction false} RowSizes(s: Schema, row: Row)
    requires Encodable(s, row)
    ensures |RowBytes(s, row)| <= MAX_VALUE_BYTES && |PrimaryOf(s, row)| <= MAX_VALUE_BYTES
  {
    hide RowBytes, RowKey, PrimaryOf, Fits, ValidSchema;
    KeyIsRow(s, row);
  }

  /** A stored row is never refused by the indexes that hold its entries. */
  lemma {:induction false} OwnEntries(view: Data, s: Schema, indexes: map<Bytes, Index>, pk: Bytes, row: Row)
    requires TableOk(view, s) && Loaded(view, s, indexes) && HasRow(view, s, pk, row)
    ensures forall name :: name in indexes ==> !Refuses(view, s, indexes[name], row, pk, true)
  {
    hide EncodeValue, EntryKey, RowOf, ValidSchema, RowsOk, DefinitionsOk, EntriesAccounted, RowAt;
    forall name | name in indexes ensures !Refuses(view, s, indexes[name], row, pk, true) {
      IndexedFits(s, indexes[name], row, view[RowAt(s.name, pk)]);
    }
  }

  /** Replaces an existing row and its index entries, or changes nothing and says why. */
  method UpdateRow(tx: Tx, s: Schema, indexes: map<Bytes, Index>, row: Row) returns (r: Outcome)
    requires tx.Valid() && TableOk(tx.View(), s) && Loaded(tx.View(), s, indexes)
    modifies tx`order, tx`changes
    ensures tx.Valid()
    ensures r.Invalid? <==> !Encodable(s, row)
    ensures !Admitted(s, row) ==> r.Invalid?
    ensures r.NotFound? <==> Encodable(s, row) && RowKey(s, row) !in old(tx.View())
    ensures r.DuplicateIndexed? <==>
              Encodable(s, row) && RowKey(s, row) in old(tx.View()) && Conflict(old(tx.View()), s, row, true)
    ensures !r.DuplicatePrimary? && (!r.Done? ==> tx.changes == old(tx.changes))
    ensures !r.Barred? && !r.TooLarge?
    ensures r.Done? ==>
              exists was ::
                && RowReplaced(old(tx.View()), tx.View(), s, PrimaryOf(s, row), Some(was), Some(Stored(s, row)))
                && Buffered(old(tx.changes), tx.changes, old(tx.View()), s, PrimaryOf(s, row), Some(was),
                            Some(Stored(s, row)))
    ensures r.Done? ==> UniqueFree(old(tx.View()), s, PrimaryOf(s, row), Some(Stored(s, row)))
  {
    hide Encodable, RowKey, RowBytes, PrimaryOf, IsPrimary, EntryOf, RowOf, RowAt, Overlay, Refuses, EntriesFor;
    hide ValidSchema, ValidIndex, RowReplaced, UniqueFree, IndexBytes, Conflict;
    hide DefinitionsOk, RowsIndexed, EntriesAccounted, Buffered, Admitted;
    var enc := EncodeRow(s, row);
    if enc.None? {
      return Invalid;
    }
    var key, value := enc.value.0, enc.value.1;
    KeyIsRow(s, row);
    var pk := key[|RowPrefix(s.name)|..];
    var oldValue := tx.Value(key);
    if oldValue.None? {
      return NotFound;
    }
    var was := DecodeRow(s, oldValue.value);
    assert was.Some?;
    OwnEntries(tx.View(), s, indexes, pk, was.value);
    var oldEntries := TransactionIndexEntries(tx, s, indexes, was.value, pk, true);
    RefusedIsConflict(tx.View(), s, indexes, row, true);
    var newEntries := TransactionIndexEntries(tx, s, indexes, row, pk, true);
    if newEntries.None? {
      return DuplicateIndexed;
    }
    NoConflictIsFree(tx.View(), s, row, true);
    SameEntriesFor(s, indexes, row, pk, newEntries.value);
    RowNotEntry(s, indexes, row, pk, newEntries.value);
    RowNotEntry(s, indexes, was.value, pk, oldEntries.value);
    RowRoundTrip(s, row);
    PrimaryEncodes(s, row);
    RowSizes(s, row);
    RecordAll(tx, oldEntries.value, Erase);
    ghost var erased := tx.changes;
    tx.Record(key, Put(value));
    ghost var recorded := tx.changes;
    RecordAll(tx, newEntries.value, Put(pk));
    BufferedBy(old(tx.changes), erased, recorded, tx.changes, old(tx.View()), s, indexes, pk, Some(was.value),
               Some(Stored(s, row)), oldEntries.value, newEntries.value, Put(value));
    ReplacedBy(old(tx.View()), tx.View(), s, indexes, pk, Some(was.value), Some(Stored(s, row)), oldEntries.value,
               newEntries.value);
    r := Done;
  }

  /** The key of a row; none if the value is no primary key, or too long. */
  function KeyFor(s: Schema, v: Value): Option<Bytes> {
    match EncodeValue(FindPrimary(s.columns), v)
    case None => None
    case Some(pk) => if |RowAt(s.name, pk)| > MAX_KEY then None else Some(RowAt(s.name, pk))
  }

  ghost function ErasedAll(c: Changes, keys: seq<Bytes>): Changes {
    map k | k in c.Keys + (set x | x in keys) :: if k in keys then Erase else c[k]
  }

  /** The order of erasing a row and its entries makes no difference. */
  lemma {:induction false} ErasedBoth(c: Changes, c1: Changes, c2: Changes, s: Schema, indexes: map<Bytes, Index>,
      row: Row, pk: Bytes, keys: seq<Bytes>)
    requires c1 == c[RowAt(s.name, pk) := Erase] && RecordsOf(c1, c2, keys, Erase)
    ensures RecordsOf(c, ErasedAll(c, keys), keys, Erase) && c2 == ErasedAll(c, keys)[RowAt(s.name, pk) := Erase]
    ensures RecordsOf(c2, c2, [], Put(pk))
  {
    hide RowAt;
  }

  /** Removes a row and its index entries; a missing row is no error. */
  method DeleteRow(tx: Tx, s: Schema, indexes: map<Bytes, Index>, primaryKey: Value)
    returns (ok: bool, deleted: bool, ghost pk: Bytes)
    requires tx.Valid() && TableOk(tx.View(), s) && Loaded(tx.View(), s, indexes)
    modifies tx`order, tx`changes
    ensures tx.Valid()
    ensures ok <==> KeyFor(s, primaryKey).Some?
    ensures ok ==> EncodeValue(FindPrimary(s.columns), primaryKey) == Some(pk)
    ensures deleted <==> ok && RowAt(s.name, pk) in old(tx.View())
    ensures !deleted ==> tx.changes == old(tx.changes)
    ensures deleted ==> exists was :: RowReplaced(old(tx.View()), tx.View(), s, pk, Some(was), None)
                                      && Buffered(old(tx.changes), tx.changes, old(tx.View()), s, pk, Some(was), None)
  {
    hide EncodeValue, EntryOf, RowOf, RowAt, Overlay, Refuses, EntriesFor, ValidSchema, ValidIndex, RowReplaced;
    hide IndexBytes;
    hide DefinitionsOk, RowsIndexed, EntriesAccounted, Buffered;
    pk := [];
    var enc := EncodeValue(FindPrimary(s.columns), primaryKey);
    if enc.None? {
      return false, false, pk;
    }
    pk := enc.value;
    var key := RowAt(s.name, enc.value);
    if |key| > MAX_KEY {
      return false, false, pk;
    }
    var value := tx.Value(key);
    if value.None? {
      return true, false, pk;
    }
    var was := DecodeRow(s, value.value);
    assert was.Some?;
    OwnEntries(tx.View(), s, indexes, pk, was.value);
    var entries := TransactionIndexEntries(tx, s, indexes, was.value, enc.value, true);
    RowNotEntry(s, indexes, was.value, pk, entries.value);
    tx.Record(key, Erase);
    ghost var recorded := tx.changes;
    RecordAll(tx, entries.value, Erase);
    ReplacedBy(old(tx.View()), tx.View(), s, indexes, pk, Some(was.value), None, entries.value, []);
    ErasedBoth(old(tx.changes), recorded, tx.changes, s, indexes, was.value, pk, entries.value);
    BufferedBy(old(tx.changes), ErasedAll(old(tx.changes), entries.value), tx.changes, tx.changes, old(tx.View()),
               s, indexes, pk,
               Some(was.value), None, entries.value, [], Erase);
    return true, true, pk;
  }

  // ----- Finding rows through an index

  /** The rows with the value in the indexed column, in ascending order of primary keys. */
  ghost predicate IsFiltered(d: Data, s: Schema, x: Index, value: Value, rows: seq<(Bytes, Row)>) {
    && (forall i, j :: 0 <= i < j < |rows| ==> Less(rows[i].0, rows[j].0))
    && (forall i :: 0 <= i < |rows| ==> HasRow(d, s, rows[i].0, rows[i].1) && Lookup(rows[i].1, x.column) == value)
    && (forall pk, row :: HasRow(d, s, pk, row) && Lookup(row, x.column) == value ==>
          exists i :: 0 <= i < |rows| && rows[i] == (pk, row))
  }

  /** An entry under the prefix of a value is the entry of a row with that value. */
  ghost predicate EntryShows(d: Data, s: Schema, x: Index, value: Value, k: Bytes, pk: Bytes, row: Row) {
    && HasRow(d, s, pk, row) && Lookup(row, x.column) == value && k == EntryOf(s, x, row, pk) && k in d && d[k] == pk
  }

  function ValuePrefix(s: Schema, x: Index, value: Bytes): Bytes {
    EntryPrefix(s.name, x.name) + value
  }

  lemma {:induction false} EntryUnder(d: Data, s: Schema, x: Index, value: Value, k: Bytes)
    returns (pk: Bytes, row: Row)
    requires TableOk(d, s) && Defined(d, s, x) && EncodeValue(ColumnOf(s, x), value).Some?
    requires k in d && ValuePrefix(s, x, EncodeValue(ColumnOf(s, x), value).value) <= k
    ensures EntryShows(d, s, x, value, k, pk, row)
    ensures k[|ValuePrefix(s, x, EncodeValue(ColumnOf(s, x), value).value)|..] == if x.unique then [] else pk
  {
    hide RowOf, EncodeValue, EntryPrefix, ValidSchema, ValidIndex, IndexBytes, RowAt, RowsOk, DefinitionsOk;
    hide MetadataKey;
    hide RowsIndexed, EntryOf;
    var enc := EncodeValue(ColumnOf(s, x), value).value;
    var e, p := EntryPrefix(s.name, x.name), ValuePrefix(s, x, enc);
    StartOfStart(e, enc, k);
    assert Accounted(d, s, x.name, k);
    var y, q, r :| Defined(d, s, y) && y.name == x.name && HasRow(d, s, q, r) && k == EntryOf(s, y, r, q);
    DefinedOnce(d, s, x, y);
    pk, row := q, r;
    EntryFits(d, s, x, pk, row);
    var c := ColumnOf(s, x);
    var tail := if x.unique then [] else pk;
    SplitTwice(e, Cell(row, c), tail, enc, k);
    ValuePrefixFree(c, Lookup(row, x.column), value, tail, k[|p|..]);
  }

  lemma {:induction false} EntryFits(d: Data, s: Schema, x: Index, pk: Bytes, row: Row)
    requires TableOk(d, s) && Defined(d, s, x) && HasRow(d, s, pk, row)
    ensures var c := ColumnOf(s, x);
            && EncodeValue(c, Lookup(row, x.column)) == Some(Cell(row, c)) && !c.primaryKey && c.name == x.column
            && EntryOf(s, x, row, pk) == EntryPrefix(s.name, x.name) + Cell(row, c) + (if x.unique then [] else pk)
            && EntryOf(s, x, row, pk) in d && d[EntryOf(s, x, row, pk)] == pk
  {
    hide RowOf, EncodeValue, EntryPrefix, ValidSchema, ValidIndex, IndexBytes, RowAt, RowsOk, DefinitionsOk;
    hide EntriesAccounted, MetadataKey;
    IndexedFits(s, x, row, d[RowAt(s.name, pk)]);
  }

  lemma {:induction false} StartOfStart(e: Bytes, enc: Bytes, k: Bytes)
    requires e + enc <= k
    ensures e <= k
  {
    assert (e + enc)[..|e|] == e;
    assert k[..|e + enc|][..|e|] == k[..|e|];
  }

  lemma {:induction false} SplitTwice(e: Bytes, cell: Bytes, tail: Bytes, enc: Bytes, k: Bytes)
    requires k == e + cell + tail && e + enc <= k
    ensures cell + tail == enc + k[|e + enc|..]
  {
    assert k == (e + enc) + k[|e + enc|..];
    assert k[|e|..] == cell + tail;
    assert k[|e|..] == enc + k[|e + enc|..];
  }

  lemma {:induction false} EntryThere(d: Data, s: Schema, x: Index, value: Value, pk: Bytes, row: Row)
    requires TableOk(d, s) && Defined(d, s, x) && HasRow(d, s, pk, row) && Lookup(row, x.column) == value
    ensures EncodeValue(ColumnOf(s, x), value).Some?
    ensures EntryShows(d, s, x, value, EntryOf(s, x, row, pk), pk, row)
    ensures ValuePrefix(s, x, EncodeValue(ColumnOf(s, x), value).value) <= EntryOf(s, x, row, pk)
  {
    hide RowOf, EncodeValue, EntryPrefix, ValidSchema, ValidIndex, IndexBytes, RowAt, RowsOk, DefinitionsOk;
    hide EntriesAccounted, MetadataKey;
    EntryFits(d, s, x, pk, row);
  }

  lemma {:induction false} DefinedColumn(d: Data, s: Schema, x: Index)
    requires TableOk(d, s) && Defined(d, s, x)
    ensures ColumnOf(s, x).name == x.column
  {
    ColumnOfIndex(s, x);
  }

  /**
   Finds rows through an index. In a store where tables and indexes agree it succeeds for
   every value of the column, and finds exactly what a scan with a filter would.
   */
  method FindByIndex(d: Data, s: Schema, indexes: map<Bytes, Index>, name: Bytes, value: Value)
    returns (r: Option<seq<(Bytes, Row)>>)
    requires TableOk(d, s) && Loaded(d, s, indexes)
    ensures r.Some? <==> name in indexes && EncodeValue(ColumnOf(s, indexes[name]), value).Some?
    ensures r.Some? ==> IsFiltered(d, s, indexes[name], value, r.value)
  {
    hide TableOk, EncodeValue, EntryShows, ValuePrefix, RowOf, RowAt, Less, Defined;
    if name !in indexes {
      return None;
    }
    var x := indexes[name];
    var enc := EncodeValue(ColumnOf(s, x), value);
    if enc.None? {
      return None;
    }
    var prefix := ValuePrefix(s, x, enc.value);
    PrefixStarts(s, x, enc.value);
    var items := ScanPrefix(d, prefix);
    var rows: seq<(Bytes, Row)> := [];
    var i := 0;
    while i < |items|
      invariant 0 <= i <= |items| && |rows| == i
      invariant forall j :: 0 <= j < i ==> EntryShows(d, s, x, value, items[j].0, rows[j].0, rows[j].1)
    {
      var key := items[i].0;
      ghost var pk, row := EntryUnder(d, s, x, value, key);
      var primaryKey := if x.unique then items[i].1 else key[|prefix|..];
      ShownFacts(d, s, x, value, key, pk, row);
      var decoded := DecodeRow(s, d[RowAt(s.name, primaryKey)]);
      assert decoded.Some?;
      RowOnce(s, row, decoded.value, d[RowAt(s.name, pk)]);
      rows := rows + [(primaryKey, decoded.value)];
      i := i + 1;
    }
    Filtered(d, s, x, value, items, rows);
    r := Some(rows);
  }

  lemma {:induction false} PrefixStarts(s: Schema, x: Index, value: Bytes)
    ensures ValuePrefix(s, x, value) != [] && ValuePrefix(s, x, value)[0] == 0x30
  {
  }

  lemma {:induction false} ShownFacts(d: Data, s: Schema, x: Index, value: Value, k: Bytes, pk: Bytes, row: Row)
    requires EntryShows(d, s, x, value, k, pk, row)
    ensures k in d && d[k] == pk && RowAt(s.name, pk) in d && RowOf(s, row, d[RowAt(s.name, pk)])
  {
  }

  /** The entries found make up the filtered rows. */
  lemma {:induction false} Filtered(d: Data, s: Schema, x: Index, value: Value, items: seq<(Bytes, Bytes)>,
      rows: seq<(Bytes, Row)>)
    requires TableOk(d, s) && Defined(d, s, x) && EncodeValue(ColumnOf(s, x), value).Some?
    requires IsScan(d, ValuePrefix(s, x, EncodeValue(ColumnOf(s, x), value).value), items) && |rows| == |items|
    requires forall j :: 0 <= j < |items| ==> EntryShows(d, s, x, value, items[j].0, rows[j].0, rows[j].1)
    ensures IsFiltered(d, s, x, value, rows)
  {
    hide TableOk, EncodeValue, ValuePrefix, RowOf, RowAt, Less, Defined, EntryOf;
    DefinedColumn(d, s, x);
    forall i, j | 0 <= i < j < |rows| ensures Less(rows[i].0, rows[j].0) {
      assert Less(items[i].0, items[j].0);
      EntryOrder(s, x, value, rows[i].1, rows[j].1, rows[i].0, rows[j].0);
    }
    forall pk, row | HasRow(d, s, pk, row) && Lookup(row, x.column) == value
      ensures exists i :: 0 <= i < |rows| && rows[i] == (pk, row)
    {
      EntryThere(d, s, x, value, pk, row);
      var i :| 0 <= i < |items| && items[i].0 == EntryOf(s, x, row, pk);
      assert EntryShows(d, s, x, value, items[i].0, rows[i].0, rows[i].1);
      HasRowOnce(d, s, pk, row, rows[i].1);
    }
  }

  /** Entries of one value are ordered by their primary keys. */
  lemma {:induction false} EntryOrder(s: Schema, x: Index, value: Value, a: Row, b: Row, p: Bytes, q: Bytes)
    requires Lookup(a, x.column) == Lookup(b, x.column) == value && Less(EntryOf(s, x, a, p), EntryOf(s, x, b, q))
    requires ColumnOf(s, x).name == x.column
    ensures Less(p, q)
  {
    hide EncodeValue, EntryPrefix, Less;
    var c := ColumnOf(s, x);
    var e := EntryPrefix(s.name, x.name) + Cell(a, c);
    assert Cell(a, c) == Cell(b, c);
    if x.unique {
      assert e + [] == e;
      NotLess(e);
    } else {
      LessAfter(e, p, q);
    }
  }

  lemma {:induction false} NotLess(a: Bytes)
    ensures !Less(a, a)
  {
    StrictTotalOrder();
  }

  // ----- Creating an index

  /** Two rows with the same value in the indexed column. */
  ghost predicate Clash(d: Data, s: Schema, x: Index)
    requires ValidSchema(s) && ValidIndex(s, x)
  {
    exists p, q, a, b ::
      && p != q && HasRow(d, s, p, a) && HasRow(d, s, q, b)
      && Cell(a, ColumnOf(s, x)) == Cell(b, ColumnOf(s, x))
  }

  /** The definition and all entries of the new index are bindings that can be stored. */
  ghost predicate Fitting(d: Data, s: Schema, x: Index) {
    && Wellformed(MetadataKey(s.name, x.name), Put(IndexBytes(x)))
    && forall k, pk :: NewEntry(d, s, x, k, pk) ==> Wellformed(k, Put(pk))
  }

  /** Enters a table into the catalogue, exactly when its name is free and its descriptor fits. */
  method CreateTable(db: Database, s: Schema) returns (ok: bool)
    requires db.Valid()
    modifies db`data, db`batches
    ensures db.Valid()
    ensures ok <==>
              && !db.closed && !db.writerActive && ValidSchema(s) && DescriptorKey(s.name) !in old(db.data)
              && |DescriptorBytes(s)| <= MAX_DESCRIPTOR
    ensures ok ==> TableCreated(old(db.data), db.data, s) && Described(db.data, s)
    ensures !ok ==> db.data == old(db.data)
    ensures old(DatabaseOk(db.data)) ==> DatabaseOk(db.data)
    ensures old(db.batches) <= db.batches && |db.batches| == |old(db.batches)| + if ok then 1 else 0
    ensures old(Orderly(db.batches)) ==> Orderly(db.batches)
  {
    hide ValidSchema, DatabaseOk, Orderly, Replayed, DescriptorBytes;
    if db.closed || db.writerActive {
      return false;
    }
    var valid := ValidateSchema(s);
    var key := DescriptorKey(s.name);
    if !valid || key in db.data {
      return false;
    }
    var descriptor := EncodeDescriptor(s);
    if |descriptor| > MAX_DESCRIPTOR {
      return false;
    }
    ghost var d, batches := db.data, db.batches;
    ok := db.Set(key, descriptor);
    if DatabaseOk(d) {
      StepKeeps(d, db.data, Step.CreateTable(s));
    }
    ReplayedMore(batches, [(key, Put(descriptor))]);
    if Orderly(batches) {
      OrderlyMore(batches, [(key, Put(descriptor))], Step.CreateTable(s));
    }
  }

  /** Finds a catalogued table again, with its schema and exactly the indexes defined for it. */
  method OpenTable(db: Database, name: Bytes) returns (r: Option<(Schema, map<Bytes, Index>)>)
    ensures r.Some? ==> && !db.closed && r.value.0.name == name && Described(db.data, r.value.0)
                        && Loaded(db.data, r.value.0, r.value.1)
    ensures forall s: Schema ::
              !db.closed && s.name == name && Described(db.data, s) && DefinitionsOk(db.data, s) ==>
                r.Some? && r.value.0 == s
    ensures DatabaseOk(db.data) ==> (r.Some? <==> !db.closed && DescriptorKey(name) in db.data)
  {
    hide ValidSchema, TableOk, Loaded, DescriptorBytes, Belongs, DefinitionsOk;
    if db.closed || DescriptorKey(name) !in db.data {
      return None;
    }
    if DatabaseOk(db.data) {
      ghost var t: Schema :| t.name == name && Described(db.data, t);
      DescribedTable(db.data, t);
    }
    var schema := DecodeDescriptor(db.data[DescriptorKey(name)]);
    if schema.None? {
      return None;
    }
    forall s: Schema | s.name == name && Described(db.data, s) ensures s == schema.value {
      DescriptorOnce(s, schema.value, db.data[DescriptorKey(name)]);
    }
    if schema.value.name != name {
      return None;
    }
    var indexes := LoadIndexes(db.data, schema.value);
    if indexes.Some? {
      r := Some((schema.value, indexes.value));
    } else {
      r := None;
    }
  }

  /** Defines an index and fills it from the rows, in one batch; or changes nothing. */
  method CreateIndex(db: Database, s: Schema, x: Index) returns (ok: bool)
    requires db.Valid() && TableOk(db.data, s)
    modifies db`data, db`batches
    ensures db.Valid()
    ensures ok ==> IndexCreated(old(db.data), db.data, s, x)
    ensures !ok ==> db.data == old(db.data)
    ensures old(db.batches) <= db.batches && |db.batches| == |old(db.batches)| + if ok then 1 else 0
    ensures old(Orderly(db.batches) && Described(db.data, s)) ==> Orderly(db.batches)
    ensures ok <==>
              && !db.closed && !db.writerActive && ValidIndex(s, x) && MetadataKey(s.name, x.name) !in old(db.data)
                    && (x.unique ==> !Clash(old(db.data), s, x)) && Fitting(old(db.data), s, x)
  {
    hide Clash, Fitting;
    hide TableOk, ValidIndex, IndexBytes, IndexCreated, MetadataKey, Backfill, ApplyList, ValidSchema, RowsOk;
    hide Wellformed, Orderly, Described, Replayed;
    if db.closed || db.writerActive {
      return false;
    }
    TableIsValid(db.data, s);
    var valid := ValidateIndex(s, x);
    var key := MetadataKey(s.name, x.name);
    if !valid || key in db.data {
      return false;
    }
    var changes := BackfillIndex(db.data, s, x);
    if changes.None? {
      return false;
    }
    FilledIndex(db.data, s, x, changes.value);
    FittingBatch(db.data, s, x, changes.value);
    ghost var d, all := db.data, changes.value + [(key, Put(IndexBytes(x)))];
    ok := db.ApplyBatch(changes.value + [(key, Put(IndexBytes(x)))]);
    ReplayedMore(old(db.batches), all);
    if ok && Orderly(old(db.batches)) && Described(d, s) {
      OrderlyMore(old(db.batches), all, Step.CreateIndex(s, x));
    }
  }

  lemma {:induction false} FittingBatch(d: Data, s: Schema, x: Index, changes: seq<(Bytes, Change)>)
    requires Backfill(d, s, x, changes)
    ensures var all := changes + [(MetadataKey(s.name, x.name), Put(IndexBytes(x)))];
            Fitting(d, s, x) <==> forall i :: 0 <= i < |all| ==> Wellformed(all[i].0, all[i].1)
  {
    hide NewEntry, Wellformed, MetadataKey, IndexBytes;
    var all := changes + [(MetadataKey(s.name, x.name), Put(IndexBytes(x)))];
    assert all[|changes|] == (MetadataKey(s.name, x.name), Put(IndexBytes(x)));
    if forall i :: 0 <= i < |all| ==> Wellformed(all[i].0, all[i].1) {
      forall k, pk | NewEntry(d, s, x, k, pk) ensures Wellformed(k, Put(pk)) {
        var i :| 0 <= i < |changes| && changes[i] == (k, Put(pk));
        assert all[i] == changes[i];
      }
    }
  }

  lemma {:induction false} TableIsValid(d: Data, s: Schema)
    requires TableOk(d, s)
    ensures ValidSchema(s) && RowsOk(d, s)
  {
  }

  /** The entries of all rows, under distinct keys; none if two rows share a value that must be unique. */
  ghost predicate Backfill(d: Data, s: Schema, x: Index, changes: seq<(Bytes, Change)>) {
    && (forall i, j :: 0 <= i < j < |changes| ==> changes[i].0 != changes[j].0)
    && (forall i :: 0 <= i < |changes| ==> changes[i].1.Put? && NewEntry(d, s, x, changes[i].0, changes[i].1.value))
    && (forall k, pk :: NewEntry(d, s, x, k, pk) ==> exists i :: 0 <= i < |changes| && changes[i] == (k, Put(pk)))
  }

  /** Row `j` of the scan and its entry. */
  ghost predicate Filed(d: Data, s: Schema, x: Index, item: (Bytes, Bytes), change: (Bytes, Change), pk: Bytes,
      row: Row) {
    item.0 == RowAt(s.name, pk) && HasRow(d, s, pk, row) && change == (EntryOf(s, x, row, pk), Put(pk))
  }

  method BackfillIndex(d: Data, s: Schema, x: Index) returns (r: Option<seq<(Bytes, Change)>>)
    requires TableOk(d, s) && ValidIndex(s, x)
    ensures r.Some? ==> Backfill(d, s, x, r.value)
    ensures r.None? <==> x.unique && Clash(d, s, x)
  {
    hide Clash;
    hide TableOk, ValidIndex, EncodeValue, RowOf, EntryKey, ValidSchema, Backfill, Escape;
    TableIsValid(d, s);
    var prefix := RowPrefix(s.name);
    LowFirst(prefix);
    var items := ScanPrefix(d, prefix);
    var changes: seq<(Bytes, Change)> := [];
    var seen: map<Bytes, Bytes> := map[];
    ghost var pks: seq<Bytes>, rows: seq<Row> := [], [];
    var i := 0;
    while i < |items|
      invariant 0 <= i <= |items| && |changes| == |pks| == |rows| == i
      invariant FiledTo(d, s, x, items, changes, pks, rows)
      invariant x.unique ==> SeenBy(ColumnOf(s, x), pks, rows, seen)
    {
      var pk := items[i].0[|prefix|..];
      assert items[i].0 == RowAt(s.name, pk);
      var row := DecodeRow(s, items[i].1);
      assert row.Some?;
      IndexedFits(s, x, row.value, items[i].1);
      var value := EncodeValue(ColumnOf(s, x), Lookup(row.value, x.column)).value;
      var key := EntryKey(s.name, x, value, pk);
      if x.unique {
        if value in seen && seen[value] != pk {
          ClashSeen(d, s, x, items, changes, pks, rows, seen, pk, row.value);
          return None;
        }
        SeenStep(ColumnOf(s, x), pks, rows, seen, pk, row.value);
        seen := seen[value := pk];
      }
      FiledStep(d, s, x, items, changes, pks, rows, (key, Put(pk)), pk, row.value);
      changes := changes + [(key, Put(pk))];
      pks, rows := pks + [pk], rows + [row.value];
      i := i + 1;
    }
    AllFiled(d, s, x, items, changes, pks, rows, seen);
    if x.unique {
      NoClash(d, s, x, items, changes, pks, rows, seen);
    }
    r := Some(changes);
  }

  ghost predicate FiledTo(d: Data, s: Schema, x: Index, items: seq<(Bytes, Bytes)>, changes: seq<(Bytes, Change)>,
      pks: seq<Bytes>, rows: seq<Row>) {
    && |changes| == |pks| == |rows| <= |items|
    && forall j :: 0 <= j < |changes| ==> Filed(d, s, x, items[j], changes[j], pks[j], rows[j])
  }

  lemma {:induction false} FiledStep(d: Data, s: Schema, x: Index, items: seq<(Bytes, Bytes)>,
      changes: seq<(Bytes, Change)>, pks: seq<Bytes>, rows: seq<Row>, change: (Bytes, Change), pk: Bytes, row: Row)
    requires FiledTo(d, s, x, items, changes, pks, rows) && |changes| < |items|
    requires Filed(d, s, x, items[|changes|], change, pk, row)
    ensures FiledTo(d, s, x, items, changes + [change], pks + [pk], rows + [row])
  {
    hide Filed;
  }

  /** The values seen so far, each with the row it was seen in. */
  ghost predicate SeenBy(c: Column, pks: seq<Bytes>, rows: seq<Row>, seen: map<Bytes, Bytes>) {
    && |pks| == |rows|
    && (forall j :: 0 <= j < |rows| ==> Cell(rows[j], c) in seen && seen[Cell(rows[j], c)] == pks[j])
    && (forall v :: v in seen ==> exists j :: 0 <= j < |rows| && pks[j] == seen[v] && Cell(rows[j], c) == v)
  }

  lemma {:induction false} SeenStep(c: Column, pks: seq<Bytes>, rows: seq<Row>, seen: map<Bytes, Bytes>, pk: Bytes,
      row: Row)
    requires SeenBy(c, pks, rows, seen) && (Cell(row, c) in seen ==> seen[Cell(row, c)] == pk)
    ensures SeenBy(c, pks + [pk], rows + [row], seen[Cell(row, c) := pk])
  {
    hide Cell;
    var seen', pks', rows' := seen[Cell(row, c) := pk], pks + [pk], rows + [row];
    forall v | v in seen' ensures exists j :: 0 <= j < |rows'| && pks'[j] == seen'[v] && Cell(rows'[j], c) == v {
      if v == Cell(row, c) {
        assert pks'[|rows|] == pk && rows'[|rows|] == row;
      } else {
        var j :| 0 <= j < |rows| && pks[j] == seen[v] && Cell(rows[j], c) == v;
        assert pks'[j] == pks[j] && rows'[j] == rows[j];
      }
    }
  }

  lemma {:induction false} ClashSeen(d: Data, s: Schema, x: Index, items: seq<(Bytes, Bytes)>,
      changes: seq<(Bytes, Change)>, pks: seq<Bytes>, rows: seq<Row>, seen: map<Bytes, Bytes>, pk: Bytes, row: Row)
    requires ValidSchema(s) && ValidIndex(s, x) && HasRow(d, s, pk, row)
    requires FiledTo(d, s, x, items, changes, pks, rows) && SeenBy(ColumnOf(s, x), pks, rows, seen)
    requires Cell(row, ColumnOf(s, x)) in seen && seen[Cell(row, ColumnOf(s, x))] != pk
    ensures Clash(d, s, x)
  {
    hide Cell, ValidSchema, ValidIndex, HasRow;
    var value := Cell(row, ColumnOf(s, x));
    var j :| 0 <= j < |rows| && pks[j] == seen[value] && Cell(rows[j], ColumnOf(s, x)) == value;
    assert Filed(d, s, x, items[j], changes[j], pks[j], rows[j]);
  }

  lemma {:induction false} NoClash(d: Data, s: Schema, x: Index, items: seq<(Bytes, Bytes)>,
      changes: seq<(Bytes, Change)>, pks: seq<Bytes>, rows: seq<Row>, seen: map<Bytes, Bytes>)
    requires ValidSchema(s) && ValidIndex(s, x) && IsScan(d, RowPrefix(s.name), items)
             && |changes| == |pks| == |rows| == |items|
    requires forall j :: 0 <= j < |items| ==> Filed(d, s, x, items[j], changes[j], pks[j], rows[j])
    requires forall j :: 0 <= j < |items| ==>
              Cell(rows[j], ColumnOf(s, x)) in seen && seen[Cell(rows[j], ColumnOf(s, x))] == pks[j]
    ensures !Clash(d, s, x)
  {
    hide EncodeValue, RowOf, EntryOf, ValidSchema, ValidIndex, Less, RowAt, RowPrefix, Cell;
    forall p, a | HasRow(d, s, p, a) ensures Cell(a, ColumnOf(s, x)) in seen && seen[Cell(a, ColumnOf(s, x))] == p {
      RowStarts(s.name, p);
      var i :| 0 <= i < |items| && items[i].0 == RowAt(s.name, p);
      assert Filed(d, s, x, items[i], changes[i], pks[i], rows[i]);
      RowKeyOnce(s.name, s.name, p, pks[i]);
      HasRowOnce(d, s, p, a, rows[i]);
    }
  }

  lemma {:induction false} AllFiled(d: Data, s: Schema, x: Index, items: seq<(Bytes, Bytes)>,
      changes: seq<(Bytes, Change)>, pks: seq<Bytes>, rows: seq<Row>, seen: map<Bytes, Bytes>)
    requires ValidSchema(s) && ValidIndex(s, x) && IsScan(d, RowPrefix(s.name), items)
             && |changes| == |pks| == |rows| == |items|
    requires forall j :: 0 <= j < |items| ==> Filed(d, s, x, items[j], changes[j], pks[j], rows[j])
    requires x.unique ==> forall j :: 0 <= j < |items| ==>
              Cell(rows[j], ColumnOf(s, x)) in seen && seen[Cell(rows[j], ColumnOf(s, x))] == pks[j]
    ensures Backfill(d, s, x, changes)
  {
    hide EncodeValue, RowOf, EntryOf, ValidSchema, ValidIndex, Less, RowAt, RowPrefix;
    forall i, j | 0 <= i < j < |changes| ensures changes[i].0 != changes[j].0 {
      assert Less(items[i].0, items[j].0);
      NotLess(items[i].0);
      if changes[i].0 == changes[j].0 {
        assert Filed(d, s, x, items[i], changes[i], pks[i], rows[i])
               && Filed(d, s, x, items[j], changes[j], pks[j], rows[j]);
        OneEntry(s, x, rows[i], rows[j], pks[i], pks[j], d[RowAt(s.name, pks[i])], d[RowAt(s.name, pks[j])]);
      }
    }
    forall i | 0 <= i < |changes| ensures changes[i].1.Put? && NewEntry(d, s, x, changes[i].0, changes[i].1.value) {
      assert Filed(d, s, x, items[i], changes[i], pks[i], rows[i]);
    }
    forall k, pk | NewEntry(d, s, x, k, pk) ensures exists i :: 0 <= i < |changes| && changes[i] == (k, Put(pk)) {
      var row :| HasRow(d, s, pk, row) && k == EntryOf(s, x, row, pk);
      RowStarts(s.name, pk);
      var i :| 0 <= i < |items| && items[i].0 == RowAt(s.name, pk);
      assert Filed(d, s, x, items[i], changes[i], pks[i], rows[i]);
      RowKeyOnce(s.name, s.name, pk, pks[i]);
      HasRowOnce(d, s, pk, row, rows[i]);
    }
  }

  lemma {:induction false} RowStarts(table: Bytes, pk: Bytes)
    ensures RowPrefix(table) <= RowAt(table, pk)
  {
  }

  /** Entries of one index that coincide have the same value, and the same row unless values are unique. */
  lemma {:induction false} OneEntry(s: Schema, x: Index, a: Row, b: Row, p: Bytes, q: Bytes, da: Bytes, db: Bytes)
    requires ValidSchema(s) && ValidIndex(s, x) && RowOf(s, a, da) && RowOf(s, b, db)
             && EntryOf(s, x, a, p) == EntryOf(s, x, b, q)
    ensures Cell(a, ColumnOf(s, x)) == Cell(b, ColumnOf(s, x)) && (!x.unique ==> p == q)
  {
    hide RowOf, EncodeValue, EntryPrefix, ValidIndex, ValidSchema;
    IndexedFits(s, x, a, da);
    IndexedFits(s, x, b, db);
    EntryKeyOnce(s.name, x, ColumnOf(s, x), Lookup(a, x.column), Lookup(b, x.column), p, q);
  }

  /** Changes under distinct keys all take effect. */
  lemma {:induction false} ListTakesEffect(d: Data, changes: seq<(Bytes, Change)>)
    requires forall i, j :: 0 <= i < j < |changes| ==> changes[i].0 != changes[j].0
    requires forall i :: 0 <= i < |changes| ==> changes[i].1.Put?
    ensures forall i :: 0 <= i < |changes| ==>
              changes[i].0 in ApplyList(d, changes) && ApplyList(d, changes)[changes[i].0] == changes[i].1.value
    ensures forall k :: (forall i :: 0 <= i < |changes| ==> changes[i].0 != k) ==>
              (k in ApplyList(d, changes) <==> k in d) && (k in d ==> ApplyList(d, changes)[k] == d[k])
  {
    if changes != [] {
      var front, last := changes[..|changes| - 1], changes[|changes| - 1];
      forall i | 0 <= i < |front| ensures front[i] == changes[i] {
      }
      ListTakesEffect(d, front);
      var d' := ApplyList(d, front);
      forall k | forall i :: 0 <= i < |changes| ==> changes[i].0 != k
        ensures (k in ApplyList(d, changes) <==> k in d) && (k in d ==> ApplyList(d, changes)[k] == d[k])
      {
        assert changes[|changes| - 1].0 != k;
        assert forall i :: 0 <= i < |front| ==> front[i].0 != k;
      }
    }
  }

  /** Filling the index and defining it is what creating it means. */
  lemma {:induction false} FilledIndex(d: Data, s: Schema, x: Index, changes: seq<(Bytes, Change)>)
    requires ValidIndex(s, x) && Backfill(d, s, x, changes) && MetadataKey(s.name, x.name) !in d
    ensures IndexCreated(d, ApplyList(d, changes + [(MetadataKey(s.name, x.name), Put(IndexBytes(x)))]), s, x)
  {
    hide ValidIndex, IndexBytes, MetadataKey, NewEntry, ApplyList;
    var key := MetadataKey(s.name, x.name);
    var all := changes + [(key, Put(IndexBytes(x)))];
    forall i | 0 <= i < |changes| ensures changes[i].0 != key {
      EntryNotDefinition(d, s, x, changes[i].0, changes[i].1.value);
    }
    ListTakesEffect(d, all);
    var d' := ApplyList(d, all);
    assert all[|changes|].0 == key;
    forall k, pk: Bytes | NewEntry(d, s, x, k, pk) ensures k in d' && d'[k] == pk {
      var i :| 0 <= i < |changes| && changes[i] == (k, Put(pk));
      assert all[i] == changes[i];
    }
    forall k | k != key && (forall pk: Bytes :: !NewEntry(d, s, x, k, pk))
      ensures (k in d' <==> k in d) && (k in d ==> d'[k] == d[k])
    {
      forall i | 0 <= i < |all| ensures all[i].0 != k {
        if i < |changes| {
          assert NewEntry(d, s, x, changes[i].0, changes[i].1.value);
        }
      }
    }
  }

  lemma {:induction false} EntryNotDefinition(d: Data, s: Schema, x: Index, k: Bytes, pk: Bytes)
    requires NewEntry(d, s, x, k, pk)
    ensures k != MetadataKey(s.name, x.name)
  {
    hide EntryOf, MetadataKey, HasRow;
    var row :| HasRow(d, s, pk, row) && k == EntryOf(s, x, row, pk);
    EntryStarts(s, x, row, pk);
    FirstBytes(s.name, x.name, []);
  }

  // ----- Row operations within and outside of transactions

  datatype RowOp = Insert(row: Row) | Update(row: Row) | Remove(primaryKey: Value)

  /** The same tables with the same indexes. */
  ghost predicate SameCatalogue(d: Data, d': Data) {
    && (forall s, x :: Defined(d, s, x) <==> Defined(d', s, x))
    && (forall s :: Described(d, s) <==> Described(d', s))
  }

  lemma {:induction false} ReplacedCatalogue(d: Data, d': Data, s: Schema, pk: Bytes, was: Option<Row>,
      now: Option<Row>)
    requires RowReplaced(d, d', s, pk, was, now)
    ensures SameCatalogue(d, d')
  {
    hide RowReplaced, Defined, DescriptorOf, DescriptorKey, RowAt;
    forall u, x ensures Defined(d, u, x) <==> Defined(d', u, x) {
      SameDefinitions(d, d', s, pk, was, now, u, x);
    }
    forall u ensures Described(d, u) <==> Described(d', u) {
      FirstBytes(u.name, [], []);
      FirstBytes(s.name, pk, []);
      OtherKeys(d, d', s, pk, was, now, DescriptorKey(u.name));
    }
  }

  lemma {:induction false} LoadedToo(d: Data, d': Data, s: Schema, indexes: map<Bytes, Index>)
    requires Loaded(d, s, indexes) && SameCatalogue(d, d')
    ensures Loaded(d', s, indexes)
  {
  }

  lemma {:induction false} DescribedTable(d: Data, s: Schema)
    requires DatabaseOk(d) && Described(d, s)
    ensures TableOk(d, s) && ValidSchema(s) && DefinitionsOk(d, s)
  {
  }

  // ----- Row operations as a whole

  /** What a row operation comes to where the data is `d`. */
  ghost function Verdict(d: Data, s: Schema, op: RowOp): Outcome {
    match op
    case Insert(row) =>
      if !Encodable(s, row) then Invalid
      else if RowKey(s, row) in d then DuplicatePrimary
      else if Conflict(d, s, row, false) then DuplicateIndexed
      else Done
    case Update(row) =>
      if !Encodable(s, row) then Invalid
      else if RowKey(s, row) !in d then NotFound
      else if Conflict(d, s, row, true) then DuplicateIndexed
      else Done
    case Remove(primaryKey) =>
      match KeyFor(s, primaryKey)
      case None => Invalid
      case Some(key) => if key in d then Done else NotFound
  }

  /** The primary key that the operation names, and the row that it leaves there. */
  ghost function Target(s: Schema, op: RowOp): (Bytes, Option<Row>) {
    match op
    case Insert(row) => (PrimaryOf(s, row), Some(Stored(s, row)))
    case Update(row) => (PrimaryOf(s, row), Some(Stored(s, row)))
    case Remove(primaryKey) =>
      (match EncodeValue(FindPrimary(s.columns), primaryKey) case Some(pk) => pk case None => [], None)
  }

  /** The row named by the operation is replaced, from `was`, with all its entries. */
  ghost predicate Performs(d: Data, d': Data, s: Schema, op: RowOp, was: Option<Row>) {
    && Does(d, d', Replace(s, Target(s, op).0, was, Target(s, op).1))
    && (was.None? <==> op.Insert?)
  }

  /** The keys that a row operation changes. */
  ghost predicate OpTouches(d: Data, s: Schema, op: RowOp, was: Option<Row>, k: Bytes) {
    Touches(d, s, Target(s, op).0, was, Target(s, op).1, k)
  }

  /** Keys of admissible length, whichever row was there. */
  ghost predicate KeysFit(d: Data, s: Schema, op: RowOp) {
    forall was: Option<Row>, k: Bytes ::
      (was.Some? ==> HasRow(d, s, Target(s, op).0, was.value)) && OpTouches(d, s, op, was, k) ==>
        |k| <= MAX_KEY_BYTES
  }

  /** Runs a row operation with the committed index definitions; the outcome depends on what the transaction sees. */
  method MutateTable(tx: Tx, s: Schema, op: RowOp) returns (r: Outcome, ghost was: Option<Row>)
    requires tx.Valid() && DatabaseOk(tx.db.data) && DatabaseOk(tx.View()) && Described(tx.View(), s)
             && SameCatalogue(tx.db.data, tx.View())
    modifies tx`order, tx`changes
    ensures tx.Valid() && DatabaseOk(tx.View()) && SameCatalogue(tx.db.data, tx.View())
    ensures r == if tx.closed || tx.db.closed || tx.readOnly then Barred else Verdict(old(tx.View()), s, op)
    ensures !r.Done? ==> tx.changes == old(tx.changes)
    ensures r.Done? ==> Performs(old(tx.View()), tx.View(), s, op, was)
    ensures r.Done? ==>
              Buffered(old(tx.changes), tx.changes, old(tx.View()), s, Target(s, op).0, was, Target(s, op).1)
  {
    hide DatabaseOk, Described, RowReplaced, UniqueFree, TableOk, Overlay, Defined, Loaded, Encodable, Conflict, Stored;
    hide PrimaryOf;
    hide Buffered, EncodeValue, RowKey, RowAt;
    was := None;
    if tx.closed || tx.db.closed || tx.readOnly {
      return Barred, None;
    }
    ghost var view := tx.View();
    DescribedTable(tx.db.data, s);
    DescribedTable(view, s);
    var indexes := LoadIndexes(tx.db.data, s);
    assert indexes.Some?;
    LoadedToo(tx.db.data, view, s, indexes.value);
    ghost var pk, now := Target(s, op).0, Target(s, op).1;
    match op {
      case Insert(row) =>
        r := InsertRow(tx, s, indexes.value, row);
      case Update(row) =>
        r := UpdateRow(tx, s, indexes.value, row);
        if r.Done? {
          ghost var old' :| RowReplaced(view, tx.View(), s, pk, Some(old'), now)
                            && Buffered(old(tx.changes), tx.changes, view, s, pk, Some(old'), now);
          was := Some(old');
        }
      case Remove(primaryKey) =>
        var ok, deleted;
        ghost var key;
        ok, deleted, key := DeleteRow(tx, s, indexes.value, primaryKey);
        r := if !ok then Invalid else if deleted then Done else NotFound;
        NothingNew(view, s, key);
        if r.Done? {
          ghost var old' :| RowReplaced(view, tx.View(), s, key, Some(old'), None)
                            && Buffered(old(tx.changes), tx.changes, view, s, key, Some(old'), None);
          was := Some(old');
        }
    }
    if r.Done? {
      assert Does(view, tx.View(), Replace(s, pk, was, now));
      ReplaceKeeps(view, tx.View(), s, pk, was, now);
      ReplacedCatalogue(view, tx.View(), s, pk, was, now);
    }
  }

  lemma {:induction false} NothingNew(d: Data, s: Schema, pk: Bytes)
    ensures UniqueFree(d, s, pk, None)
  {
  }

  /**
   A row operation outside of any transaction: one batch, all of it or nothing. It is done
   exactly when nobody else is writing, the operation is admissible and all keys fit.
   */
  method Mutate(db: Database, s: Schema, op: RowOp) returns (r: Outcome, ghost was: Option<Row>)
    requires db.Valid() && DatabaseOk(db.data) && Described(db.data, s)
    modifies db`data, db`batches
    ensures db.Valid() && DatabaseOk(db.data)
    ensures r == if db.closed || db.writerActive then Barred
                 else if Verdict(old(db.data), s, op).Done? && !KeysFit(old(db.data), s, op) then TooLarge
                 else Verdict(old(db.data), s, op)
    ensures !r.Done? ==> db.data == old(db.data)
    ensures r.Done? ==> Performs(old(db.data), db.data, s, op, was)
    ensures old(db.batches) <= db.batches && |db.batches| == |old(db.batches)| + if r.Done? then 1 else 0
    ensures old(Orderly(db.batches)) ==> Orderly(db.batches)
  {
    hide DatabaseOk, Described, Does, RowReplaced, Wellformed, Verdict, Buffered, KeysFit, Target, Orderly, Replayed;
    was := None;
    if db.closed || db.writerActive {
      return Barred, None;
    }
    var tx := new Tx(db, false, db.data);
    assert tx.View() == db.data;
    SameAsItself(db.data);
    r, was := MutateTable(tx, s, op);
    if r.Done? {
      FitsIffWellformed(db.data, tx.View(), s, op, was, tx.changes);
      ghost var batches, changes := db.batches, Listed(tx.order, tx.changes);
      var ok := tx.Publish();
      ReplayedMore(batches, changes);
      if !ok {
        r := TooLarge;
      } else if Orderly(batches) {
        OrderlyMore(batches, changes, Replace(s, Target(s, op).0, was, Target(s, op).1));
      }
    }
  }

  lemma {:induction false} SameAsItself(d: Data)
    ensures SameCatalogue(d, d)
  {
  }

  /** Only the length of keys can keep a row operation from being published. */
  lemma {:induction false} FitsIffWellformed(d: Data, d': Data, s: Schema, op: RowOp, was: Option<Row>, c: Changes)
    requires Performs(d, d', s, op, was) && Buffered(map[], c, d, s, Target(s, op).0, was, Target(s, op).1)
    ensures KeysFit(d, s, op) <==> forall k :: k in c ==> Wellformed(k, c[k])
  {
    hide EntryOf, HasRow, IsEntry, RowAt, Target, UniqueFree, Described;
    var pk, now := Target(s, op).0, Target(s, op).1;
    forall k | OpTouches(d, s, op, was, k) ensures |k| > 0 {
      TouchedKey(d, s, pk, was, now, k);
    }
    if forall k :: k in c ==> Wellformed(k, c[k]) {
      forall was': Option<Row>, k: Bytes | (was'.Some? ==> HasRow(d, s, pk, was'.value)) && OpTouches(d, s, op, was', k)
        ensures |k| <= MAX_KEY_BYTES
      {
        SameTouched(d, d', s, pk, was, was', now, k);
        assert k in c;
      }
    }
  }

  lemma {:induction false} TouchedKey(d: Data, s: Schema, pk: Bytes, was: Option<Row>, now: Option<Row>, k: Bytes)
    requires Touches(d, s, pk, was, now, k)
    ensures k != []
  {
    hide EntryOf, RowAt;
    FirstBytes(s.name, pk, []);
    forall x, row: Row ensures EntryOf(s, x, row, pk) != [] {
      EntryStarts(s, x, row, pk);
    }
  }

  /** No other row than the replaced one was under the key. */
  lemma {:induction false} SameTouched(d: Data, d': Data, s: Schema, pk: Bytes, was: Option<Row>, was': Option<Row>,
      now: Option<Row>, k: Bytes)
    requires RowReplaced(d, d', s, pk, was, now) && (was'.Some? ==> HasRow(d, s, pk, was'.value))
             && Touches(d, s, pk, was', now, k)
    ensures Touches(d, s, pk, was, now, k)
  {
    hide EntryOf, RowAt, RowOf;
    if was'.Some? && was.Some? {
      HasRowOnce(d, s, pk, was.value, was'.value);
    }
  }
}
