/**
 What table operations do to the store, and that each of them keeps the rows and the
 indexes of every table in agreement.
 */
module IndexUpkeep {
  import opened ByteStrings
  import opened Entries
  import opened Codecs
  import opened Schemas
  import opened Rows
  import opened Descriptors
  import opened TableData

  // ----- Kinds of keys

  /** The key lies in the part of the store that belongs to the table. */
  predicate Belongs(table: Bytes, k: Bytes) {
    RowPrefix(table) <= k || MetadataPrefix(table) <= k || [0x30] + Escape(table) <= k
  }

  lemma {:induction false} FirstBytes(table: Bytes, a: Bytes, b: Bytes)
    ensures RowAt(table, a)[0] == 0x20 && MetadataKey(table, a)[0] == 0x11 && (EntryPrefix(table, a) + b)[0] == 0x30
    ensures DescriptorKey(table) != [] && DescriptorKey(table)[0] == 0x10
    ensures Belongs(table, RowAt(table, a)) && Belongs(table, MetadataKey(table, a))
            && Belongs(table, EntryPrefix(table, a) + b)
  {
    hide Escape;
    assert [0x30] + Escape(table) <= EntryPrefix(table, a) + b;
  }

  lemma {:induction false} EntryStarts(s: Schema, x: Index, row: Row, pk: Bytes)
    ensures EntryPrefix(s.name, x.name) <= EntryOf(s, x, row, pk) && EntryOf(s, x, row, pk)[0] == 0x30
    ensures Belongs(s.name, EntryOf(s, x, row, pk))
  {
    hide Escape;
    var e, rest := EntryPrefix(s.name, x.name), Cell(row, ColumnOf(s, x)) + (if x.unique then [] else pk);
    assert EntryOf(s, x, row, pk) == e + rest;
    FirstBytes(s.name, x.name, rest);
  }

  /** Tables do not share keys. */
  lemma {:induction false} BelongsOnce(t: Bytes, u: Bytes, k: Bytes)
    requires Belongs(t, k) && Belongs(u, k)
    ensures t == u
  {
    hide Escape;
    var tag := k[0];
    assert [tag] + Escape(t) <= k && [tag] + Escape(u) <= k;
    var p, q := k[|[tag] + Escape(t)|..], k[|[tag] + Escape(u)|..];
    assert [tag] + Escape(t) + p == k == [tag] + Escape(u) + q;
    TaggedOnce(tag, t, u, p, q);
  }

  // ----- Replacing a row

  ghost predicate IsEntry(d: Data, s: Schema, row: Option<Row>, pk: Bytes, k: Bytes) {
    row.Some? && exists x :: Defined(d, s, x) && k == EntryOf(s, x, row.value, pk)
  }

  /** The row under `pk` is replaced, with its entries; nothing else changes. */
  ghost predicate RowReplaced(d: Data, d': Data, s: Schema, pk: Bytes, was: Option<Row>, now: Option<Row>) {
    var key := RowAt(s.name, pk);
    && (if was.Some? then HasRow(d, s, pk, was.value) else key !in d)
    && (if now.Some? then IsPrimary(s, pk) && HasRow(d', s, pk, now.value) else key !in d')
    && (forall k :: k != key ==>
          if IsEntry(d, s, now, pk, k) then k in d' && d'[k] == pk
          else if IsEntry(d, s, was, pk, k) then k !in d'
          else (k in d' <==> k in d) && (k in d ==> d'[k] == d[k]))
  }

  /** No other row owns a value that must be unique. */
  ghost predicate UniqueFree(d: Data, s: Schema, pk: Bytes, now: Option<Row>) {
    now.Some? ==> forall x :: Defined(d, s, x) && x.unique ==>
      EntryOf(s, x, now.value, pk) in d ==> d[EntryOf(s, x, now.value, pk)] == pk
  }

  /** Keys that are neither the row nor an entry stay as they are. */
  lemma {:induction false} OtherKeys(d: Data, d': Data, s: Schema, pk: Bytes, was: Option<Row>, now: Option<Row>,
      k: Bytes)
    requires RowReplaced(d, d', s, pk, was, now) && k != [] && k[0] != 0x30 && k != RowAt(s.name, pk)
    ensures (k in d' <==> k in d) && (k in d ==> d'[k] == d[k])
  {
    hide HasRow, EntryOf, Defined;
    forall x, row: Row ensures k != EntryOf(s, x, row, pk) {
      EntryStarts(s, x, row, pk);
    }
  }

  lemma {:induction false} SameDefinitions(d: Data, d': Data, s: Schema, pk: Bytes, was: Option<Row>, now: Option<Row>,
      u: Schema, x: Index)
    requires RowReplaced(d, d', s, pk, was, now)
    ensures Defined(d', u, x) <==> Defined(d, u, x)
  {
    hide RowReplaced, ValidIndex, MetadataKey, RowAt;
    FirstBytes(u.name, x.name, []);
    FirstBytes(s.name, pk, []);
    OtherKeys(d, d', s, pk, was, now, MetadataKey(u.name, x.name));
  }

  lemma {:induction false} SameRows(d: Data, d': Data, s: Schema, pk: Bytes, was: Option<Row>, now: Option<Row>,
      q: Bytes, row: Row)
    requires RowReplaced(d, d', s, pk, was, now) && q != pk
    ensures HasRow(d', s, q, row) <==> HasRow(d, s, q, row)
    ensures RowAt(s.name, q) in d' <==> RowAt(s.name, q) in d
  {
    hide RowReplaced, RowOf, RowAt;
    FirstBytes(s.name, q, []);
    if RowAt(s.name, q) == RowAt(s.name, pk) {
      RowKeyOnce(s.name, s.name, q, pk);
    }
    OtherKeys(d, d', s, pk, was, now, RowAt(s.name, q));
  }

  /** Two entries that coincide belong to the same index and value, and to the same row unless values are unique. */
  lemma {:induction false} SameEntry(d: Data, s: Schema, x: Index, y: Index, a: Row, b: Row, p: Bytes, q: Bytes,
      da: Bytes, db: Bytes)
    requires ValidSchema(s) && Defined(d, s, x) && Defined(d, s, y) && RowOf(s, a, da) && RowOf(s, b, db)
    requires EntryOf(s, x, a, p) == EntryOf(s, y, b, q)
    ensures x == y && Lookup(a, x.column) == Lookup(b, x.column) && (!x.unique ==> p == q)
  {
    hide RowOf, EncodeValue, EntryPrefix, ValidIndex, IndexBytes;
    EntryStarts(s, x, a, p);
    EntryStarts(s, y, b, q);
    var k := EntryOf(s, x, a, p);
    var e, f := EntryPrefix(s.name, x.name), EntryPrefix(s.name, y.name);
    assert e + k[|e|..] == k == f + k[|f|..];
    EntryPrefixOnce(s.name, s.name, x.name, y.name, k[|e|..], k[|f|..]);
    DefinedOnce(d, s, x, y);
    IndexedFits(s, x, a, da);
    IndexedFits(s, x, b, db);
    EntryKeyOnce(s.name, x, ColumnOf(s, x), Lookup(a, x.column), Lookup(b, x.column), p, q);
  }

  /** An entry of another row is untouched. */
  lemma {:induction false} OtherEntry(d: Data, d': Data, s: Schema, pk: Bytes, was: Option<Row>, now: Option<Row>,
      x: Index, q: Bytes, row: Row)
    requires TableOk(d, s) && RowReplaced(d, d', s, pk, was, now) && UniqueFree(d, s, pk, now)
    requires Defined(d, s, x) && HasRow(d, s, q, row) && q != pk
    ensures var k := EntryOf(s, x, row, q);
            !IsEntry(d, s, now, pk, k) && !IsEntry(d, s, was, pk, k) && k in d' && d'[k] == q
  {
    hide RowOf, EncodeValue, EntryOf, ValidIndex, IndexBytes, RowsOk, DefinitionsOk, EntriesAccounted, MetadataKey;
    hide ValidSchema;
    var k := EntryOf(s, x, row, q);
    var dq := d[RowAt(s.name, q)];
    EntryStarts(s, x, row, q);
    FirstBytes(s.name, pk, []);
    assert k in d && d[k] == q;
    if now.Some? {
      var dn := d'[RowAt(s.name, pk)];
      forall y | Defined(d, s, y) && k == EntryOf(s, y, now.value, pk) ensures false {
        SameEntry(d, s, x, y, row, now.value, q, pk, dq, dn);
      }
    }
  }

  /** Replacing a row with its entries keeps rows and indexes in agreement. */
  lemma {:induction false} ReplacedKeeps(d: Data, d': Data, s: Schema, pk: Bytes, was: Option<Row>, now: Option<Row>)
    requires TableOk(d, s) && RowReplaced(d, d', s, pk, was, now) && UniqueFree(d, s, pk, now)
    ensures TableOk(d', s)
  {
    hide RowsOk, DefinitionsOk, RowsIndexed, EntriesAccounted, RowReplaced, UniqueFree, ValidSchema;
    ReplacedRows(d, d', s, pk, was, now);
    ReplacedDefinitions(d, d', s, pk, was, now, s);
    ReplacedIndexed(d, d', s, pk, was, now);
    ReplacedEntries(d, d', s, pk, was, now);
  }

  lemma {:induction false} ReplacedRows(d: Data, d': Data, s: Schema, pk: Bytes, was: Option<Row>, now: Option<Row>)
    requires RowsOk(d, s) && RowReplaced(d, d', s, pk, was, now)
    ensures RowsOk(d', s)
  {
    hide RowOf, RowAt, IsEntry;
    forall q: Bytes | RowAt(s.name, q) in d'
      ensures IsPrimary(s, q) && exists row :: RowOf(s, row, d'[RowAt(s.name, q)])
    {
      if q != pk {
        var any: Row := map[];
        SameRows(d, d', s, pk, was, now, q, any);
        var row :| RowOf(s, row, d[RowAt(s.name, q)]);
        SameRows(d, d', s, pk, was, now, q, row);
      }
    }
  }

  lemma {:induction false} ReplacedDefinitions(d: Data, d': Data, s: Schema, pk: Bytes, was: Option<Row>,
      now: Option<Row>, u: Schema)
    requires DefinitionsOk(d, u) && RowReplaced(d, d', s, pk, was, now)
    ensures DefinitionsOk(d', u)
  {
    hide RowReplaced, Defined, Escape;
    forall k | k in d' && MetadataPrefix(u.name) <= k
      ensures exists x :: Defined(d', u, x) && k == MetadataKey(u.name, x.name)
    {
      assert k[0] == 0x11;
      FirstBytes(s.name, pk, []);
      OtherKeys(d, d', s, pk, was, now, k);
      var x :| Defined(d, u, x) && k == MetadataKey(u.name, x.name);
      SameDefinitions(d, d', s, pk, was, now, u, x);
    }
  }

  lemma {:induction false} ReplacedIndexed(d: Data, d': Data, s: Schema, pk: Bytes, was: Option<Row>, now: Option<Row>)
    requires TableOk(d, s) && RowReplaced(d, d', s, pk, was, now) && UniqueFree(d, s, pk, now)
    ensures RowsIndexed(d', s)
  {
    hide RowOf, RowAt, EntryOf, Defined, RowsOk, DefinitionsOk, EntriesAccounted, ValidSchema, UniqueFree;
    forall x, q: Bytes, row | Defined(d', s, x) && HasRow(d', s, q, row)
      ensures EntryOf(s, x, row, q) in d' && d'[EntryOf(s, x, row, q)] == q
    {
      SameDefinitions(d, d', s, pk, was, now, s, x);
      if q == pk {
        HasRowOnce(d', s, pk, row, now.value);
        var k := EntryOf(s, x, row, pk);
        assert IsEntry(d, s, now, pk, k);
        EntryStarts(s, x, row, pk);
        FirstBytes(s.name, pk, []);
      } else {
        SameRows(d, d', s, pk, was, now, q, row);
        OtherEntry(d, d', s, pk, was, now, x, q, row);
      }
    }
  }

  lemma {:induction false} ReplacedEntries(d: Data, d': Data, s: Schema, pk: Bytes, was: Option<Row>, now: Option<Row>)
    requires TableOk(d, s) && RowReplaced(d, d', s, pk, was, now)
    ensures EntriesAccounted(d', s)
  {
    hide RowOf, RowAt, EntryOf, Defined, RowsOk, DefinitionsOk, RowsIndexed, ValidSchema, EntryPrefix;
    forall k, name | k in d' && EntryPrefix(s.name, name) <= k ensures Accounted(d', s, name, k) {
      FirstBytes(s.name, pk, []);
      FirstBytes(s.name, name, k[|EntryPrefix(s.name, name)|..]);
      assert k == EntryPrefix(s.name, name) + k[|EntryPrefix(s.name, name)|..];
      if IsEntry(d, s, now, pk, k) {
        NewAccounted(d, d', s, pk, was, now, name, k);
      } else {
        assert k in d && !IsEntry(d, s, was, pk, k);
        var x, q, row :| Defined(d, s, x) && x.name == name && HasRow(d, s, q, row) && k == EntryOf(s, x, row, q);
        if q == pk {
          HasRowOnce(d, s, pk, row, was.value);
        }
        SameDefinitions(d, d', s, pk, was, now, s, x);
        SameRows(d, d', s, pk, was, now, q, row);
      }
    }
  }

  lemma {:induction false} NewAccounted(d: Data, d': Data, s: Schema, pk: Bytes, was: Option<Row>, now: Option<Row>,
      name: Bytes, k: Bytes)
    requires RowReplaced(d, d', s, pk, was, now) && IsEntry(d, s, now, pk, k) && EntryPrefix(s.name, name) <= k
    ensures Accounted(d', s, name, k)
  {
    hide RowOf, RowAt, EntryOf, Defined, EntryPrefix;
    var x :| Defined(d, s, x) && k == EntryOf(s, x, now.value, pk);
    EntryStarts(s, x, now.value, pk);
    var e, f := EntryPrefix(s.name, x.name), EntryPrefix(s.name, name);
    assert e + k[|e|..] == k == f + k[|f|..];
    EntryPrefixOnce(s.name, s.name, x.name, name, k[|e|..], k[|f|..]);
    SameDefinitions(d, d', s, pk, was, now, s, x);
  }

  // ----- Other tables

  ghost predicate Untouched(d: Data, d': Data, table: Bytes) {
    forall k :: Belongs(table, k) ==> (k in d' <==> k in d) && (k in d ==> d'[k] == d[k])
  }

  lemma {:induction false} UntouchedParts(d: Data, d': Data, s: Schema, x: Index, pk: Bytes, row: Row)
    requires Untouched(d, d', s.name)
    ensures Defined(d', s, x) <==> Defined(d, s, x)
    ensures HasRow(d', s, pk, row) <==> HasRow(d, s, pk, row)
    ensures RowAt(s.name, pk) in d' <==> RowAt(s.name, pk) in d
    ensures RowAt(s.name, pk) in d ==> d'[RowAt(s.name, pk)] == d[RowAt(s.name, pk)]
  {
    hide RowOf, ValidIndex, Belongs, RowAt, MetadataKey;
    FirstBytes(s.name, pk, []);
    FirstBytes(s.name, x.name, []);
  }

  /** A table depends on its own keys only. */
  lemma {:induction false} UntouchedKeeps(d: Data, d': Data, s: Schema)
    requires TableOk(d, s) && Untouched(d, d', s.name)
    ensures TableOk(d', s)
  {
    hide RowOf, RowAt, EntryOf, Defined, HasRow, ValidSchema, EntryPrefix, Belongs, MetadataPrefix, MetadataKey;
    var any: Row := map[];
    var none := Index([], [], false);
    forall q: Bytes | RowAt(s.name, q) in d'
      ensures IsPrimary(s, q) && exists row :: RowOf(s, row, d'[RowAt(s.name, q)])
    {
      UntouchedParts(d, d', s, none, q, any);
    }
    forall k | k in d' && MetadataPrefix(s.name) <= k
      ensures exists x :: Defined(d', s, x) && k == MetadataKey(s.name, x.name)
    {
      assert Belongs(s.name, k) by { PrefixBelongs(s.name, k); }
      var x :| Defined(d, s, x) && k == MetadataKey(s.name, x.name);
      UntouchedParts(d, d', s, x, [], any);
    }
    forall x, q: Bytes, row | Defined(d', s, x) && HasRow(d', s, q, row)
      ensures EntryOf(s, x, row, q) in d' && d'[EntryOf(s, x, row, q)] == q
    {
      UntouchedParts(d, d', s, x, q, row);
      EntryStarts(s, x, row, q);
    }
    forall k, name | k in d' && EntryPrefix(s.name, name) <= k ensures Accounted(d', s, name, k) {
      FirstBytes(s.name, name, k[|EntryPrefix(s.name, name)|..]);
      assert k == EntryPrefix(s.name, name) + k[|EntryPrefix(s.name, name)|..];
      var x, q, row :| Defined(d, s, x) && x.name == name && HasRow(d, s, q, row) && k == EntryOf(s, x, row, q);
      UntouchedParts(d, d', s, x, q, row);
    }
  }

  lemma {:induction false} EntryBelongs(table: Bytes, name: Bytes, k: Bytes)
    requires EntryPrefix(table, name) <= k
    ensures Belongs(table, k)
  {
    hide Escape;
    assert [0x30] + Escape(table) <= EntryPrefix(table, name);
  }

  lemma {:induction false} PrefixBelongs(table: Bytes, k: Bytes)
    requires MetadataPrefix(table) <= k
    ensures Belongs(table, k)
  {
  }

  // ----- Creating an index

  ghost predicate NewEntry(d: Data, s: Schema, x: Index, k: Bytes, pk: Bytes) {
    exists row :: HasRow(d, s, pk, row) && k == EntryOf(s, x, row, pk)
  }

  /** The index is defined and filled with the entries of all rows; nothing else changes. */
  ghost predicate IndexCreated(d: Data, d': Data, s: Schema, x: Index) {
    var key := MetadataKey(s.name, x.name);
    && ValidIndex(s, x) && key !in d && key in d' && d'[key] == IndexBytes(x)
    && (forall k, pk: Bytes :: NewEntry(d, s, x, k, pk) ==> k in d' && d'[k] == pk)
    && (forall k :: k != key && (forall pk: Bytes :: !NewEntry(d, s, x, k, pk)) ==>
          (k in d' <==> k in d) && (k in d ==> d'[k] == d[k]))
  }

  lemma {:induction false} CreatedElsewhere(d: Data, d': Data, s: Schema, x: Index, k: Bytes)
    requires IndexCreated(d, d', s, x) && k != MetadataKey(s.name, x.name) && !(EntryPrefix(s.name, x.name) <= k)
    ensures (k in d' <==> k in d) && (k in d ==> d'[k] == d[k])
  {
    hide EntryOf, HasRow, EntryPrefix, IndexBytes, ValidIndex;
    forall pk: Bytes ensures !NewEntry(d, s, x, k, pk) {
      forall row: Row ensures k != EntryOf(s, x, row, pk) {
        EntryStarts(s, x, row, pk);
      }
    }
  }

  /** Rows are what they were. */
  lemma {:induction false} CreatedRows(d: Data, d': Data, s: Schema, x: Index, pk: Bytes, row: Row)
    requires IndexCreated(d, d', s, x)
    ensures HasRow(d', s, pk, row) <==> HasRow(d, s, pk, row)
    ensures RowAt(s.name, pk) in d' <==> RowAt(s.name, pk) in d
  {
    hide IndexCreated, RowOf, RowAt, EntryPrefix, MetadataKey;
    FirstBytes(s.name, pk, []);
    FirstBytes(s.name, x.name, []);
    assert EntryPrefix(s.name, x.name) + [] == EntryPrefix(s.name, x.name);
    CreatedElsewhere(d, d', s, x, RowAt(s.name, pk));
  }

  /** Definitions are what they were, with one more. */
  lemma {:induction false} CreatedDefinitions(d: Data, d': Data, s: Schema, x: Index, y: Index)
    requires IndexCreated(d, d', s, x) && ValidSchema(s)
    ensures Defined(d', s, y) <==> Defined(d, s, y) || y == x
  {
    hide RowOf, RowAt, EntryPrefix, MetadataKey, IndexBytes, ValidIndex, NewEntry, ValidSchema;
    var k := MetadataKey(s.name, y.name);
    FirstBytes(s.name, y.name, []);
    FirstBytes(s.name, x.name, []);
    assert EntryPrefix(s.name, x.name) + [] == EntryPrefix(s.name, x.name);
    if y.name == x.name {
      if Defined(d', s, y) {
        ColumnOfIndex(s, x);
        ColumnOfIndex(s, y);
        IndexOnce(x, y);
      }
    } else {
      if k == MetadataKey(s.name, x.name) {
        MetadataOnce(s.name, s.name, y.name, x.name);
      }
      CreatedElsewhere(d, d', s, x, k);
    }
  }

  /** Defining and filling an index keeps rows and indexes in agreement. */
  lemma {:induction false} CreatedKeeps(d: Data, d': Data, s: Schema, x: Index)
    requires TableOk(d, s) && IndexCreated(d, d', s, x)
    ensures TableOk(d', s)
  {
    hide ValidSchema, RowsOk, DefinitionsOk, RowsIndexed, EntriesAccounted, IndexCreated;
    CreatedRowsOk(d, d', s, x);
    CreatedDefinitionsOk(d, d', s, x);
    CreatedIndexed(d, d', s, x);
    CreatedAccounted(d, d', s, x);
  }

  lemma {:induction false} CreatedRowsOk(d: Data, d': Data, s: Schema, x: Index)
    requires RowsOk(d, s) && IndexCreated(d, d', s, x)
    ensures RowsOk(d', s)
  {
    hide RowOf, RowAt, IndexCreated;
    var any: Row := map[];
    forall q: Bytes | RowAt(s.name, q) in d'
      ensures IsPrimary(s, q) && exists row :: RowOf(s, row, d'[RowAt(s.name, q)])
    {
      CreatedRows(d, d', s, x, q, any);
      var row :| RowOf(s, row, d[RowAt(s.name, q)]);
      CreatedRows(d, d', s, x, q, row);
    }
  }

  lemma {:induction false} CreatedDefinitionsOk(d: Data, d': Data, s: Schema, x: Index)
    requires DefinitionsOk(d, s) && IndexCreated(d, d', s, x) && ValidSchema(s)
    ensures DefinitionsOk(d', s)
  {
    hide Defined, ValidSchema, Escape, NewEntry, IndexBytes, ValidIndex;
    forall k | k in d' && MetadataPrefix(s.name) <= k
      ensures exists y :: Defined(d', s, y) && k == MetadataKey(s.name, y.name)
    {
      CreatedDefinitions(d, d', s, x, x);
      if k != MetadataKey(s.name, x.name) {
        assert k[0] == 0x11;
        assert EntryPrefix(s.name, x.name)[0] == 0x30;
        CreatedElsewhere(d, d', s, x, k);
        var y :| Defined(d, s, y) && k == MetadataKey(s.name, y.name);
        CreatedDefinitions(d, d', s, x, y);
      }
    }
  }

  lemma {:induction false} CreatedIndexed(d: Data, d': Data, s: Schema, x: Index)
    requires TableOk(d, s) && IndexCreated(d, d', s, x)
    ensures RowsIndexed(d', s)
  {
    hide RowOf, RowAt, EntryOf, Defined, HasRow, RowsOk, DefinitionsOk, EntriesAccounted, ValidSchema, EntryPrefix;
    hide IndexBytes, ValidIndex, MetadataKey;
    forall y, q: Bytes, row | Defined(d', s, y) && HasRow(d', s, q, row)
      ensures EntryOf(s, y, row, q) in d' && d'[EntryOf(s, y, row, q)] == q
    {
      CreatedDefinitions(d, d', s, x, y);
      CreatedRows(d, d', s, x, q, row);
      var k := EntryOf(s, y, row, q);
      if y == x {
        assert NewEntry(d, s, x, k, q);
      } else {
        OldEntry(d, d', s, x, y, q, row);
      }
    }
  }

  lemma {:induction false} OldEntry(d: Data, d': Data, s: Schema, x: Index, y: Index, q: Bytes, row: Row)
    requires TableOk(d, s) && IndexCreated(d, d', s, x) && Defined(d, s, y) && HasRow(d, s, q, row)
    ensures EntryOf(s, y, row, q) in d' && d'[EntryOf(s, y, row, q)] == q
  {
    hide RowOf, RowAt, EntryOf, HasRow, RowsOk, DefinitionsOk, EntriesAccounted, ValidSchema, EntryPrefix, IndexBytes;
    hide ValidIndex, NewEntry;
    var k := EntryOf(s, y, row, q);
    EntryStarts(s, y, row, q);
    FirstBytes(s.name, x.name, []);
    var e, f := EntryPrefix(s.name, y.name), EntryPrefix(s.name, x.name);
    if f <= k {
      assert e + k[|e|..] == k == f + k[|f|..];
      EntryPrefixOnce(s.name, s.name, y.name, x.name, k[|e|..], k[|f|..]);
      assert false;
    }
    CreatedElsewhere(d, d', s, x, k);
  }

  lemma {:induction false} CreatedAccounted(d: Data, d': Data, s: Schema, x: Index)
    requires TableOk(d, s) && IndexCreated(d, d', s, x)
    ensures EntriesAccounted(d', s)
  {
    hide RowOf, RowAt, EntryOf, HasRow, RowsOk, DefinitionsOk, RowsIndexed, ValidSchema, EntryPrefix, IndexBytes;
    hide ValidIndex, MetadataKey, Defined;
    forall k, name | k in d' && EntryPrefix(s.name, name) <= k ensures Accounted(d', s, name, k) {
      if pk: Bytes :| NewEntry(d, s, x, k, pk) {
        var row :| HasRow(d, s, pk, row) && k == EntryOf(s, x, row, pk);
        EntryStarts(s, x, row, pk);
        var e, f := EntryPrefix(s.name, x.name), EntryPrefix(s.name, name);
        assert e + k[|e|..] == k == f + k[|f|..];
        EntryPrefixOnce(s.name, s.name, x.name, name, k[|e|..], k[|f|..]);
        CreatedRows(d, d', s, x, pk, row);
        CreatedDefinitions(d, d', s, x, x);
      } else {
        FirstBytes(s.name, name, k[|EntryPrefix(s.name, name)|..]);
        FirstBytes(s.name, x.name, []);
        assert k == EntryPrefix(s.name, name) + k[|EntryPrefix(s.name, name)|..];
        assert k in d;
        var y, q, row :| Defined(d, s, y) && y.name == name && HasRow(d, s, q, row) && k == EntryOf(s, y, row, q);
        CreatedRows(d, d', s, x, q, row);
        CreatedDefinitions(d, d', s, x, y);
      }
    }
  }

  // ----- The whole database

  /** The table has a descriptor, which describes it. */
  ghost predicate Described(d: Data, s: Schema) {
    DescriptorKey(s.name) in d && DescriptorOf(s, d[DescriptorKey(s.name)])
  }

  /** Every catalogued table agrees with its indexes, and no table has keys without being catalogued. */
  ghost predicate DatabaseOk(d: Data) {
    && (forall table :: DescriptorKey(table) in d ==> exists s: Schema :: s.name == table && Described(d, s))
    && (forall s :: Described(d, s) ==> TableOk(d, s))
    && (forall k, table :: k in d && Belongs(table, k) ==> DescriptorKey(table) in d)
  }

  /** Keys that no table uses. */
  predicate RawKey(k: Bytes) {
    k == [] || (k[0] != 0x10 && k[0] != 0x11 && k[0] != 0x20 && k[0] != 0x30)
  }

  /** Only keys outside all tables change. */
  ghost predicate RawChange(d: Data, d': Data) {
    forall k :: !RawKey(k) ==> (k in d' <==> k in d) && (k in d ==> d'[k] == d[k])
  }

  /** The table is entered into the catalogue. */
  ghost predicate TableCreated(d: Data, d': Data, s: Schema) {
    && ValidSchema(s) && DescriptorKey(s.name) !in d && |DescriptorBytes(s)| <= MAX_DESCRIPTOR
    && d' == d[DescriptorKey(s.name) := DescriptorBytes(s)]
  }

  /** One operation on tables, or on keys outside them; or several of them published at once. */
  datatype Step =
    | Raw
    | CreateTable(s: Schema)
    | CreateIndex(s: Schema, x: Index)
    | Replace(s: Schema, pk: Bytes, was: Option<Row>, now: Option<Row>)
    | Transaction(steps: seq<Step>)

  ghost predicate Does(d: Data, d': Data, step: Step)
    decreases step
  {
    match step
    case Raw => RawChange(d, d')
    case CreateTable(s) => TableCreated(d, d', s)
    case CreateIndex(s, x) => Described(d, s) && IndexCreated(d, d', s, x)
    case Replace(s, pk, was, now) => Described(d, s) && RowReplaced(d, d', s, pk, was, now) && UniqueFree(d, s, pk, now)
    case Transaction(steps) => exists mid :: Passes(d, d', steps, mid)
  }

  /** From `d` to `d'` through the steps of a transaction: rows are replaced, and keys outside tables change. */
  ghost predicate Passes(d: Data, d': Data, steps: seq<Step>, mid: seq<Data>)
    decreases steps
  {
    && |mid| == |steps| + 1 && mid[0] == d && mid[|steps|] == d'
    && (forall j :: 0 <= j < |steps| ==> (steps[j].Raw? || steps[j].Replace?) && Does(mid[j], mid[j + 1], steps[j]))
  }

  lemma {:induction false} DescriptorKeyOnce(t: Bytes, u: Bytes)
    requires DescriptorKey(t) == DescriptorKey(u)
    ensures t == u
  {
    hide Escape;
    assert [0x10] + Escape(t) + [] == DescriptorKey(t) && [0x10] + Escape(u) + [] == DescriptorKey(u);
    TaggedOnce(0x10, t, u, [], []);
  }

  lemma {:induction false} DescribedOnce(d: Data, s: Schema, t: Schema)
    requires Described(d, s) && Described(d, t) && s.name == t.name
    ensures s == t
  {
    hide DescriptorOf;
    DescriptorOnce(s, t, d[DescriptorKey(s.name)]);
  }

  /** What a table owns starts with its own first bytes, never with a descriptor's. */
  lemma {:induction false} BelongsFirst(table: Bytes, k: Bytes)
    requires Belongs(table, k)
    ensures k != [] && (k[0] == 0x11 || k[0] == 0x20 || k[0] == 0x30)
  {
  }

  /** A change confined to one table that keeps it, keeps the database. */
  lemma {:induction false} OneTableKeeps(d: Data, d': Data, s: Schema)
    requires DatabaseOk(d) && Described(d, s) && TableOk(d', s)
    requires forall k :: !Belongs(s.name, k) ==> (k in d' <==> k in d) && (k in d ==> d'[k] == d[k])
    ensures DatabaseOk(d')
  {
    hide TableOk, DescriptorOf, Belongs, DescriptorKey;
    forall table: Bytes ensures (DescriptorKey(table) in d' <==> DescriptorKey(table) in d)
                             && (DescriptorKey(table) in d ==> d'[DescriptorKey(table)] == d[DescriptorKey(table)]) {
      NotDescriptor(s.name, table);
    }
    forall t | Described(d', t) ensures TableOk(d', t) {
      assert Described(d, t);
      if t.name == s.name {
        DescribedOnce(d, s, t);
      } else {
        Confined(d, d', s.name, t.name);
        UntouchedKeeps(d, d', t);
      }
    }
    forall k, table | k in d' && Belongs(table, k) ensures DescriptorKey(table) in d' {
      if table != s.name {
        Confined(d, d', s.name, table);
      }
    }
  }

  lemma {:induction false} NotDescriptor(table: Bytes, other: Bytes)
    ensures !Belongs(table, DescriptorKey(other))
  {
    if Belongs(table, DescriptorKey(other)) {
      BelongsFirst(table, DescriptorKey(other));
    }
  }

  lemma {:induction false} Confined(d: Data, d': Data, table: Bytes, other: Bytes)
    requires table != other && forall k :: !Belongs(table, k) ==> (k in d' <==> k in d) && (k in d ==> d'[k] == d[k])
    ensures Untouched(d, d', other)
  {
    hide Belongs;
    forall k | Belongs(other, k) ensures (k in d' <==> k in d) && (k in d ==> d'[k] == d[k]) {
      if Belongs(table, k) {
        BelongsOnce(table, other, k);
      }
    }
  }

  lemma {:induction false} ReplaceKeeps(d: Data, d': Data, s: Schema, pk: Bytes, was: Option<Row>, now: Option<Row>)
    requires DatabaseOk(d) && Described(d, s) && RowReplaced(d, d', s, pk, was, now) && UniqueFree(d, s, pk, now)
    ensures DatabaseOk(d')
  {
    hide TableOk, DescriptorOf, Belongs, UniqueFree, EntryOf, HasRow, Defined, RowAt;
    ReplacedKeeps(d, d', s, pk, was, now);
    forall k | !Belongs(s.name, k) ensures (k in d' <==> k in d) && (k in d ==> d'[k] == d[k]) {
      FirstBytes(s.name, pk, []);
      forall x, row: Row ensures k != EntryOf(s, x, row, pk) {
        EntryStarts(s, x, row, pk);
      }
    }
    OneTableKeeps(d, d', s);
  }

  lemma {:induction false} CreateKeeps(d: Data, d': Data, s: Schema, x: Index)
    requires DatabaseOk(d) && Described(d, s) && IndexCreated(d, d', s, x)
    ensures DatabaseOk(d')
  {
    hide TableOk, DescriptorOf, Belongs, IndexCreated, EntryPrefix, MetadataKey;
    CreatedKeeps(d, d', s, x);
    forall k | !Belongs(s.name, k) ensures (k in d' <==> k in d) && (k in d ==> d'[k] == d[k]) {
      FirstBytes(s.name, x.name, []);
      if EntryPrefix(s.name, x.name) <= k {
        EntryBelongs(s.name, x.name, k);
      }
      CreatedElsewhere(d, d', s, x, k);
    }
    OneTableKeeps(d, d', s);
  }

  /** A new table has no rows and no indexes yet. */
  lemma {:induction false} TableKeeps(d: Data, d': Data, s: Schema)
    requires DatabaseOk(d) && TableCreated(d, d', s)
    ensures DatabaseOk(d')
  {
    hide TableOk, ValidSchema, Belongs, DescriptorKey, DescriptorBytes;
    assert Described(d', s);
    forall table: Bytes | table != s.name ensures DescriptorKey(table) != DescriptorKey(s.name) {
      if DescriptorKey(table) == DescriptorKey(s.name) {
        DescriptorKeyOnce(table, s.name);
      }
    }
    forall k, table | Belongs(table, k) ensures k != DescriptorKey(s.name) {
      NotDescriptor(table, s.name);
    }
    forall t | Described(d', t) ensures TableOk(d', t) {
      if t.name == s.name {
        DescribedOnce(d', s, t);
        NewTableOk(d', s);
      } else {
        assert Described(d, t);
        UntouchedKeeps(d, d', t);
      }
    }
    forall table | DescriptorKey(table) in d' ensures exists t: Schema :: t.name == table && Described(d', t) {
      if table != s.name {
        var t: Schema :| t.name == table && Described(d, t);
        assert Described(d', t);
      }
    }
  }

  lemma {:induction false} NewTableOk(d: Data, s: Schema)
    requires ValidSchema(s) && forall k :: Belongs(s.name, k) ==> k !in d
    ensures TableOk(d, s)
  {
    hide Belongs, RowOf, RowAt, EntryOf, EntryPrefix, ValidSchema, MetadataPrefix, MetadataKey;
    forall pk: Bytes ensures RowAt(s.name, pk) !in d {
      FirstBytes(s.name, pk, []);
    }
    forall k | k in d ensures !(MetadataPrefix(s.name) <= k) {
      if MetadataPrefix(s.name) <= k {
        PrefixBelongs(s.name, k);
      }
    }
    forall k, name | k in d ensures !(EntryPrefix(s.name, name) <= k) {
      if EntryPrefix(s.name, name) <= k {
        EntryBelongs(s.name, name, k);
      }
    }
  }

  lemma {:induction false} RawKeeps(d: Data, d': Data)
    requires DatabaseOk(d) && RawChange(d, d')
    ensures DatabaseOk(d')
  {
    hide TableOk, Belongs, DescriptorKey, DescriptorOf;
    forall table: Bytes ensures Untouched(d, d', table) && !RawKey(DescriptorKey(table)) {
      FirstBytes(table, [], []);
      forall k | Belongs(table, k) ensures !RawKey(k) {
        BelongsFirst(table, k);
      }
    }
    forall s | Described(d', s) ensures TableOk(d', s) {
      assert Described(d, s);
      UntouchedKeeps(d, d', s);
    }
    forall table | DescriptorKey(table) in d' ensures exists s: Schema :: s.name == table && Described(d', s) {
      var s: Schema :| s.name == table && Described(d, s);
      assert Described(d', s);
    }
    forall k, table | k in d' && Belongs(table, k) ensures DescriptorKey(table) in d' {
      assert Untouched(d, d', table);
    }
  }

  /** Every operation keeps every table and its indexes in agreement. */
  lemma {:induction false} StepKeeps(d: Data, d': Data, step: Step)
    requires DatabaseOk(d) && Does(d, d', step)
    ensures DatabaseOk(d')
    decreases step
  {
    hide DatabaseOk, RowReplaced, IndexCreated, TableCreated, RawChange, UniqueFree, Described;
    match step
    case Raw => RawKeeps(d, d');
    case CreateTable(s) => TableKeeps(d, d', s);
    case CreateIndex(s, x) => CreateKeeps(d, d', s, x);
    case Replace(s, pk, was, now) => ReplaceKeeps(d, d', s, pk, was, now);
    case Transaction(steps) =>
      var mid :| Passes(d, d', steps, mid);
      PassesKeeps(d, d', steps, mid, |steps|);
  }

  lemma {:induction false} PassesKeeps(d: Data, d': Data, steps: seq<Step>, mid: seq<Data>, i: nat)
    requires DatabaseOk(d) && Passes(d, d', steps, mid) && i <= |steps|
    ensures DatabaseOk(mid[i])
    decreases steps, i
  {
    hide DatabaseOk, Does;
    if i > 0 {
      PassesKeeps(d, d', steps, mid, i - 1);
      assert Does(mid[i - 1], mid[i - 1 + 1], steps[i - 1]);
      StepKeeps(mid[i - 1], mid[i], steps[i - 1]);
    }
  }

  /**
   In every run from an empty store, transactions included, every index holds exactly the
   entries of the current rows.
   */
  lemma {:induction false} RunsKeepIndexes(states: seq<Data>, steps: seq<Step>, i: nat)
    requires |states| == |steps| + 1 && states[0] == map[] && i < |states|
    requires forall j :: 0 <= j < |steps| ==> Does(states[j], states[j + 1], steps[j])
    ensures DatabaseOk(states[i])
  {
    hide Does;
    if i == 0 {
    } else {
      RunsKeepIndexes(states, steps, i - 1);
      assert Does(states[i - 1], states[i - 1 + 1], steps[i - 1]);
      StepKeeps(states[i - 1], states[i], steps[i - 1]);
    }
  }
}
