/**
 Tables inside the key-value store: where rows, index definitions and index entries lie,
 and what it means for the indexes of a table to agree with its rows.
 */
module TableData {
  import opened ByteStrings
  import opened Entries
  import opened Codecs
  import opened Schemas
  import opened Rows
  import opened Descriptors

  type Data = map<Bytes, Bytes>

  // ----- Keys

  function DescriptorKey(table: Bytes): Bytes {
    [0x10] + Escape(table)
  }

  function MetadataPrefix(table: Bytes): Bytes {
    [0x11] + Escape(table)
  }

  function MetadataKey(table: Bytes, index: Bytes): Bytes {
    MetadataPrefix(table) + Escape(index)
  }

  function EntryPrefix(table: Bytes, index: Bytes): Bytes {
    [0x30] + Escape(table) + Escape(index)
  }

  function RowAt(table: Bytes, pk: Bytes): Bytes {
    RowPrefix(table) + pk
  }

  /** The key of an index entry: the indexed value, and the primary key unless values are unique. */
  function EntryKey(table: Bytes, x: Index, value: Bytes, pk: Bytes): Bytes {
    EntryPrefix(table, x.name) + value + (if x.unique then [] else pk)
  }

  lemma {:induction false} TaggedOnce(tag: Byte, t: Bytes, u: Bytes, p: Bytes, q: Bytes)
    requires [tag] + Escape(t) + p == [tag] + Escape(u) + q
    ensures t == u && p == q
  {
    hide Escape;
    var l, r := [tag] + Escape(t) + p, [tag] + Escape(u) + q;
    assert l[1..] == Escape(t) + p && r[1..] == Escape(u) + q;
    EscapePrefixFree(t, u, p, q);
  }

  lemma {:induction false} RowKeyOnce(t: Bytes, u: Bytes, p: Bytes, q: Bytes)
    requires RowAt(t, p) == RowAt(u, q)
    ensures t == u && p == q
  {
    hide Escape;
    TaggedOnce(0x20, t, u, p, q);
  }

  lemma {:induction false} MetadataOnce(t: Bytes, u: Bytes, a: Bytes, b: Bytes)
    requires MetadataKey(t, a) == MetadataKey(u, b)
    ensures t == u && a == b
  {
    hide Escape;
    TaggedOnce(0x11, t, u, Escape(a), Escape(b));
    EscapePrefixFree(a, b, [], []);
    assert Escape(a) + [] == Escape(a) && Escape(b) + [] == Escape(b);
  }

  /** A key belongs to one index of one table at most. */
  lemma {:induction false} EntryPrefixOnce(t: Bytes, u: Bytes, a: Bytes, b: Bytes, x: Bytes, y: Bytes)
    requires EntryPrefix(t, a) + x == EntryPrefix(u, b) + y
    ensures t == u && a == b && x == y
  {
    hide Escape;
    assert EntryPrefix(t, a) + x == [0x30] + Escape(t) + (Escape(a) + x);
    assert EntryPrefix(u, b) + y == [0x30] + Escape(u) + (Escape(b) + y);
    TaggedOnce(0x30, t, u, Escape(a) + x, Escape(b) + y);
    EscapePrefixFree(a, b, x, y);
  }

  /** An entry tells the value, and the primary key unless values are unique. */
  lemma {:induction false} EntryKeyOnce(table: Bytes, x: Index, c: Column, v: Value, w: Value, p: Bytes, q: Bytes)
    requires !c.primaryKey && EncodeValue(c, v).Some? && EncodeValue(c, w).Some?
    requires EntryKey(table, x, EncodeValue(c, v).value, p) == EntryKey(table, x, EncodeValue(c, w).value, q)
    ensures v == w && (!x.unique ==> p == q)
  {
    hide EncodeValue, EntryPrefix;
    var a, b := EncodeValue(c, v).value, EncodeValue(c, w).value;
    var s, t := if x.unique then [] else p, if x.unique then [] else q;
    var e := EntryPrefix(table, x.name);
    assert e + a + s == e + (a + s) && e + b + t == e + (b + t);
    assert (e + (a + s))[|e|..] == a + s && (e + (b + t))[|e|..] == b + t;
    ValuePrefixFree(c, v, w, s, t);
  }

  // ----- Indexes of a table

  ghost predicate ValidIndex(s: Schema, x: Index) {
    0 < |x.name| <= 128 && exists i :: 0 <= i < |s.columns| && s.columns[i].name == x.column && !s.columns[i].primaryKey
  }

  function ColumnOf(s: Schema, x: Index): Column {
    match FindColumn(s.columns, x.column)
    case Some(c) => c
    case None => Column([], 0, false, false)
  }

  lemma {:induction false} ColumnOfIndex(s: Schema, x: Index)
    requires ValidSchema(s) && ValidIndex(s, x)
    ensures var c := ColumnOf(s, x);
            c.name == x.column && !c.primaryKey && ValidColumn(c) && FindColumn(s.columns, x.column) == Some(c)
    ensures StorableIndex(x)
  {
    var i :| 0 <= i < |s.columns| && s.columns[i].name == x.column && !s.columns[i].primaryKey;
    ColumnIs(s, i);
  }

  ghost predicate Defined(d: Data, s: Schema, x: Index) {
    ValidIndex(s, x) && MetadataKey(s.name, x.name) in d && d[MetadataKey(s.name, x.name)] == IndexBytes(x)
  }

  /** The row with primary key `pk`, without the primary column. */
  ghost predicate HasRow(d: Data, s: Schema, pk: Bytes, row: Row) {
    RowAt(s.name, pk) in d && RowOf(s, row, d[RowAt(s.name, pk)])
  }

  /** The entry that an index has for a row. */
  function EntryOf(s: Schema, x: Index, row: Row, pk: Bytes): Bytes {
    EntryKey(s.name, x, Cell(row, ColumnOf(s, x)), pk)
  }

  // ----- Agreement of rows and indexes

  /** The bytes encode a primary key of the table. */
  ghost predicate IsPrimary(s: Schema, pk: Bytes) {
    exists v :: EncodeValue(FindPrimary(s.columns), v) == Some(pk)
  }

  ghost predicate RowsOk(d: Data, s: Schema) {
    forall pk: Bytes :: RowAt(s.name, pk) in d ==> IsPrimary(s, pk) && exists row :: RowOf(s, row, d[RowAt(s.name, pk)])
  }

  /** Whatever lies among the index definitions of the table is one. */
  ghost predicate DefinitionsOk(d: Data, s: Schema) {
    forall k :: k in d && MetadataPrefix(s.name) <= k ==>
      exists x :: Defined(d, s, x) && k == MetadataKey(s.name, x.name)
  }

  /** Every row has its entry in every index. */
  ghost predicate RowsIndexed(d: Data, s: Schema) {
    forall x, pk: Bytes, row :: Defined(d, s, x) && HasRow(d, s, pk, row) ==>
      EntryOf(s, x, row, pk) in d && d[EntryOf(s, x, row, pk)] == pk
  }

  /** `k` is the entry of some row in a defined index of that name. */
  ghost predicate Accounted(d: Data, s: Schema, name: Bytes, k: Bytes) {
    exists x, pk, row :: Defined(d, s, x) && x.name == name && HasRow(d, s, pk, row) && k == EntryOf(s, x, row, pk)
  }

  /** Every entry is the entry of a row. */
  ghost predicate EntriesAccounted(d: Data, s: Schema) {
    forall k, name :: k in d && EntryPrefix(s.name, name) <= k ==> Accounted(d, s, name, k)
  }

  /** Rows and indexes of the table agree. */
  ghost predicate TableOk(d: Data, s: Schema) {
    ValidSchema(s) && RowsOk(d, s) && DefinitionsOk(d, s) && RowsIndexed(d, s) && EntriesAccounted(d, s)
  }

  lemma {:induction false} DefinedOnce(d: Data, s: Schema, x: Index, y: Index)
    requires ValidSchema(s) && Defined(d, s, x) && Defined(d, s, y) && x.name == y.name
    ensures x == y
  {
    hide IndexBytes;
    ColumnOfIndex(s, x);
    ColumnOfIndex(s, y);
    IndexOnce(x, y);
  }

  lemma {:induction false} HasRowOnce(d: Data, s: Schema, pk: Bytes, a: Row, b: Row)
    requires HasRow(d, s, pk, a) && HasRow(d, s, pk, b)
    ensures a == b
  {
    hide RowOf;
    RowOnce(s, a, b, d[RowAt(s.name, pk)]);
  }

  /** A unique index never has two owners of a value. */
  lemma {:induction false} UniqueOwner(d: Data, s: Schema, x: Index, p: Bytes, q: Bytes, a: Row, b: Row)
    requires TableOk(d, s) && Defined(d, s, x) && x.unique && HasRow(d, s, p, a) && HasRow(d, s, q, b)
    requires Lookup(a, x.column) == Lookup(b, x.column)
    ensures p == q && a == b
  {
    hide RowOf, EncodeValue, EntryPrefix;
    ColumnOfIndex(s, x);
    assert EntryOf(s, x, a, p) == EntryOf(s, x, b, q);
    assert d[EntryOf(s, x, a, p)] == p;
    HasRowOnce(d, s, p, a, b);
  }

  /** The indexed column of a stored row has a value that belongs there. */
  lemma {:induction false} IndexedFits(s: Schema, x: Index, row: Row, data: Bytes)
    requires RowOf(s, row, data) && ValidIndex(s, x)
    ensures var c := ColumnOf(s, x);
            EncodeValue(c, Lookup(row, x.column)) == Some(Cell(row, c)) && !c.primaryKey && c.name == x.column
  {
    hide EncodeValue, RowBytes;
    ColumnOfIndex(s, x);
    var i :| 0 <= i < |s.columns| && s.columns[i].name == x.column && !s.columns[i].primaryKey;
    ColumnIs(s, i);
    OthersHave(s.columns, |s.columns|, i);
    var ids := Others(s.columns, |s.columns|);
    var j :| 0 <= j < |ids| && ids[j] == i;
    assert EncodeValue(s.columns[ids[j]], Lookup(row, s.columns[ids[j]].name)).Some?;
  }

  lemma {:induction false} OthersHave(cs: seq<Column>, n: nat, i: nat)
    requires n <= |cs| && i < n && !cs[i].primaryKey
    ensures i in Others(cs, n)
  {
    if i < n - 1 {
      OthersHave(cs, n - 1, i);
    }
  }
}
