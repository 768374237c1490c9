/**
 Tables as clients see them: a relation of complete rows under the values of their primary
 keys. What the row operations and SELECT do is said here about relations alone, without
 encodings, index entries or access paths.
 */
module Relations {
  import opened ByteStrings
  import opened Entries
  import opened Codecs
  import opened Schemas
  import opened Rows
  import opened Descriptors
  import opened TableData
  import opened IndexUpkeep
  import opened Transactions
  import opened Tables
  import opened Selection

  type Relation = imap<Value, Row>

  function KeyName(s: Schema): Bytes {
    FindPrimary(s.columns).name
  }

  /** The table has the complete row `full`, whose primary key is `v`. */
  ghost predicate RowWith(d: Data, s: Schema, v: Value, full: Row) {
    && EncodeValue(FindPrimary(s.columns), v).Some?
    && FullRow(d, s, EncodeValue(FindPrimary(s.columns), v).value, full)
  }

  ghost predicate Present(d: Data, s: Schema, v: Value) {
    exists full :: RowWith(d, s, v, full)
  }

  ghost function RowUnder(d: Data, s: Schema, v: Value): (full: Row)
    requires Present(d, s, v)
    ensures RowWith(d, s, v, full)
  {
    var full :| RowWith(d, s, v, full);
    full
  }

  ghost function RelationOf(d: Data, s: Schema): Relation {
    imap v | Present(d, s, v) :: RowUnder(d, s, v)
  }

  ghost predicate In(r: Relation, v: Value, full: Row) {
    v in r && r[v] == full
  }

  lemma {:induction false} RelationIs(d: Data, s: Schema, v: Value, full: Row)
    requires ValidSchema(s)
    ensures RowWith(d, s, v, full) <==> In(RelationOf(d, s), v, full)
  {
    hide FullRow, EncodeValue, ValidSchema;
    if RowWith(d, s, v, full) {
      FullOnce(d, s, EncodeValue(FindPrimary(s.columns), v).value, full, RelationOf(d, s)[v]);
    }
  }

  // ----- What rows hold

  ghost function Names(s: Schema): set<Bytes> {
    set i | 0 <= i < |s.columns| :: s.columns[i].name
  }

  /** A row with a value, possibly null, for every column. */
  ghost function Complete(s: Schema, row: Row): Row {
    map name | name in Names(s) :: Lookup(row, name)
  }

  lemma {:induction false} NamesParts(s: Schema)
    requires ValidSchema(s)
    ensures Names(s) == NamesOf(s.columns, Others(s.columns, |s.columns|)) + {KeyName(s)}
    ensures KeyName(s) !in NamesOf(s.columns, Others(s.columns, |s.columns|))
  {
    hide ValidColumn;
    var cs, ids := s.columns, Others(s.columns, |s.columns|);
    var k: nat :| PrimaryAt(cs, k);
    PrimaryIs(s, k);
    OthersAreIds(cs, |cs|);
    forall i | 0 <= i < |cs| && i != k ensures cs[i].name in NamesOf(cs, ids) {
      OthersHave(cs, |cs|, i);
      var j :| 0 <= j < |ids| && ids[j] == i;
    }
    forall j | 0 <= j < |ids| ensures cs[ids[j]].name != cs[k].name {
      assert !cs[ids[j]].primaryKey;
    }
  }

  /** The rows of a relation have all columns, each with a value that the column admits. */
  ghost predicate RowFits(s: Schema, v: Value, full: Row) {
    full.Keys == Names(s) && Admitted(s, full) && Lookup(full, KeyName(s)) == v
  }

  lemma {:induction false} StoredAdmits(s: Schema, row: Row, data: Bytes, i: nat)
    requires RowOf(s, row, data) && i < |s.columns| && !s.columns[i].primaryKey
    ensures s.columns[i].name in row && Admits(s.columns[i], row[s.columns[i].name])
  {
    hide EncodeValue, RowBytes, Admits, ValidColumn;
    var cs, ids := s.columns, Others(s.columns, |s.columns|);
    OthersHave(cs, |cs|, i);
    var j :| 0 <= j < |ids| && ids[j] == i;
    assert EncodeValue(cs[ids[j]], Lookup(row, cs[ids[j]].name)).Some?;
    EncodesAdmitted(cs[i], Lookup(row, cs[i].name));
  }

  /** In every stored row a column is null only if declared so, and else has a value of its type. */
  lemma {:induction false} StoredRowsAdmit(d: Data, s: Schema, pk: Bytes, row: Row, i: nat)
    requires HasRow(d, s, pk, row) && i < |s.columns| && !s.columns[i].primaryKey
    ensures var c, v := s.columns[i], Lookup(row, s.columns[i].name);
            if v.Null? then c.nullable
            else (v.Int? && c.typ == INT64) || (v.Text? && c.typ == STRING) || (v.Blob? && c.typ == BYTES)
                 || (v.Flag? && c.typ == BOOL)
  {
    hide RowOf;
    StoredAdmits(s, row, d[RowAt(s.name, pk)], i);
  }

  lemma {:induction false} RelationFits(d: Data, s: Schema, v: Value)
    requires ValidSchema(s) && v in RelationOf(d, s)
    ensures RowFits(s, v, RelationOf(d, s)[v])
  {
    hide EncodeValue, RowOf, ValidSchema, Admits;
    var full := RelationOf(d, s)[v];
    var c, pk := FindPrimary(s.columns), EncodeValue(FindPrimary(s.columns), v).value;
    assert FullRow(d, s, pk, full);
    var row, w :| HasRow(d, s, pk, row) && EncodeValue(c, w) == Some(pk) && full == row[c.name := w];
    PrimaryColumn(s);
    EncodeOnce(c, v, w);
    NamesParts(s);
    RowNames(s, row, d[RowAt(s.name, pk)]);
    forall i | 0 <= i < |s.columns| ensures Admits(s.columns[i], Lookup(full, s.columns[i].name)) {
      FullAdmits(s, row, d[RowAt(s.name, pk)], v, i);
    }
  }

  lemma {:induction false} RowNames(s: Schema, row: Row, data: Bytes)
    requires RowOf(s, row, data)
    ensures row.Keys == NamesOf(s.columns, Others(s.columns, |s.columns|))
  {
  }

  lemma {:induction false} FullAdmits(s: Schema, row: Row, data: Bytes, v: Value, i: nat)
    requires RowOf(s, row, data) && i < |s.columns| && EncodeValue(FindPrimary(s.columns), v).Some?
    ensures Admits(s.columns[i], Lookup(row[KeyName(s) := v], s.columns[i].name))
  {
    hide EncodeValue, RowBytes, Admits, Others;
    var k: nat :| PrimaryAt(s.columns, k);
    PrimaryIs(s, k);
    if i == k {
      EncodesAdmitted(s.columns[k], v);
    } else {
      StoredAdmits(s, row, data, i);
    }
  }

  // ----- What row operations do

  lemma {:induction false} StoredComplete(s: Schema, row: Row)
    requires ValidSchema(s)
    ensures Stored(s, row)[KeyName(s) := Lookup(row, KeyName(s))] == Complete(s, row)
  {
    hide ValidSchema, Others, NamesOf, Names;
    NamesParts(s);
  }

  /** Replacing a stored row replaces one row of the relation. */
  lemma {:induction false} ReplacedRelation(d: Data, d': Data, s: Schema, v: Value, pk: Bytes, was: Option<Row>,
      now: Option<Row>)
    requires ValidSchema(s) && EncodeValue(FindPrimary(s.columns), v) == Some(pk)
    requires RowReplaced(d, d', s, pk, was, now)
    ensures RelationOf(d', s) ==
            if now.Some? then RelationOf(d, s)[v := now.value[KeyName(s) := v]] else RelationOf(d, s) - {v}
    ensures v in RelationOf(d, s) <==> was.Some?
  {
    hide RelationOf, RowWith, RowReplaced, ValidSchema, EncodeValue;
    var r, r' := RelationOf(d, s), RelationOf(d', s);
    forall w, full: Row | w != v ensures RowWith(d', s, w, full) <==> RowWith(d, s, w, full) {
      OtherStays(d, d', s, v, pk, was, now, w, full);
    }
    forall full: Row
      ensures RowWith(d', s, v, full) <==> now.Some? && full == now.value[KeyName(s) := v]
      ensures RowWith(d, s, v, full) <==> was.Some? && full == was.value[KeyName(s) := v]
    {
      OwnIs(d, d', s, v, pk, was, now, full);
    }
    forall w, full: Row
      ensures RowWith(d, s, w, full) <==> In(r, w, full)
      ensures RowWith(d', s, w, full) <==> In(r', w, full)
    {
      RelationIs(d, s, w, full);
      RelationIs(d', s, w, full);
    }
    SameRelation(r, r', v, if now.Some? then Some(now.value[KeyName(s) := v]) else None);
    assert v in r ==> In(r, v, r[v]);
    assert was.Some? ==> In(r, v, was.value[KeyName(s) := v]);
  }

  lemma {:induction false} SameRelation(r: Relation, r': Relation, v: Value, now: Option<Row>)
    requires forall w, full: Row :: w != v ==> (In(r', w, full) <==> In(r, w, full))
    requires forall full: Row :: In(r', v, full) <==> now == Some(full)
    ensures r' == if now.Some? then r[v := now.value] else r - {v}
  {
    forall w | w != v ensures (w in r <==> w in r') && (w in r ==> r[w] == r'[w]) {
      if w in r {
        assert In(r, w, r[w]) && In(r', w, r[w]);
      }
      if w in r' {
        assert In(r', w, r'[w]) && In(r, w, r'[w]);
      }
    }
    if v in r' {
      assert In(r', v, r'[v]);
    }
    if now.Some? {
      assert In(r', v, now.value);
    }
  }

  lemma {:induction false} OtherStays(d: Data, d': Data, s: Schema, v: Value, pk: Bytes, was: Option<Row>,
      now: Option<Row>, w: Value, full: Row)
    requires ValidSchema(s) && EncodeValue(FindPrimary(s.columns), v) == Some(pk) && w != v
    requires RowReplaced(d, d', s, pk, was, now)
    ensures RowWith(d', s, w, full) <==> RowWith(d, s, w, full)
  {
    hide RowReplaced, ValidSchema, EncodeValue, HasRow;
    var c := FindPrimary(s.columns);
    PrimaryColumn(s);
    if EncodeValue(c, w).Some? {
      var q := EncodeValue(c, w).value;
      if q == pk {
        EncodeOnce(c, v, w);
      }
      forall row: Row ensures HasRow(d', s, q, row) <==> HasRow(d, s, q, row) {
        SameRows(d, d', s, pk, was, now, q, row);
      }
    }
  }

  lemma {:induction false} OwnIs(d: Data, d': Data, s: Schema, v: Value, pk: Bytes, was: Option<Row>,
      now: Option<Row>, full: Row)
    requires ValidSchema(s) && EncodeValue(FindPrimary(s.columns), v) == Some(pk)
    requires RowReplaced(d, d', s, pk, was, now)
    ensures RowWith(d', s, v, full) <==> now.Some? && full == now.value[KeyName(s) := v]
    ensures RowWith(d, s, v, full) <==> was.Some? && full == was.value[KeyName(s) := v]
  {
    hide EncodeValue, ValidSchema, IsEntry;
    PrimaryColumn(s);
    OneOwn(d, s, v, pk, was, full);
    OneOwn(d', s, v, pk, now, full);
  }

  lemma {:induction false} OneOwn(d: Data, s: Schema, v: Value, pk: Bytes, row: Option<Row>, full: Row)
    requires ValidSchema(s) && EncodeValue(FindPrimary(s.columns), v) == Some(pk)
    requires if row.Some? then HasRow(d, s, pk, row.value) else RowAt(s.name, pk) !in d
    ensures RowWith(d, s, v, full) <==> row.Some? && full == row.value[KeyName(s) := v]
  {
    hide EncodeValue, ValidSchema, RowOf;
    var c := FindPrimary(s.columns);
    PrimaryColumn(s);
    if RowWith(d, s, v, full) {
      var r, w :| HasRow(d, s, pk, r) && EncodeValue(c, w) == Some(pk) && full == r[c.name := w];
      EncodeOnce(c, v, w);
      HasRowOnce(d, s, pk, r, row.value);
    }
  }

  // ----- When row operations are done

  /** Columns of the table only, each with a value it admits, and a binding that can be stored. */
  ghost predicate Acceptable(s: Schema, row: Row) {
    && s.columns != [] && row.Keys <= Names(s) && Admitted(s, row)
    && Wellformed(RowKey(s, row), Put(RowBytes(s, row)))
  }

  lemma {:induction false} EncodableIs(s: Schema, row: Row)
    requires ValidSchema(s)
    ensures s.columns != [] && (Encodable(s, row) <==> Acceptable(s, row))
  {
    hide RowBytes, Admitted, Fits, ValidColumn, Cell;
    FitsIsAdmitted(s, row);
    forall name ensures FindColumn(s.columns, name).Some? <==> name in Names(s) {
      if name in Names(s) {
        var i :| 0 <= i < |s.columns| && s.columns[i].name == name;
        assert s.columns[i] in s.columns;
      }
    }
  }

  /** Values of the column must be unique. */
  ghost predicate UniqueOn(d: Data, s: Schema, column: Bytes) {
    exists x :: Defined(d, s, x) && x.unique && x.column == column
  }

  /** A row other than the one under `v` has the value that `row` would have in a column of unique values. */
  ghost predicate Taken(d: Data, s: Schema, v: Value, row: Row) {
    exists column, w, full ::
      UniqueOn(d, s, column) && w != v && In(RelationOf(d, s), w, full) && Lookup(full, column) == Lookup(row, column)
  }

  lemma {:induction false} RowInRelation(d: Data, s: Schema, pk: Bytes, row: Row) returns (v: Value)
    requires TableOk(d, s) && HasRow(d, s, pk, row)
    ensures EncodeValue(FindPrimary(s.columns), v) == Some(pk) && In(RelationOf(d, s), v, row[KeyName(s) := v])
  {
    hide EncodeValue, RowOf, RowsIndexed, EntriesAccounted, DefinitionsOk, ValidSchema, RelationOf, In;
    assert IsPrimary(s, pk);
    v :| EncodeValue(FindPrimary(s.columns), v) == Some(pk);
    assert FullRow(d, s, pk, row[KeyName(s) := v]);
    RelationIs(d, s, v, row[KeyName(s) := v]);
  }

  lemma {:induction false} RelationRow(d: Data, s: Schema, v: Value, full: Row) returns (pk: Bytes, row: Row)
    requires ValidSchema(s) && In(RelationOf(d, s), v, full)
    ensures EncodeValue(FindPrimary(s.columns), v) == Some(pk) && HasRow(d, s, pk, row) && full == row[KeyName(s) := v]
  {
    hide EncodeValue, RowOf, ValidSchema, RelationOf, In;
    RelationIs(d, s, v, full);
    var c := FindPrimary(s.columns);
    pk := EncodeValue(c, v).value;
    var w;
    row, w :| HasRow(d, s, pk, row) && EncodeValue(c, w) == Some(pk) && full == row[c.name := w];
    PrimaryColumn(s);
    EncodeOnce(c, v, w);
  }

  lemma {:induction false} OtherColumn(s: Schema, x: Index)
    requires ValidSchema(s) && ValidIndex(s, x)
    ensures x.column != KeyName(s)
  {
    hide ValidColumn;
    var k: nat :| PrimaryAt(s.columns, k);
    PrimaryIs(s, k);
  }

  lemma {:induction false} PrimaryValue(s: Schema, row: Row)
    requires Encodable(s, row)
    ensures EncodeValue(FindPrimary(s.columns), Lookup(row, KeyName(s))) == Some(PrimaryOf(s, row))
  {
    hide EncodeValue, RowBytes, RowKey;
    FitsParts(s, row);
  }

  /** The entry of a row in a unique index is taken by the row that has the same value. */
  lemma {:induction false} EntryTaken(d: Data, s: Schema, x: Index, row: Row) returns (q: Bytes, other: Row)
    requires TableOk(d, s) && Encodable(s, row) && Defined(d, s, x) && x.unique
    requires EntryOf(s, x, row, PrimaryOf(s, row)) in d
    ensures HasRow(d, s, q, other) && Lookup(other, x.column) == Lookup(row, x.column)
    ensures d[EntryOf(s, x, row, PrimaryOf(s, row))] == q
  {
    hide EncodeValue, RowOf, RowsOk, DefinitionsOk, ValidSchema, EntryPrefix, Encodable, PrimaryOf, ValidIndex;
    hide IndexBytes, MetadataKey;
    var k := EntryOf(s, x, row, PrimaryOf(s, row));
    ColumnOfIndex(s, x) by { EncodableValid(s, row); }
    EncodableFits(s, row, x);
    assert Accounted(d, s, x.name, k) by { assert EntryPrefix(s.name, x.name) <= k; }
    var y;
    y, q, other :| Defined(d, s, y) && y.name == x.name && HasRow(d, s, q, other) && k == EntryOf(s, y, other, q);
    DefinedOnce(d, s, x, y);
    IndexedFits(s, x, other, d[RowAt(s.name, q)]);
    EntryKeyOnce(s.name, x, ColumnOf(s, x), Lookup(row, x.column), Lookup(other, x.column), PrimaryOf(s, row), q);
  }

  lemma {:induction false} EncodableValid(s: Schema, row: Row)
    requires Encodable(s, row)
    ensures ValidSchema(s)
  {
  }

  /** A row that has the same value has the entry. */
  lemma {:induction false} SameValueEntry(d: Data, s: Schema, x: Index, row: Row, q: Bytes, other: Row)
    requires TableOk(d, s) && ValidSchema(s) && Defined(d, s, x) && x.unique && HasRow(d, s, q, other)
    requires Lookup(other, x.column) == Lookup(row, x.column)
    ensures var k := EntryOf(s, x, row, PrimaryOf(s, row)); k in d && d[k] == q
  {
    hide EncodeValue, RowOf, RowsOk, DefinitionsOk, ValidSchema, EntryPrefix, EntriesAccounted, PrimaryOf, ValidIndex;
    hide IndexBytes, MetadataKey;
    ColumnOfIndex(s, x);
    assert EntryOf(s, x, other, q) in d && d[EntryOf(s, x, other, q)] == q;
    assert EntryOf(s, x, other, q) == EntryOf(s, x, row, PrimaryOf(s, row));
  }

  /** A conflict in the indexes is another row with the same value in a column of unique values. */
  lemma {:induction false} ConflictMeans(d: Data, s: Schema, row: Row, allowOwn: bool)
    requires TableOk(d, s) && Encodable(s, row)
    requires !allowOwn ==> Lookup(row, KeyName(s)) !in RelationOf(d, s)
    ensures Conflict(d, s, row, allowOwn) <==> Taken(d, s, Lookup(row, KeyName(s)), row)
  {
    hide TableOk, Encodable, EncodeValue, Defined, EntryOf, HasRow, RelationOf, PrimaryOf, ValidSchema;
    TableIsValid(d, s);
    PrimaryValue(s, row);
    var v, pk := Lookup(row, KeyName(s)), PrimaryOf(s, row);
    if Conflict(d, s, row, allowOwn) {
      var x :| Defined(d, s, x) && x.unique && EntryOf(s, x, row, pk) in d
               && (!allowOwn || d[EntryOf(s, x, row, pk)] != pk);
      var q, other := EntryTaken(d, s, x, row);
      var w := RowInRelation(d, s, q, other);
      OtherColumn(s, x) by { DefinedValid(d, s, x); }
      assert UniqueOn(d, s, x.column) && w != v;
      assert Lookup(other[KeyName(s) := w], x.column) == Lookup(row, x.column);
    }
    if Taken(d, s, v, row) {
      var column, w, full :| UniqueOn(d, s, column) && w != v && In(RelationOf(d, s), w, full)
                             && Lookup(full, column) == Lookup(row, column);
      var x :| Defined(d, s, x) && x.unique && x.column == column;
      var q, other := RelationRow(d, s, w, full);
      OtherColumn(s, x) by { DefinedValid(d, s, x); }
      SameValueEntry(d, s, x, row, q, other);
      if q == pk {
        PrimaryColumn(s);
        EncodeOnce(FindPrimary(s.columns), v, w);
      }
    }
  }

  lemma {:induction false} DefinedValid(d: Data, s: Schema, x: Index)
    requires Defined(d, s, x)
    ensures ValidIndex(s, x)
  {
  }

  /** A key is stored exactly if the relation has a row under it. */
  lemma {:induction false} KeyPresent(d: Data, s: Schema, v: Value, pk: Bytes)
    requires TableOk(d, s) && EncodeValue(FindPrimary(s.columns), v) == Some(pk)
    ensures RowAt(s.name, pk) in d <==> v in RelationOf(d, s)
  {
    hide TableOk, EncodeValue, RelationOf, ValidSchema, RowOf;
    TableIsValid(d, s);
    PrimaryColumn(s);
    if v in RelationOf(d, s) {
      var q, row := RelationRow(d, s, v, RelationOf(d, s)[v]);
    }
    if RowAt(s.name, pk) in d {
      var row :| RowOf(s, row, d[RowAt(s.name, pk)]);
      var w := RowInRelation(d, s, pk, row);
      EncodeOnce(FindPrimary(s.columns), v, w);
    }
  }

  /** A value that can be looked up: the key column admits it, and its key can be stored. */
  ghost predicate Askable(s: Schema, v: Value) {
    && Admits(FindPrimary(s.columns), v) && EncodeValue(FindPrimary(s.columns), v).Some?
    && Wellformed(RowAt(s.name, EncodeValue(FindPrimary(s.columns), v).value), Erase)
  }

  lemma {:induction false} KeyForIs(s: Schema, v: Value)
    requires ValidSchema(s)
    ensures KeyFor(s, v).Some? <==> Askable(s, v)
  {
    hide EncodeValue, ValidSchema, Admits;
    PrimaryColumn(s);
    EncodesAdmitted(FindPrimary(s.columns), v);
  }

  /** Whatever can be inserted can be looked up and deleted. */
  lemma {:induction false} InsertableIsAskable(s: Schema, row: Row)
    requires Encodable(s, row)
    ensures KeyFor(s, Lookup(row, KeyName(s))) == Some(RowKey(s, row)) && Askable(s, Lookup(row, KeyName(s)))
  {
    hide EncodeValue, RowBytes, ValidSchema;
    PrimaryValue(s, row);
    KeyIsRow(s, row);
    KeyForIs(s, Lookup(row, KeyName(s)));
  }

  /** The outcome of a row operation on the relation. */
  ghost function Answer(d: Data, s: Schema, op: RowOp): Outcome {
    match op
    case Insert(row) =>
      if !Acceptable(s, row) then Invalid
      else if Lookup(row, KeyName(s)) in RelationOf(d, s) then DuplicatePrimary
      else if Taken(d, s, Lookup(row, KeyName(s)), row) then DuplicateIndexed
      else Done
    case Update(row) =>
      if !Acceptable(s, row) then Invalid
      else if Lookup(row, KeyName(s)) !in RelationOf(d, s) then NotFound
      else if Taken(d, s, Lookup(row, KeyName(s)), row) then DuplicateIndexed
      else Done
    case Remove(v) =>
      if !Askable(s, v) then Invalid else if v in RelationOf(d, s) then Done else NotFound
  }

  /** The relation after an operation that is done. */
  ghost function Result(d: Data, s: Schema, op: RowOp): Relation {
    match op
    case Insert(row) => RelationOf(d, s)[Lookup(row, KeyName(s)) := Complete(s, row)]
    case Update(row) => RelationOf(d, s)[Lookup(row, KeyName(s)) := Complete(s, row)]
    case Remove(v) => RelationOf(d, s) - {v}
  }

  /** The outcome found in rows and indexes is that of the relation. */
  lemma {:induction false} VerdictMeans(d: Data, s: Schema, op: RowOp)
    requires TableOk(d, s)
    ensures Verdict(d, s, op) == Answer(d, s, op)
  {
    hide TableOk, Encodable, Acceptable, Askable, RelationOf, Taken, Conflict, EncodeValue, ValidSchema, RowAt;
    hide PrimaryOf, RowKey;
    TableIsValid(d, s);
    match op
    case Insert(row) => WriteVerdict(d, s, row, false);
    case Update(row) => WriteVerdict(d, s, row, true);
    case Remove(v) =>
      KeyForIs(s, v);
      if KeyFor(s, v).Some? {
        KeyPresent(d, s, v, EncodeValue(FindPrimary(s.columns), v).value);
      }
  }

  lemma {:induction false} WriteVerdict(d: Data, s: Schema, row: Row, allowOwn: bool)
    requires TableOk(d, s) && ValidSchema(s)
    ensures Encodable(s, row) <==> Acceptable(s, row)
    ensures Encodable(s, row) ==> (RowKey(s, row) in d <==> Lookup(row, KeyName(s)) in RelationOf(d, s))
    ensures Encodable(s, row) && (allowOwn || RowKey(s, row) !in d) ==>
              (Conflict(d, s, row, allowOwn) <==> Taken(d, s, Lookup(row, KeyName(s)), row))
  {
    hide TableOk, Encodable, Acceptable, RelationOf, Taken, Conflict, EncodeValue, ValidSchema, RowAt, PrimaryOf;
    hide RowKey;
    EncodableIs(s, row);
    if Encodable(s, row) {
      PrimaryValue(s, row);
      KeyIsRow(s, row);
      KeyPresent(d, s, Lookup(row, KeyName(s)), PrimaryOf(s, row));
      if allowOwn || RowKey(s, row) !in d {
        ConflictMeans(d, s, row, allowOwn);
      }
    }
  }

  /** An operation that is done changes the relation by its one row. */
  lemma {:induction false} PerformsMeans(d: Data, d': Data, s: Schema, op: RowOp, was: Option<Row>)
    requires TableOk(d, s) && Verdict(d, s, op).Done? && Performs(d, d', s, op, was)
    ensures RelationOf(d', s) == Result(d, s, op)
  {
    hide TableOk, Encodable, RelationOf, Conflict, EncodeValue, ValidSchema, RowAt, PrimaryOf, RowKey, RowReplaced;
    hide UniqueFree, Described, Stored, Complete;
    TableIsValid(d, s);
    match op
    case Insert(row) =>
      PrimaryValue(s, row);
      StoredComplete(s, row);
      ReplacedRelation(d, d', s, Lookup(row, KeyName(s)), PrimaryOf(s, row), was, Some(Stored(s, row)));
    case Update(row) =>
      PrimaryValue(s, row);
      StoredComplete(s, row);
      ReplacedRelation(d, d', s, Lookup(row, KeyName(s)), PrimaryOf(s, row), was, Some(Stored(s, row)));
    case Remove(v) =>
      ReplacedRelation(d, d', s, v, EncodeValue(FindPrimary(s.columns), v).value, was, None);
  }

  // ----- Tables and indexes

  /** The descriptor of a table is refused for its size exactly if it cannot be stored. */
  lemma {:induction false} DescriptorFits(s: Schema)
    requires ValidSchema(s)
    ensures |DescriptorBytes(s)| <= MAX_DESCRIPTOR <==> Wellformed(DescriptorKey(s.name), Put(DescriptorBytes(s)))
  {
    hide DescriptorBytes, Escape;
    EscapeLength(s.name);
  }

  /** A unique index is refused exactly if two rows have the same value in its column. */
  lemma {:induction false} ClashMeans(d: Data, s: Schema, x: Index)
    requires TableOk(d, s) && ValidSchema(s) && ValidIndex(s, x)
    ensures Clash(d, s, x) <==>
            exists v, w, a, b :: v != w && In(RelationOf(d, s), v, a) && In(RelationOf(d, s), w, b)
                                 && Lookup(a, x.column) == Lookup(b, x.column)
  {
    hide TableOk, EncodeValue, RowOf, RelationOf, ValidSchema, ValidIndex, In;
    var c := FindPrimary(s.columns);
    PrimaryColumn(s);
    OtherColumn(s, x);
    ColumnOfIndex(s, x);
    if Clash(d, s, x) {
      var p, q, a, b :| p != q && HasRow(d, s, p, a) && HasRow(d, s, q, b)
                        && Cell(a, ColumnOf(s, x)) == Cell(b, ColumnOf(s, x));
      IndexedFits(s, x, a, d[RowAt(s.name, p)]);
      IndexedFits(s, x, b, d[RowAt(s.name, q)]);
      EncodeOnce(ColumnOf(s, x), Lookup(a, x.column), Lookup(b, x.column));
      var v := RowInRelation(d, s, p, a);
      var w := RowInRelation(d, s, q, b);
      assert Lookup(a[KeyName(s) := v], x.column) == Lookup(b[KeyName(s) := w], x.column);
    }
    if v, w, a, b :| v != w && In(RelationOf(d, s), v, a) && In(RelationOf(d, s), w, b)
                     && Lookup(a, x.column) == Lookup(b, x.column) {
      var p, ra := RelationRow(d, s, v, a);
      var q, rb := RelationRow(d, s, w, b);
      if p == q {
        EncodeOnce(c, v, w);
      }
      assert Cell(ra, ColumnOf(s, x)) == Cell(rb, ColumnOf(s, x));
    }
  }

  /** Looking a value up through an index gives exactly the rows of the relation that have it, by ascending key. */
  lemma {:induction false} FoundMeans(d: Data, s: Schema, x: Index, value: Value, rows: seq<(Bytes, Row)>)
    requires TableOk(d, s) && ValidSchema(s) && ValidIndex(s, x) && IsFiltered(d, s, x, value, rows)
    ensures forall v, full :: In(RelationOf(d, s), v, full) ==>
              (Lookup(full, x.column) == value <==>
               exists i :: 0 <= i < |rows| && full == rows[i].1[KeyName(s) := v]
                           && EncodeValue(FindPrimary(s.columns), v) == Some(rows[i].0))
    ensures forall i, j, v, w ::
              0 <= i < j < |rows| && EncodeValue(FindPrimary(s.columns), v) == Some(rows[i].0) ==>
                EncodeValue(FindPrimary(s.columns), w) == Some(rows[j].0) ==> ValueLess(v, w)
  {
    hide TableOk, EncodeValue, RowOf, RelationOf, ValidSchema, ValidIndex, In, Less, ValueLess;
    OtherColumn(s, x);
    PrimaryColumn(s);
    forall i, j, v, w | 0 <= i < j < |rows| && EncodeValue(FindPrimary(s.columns), v) == Some(rows[i].0)
                        && EncodeValue(FindPrimary(s.columns), w) == Some(rows[j].0)
      ensures ValueLess(v, w)
    {
      PrimaryOrder(FindPrimary(s.columns), v, w);
    }
    forall v, full | In(RelationOf(d, s), v, full)
      ensures Lookup(full, x.column) == value <==>
              exists i :: 0 <= i < |rows| && full == rows[i].1[KeyName(s) := v]
                          && EncodeValue(FindPrimary(s.columns), v) == Some(rows[i].0)
    {
      var pk, row := RelationRow(d, s, v, full);
    }
  }

  // ----- What SELECT returns

  /** The literal, read as a value. */
  ghost predicate Means(l: Literal, v: Value) {
    || (v.Int? && l == Integer(v.i)) || (v.Text? && l == Str(v.s)) || (v.Blob? && l == Str(v.b))
    || (v.Flag? && l == Boolean(v.v))
  }

  lemma {:induction false} LiteralMeans(l: Literal, typ: Byte, v: Value)
    requires INT64 <= typ <= BOOL
    ensures LiteralValue(l, typ) == Some(v) <==> Means(l, v) && TypeOf(v) == typ
  {
  }

  /** A literal can be compared with a column exactly if it is a value of its type; null never can. */
  lemma {:induction false} ValidMeans(s: Schema, p: Predicate, c: Column)
    requires ValidSchema(s) && FindColumn(s.columns, p.column) == Some(c)
    ensures ValidPredicate(s, p) <==> exists v :: Means(p.value, v) && TypeOf(v) == c.typ
  {
    hide TypeOf, LiteralValue;
    var i :| 0 <= i < |s.columns| && s.columns[i] == c;
    forall v ensures LiteralValue(p.value, c.typ) == Some(v) <==> Means(p.value, v) && TypeOf(v) == c.typ {
      LiteralMeans(p.value, c.typ, v);
    }
    if LiteralValue(p.value, c.typ).Some? {
      assert LiteralValue(p.value, c.typ) == Some(LiteralValue(p.value, c.typ).value);
    }
  }

  /** Exactly the rows of the relation that satisfy the predicates, ascending by the value of the key. */
  lemma {:induction false} SelectedMeans(d: Data, s: Schema, ps: seq<Predicate>, rows: seq<(Bytes, Row)>)
    requires ValidSchema(s) && Selected(d, s, ps, rows)
    ensures forall v, full :: In(RelationOf(d, s), v, full) ==>
              (Satisfies(s, full, ps) <==> exists i :: 0 <= i < |rows| && rows[i].1 == full)
    ensures forall i :: 0 <= i < |rows| ==> In(RelationOf(d, s), Lookup(rows[i].1, KeyName(s)), rows[i].1)
    ensures forall i, j :: 0 <= i < j < |rows| ==>
              ValueLess(Lookup(rows[i].1, KeyName(s)), Lookup(rows[j].1, KeyName(s)))
  {
    hide FullRow, ValidSchema, EncodeValue, Satisfies, RelationOf, In, Less, ValueLess;
    var c := FindPrimary(s.columns);
    PrimaryColumn(s);
    forall i | 0 <= i < |rows|
      ensures EncodeValue(c, Lookup(rows[i].1, c.name)) == Some(rows[i].0)
      ensures In(RelationOf(d, s), Lookup(rows[i].1, KeyName(s)), rows[i].1)
    {
      FullPrimary(d, s, rows[i].0, rows[i].1);
      RelationIs(d, s, Lookup(rows[i].1, KeyName(s)), rows[i].1);
    }
    forall i, j | 0 <= i < j < |rows| ensures ValueLess(Lookup(rows[i].1, c.name), Lookup(rows[j].1, c.name)) {
      PrimaryOrder(c, Lookup(rows[i].1, c.name), Lookup(rows[j].1, c.name));
    }
    forall v, full | In(RelationOf(d, s), v, full)
      ensures Satisfies(s, full, ps) <==> exists i :: 0 <= i < |rows| && rows[i].1 == full
    {
      RelationIs(d, s, v, full);
      if Satisfies(s, full, ps) {
        assert (EncodeValue(c, v).value, full) in rows;
      }
    }
  }

  ghost predicate Among(rows: seq<(Bytes, Row)>, full: Row) {
    exists i :: 0 <= i < |rows| && rows[i].1 == full
  }

  lemma {:induction false} AmongIs(d: Data, s: Schema, ps: seq<Predicate>, rows: seq<(Bytes, Row)>, v: Value, full: Row)
    requires ValidSchema(s) && Selected(d, s, ps, rows) && In(RelationOf(d, s), v, full)
    ensures Among(rows, full) <==> Satisfies(s, full, ps)
  {
    hide ValidSchema, Selected, RelationOf, In, Satisfies, ValueLess;
    SelectedMeans(d, s, ps, rows);
  }

  /** What comparing with the literal `l` selects by each operator; `full` is a row of the relation. */
  ghost predicate Compared(c: Column, l: Literal, full: Row, lt: bool, le: bool, eq: bool, ne: bool, ge: bool,
      gt: bool) {
    var x := Lookup(full, c.name);
    && (eq <==> Means(l, x))
    && (lt <==> || (x.Int? && l.Integer? && x.i < l.i) || (x.Text? && l.Str? && Less(x.s, l.s))
                || (x.Blob? && l.Str? && Less(x.b, l.s)) || (x.Flag? && l.Boolean? && !x.v && l.b))
    && (ne <==> !x.Null? && !eq) && (le <==> lt || eq) && (ge <==> gt || eq)
    && (gt <==> !x.Null? && !lt && !eq) && !(lt && eq)
  }

  lemma {:induction false} CompareMeans(c: Column, l: Literal, y: Value, full: Row)
    requires Means(l, y) && TypeOf(y) == c.typ && Admits(c, Lookup(full, c.name))
    ensures var x := Lookup(full, c.name);
            Compared(c, l, full, Compare(x, y, Less_), Compare(x, y, LessEqual), Compare(x, y, Equal),
                     Compare(x, y, NotEqual), Compare(x, y, GreaterEqual), Compare(x, y, Greater))
  {
    StrictTotalOrder();
  }

  /**
   The six comparisons of a column with a literal: `=` selects the rows that have the value,
   `<` those with a lesser one, and the others what follows; null is selected by none.
   */
  lemma {:induction false} ComparisonsSelect(d: Data, s: Schema, c: Column, l: Literal, v: Value, full: Row,
      rows: map<Op, seq<(Bytes, Row)>>)
    requires ValidSchema(s) && FindColumn(s.columns, c.name) == Some(c)
    requires ValidPredicate(s, Predicate(c.name, Equal, l))
    requires forall op: Op :: op in rows && Selected(d, s, [Predicate(c.name, op, l)], rows[op])
    requires In(RelationOf(d, s), v, full)
    ensures Compared(c, l, full, Among(rows[Less_], full), Among(rows[LessEqual], full), Among(rows[Equal], full),
                     Among(rows[NotEqual], full), Among(rows[GreaterEqual], full), Among(rows[Greater], full))
  {
    hide ValidSchema, Selected, RelationOf, In, Among, Compare, Means, Compared, TypeOf, Admits;
    var y := LiteralValue(l, c.typ).value;
    var i :| 0 <= i < |s.columns| && s.columns[i] == c;
    LiteralMeans(l, c.typ, y) by { ColumnType(s, i); }
    forall op: Op ensures Among(rows[op], full) <==> Compare(Lookup(full, c.name), y, op) {
      AmongIs(d, s, [Predicate(c.name, op, l)], rows[op], v, full);
      OneHolds(s, full, Predicate(c.name, op, l));
    }
    FullRowFits(d, s, v, full, i);
    CompareMeans(c, l, y, full);
  }

  lemma {:induction false} ColumnType(s: Schema, i: nat)
    requires ValidSchema(s) && i < |s.columns|
    ensures INT64 <= s.columns[i].typ <= BOOL
  {
  }

  lemma {:induction false} OneHolds(s: Schema, full: Row, p: Predicate)
    ensures Satisfies(s, full, [p]) <==> Holds(s, full, p)
  {
    assert [p][0] == p;
  }

  lemma {:induction false} FullRowFits(d: Data, s: Schema, v: Value, full: Row, i: nat)
    requires ValidSchema(s) && In(RelationOf(d, s), v, full) && i < |s.columns|
    ensures Admits(s.columns[i], Lookup(full, s.columns[i].name))
  {
    hide ValidSchema, RelationOf, Admits;
    RelationFits(d, s, v);
  }

  /** Less is less in the order of the encodings too, in every column. */
  lemma {:induction false} LessIsEncoded(c: Column, x: Value, y: Value)
    requires ValidColumn(c) && Admits(c, x) && Admits(c, y)
    ensures EncodeValue(c, x).Some? && EncodeValue(c, y).Some?
    ensures ValueLess(x, y) <==> Less(EncodeValue(c, x).value, EncodeValue(c, y).value)
  {
    hide EncodeValue, ValueLess, Less;
    EncodesAdmitted(c, x);
    EncodesAdmitted(c, y);
    if c.primaryKey {
      PrimaryOrder(c, x, y);
    } else {
      var a, b := EncodeValue(c, x).value, EncodeValue(c, y).value;
      assert a + [] == a && b + [] == b;
      StrictTotalOrder();
      ValueTotal(c, x, y);
      if ValueLess(x, y) {
        ValueOrder(c, x, y, [], []);
      } else if ValueLess(y, x) {
        ValueOrder(c, y, x, [], []);
      }
    }
  }

  lemma {:induction false} ValueTotal(c: Column, x: Value, y: Value)
    requires Admits(c, x) && Admits(c, y)
    ensures x == y || ValueLess(x, y) || ValueLess(y, x)
  {
    StrictTotalOrder();
  }

  /** Several predicates select the rows that each of them selects. */
  lemma {:induction false} AndSelects(d: Data, s: Schema, ps: seq<Predicate>, qs: seq<Predicate>,
      a: seq<(Bytes, Row)>, b: seq<(Bytes, Row)>, both: seq<(Bytes, Row)>, v: Value, full: Row)
    requires ValidSchema(s) && In(RelationOf(d, s), v, full)
    requires Selected(d, s, ps, a) && Selected(d, s, qs, b) && Selected(d, s, ps + qs, both)
    ensures Among(both, full) <==> Among(a, full) && Among(b, full)
  {
    hide ValidSchema, Selected, RelationOf, In, Among, Holds;
    AmongIs(d, s, ps, a, v, full);
    AmongIs(d, s, qs, b, v, full);
    AmongIs(d, s, ps + qs, both, v, full);
    if Satisfies(s, full, ps + qs) {
      forall i | 0 <= i < |ps| ensures Holds(s, full, ps[i]) {
        assert (ps + qs)[i] == ps[i];
      }
      forall i | 0 <= i < |qs| ensures Holds(s, full, qs[i]) {
        assert (ps + qs)[|ps| + i] == qs[i];
      }
    }
  }

  /** A literal for the key column, and the value that it is. */
  ghost predicate KeyIs(s: Schema, l: Literal, v: Value) {
    Means(l, v) && TypeOf(v) == FindPrimary(s.columns).typ
  }

  lemma {:induction false} KeyLiteralIs(s: Schema, op: Op, l: Literal, v: Value)
    requires ValidSchema(s) && KeyIs(s, l, v)
    ensures KeyLiteral(s, Predicate(KeyName(s), op, l)) == Some(v)
  {
    hide ValidSchema, LiteralValue, Means, TypeOf;
    PrimaryColumn(s);
    LiteralMeans(l, FindPrimary(s.columns).typ, v);
  }

  /** A SELECT by key fails exactly if the key cannot be asked for. */
  lemma {:induction false} ByKeyFails(s: Schema, l: Literal, v: Value)
    requires ValidSchema(s) && KeyIs(s, l, v)
    ensures Unreachable(s, [Predicate(KeyName(s), Equal, l)]) <==> !Askable(s, v)
  {
    hide ValidSchema, KeyIs, KeyFor, KeyLiteral, Unreachable, Askable;
    var ps := [Predicate(KeyName(s), Equal, l)];
    KeyLiteralIs(s, Equal, l, v);
    assert FirstEqual(s, ps, 0);
    EqualReach(s, ps, 0);
    KeyForIs(s, v);
  }

  /** A SELECT by a range of keys fails exactly if one of the two cannot be asked for. */
  lemma {:induction false} ByRangeFails(s: Schema, lo: Literal, hi: Literal, a: Value, b: Value)
    requires ValidSchema(s) && KeyIs(s, lo, a) && KeyIs(s, hi, b)
    ensures Unreachable(s, [Predicate(KeyName(s), GreaterEqual, lo), Predicate(KeyName(s), LessEqual, hi)]) <==>
            !Askable(s, a) || !Askable(s, b)
  {
    hide ValidSchema, KeyIs, KeyFor, KeyLiteral, Unreachable, Askable, ValueLess;
    var ps := [Predicate(KeyName(s), GreaterEqual, lo), Predicate(KeyName(s), LessEqual, hi)];
    KeyLiteralIs(s, GreaterEqual, lo, a);
    KeyLiteralIs(s, LessEqual, hi, b);
    assert Binds(s, ps[0], false) && Binds(s, ps[1], true);
    ValueOrderFacts(a, a);
    ValueOrderFacts(b, b);
    assert BoundOf(s, ps, 2, false, Some(a)) by { OnlyBound(s, ps, false, a, 0); }
    assert BoundOf(s, ps, 2, true, Some(b)) by { OnlyBound(s, ps, true, b, 1); }
    BoundsReach(s, ps, Some(a), Some(b));
    KeyForIs(s, a);
    KeyForIs(s, b);
  }

  lemma {:induction false} OnlyBound(s: Schema, ps: seq<Predicate>, above: bool, v: Value, i: nat)
    requires i < |ps| && Binds(s, ps[i], above) && KeyLiteral(s, ps[i]) == Some(v) && !ValueLess(v, v)
    requires forall j :: 0 <= j < |ps| && j != i ==> !Binds(s, ps[j], above)
    ensures BoundOf(s, ps, |ps|, above, Some(v))
  {
    hide Binds, KeyLiteral;
    assert BindsWith(s, ps, |ps|, above, v);
  }

  /** Without a key or both bounds of a range, every row is looked at, and nothing fails. */
  lemma {:induction false} OtherwiseReaches(s: Schema, ps: seq<Predicate>)
    requires ValidSchema(s)
    requires forall i :: 0 <= i < |ps| ==>
               ps[i].column != KeyName(s) || ps[i].op.NotEqual? || ps[i].op.Less_? || ps[i].op.LessEqual?
    ensures !Unreachable(s, ps)
  {
    hide ValidSchema, KeyFor, KeyLiteral;
    forall v ensures !BindsWith(s, ps, |ps|, false, v) {
      KeyColumn(s, ps);
    }
  }

  lemma {:induction false} KeyColumn(s: Schema, ps: seq<Predicate>)
    ensures forall i :: 0 <= i < |ps| && ps[i].column != KeyName(s) ==> KeyLiteral(s, ps[i]).None?
  {
  }
}
