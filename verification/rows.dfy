/**
 Rows as they are stored: a key made of the table name and the primary key, and a value
 with one cell for every other column, in column order.
 */
module Rows {
  import opened ByteStrings
  import opened Entries
  import opened Codecs
  import opened Schemas

  const MAX_ROW: nat := 3000
  const MAX_KEY: nat := 1000

  /** The bytes of "GDRW". */
  const ROW_MAGIC: Bytes := [71, 68, 82, 87]

  function FindColumn(cs: seq<Column>, name: Bytes): (r: Option<Column>)
    ensures r.Some? ==> r.value in cs && r.value.name == name
    ensures r.None? ==> forall c :: c in cs ==> c.name != name
  {
    if cs == [] then None else if cs[0].name == name then Some(cs[0]) else FindColumn(cs[1..], name)
  }

  function FindPrimary(cs: seq<Column>): (r: Column)
    ensures (exists c :: c in cs && c.primaryKey) ==> r in cs && r.primaryKey
  {
    if cs == [] then Column([], 0, false, false) else if cs[0].primaryKey then cs[0] else FindPrimary(cs[1..])
  }

  lemma {:induction false} PrimaryIs(s: Schema, k: nat)
    requires ValidSchema(s) && PrimaryAt(s.columns, k)
    ensures FindPrimary(s.columns) == s.columns[k] && ValidColumn(s.columns[k]) && s.columns[k].primaryKey
  {
    assert s.columns[k] in s.columns;
  }

  lemma {:induction false} ColumnIs(s: Schema, i: nat)
    requires ValidSchema(s) && i < |s.columns|
    ensures FindColumn(s.columns, s.columns[i].name) == Some(s.columns[i])
  {
    assert s.columns[i] in s.columns;
    var c := FindColumn(s.columns, s.columns[i].name).value;
    var j :| 0 <= j < |s.columns| && s.columns[j] == c;
  }

  function Lookup(row: Row, name: Bytes): Value {
    if name in row then row[name] else Null
  }

  /** The encoded value of a column in a row; empty if there is none. */
  function Cell(row: Row, c: Column): Bytes {
    match EncodeValue(c, Lookup(row, c.name))
    case Some(b) => b
    case None => []
  }

  function CellBytes(id: nat, ev: Bytes): Bytes {
    LE(id + 1, 2) + [0, 0] + LE(|ev|, 4) + ev
  }

  /** The positions below `n` of the columns that are not primary, ascending. */
  function Others(cs: seq<Column>, n: nat): seq<nat>
    requires n <= |cs|
  {
    if n == 0 then [] else Others(cs, n - 1) + (if cs[n - 1].primaryKey then [] else [n - 1])
  }

  function CellsOf(cs: seq<Column>, ids: seq<nat>, row: Row): Bytes {
    if ids == [] then []
    else
      var id := ids[|ids| - 1];
      CellsOf(cs, ids[..|ids| - 1], row) + (if id < |cs| then CellBytes(id, Cell(row, cs[id])) else [])
  }

  function RowHeader(columns: nat): Bytes
    requires columns >= 1
  {
    ROW_MAGIC + LE(2, 2) + LE(1, 4) + LE(columns - 1, 2)
  }

  /** The stored value of a row. */
  function RowBytes(s: Schema, row: Row): Bytes
    requires s.columns != []
  {
    RowHeader(|s.columns|) + CellsOf(s.columns, Others(s.columns, |s.columns|), row)
  }

  function RowPrefix(name: Bytes): Bytes {
    [0x20] + Escape(name)
  }

  function RowKey(s: Schema, row: Row): Bytes {
    RowPrefix(s.name) + Cell(row, FindPrimary(s.columns))
  }

  /** Every column has a value that belongs there. */
  ghost predicate Fits(cs: seq<Column>, row: Row) {
    forall i :: 0 <= i < |cs| ==> EncodeValue(cs[i], Lookup(row, cs[i].name)).Some?
  }

  /** A row that can be stored. */
  ghost predicate Encodable(s: Schema, row: Row) {
    && ValidSchema(s)
    && (forall name :: name in row ==> FindColumn(s.columns, name).Some?)
    && Fits(s.columns, row)
    && |RowKey(s, row)| <= MAX_KEY && |RowBytes(s, row)| <= MAX_ROW
  }

  /** Every name in the row is a column. */
  method KnownNames(cs: seq<Column>, row: Row) returns (ok: bool)
    ensures ok <==> forall name :: name in row ==> FindColumn(cs, name).Some?
  {
    hide FindColumn;
    var names := row.Keys;
    while names != {}
      invariant names <= row.Keys
      invariant forall name :: name in row && name !in names ==> FindColumn(cs, name).Some?
      decreases names
    {
      var name :| name in names;
      if FindColumn(cs, name).None? {
        return false;
      }
      names := names - {name};
    }
    ok := true;
  }

  /** Stores a row: it succeeds exactly for the rows that can be stored. */
  method EncodeRow(s: Schema, row: Row) returns (r: Option<(Bytes, Bytes)>)
    ensures r.Some? <==> Encodable(s, row)
    ensures r.Some? ==> r.value == (RowKey(s, row), RowBytes(s, row))
    ensures r.Some? ==> Admitted(s, row)
  {
    hide RowHeader, CellBytes, Escape, ValidColumn, EncodeValue, DistinctNames, FindColumn, CellsOf, Others, Fits;
    hide CellsFit, ValidSchema, Admitted;
    var ok := ValidateSchema(s);
    if !ok {
      return None;
    }
    ok := KnownNames(s.columns, row);
    var missing := MissingColumn(s, row);
    if missing {
      MissingMisfits(s, row);
    }
    if !ok || missing {
      return None;
    }
    var primary := FindPrimary(s.columns);
    FitsParts(s, row);
    FitsIsAdmitted(s, row);
    var enc := EncodeValue(primary, Lookup(row, primary.name));
    if enc.None? {
      return None;
    }
    var key := RowPrefix(s.name) + enc.value;
    if |key| > MAX_KEY {
      return None;
    }
    var cells := EncodeCells(s.columns, row);
    if cells.None? {
      return None;
    }
    var out := RowHeader(|s.columns|) + cells.value;
    if |out| > MAX_ROW {
      return None;
    }
    r := Some((key, out));
  }

  /** A column that must have a value has none. */
  predicate Missing(c: Column, row: Row) {
    c.name !in row && !c.nullable
  }

  /** Some column that must have a value has none. */
  method MissingColumn(s: Schema, row: Row) returns (missing: bool)
    ensures missing <==> exists i :: 0 <= i < |s.columns| && Missing(s.columns[i], row)
  {
    var i := 0;
    while i < |s.columns|
      invariant 0 <= i <= |s.columns|
      invariant forall j :: 0 <= j < i ==> !Missing(s.columns[j], row)
    {
      if s.columns[i].name !in row && !s.columns[i].nullable {
        return true;
      }
      i := i + 1;
    }
    return false;
  }

  lemma {:induction false} MissingMisfits(s: Schema, row: Row)
    requires ValidSchema(s) && exists i :: 0 <= i < |s.columns| && Missing(s.columns[i], row)
    ensures !Fits(s.columns, row)
  {
    var i :| 0 <= i < |s.columns| && Missing(s.columns[i], row);
    assert EncodeValue(s.columns[i], Lookup(row, s.columns[i].name)).None?;
  }

  /** Every column admits its value. */
  ghost predicate Admitted(s: Schema, row: Row) {
    forall i :: 0 <= i < |s.columns| ==> Admits(s.columns[i], Lookup(row, s.columns[i].name))
  }

  lemma {:induction false} FitsIsAdmitted(s: Schema, row: Row)
    requires ValidSchema(s)
    ensures Fits(s.columns, row) <==> Admitted(s, row)
  {
    hide EncodeValue, Admits;
    forall i | 0 <= i < |s.columns|
      ensures EncodeValue(s.columns[i], Lookup(row, s.columns[i].name)).Some? <==>
              Admits(s.columns[i], Lookup(row, s.columns[i].name))
    {
      EncodesAdmitted(s.columns[i], Lookup(row, s.columns[i].name));
    }
  }

  /** The first `n` columns that are not primary have values that belong there. */
  ghost predicate CellsFit(cs: seq<Column>, n: nat, row: Row)
    requires n <= |cs|
  {
    forall i :: 0 <= i < n && !cs[i].primaryKey ==> EncodeValue(cs[i], Lookup(row, cs[i].name)).Some?
  }

  lemma {:induction false} FitsParts(s: Schema, row: Row)
    requires ValidSchema(s)
    ensures s.columns != []
    ensures var c := FindPrimary(s.columns);
            Fits(s.columns, row) <==> EncodeValue(c, Lookup(row, c.name)).Some? && CellsFit(s.columns, |s.columns|, row)
  {
    hide EncodeValue;
    var k: nat :| PrimaryAt(s.columns, k);
    PrimaryIs(s, k);
  }

  lemma {:induction false} CellsStep(cs: seq<Column>, i: nat, row: Row)
    requires i < |cs|
    ensures CellsOf(cs, Others(cs, i + 1), row) ==
            CellsOf(cs, Others(cs, i), row) + (if cs[i].primaryKey then [] else CellBytes(i, Cell(row, cs[i])))
  {
    hide CellBytes, Cell;
    var a := Others(cs, i);
    if !cs[i].primaryKey {
      assert Others(cs, i + 1) == a + [i];
      assert (a + [i])[..|a|] == a;
    } else {
      assert Others(cs, i + 1) == a;
    }
  }

  /** One cell for each column that is not primary, in column order. */
  method EncodeCells(cs: seq<Column>, row: Row) returns (r: Option<Bytes>)
    ensures r.Some? <==> CellsFit(cs, |cs|, row)
    ensures r.Some? ==> r.value == CellsOf(cs, Others(cs, |cs|), row)
  {
    hide CellBytes, EncodeValue, CellsOf, Others;
    var out: Bytes := [];
    NoCells(cs, row);
    var i := 0;
    while i < |cs|
      invariant 0 <= i <= |cs|
      invariant CellsFit(cs, i, row)
      invariant out == CellsOf(cs, Others(cs, i), row)
    {
      CellsStep(cs, i, row);
      if !cs[i].primaryKey {
        var ev := EncodeValue(cs[i], Lookup(row, cs[i].name));
        if ev.None? {
          return None;
        }
        out := out + CellBytes(i, ev.value);
      }
      i := i + 1;
    }
    r := Some(out);
  }

  lemma {:induction false} NoCells(cs: seq<Column>, row: Row)
    ensures CellsOf(cs, Others(cs, 0), row) == []
  {
  }

  // ----- Reading rows back

  /** A cell for column `id` with value `v` lies at `pos`. */
  ghost predicate CellAt(cs: seq<Column>, data: Bytes, pos: nat, id: nat, v: Value) {
    && id < |cs| && !cs[id].primaryKey && EncodeValue(cs[id], v).Some?
    && var b := CellBytes(id, EncodeValue(cs[id], v).value);
       pos + |b| <= |data| && data[pos..pos + |b|] == b
  }

  function CellEnd(cs: seq<Column>, pos: nat, id: nat, v: Value): nat
    requires id < |cs|
  {
    pos + 8 + (match EncodeValue(cs[id], v) case Some(b) => |b| case None => 0)
  }

  lemma {:induction false} CellLayout(id: nat, ev: Bytes)
    requires id < 65535 && |ev| < 0x1_0000_0000
    ensures var b := CellBytes(id, ev);
            && |b| == 8 + |ev| && FromLE(b[0..2]) == id + 1 && b[2] == 0 && b[3] == 0
            && FromLE(b[4..8]) == |ev| && b[8..] == ev
  {
    var b := CellBytes(id, ev);
    assert b[0..2] == LE(id + 1, 2) && b[4..8] == LE(|ev|, 4);
    Widths();
    LERoundTrip(id + 1, 2);
    LERoundTrip(|ev|, 4);
  }

  lemma {:induction false} Widths()
    ensures Pow256(2) == 65536 && Pow256(4) == 0x1_0000_0000
  {
    assert Pow256(1) == 256;
    assert Pow256(3) == 0x100_0000;
  }

  lemma {:induction false} SubSlice(data: Bytes, from: nat, to: nat, i: nat, j: nat)
    requires from <= to <= |data| && i <= j <= to - from
    ensures data[from..to][i..j] == data[from + i..from + j]
  {
    var a, b := data[from..to][i..j], data[from + i..from + j];
    forall k | 0 <= k < j - i ensures a[k] == b[k] {
      assert a[k] == data[from..to][i + k] == data[from + (i + k)];
      assert b[k] == data[(from + i) + k];
    }
    assert a == b;
  }

  /** A cell is made of what its fields say. */
  lemma {:induction false} CellFrom(b: Bytes, id: nat)
    requires |b| >= 8 && FromLE(b[0..2]) == id + 1 && b[2] == 0 && b[3] == 0 && FromLE(b[4..8]) == |b| - 8
    ensures b == CellBytes(id, b[8..])
  {
    LEExact(b[0..2]);
    LEExact(b[4..8]);
    assert b == b[0..2] + [b[2], b[3]] + b[4..8] + b[8..];
  }

  /** Reads the cell at `pos`, for a column after the last one; found exactly if one is there. */
  method ReadCell(cs: seq<Column>, data: Bytes, pos: nat, last: nat) returns (r: Option<(nat, Value)>)
    requires pos <= |data| <= MAX_ROW && |cs| <= 65535
    ensures r.Some? <==> exists id: nat, v :: last <= id && CellAt(cs, data, pos, id, v)
    ensures r.Some? ==> last <= r.value.0 && CellAt(cs, data, pos, r.value.0, r.value.1)
  {
    hide CellBytes, EncodeValue, FromLE;
    forall id: nat, v | CellAt(cs, data, pos, id, v)
      ensures pos + 8 <= |data| && HasCell(cs, data, pos, id, v)
    {
      CellShows(cs, data, pos, id, v);
    }
    if pos + 8 > |data| {
      return None;
    }
    var id := FromLE(data[pos..pos + 2]);
    var length := FromLE(data[pos + 4..pos + 8]);
    if id <= last || data[pos + 2] != 0 || data[pos + 3] != 0 || length > |data| - (pos + 8) {
      return None;
    }
    if id > |cs| || cs[id - 1].primaryKey {
      return None;
    }
    var ev := data[pos + 8..pos + 8 + length];
    var v := DecodeValue(cs[id - 1], ev);
    if v.None? {
      return None;
    }
    ghost var b := data[pos..pos + 8 + length];
    SubSlice(data, pos, pos + 8 + length, 0, 2);
    SubSlice(data, pos, pos + 8 + length, 4, 8);
    SubSlice(data, pos, pos + 8 + length, 8, 8 + length);
    assert b[8..] == b[8..8 + length];
    CellFrom(b, id - 1);
    r := Some((id - 1, v.value));
    assert CellAt(cs, data, pos, id - 1, v.value);
  }

  /** What the fields at `pos` show when a cell lies there. */
  ghost predicate HasCell(cs: seq<Column>, data: Bytes, pos: nat, id: nat, v: Value)
    requires pos + 8 <= |data|
  {
    && id < |cs| && EncodeValue(cs[id], v).Some?
    && FromLE(data[pos..pos + 2]) == id + 1 && data[pos + 2] == 0 && data[pos + 3] == 0
    && var n := FromLE(data[pos + 4..pos + 8]);
       n <= |data| - (pos + 8) && data[pos + 8..pos + 8 + n] == EncodeValue(cs[id], v).value
  }

  lemma {:induction false} CellShows(cs: seq<Column>, data: Bytes, pos: nat, id: nat, v: Value)
    requires CellAt(cs, data, pos, id, v) && |cs| <= 65535 && |data| <= MAX_ROW
    ensures pos + 8 <= |data| && HasCell(cs, data, pos, id, v)
  {
    hide EncodeValue, FromLE;
    var ev := EncodeValue(cs[id], v).value;
    var b := CellBytes(id, ev);
    assert |b| == 8 + |ev|;
    CellLayout(id, ev);
    SubSlice(data, pos, pos + |b|, 0, 2);
    SubSlice(data, pos, pos + |b|, 4, 8);
    SubSlice(data, pos, pos + |b|, 8, |b|);
    assert data[pos + 2] == b[2] && data[pos + 3] == b[3];
    assert b[8..] == b[8..|b|];
  }

  /** One cell at most lies at a position. */
  lemma {:induction false} CellOnce(cs: seq<Column>, data: Bytes, pos: nat, id: nat, v: Value, id': nat, v': Value)
    requires CellAt(cs, data, pos, id, v) && CellAt(cs, data, pos, id', v') && |cs| <= 65535 && |data| <= MAX_ROW
    ensures id == id' && v == v'
  {
    hide CellBytes, EncodeValue, FromLE;
    CellShows(cs, data, pos, id, v);
    CellShows(cs, data, pos, id', v');
    EncodeOnce(cs[id], v, v');
  }

  /** Positions of columns that are not primary, ascending. */
  ghost predicate Ids(cs: seq<Column>, ids: seq<nat>) {
    && (forall i :: 0 <= i < |ids| ==> ids[i] < |cs| && !cs[ids[i]].primaryKey)
    && (forall i, j :: 0 <= i < j < |ids| ==> ids[i] < ids[j])
  }

  lemma {:induction false} OthersAreIds(cs: seq<Column>, n: nat)
    requires n <= |cs|
    ensures Ids(cs, Others(cs, n)) && forall i :: 0 <= i < |Others(cs, n)| ==> Others(cs, n)[i] < n
  {
    if n > 0 {
      OthersAreIds(cs, n - 1);
    }
  }

  lemma {:induction false} OthersCount(cs: seq<Column>, k: nat, n: nat)
    requires PrimaryAt(cs, k) && n <= |cs|
    ensures |Others(cs, n)| == n - (if k < n then 1 else 0)
  {
    if n > 0 {
      OthersCount(cs, k, n - 1);
    }
  }

  /** Ascending ids that are as many as there are other columns are all of them. */
  lemma {:induction false} IdsAreOthers(cs: seq<Column>, ids: seq<nat>, n: nat)
    requires Ids(cs, ids) && n <= |cs| && forall i :: 0 <= i < |ids| ==> ids[i] < n
    ensures |ids| <= |Others(cs, n)| && (|ids| == |Others(cs, n)| ==> ids == Others(cs, n))
    decreases n
  {
    if n > 0 {
      if ids != [] && ids[|ids| - 1] == n - 1 {
        var front := ids[..|ids| - 1];
        IdsAreOthers(cs, front, n - 1);
        assert ids == front + [n - 1];
      } else {
        forall i | 0 <= i < |ids| ensures ids[i] < n - 1 {
          assert i < |ids| - 1 ==> ids[i] < ids[|ids| - 1];
        }
        IdsAreOthers(cs, ids, n - 1);
      }
    }
  }

  ghost function NamesOf(cs: seq<Column>, ids: seq<nat>): set<Bytes> {
    set i | 0 <= i < |ids| && ids[i] < |cs| :: cs[ids[i]].name
  }

  lemma {:induction false} NamesAppend(cs: seq<Column>, ids: seq<nat>, id: nat)
    requires id < |cs|
    ensures NamesOf(cs, ids + [id]) == NamesOf(cs, ids) + {cs[id].name}
  {
    var ids' := ids + [id];
    assert ids'[|ids|] == id;
    forall name | name in NamesOf(cs, ids) ensures name in NamesOf(cs, ids') {
      var i :| 0 <= i < |ids| && ids[i] < |cs| && cs[ids[i]].name == name;
      assert ids'[i] == ids[i];
    }
  }

  /** The values of these columns belong there. */
  ghost predicate IdsFit(cs: seq<Column>, ids: seq<nat>, row: Row) {
    forall i :: 0 <= i < |ids| ==> ids[i] < |cs| && EncodeValue(cs[ids[i]], Lookup(row, cs[ids[i]].name)).Some?
  }

  /** The cells read so far and the row they make. */
  ghost predicate Decoding(s: Schema, data: Bytes, pos: nat, ids: seq<nat>, row: Row) {
    && s.columns != [] && Ids(s.columns, ids) && row.Keys == NamesOf(s.columns, ids) && IdsFit(s.columns, ids, row)
    && pos <= |data| && data[..pos] == RowHeader(|s.columns|) + CellsOf(s.columns, ids, row)
  }

  /** A row with exactly the columns that are not primary, stored in `data`. */
  ghost predicate RowOf(s: Schema, row: Row, data: Bytes) {
    && ValidSchema(s) && |data| <= MAX_ROW
    && var ids := Others(s.columns, |s.columns|);
       row.Keys == NamesOf(s.columns, ids) && IdsFit(s.columns, ids, row) && data == RowBytes(s, row)
  }

  lemma {:induction false} CellsFrame(cs: seq<Column>, ids: seq<nat>, row: Row, row': Row)
    requires Ids(cs, ids) && forall i :: 0 <= i < |ids| ==>
              Lookup(row, cs[ids[i]].name) == Lookup(row', cs[ids[i]].name)
    ensures CellsOf(cs, ids, row) == CellsOf(cs, ids, row')
  {
    hide CellBytes, EncodeValue;
    if ids != [] {
      var front := ids[..|ids| - 1];
      forall i | 0 <= i < |front| ensures front[i] == ids[i] {
      }
      CellsFrame(cs, front, row, row');
    }
  }

  /** A value for a later column does not change the earlier ones. */
  lemma {:induction false} LaterColumn(s: Schema, ids: seq<nat>, row: Row, id: nat, v: Value)
    requires ValidSchema(s) && Ids(s.columns, ids) && id < |s.columns| && !s.columns[id].primaryKey
    requires (ids != [] ==> ids[|ids| - 1] < id) && IdsFit(s.columns, ids, row) && EncodeValue(s.columns[id], v).Some?
    ensures var row' := row[s.columns[id].name := v];
            && Ids(s.columns, ids + [id]) && IdsFit(s.columns, ids + [id], row')
            && CellsOf(s.columns, ids, row') == CellsOf(s.columns, ids, row)
  {
    hide EncodeValue, ValidColumn, CellsOf;
    var cs := s.columns;
    var row' := row[cs[id].name := v];
    forall i | 0 <= i < |ids| ensures ids[i] < id && Lookup(row, cs[ids[i]].name) == Lookup(row', cs[ids[i]].name) {
      assert i < |ids| - 1 ==> ids[i] < ids[|ids| - 1];
      assert cs[ids[i]].name != cs[id].name;
    }
    CellsFrame(cs, ids, row, row');
  }

  lemma {:induction false} CellsAppend(cs: seq<Column>, ids: seq<nat>, id: nat, row: Row)
    requires Ids(cs, ids) && id < |cs|
    ensures CellsOf(cs, ids + [id], row) == CellsOf(cs, ids, row) + CellBytes(id, Cell(row, cs[id]))
  {
    assert (ids + [id])[..|ids|] == ids;
  }

  lemma {:induction false} DecodeStep(s: Schema, data: Bytes, pos: nat, ids: seq<nat>, row: Row, id: nat, v: Value)
    requires ValidSchema(s) && Decoding(s, data, pos, ids, row) && CellAt(s.columns, data, pos, id, v)
    requires ids != [] ==> ids[|ids| - 1] < id
    ensures Decoding(s, data, CellEnd(s.columns, pos, id, v), ids + [id], row[s.columns[id].name := v])
  {
    hide CellBytes, EncodeValue, RowHeader, ValidSchema, CellsOf, IdsFit, NamesOf;
    var cs := s.columns;
    var row' := row[cs[id].name := v];
    LaterColumn(s, ids, row, id, v);
    NamesAppend(cs, ids, id);
    CellsAppend(cs, ids, id, row');
    var b := CellBytes(id, EncodeValue(cs[id], v).value);
    CellSize(id, EncodeValue(cs[id], v).value);
    assert data[..pos + |b|] == data[..pos] + data[pos..pos + |b|];
    assert RowHeader(|cs|) + CellsOf(cs, ids, row) + b == RowHeader(|cs|) + (CellsOf(cs, ids, row) + b);
  }

  lemma {:induction false} CellSize(id: nat, ev: Bytes)
    ensures |CellBytes(id, ev)| == 8 + |ev|
  {
  }

  /** Enough cells make a whole row. */
  lemma {:induction false} DecodeEnd(s: Schema, data: Bytes, ids: seq<nat>, row: Row)
    requires ValidSchema(s) && Decoding(s, data, |data|, ids, row) && |ids| == |s.columns| - 1 && |data| <= MAX_ROW
    ensures RowOf(s, row, data)
  {
    hide CellBytes, EncodeValue, RowHeader, CellsOf;
    var k: nat :| PrimaryAt(s.columns, k);
    OthersCount(s.columns, k, |s.columns|);
    IdsAreOthers(s.columns, ids, |s.columns|);
    TakeAll(data);
  }

  /** The ids read are the first ones of the row looked for, with its values. */
  ghost predicate Matching(s: Schema, want: Row, ids: seq<nat>, row: Row) {
    && ids <= Others(s.columns, |s.columns|)
    && forall i :: 0 <= i < |ids| ==>
      ids[i] < |s.columns| && Lookup(row, s.columns[ids[i]].name) == Lookup(want, s.columns[ids[i]].name)
  }

  lemma {:induction false} CellsPrefix(cs: seq<Column>, ids: seq<nat>, n: nat, row: Row)
    requires Ids(cs, ids) && n <= |ids|
    ensures CellsOf(cs, ids[..n], row) <= CellsOf(cs, ids, row)
    decreases |ids|
  {
    hide CellBytes, Cell;
    if n == |ids| {
      TakeAll(ids);
    } else {
      var front := ids[..|ids| - 1];
      assert front[..n] == ids[..n];
      CellsPrefix(cs, front, n, row);
    }
  }

  /** The next cell of a stored row is where reading goes on. */
  lemma {:induction false} WantedCell(s: Schema, data: Bytes, want: Row, pos: nat, ids: seq<nat>, row: Row)
    requires RowOf(s, want, data) && Decoding(s, data, pos, ids, row) && Matching(s, want, ids, row)
    requires |ids| < |Others(s.columns, |s.columns|)|
    ensures var id := Others(s.columns, |s.columns|)[|ids|];
            id < |s.columns| && CellAt(s.columns, data, pos, id, Lookup(want, s.columns[id].name))
            && (ids != [] ==> ids[|ids| - 1] < id)
  {
    hide CellBytes, EncodeValue, RowHeader, CellsOf, ValidSchema, NamesOf, Others;
    var cs, all := s.columns, Others(s.columns, |s.columns|);
    OthersAreIds(cs, |cs|);
    var n := |ids|;
    var id := all[n];
    assert ids == all[..n];
    CellsFrame(cs, ids, row, want);
    TakeStep(all, n);
    CellsAppend(cs, ids, id, want);
    CellsPrefix(cs, all, n + 1, want);
    var head, b := RowHeader(|cs|), CellBytes(id, Cell(want, cs[id]));
    assert data[..pos] == head + CellsOf(cs, ids, want);
    var upto := head + (CellsOf(cs, ids, want) + b);
    assert upto <= data;
    assert upto == data[..pos] + b;
    assert data[..pos + |b|] == upto;
    assert data[pos..pos + |b|] == upto[pos..];
  }

  lemma {:induction false} RowValid(s: Schema, row: Row, data: Bytes)
    requires RowOf(s, row, data)
    ensures ValidSchema(s) && |data| <= MAX_ROW
  {
  }

  lemma {:induction false} MatchingStep(s: Schema, data: Bytes, want: Row, pos: nat, ids: seq<nat>, row: Row, id: nat,
      v: Value)
    requires RowOf(s, want, data) && Decoding(s, data, pos, ids, row) && Matching(s, want, ids, row)
    requires |ids| < |Others(s.columns, |s.columns|)| && CellAt(s.columns, data, pos, id, v)
    ensures Matching(s, want, ids + [id], row[s.columns[id].name := v])
  {
    hide CellBytes, EncodeValue, RowHeader, CellsOf, NamesOf, ValidColumn, Others, RowOf, Decoding, CellAt;
    var cs, all := s.columns, Others(s.columns, |s.columns|);
    OthersAreIds(cs, |cs|);
    RowValid(s, want, data);
    CellIn(cs, data, pos, id, v);
    WantedCell(s, data, want, pos, ids, row);
    var next := all[|ids|];
    CellOnce(cs, data, pos, id, v, next, Lookup(want, cs[next].name));
    TakeStep(all, |ids|);
    var row' := row[cs[id].name := v];
    forall i | 0 <= i < |ids| ensures Lookup(row', cs[ids[i]].name) == Lookup(want, cs[ids[i]].name) {
      assert ids[i] == all[i] && all[i] < all[|ids|];
      assert cs[ids[i]].name != cs[id].name;
    }
  }

  /** Reads a stored row, whatever the bytes; it succeeds exactly if they are the encoding of a row of this table. */
  method DecodeRow(s: Schema, data: Bytes) returns (r: Option<Row>)
    ensures r.Some? <==> exists row :: RowOf(s, row, data)
    ensures r.Some? ==> RowOf(s, r.value, data)
  {
    hide RowOf, ValidSchema, RowHeader;
    ghost var want: Option<Row> := None;
    if exists row :: RowOf(s, row, data) {
      ghost var row :| RowOf(s, row, data);
      want := Some(row);
      RowShows(s, row, data);
    }
    if |data| < 12 || data[..4] != ROW_MAGIC || FromLE(data[4..6]) != 2 || |data| > MAX_ROW {
      return None;
    }
    var ok := ValidateSchema(s);
    if !ok || FromLE(data[6..10]) != 1 {
      return None;
    }
    SchemaSize(s);
    var count := FromLE(data[10..12]);
    if count != |s.columns| - 1 {
      return None;
    }
    HeaderFrom(data, |s.columns|);
    r := DecodeCells(s, data, want);
  }

  lemma {:induction false} SchemaSize(s: Schema)
    requires ValidSchema(s)
    ensures 0 < |s.columns| <= 65535
  {
  }

  /** The header says what it should. */
  lemma {:induction false} RowShows(s: Schema, row: Row, data: Bytes)
    requires RowOf(s, row, data)
    ensures ValidSchema(s) && 12 <= |data| <= MAX_ROW && data[..4] == ROW_MAGIC && FromLE(data[4..6]) == 2
    ensures FromLE(data[6..10]) == 1 && FromLE(data[10..12]) == |s.columns| - 1
  {
    hide CellsOf, Others, FromLE, LE;
    var h := RowHeader(|s.columns|);
    assert data[..4] == h[..4] && data[4..6] == LE(2, 2) && data[6..10] == LE(1, 4)
           && data[10..12] == LE(|s.columns| - 1, 2);
    Widths();
    LERoundTrip(2, 2);
    LERoundTrip(1, 4);
    LERoundTrip(|s.columns| - 1, 2);
  }

  lemma {:induction false} HeaderFrom(data: Bytes, n: nat)
    requires |data| >= 12 && data[..4] == ROW_MAGIC && FromLE(data[4..6]) == 2 && FromLE(data[6..10]) == 1
             && FromLE(data[10..12]) == n - 1 && n >= 1
    ensures data[..12] == RowHeader(n)
  {
    hide FromLE, LE;
    LEExact(data[4..6]);
    LEExact(data[6..10]);
    LEExact(data[10..12]);
    assert data[..12] == data[..4] + data[4..6] + data[6..10] + data[10..12];
  }

  /** Reads the cells after the header, with strictly increasing column ids. */
  method DecodeCells(s: Schema, data: Bytes, ghost want: Option<Row>) returns (r: Option<Row>)
    requires ValidSchema(s) && 12 <= |data| <= MAX_ROW && s.columns != [] && data[..12] == RowHeader(|s.columns|)
    requires want.Some? ==> RowOf(s, want.value, data)
    ensures want.Some? ==> r.Some?
    ensures r.Some? ==> RowOf(s, r.value, data)
  {
    hide RowOf, ValidSchema, RowHeader, Decoding, Matching, CellAt, Others;
    SchemaSize(s);
    var count := |s.columns| - 1;
    var row: Row := map[];
    var pos: nat, last: nat := 12, 0;
    ghost var ids: seq<nat> := [];
    NothingDecoded(s, data, want);
    var i := 0;
    while i < count
      invariant 0 <= i <= count && |ids| == i && pos <= |data|
      invariant Decoding(s, data, pos, ids, row)
      invariant if ids == [] then last == 0 else last == ids[|ids| - 1] + 1
      invariant want.Some? ==> Matching(s, want.value, ids, row)
    {
      if want.Some? {
        AllOthers(s);
        WantedCell(s, data, want.value, pos, ids, row);
      }
      var cell := ReadCell(s.columns, data, pos, last);
      if cell.None? {
        return None;
      }
      var id, v := cell.value.0, cell.value.1;
      CellIn(s.columns, data, pos, id, v);
      DecodeStep(s, data, pos, ids, row, id, v);
      if want.Some? {
        MatchingStep(s, data, want.value, pos, ids, row, id, v);
      }
      row := row[s.columns[id].name := v];
      pos := CellEnd(s.columns, pos, id, v);
      ids := ids + [id];
      DecodingIn(s, data, pos, ids, row);
      last := id + 1;
      i := i + 1;
    }
    if want.Some? {
      WantedEnd(s, data, want.value, pos, ids, row);
    }
    if pos != |data| {
      return None;
    }
    DecodeEnd(s, data, ids, row);
    r := Some(row);
  }

  lemma {:induction false} NothingDecoded(s: Schema, data: Bytes, want: Option<Row>)
    requires s.columns != [] && 12 <= |data| && data[..12] == RowHeader(|s.columns|)
    ensures Decoding(s, data, 12, [], map[])
    ensures want.Some? ==> Matching(s, want.value, [], map[])
  {
  }

  lemma {:induction false} CellIn(cs: seq<Column>, data: Bytes, pos: nat, id: nat, v: Value)
    requires CellAt(cs, data, pos, id, v)
    ensures id < |cs|
  {
  }

  lemma {:induction false} DecodingIn(s: Schema, data: Bytes, pos: nat, ids: seq<nat>, row: Row)
    requires Decoding(s, data, pos, ids, row)
    ensures pos <= |data|
  {
  }

  lemma {:induction false} AllOthers(s: Schema)
    requires ValidSchema(s)
    ensures |Others(s.columns, |s.columns|)| == |s.columns| - 1
  {
    var k: nat :| PrimaryAt(s.columns, k);
    OthersCount(s.columns, k, |s.columns|);
  }

  /** After the last cell nothing is left. */
  lemma {:induction false} WantedEnd(s: Schema, data: Bytes, want: Row, pos: nat, ids: seq<nat>, row: Row)
    requires RowOf(s, want, data) && Decoding(s, data, pos, ids, row) && Matching(s, want, ids, row)
             && |ids| == |s.columns| - 1
    ensures pos == |data|
  {
    hide CellBytes, EncodeValue, RowHeader, CellsOf, NamesOf;
    AllOthers(s);
    OthersAreIds(s.columns, |s.columns|);
    assert ids == Others(s.columns, |s.columns|);
    CellsFrame(s.columns, ids, row, want);
    assert data[..pos] == data;
  }

  // ----- Round trips

  /** What a row is once it is stored: the primary key is in the key, a missing value is null. */
  ghost function Stored(s: Schema, row: Row): Row {
    map name | name in NamesOf(s.columns, Others(s.columns, |s.columns|)) :: Lookup(row, name)
  }

  /** Reading back a stored row gives its values. */
  lemma {:induction false} RowRoundTrip(s: Schema, row: Row)
    requires Encodable(s, row)
    ensures RowOf(s, Stored(s, row), RowBytes(s, row))
  {
    hide EncodeValue, CellBytes, RowHeader, Others, ValidSchema, CellsOf, FindColumn;
    var cs, ids := s.columns, Others(s.columns, |s.columns|);
    OthersAreIds(cs, |cs|);
    var row' := Stored(s, row);
    forall i | 0 <= i < |ids| ensures Lookup(row', cs[ids[i]].name) == Lookup(row, cs[ids[i]].name) {
      assert cs[ids[i]].name in NamesOf(cs, ids);
    }
    CellsFrame(cs, ids, row, row');
  }

  /** Bytes are the encoding of one row at most. */
  lemma {:induction false} RowOnce(s: Schema, a: Row, b: Row, data: Bytes)
    requires RowOf(s, a, data) && RowOf(s, b, data)
    ensures a == b
  {
    hide EncodeValue, CellBytes, RowHeader, CellsOf, Others, ValidSchema;
    var cs, ids := s.columns, Others(s.columns, |s.columns|);
    RowAgrees(s, a, b, data, |ids|);
    forall name | name in a ensures a[name] == b[name] {
      var i :| 0 <= i < |ids| && ids[i] < |cs| && cs[ids[i]].name == name;
      assert Lookup(a, cs[ids[i]].name) == Lookup(b, cs[ids[i]].name);
    }
  }

  lemma {:induction false} RowAgrees(s: Schema, a: Row, b: Row, data: Bytes, n: nat)
    requires RowOf(s, a, data) && RowOf(s, b, data) && n <= |Others(s.columns, |s.columns|)|
    ensures var cs, ids := s.columns, Others(s.columns, |s.columns|);
            forall i :: 0 <= i < n ==> ids[i] < |cs| && Lookup(a, cs[ids[i]].name) == Lookup(b, cs[ids[i]].name)
    decreases n
  {
    hide EncodeValue, CellBytes, RowHeader, CellsOf, ValidSchema, Others, RowOf, CellAt;
    if n > 0 {
      var cs, ids := s.columns, Others(s.columns, |s.columns|);
      OthersAreIds(cs, |cs|);
      RowValid(s, a, data);
      RowAgrees(s, a, b, data, n - 1);
      var front, id := ids[..n - 1], ids[n - 1];
      CellsFrame(cs, front, a, b);
      CellIsAt(s, a, data, n - 1);
      CellIsAt(s, b, data, n - 1);
      SchemaSize(s);
      CellOnce(cs, data, |RowHeader(|cs|) + CellsOf(cs, front, a)|, id, Lookup(a, cs[id].name), id,
               Lookup(b, cs[id].name));
    }
  }

  /** Cell `n` of a stored row lies behind the cells before it. */
  lemma {:induction false} CellIsAt(s: Schema, row: Row, data: Bytes, n: nat)
    requires RowOf(s, row, data) && n < |Others(s.columns, |s.columns|)|
    ensures var cs, ids := s.columns, Others(s.columns, |s.columns|);
            ids[n] < |cs|
            && CellAt(cs, data, |RowHeader(|cs|) + CellsOf(cs, ids[..n], row)|, ids[n], Lookup(row, cs[ids[n]].name))
  {
    hide EncodeValue, CellBytes, RowHeader, CellsOf, ValidSchema, NamesOf, Others;
    var cs, ids := s.columns, Others(s.columns, |s.columns|);
    OthersAreIds(cs, |cs|);
    var front, id := ids[..n], ids[n];
    TakeStep(ids, n);
    CellsAppend(cs, front, id, row);
    CellsPrefix(cs, ids, n + 1, row);
    var head, b := RowHeader(|cs|), CellBytes(id, Cell(row, cs[id]));
    var upto := head + (CellsOf(cs, front, row) + b);
    var pos := |head + CellsOf(cs, front, row)|;
    assert upto <= data;
    assert data[..pos + |b|] == upto;
    assert data[pos..pos + |b|] == upto[pos..];
  }
}
