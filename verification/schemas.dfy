/**
 Table schemas and column values, and the encodings of single values.
 */
module Schemas {
  import opened ByteStrings
  import opened Entries
  import opened Codecs

  const INT64: Byte := 1
  const STRING: Byte := 2
  const BYTES: Byte := 3
  const BOOL: Byte := 4

  const HALF: int := 0x8000_0000_0000_0000

  type Int64 = x: int | -HALF <= x < HALF

  datatype Column = Column(name: Bytes, typ: Byte, primaryKey: bool, nullable: bool)

  datatype Schema = Schema(name: Bytes, columns: seq<Column>)

  datatype Value = Null | Int(i: Int64) | Text(s: Bytes) | Blob(b: Bytes) | Flag(v: bool)

  type Row = map<Bytes, Value>

  // ----- Schemas

  predicate ValidColumn(c: Column) {
    && 0 < |c.name| <= 128 && INT64 <= c.typ <= BOOL
    && (c.primaryKey ==> !c.nullable && (c.typ == INT64 || c.typ == STRING))
  }

  ghost predicate DistinctNames(cs: seq<Column>) {
    forall i, j :: 0 <= i < j < |cs| ==> cs[i].name != cs[j].name
  }

  /** The only primary column is the one at `k`. */
  ghost predicate PrimaryAt(cs: seq<Column>, k: nat) {
    k < |cs| && cs[k].primaryKey && forall i :: 0 <= i < |cs| && cs[i].primaryKey ==> i == k
  }

  ghost predicate ValidSchema(s: Schema) {
    && 0 < |s.name| <= 128 && 0 < |s.columns| <= 65535
    && (forall i :: 0 <= i < |s.columns| ==> ValidColumn(s.columns[i]))
    && DistinctNames(s.columns)
    && exists k: nat :: PrimaryAt(s.columns, k)
  }

  /** Accepts exactly the valid schemas. */
  method ValidateSchema(s: Schema) returns (ok: bool)
    ensures ok <==> ValidSchema(s)
  {
    if |s.name| == 0 || |s.name| > 128 || |s.columns| == 0 || |s.columns| > 65535 {
      return false;
    }
    var seen: set<Bytes> := {};
    var primary := 0;
    ghost var at: nat := 0;
    var i := 0;
    while i < |s.columns|
      invariant 0 <= i <= |s.columns|
      invariant seen == set j | 0 <= j < i :: s.columns[j].name
      invariant forall j :: 0 <= j < i ==> ValidColumn(s.columns[j])
      invariant forall j, k :: 0 <= j < k < i ==> s.columns[j].name != s.columns[k].name
      invariant primary == 0 ==> forall j :: 0 <= j < i ==> !s.columns[j].primaryKey
      invariant primary == 1 ==> at < i && PrimaryAt(s.columns[..i], at)
      invariant primary > 1 ==> exists j, k :: 0 <= j < k < i && s.columns[j].primaryKey && s.columns[k].primaryKey
    {
      var c := s.columns[i];
      if |c.name| == 0 || |c.name| > 128 || c.name in seen || c.typ < INT64 || c.typ > BOOL {
        return false;
      }
      seen := seen + {c.name};
      if c.primaryKey {
        if primary == 0 {
          at := i;
        } else if primary == 1 {
          assert s.columns[at].primaryKey by {
            assert s.columns[..i][at].primaryKey;
          }
        }
        primary := primary + 1;
        if c.nullable || (c.typ != INT64 && c.typ != STRING) {
          return false;
        }
      }
      TakeStep(s.columns, i);
      i := i + 1;
    }
    TakeAll(s.columns);
    return primary == 1;
  }

  // ----- Values

  function IntBytes(x: Int64): Bytes {
    BE(x + HALF, 8)
  }

  /** The encoding of a value in a column: none if the value does not belong there. */
  function EncodeValue(c: Column, v: Value): Option<Bytes> {
    if c.typ < INT64 || c.typ > BOOL then None
    else
      match v
      case Null => if c.nullable && !c.primaryKey then Some([0]) else None
      case Int(x) => if c.typ != INT64 then None else Some(if c.primaryKey then IntBytes(x) else [c.typ] + IntBytes(x))
      case Text(x) => if c.typ != STRING then None else Some(if c.primaryKey then x else [c.typ] + Escape(x))
      case Blob(x) => if c.typ != BYTES then None else Some([c.typ] + Escape(x))
      case Flag(x) => if c.typ != BOOL then None else Some([c.typ, if x then 1 else 0])
  }

  /** The column type that a value is of. */
  function TypeOf(v: Value): Byte
    requires !v.Null?
  {
    match v
    case Int(_) => INT64
    case Text(_) => STRING
    case Blob(_) => BYTES
    case Flag(_) => BOOL
  }

  /** A column admits null only if it is declared so, and otherwise the values of its type. */
  predicate Admits(c: Column, v: Value) {
    if v.Null? then c.nullable else TypeOf(v) == c.typ
  }

  /** The values that can be encoded are those that the column admits. */
  lemma {:induction false} EncodesAdmitted(c: Column, v: Value)
    requires ValidColumn(c)
    ensures EncodeValue(c, v).Some? <==> Admits(c, v)
  {
  }

  lemma {:induction false} IntBytesOnce(x: Int64, y: Int64)
    requires IntBytes(x) == IntBytes(y)
    ensures x == y
  {
    Width8();
    BERoundTrip(x + HALF, 8);
    BERoundTrip(y + HALF, 8);
  }

  lemma {:induction false} Width8()
    ensures Pow256(8) == 2 * HALF
  {
    assert Pow256(1) == 256;
    assert Pow256(2) == 65536;
    assert Pow256(3) == 0x100_0000;
    assert Pow256(4) == 0x1_0000_0000;
    assert Pow256(5) == 0x100_0000_0000;
    assert Pow256(6) == 0x1_0000_0000_0000;
    assert Pow256(7) == 0x100_0000_0000_0000;
  }

  /** Within one column, an encoded value followed by anything tells where it ends and what it is. */
  lemma {:induction false} ValuePrefixFree(c: Column, v: Value, w: Value, x: Bytes, y: Bytes)
    requires !c.primaryKey && EncodeValue(c, v).Some? && EncodeValue(c, w).Some?
    requires EncodeValue(c, v).value + x == EncodeValue(c, w).value + y
    ensures v == w && x == y
  {
    var a, b := EncodeValue(c, v).value, EncodeValue(c, w).value;
    var l, r := a + x, b + y;
    assert l[0] == a[0] && r[0] == b[0];
    if v.Null? || w.Null? {
      assert x == l[1..] && y == r[1..];
    } else {
      assert l[1..] == a[1..] + x && r[1..] == b[1..] + y;
      match v
      case Int(i) =>
        assert a[1..] == IntBytes(i) && b[1..] == IntBytes(w.i);
        assert l[1..][..8] == IntBytes(i) && r[1..][..8] == IntBytes(w.i);
        IntBytesOnce(i, w.i);
        assert x == l[9..] && y == r[9..];
      case Text(s) => EscapePrefixFree(s, w.s, x, y);
      case Blob(s) => EscapePrefixFree(s, w.b, x, y);
      case Flag(f) =>
        assert l[1] == a[1] && r[1] == b[1];
        assert x == l[2..] && y == r[2..];
    }
  }

  /** A value is determined by its encoding, in a primary column too. */
  lemma {:induction false} EncodeOnce(c: Column, v: Value, w: Value)
    requires EncodeValue(c, v).Some? && EncodeValue(c, v) == EncodeValue(c, w)
    requires c.primaryKey ==> c.typ == INT64 || c.typ == STRING
    ensures v == w
  {
    if c.primaryKey {
      if v.Int? {
        IntBytesOnce(v.i, w.i);
      }
    } else {
      ValuePrefixFree(c, v, w, [], []);
    }
  }

  /** The order of the values of one column; null comes first. */
  predicate ValueLess(v: Value, w: Value) {
    match (v, w)
    case (Null, Null) => false
    case (Null, _) => true
    case (Int(x), Int(y)) => x < y
    case (Text(x), Text(y)) => Less(x, y)
    case (Blob(x), Blob(y)) => Less(x, y)
    case (Flag(x), Flag(y)) => !x && y
    case (_, _) => false
  }

  lemma {:induction false} FirstByteOrder(a: Bytes, b: Bytes)
    requires a != [] && b != [] && a[0] < b[0]
    ensures Less(a, b)
  {
    assert DiffersAt(a, b, 0);
    LessMeans(a, b);
  }

  /** Encoding keeps the order of values, whatever follows them. */
  lemma {:induction false} ValueOrder(c: Column, v: Value, w: Value, x: Bytes, y: Bytes)
    requires !c.primaryKey && EncodeValue(c, v).Some? && EncodeValue(c, w).Some? && ValueLess(v, w)
    ensures Less(EncodeValue(c, v).value + x, EncodeValue(c, w).value + y)
  {
    var a, b := EncodeValue(c, v).value, EncodeValue(c, w).value;
    if v.Null? {
      FirstByteOrder(a + x, b + y);
    } else {
      var t := [c.typ];
      match v
      case Int(i) =>
        Width8();
        BEOrder(i + HALF, w.i + HALF, 8);
        SameWidth(IntBytes(i), IntBytes(w.i));
        LessBefore(IntBytes(i), IntBytes(w.i), x, y);
        assert a + x == t + (IntBytes(i) + x) && b + y == t + (IntBytes(w.i) + y);
        LessAfter(t, IntBytes(i) + x, IntBytes(w.i) + y);
      case Text(s) =>
        EscapeOrder(s, w.s, x, y);
        assert a + x == t + (Escape(s) + x) && b + y == t + (Escape(w.s) + y);
        LessAfter(t, Escape(s) + x, Escape(w.s) + y);
      case Blob(s) =>
        EscapeOrder(s, w.b, x, y);
        assert a + x == t + (Escape(s) + x) && b + y == t + (Escape(w.b) + y);
        LessAfter(t, Escape(s) + x, Escape(w.b) + y);
      case Flag(f) =>
        FirstByteOrder([0] + x, [1] + y);
        assert a + x == t + ([0] + x) && b + y == t + ([1] + y);
        LessAfter(t, [0] + x, [1] + y);
    }
  }

  lemma {:induction false} SameWidth(a: Bytes, b: Bytes)
    requires |a| == |b| && Less(a, b)
    ensures !(a <= b)
  {
    if a <= b {
      assert a == b;
      StrictTotalOrder();
    }
  }

  /** Primary keys are ordered as their encodings. */
  lemma {:induction false} PrimaryOrder(c: Column, v: Value, w: Value)
    requires c.primaryKey && (c.typ == INT64 || c.typ == STRING) && EncodeValue(c, v).Some? && EncodeValue(c, w).Some?
    ensures ValueLess(v, w) <==> Less(EncodeValue(c, v).value, EncodeValue(c, w).value)
  {
    if v.Int? {
      Width8();
      if v.i < w.i {
        BEOrder(v.i + HALF, w.i + HALF, 8);
      } else if v.i > w.i {
        BEOrder(w.i + HALF, v.i + HALF, 8);
        StrictTotalOrder();
      } else {
        StrictTotalOrder();
      }
    }
  }

  /** Primary keys are read back as integers and strings only, although other values can be encoded. */
  predicate Readable(c: Column) {
    c.primaryKey ==> c.typ != BYTES && c.typ != BOOL
  }

  /** A column may be declared with any type; as primary key, not null and with one that can be read back. */
  lemma {:induction false} ColumnMayBe(c: Column)
    ensures ValidColumn(c) <==>
            && 0 < |c.name| <= 128 && c.typ in {INT64, STRING, BYTES, BOOL}
            && (c.primaryKey ==> !c.nullable && Readable(c))
  {
  }

  /** The value that bytes stand for in a column; it is found exactly if there is one. */
  method DecodeValue(c: Column, data: Bytes) returns (r: Option<Value>)
    ensures r.Some? <==> Readable(c) && exists v :: EncodeValue(c, v) == Some(data)
    ensures r.Some? ==> EncodeValue(c, r.value) == Some(data)
  {
    hide Escape, BE;
    if c.primaryKey {
      r := DecodePrimaryKey(c, data);
      return;
    }
    if c.typ < INT64 || c.typ > BOOL || |data| == 0 {
      return None;
    }
    if data[0] == 0 {
      if |data| != 1 || !c.nullable {
        return None;
      }
      assert data == [0];
      assert EncodeValue(c, Null) == Some(data);
      return Some(Null);
    }
    if data[0] != c.typ {
      return None;
    }
    var rest := data[1..];
    assert data == [c.typ] + rest;
    Tagged(c, data);
    if c.typ == INT64 {
      if |rest| != 8 {
        return None;
      }
      IntOf(rest);
      r := Some(Int(FromBE(rest) - HALF));
    } else if c.typ == BOOL {
      if |rest| != 1 || rest[0] > 1 {
        return None;
      }
      r := Some(Flag(rest[0] == 1));
      assert data == [c.typ, if rest[0] == 1 then 1 else 0];
    } else {
      var s := DecodeEscapedComponent(rest);
      if s.None? {
        NoTail(c, data, rest);
        return None;
      }
      r := Some(if c.typ == STRING then Text(s.value) else Blob(s.value));
    }
    assert EncodeValue(c, r.value) == Some(data);
  }

  /** What follows the type tag of an encoded value. */
  ghost predicate TailOf(v: Value, rest: Bytes) {
    match v
    case Null => false
    case Int(i) => rest == IntBytes(i)
    case Text(s) => rest == Escape(s)
    case Blob(s) => rest == Escape(s)
    case Flag(f) => rest == [if f then 1 else 0]
  }

  lemma {:induction false} TailIs(c: Column, data: Bytes, v: Value)
    requires !c.primaryKey && data != [] && data[0] == c.typ && (c.typ == STRING || c.typ == BYTES)
             && EncodeValue(c, v) == Some(data)
    ensures exists s :: data[1..] == Escape(s)
  {
    hide Escape, BE;
    assert EncodeValue(c, v).value[1..] == data[1..];
    if v.Text? {
      assert data[1..] == Escape(v.s);
    } else {
      assert data[1..] == Escape(v.b);
    }
  }

  lemma {:induction false} NoTail(c: Column, data: Bytes, rest: Bytes)
    requires !c.primaryKey && data == [c.typ] + rest && (c.typ == STRING || c.typ == BYTES)
             && forall s :: rest != Escape(s)
    ensures forall v :: EncodeValue(c, v) != Some(data)
  {
    hide Escape, BE, EncodeValue;
    assert data[1..] == rest;
    forall v ensures EncodeValue(c, v) != Some(data) {
      if EncodeValue(c, v) == Some(data) {
        TailIs(c, data, v);
      }
    }
  }

  lemma {:induction false} Tagged(c: Column, data: Bytes)
    requires !c.primaryKey && data != [] && data[0] == c.typ && INT64 <= c.typ <= BOOL
    ensures forall v :: EncodeValue(c, v) == Some(data) ==> TailOf(v, data[1..])
  {
    hide Escape, BE;
    forall v | EncodeValue(c, v) == Some(data) ensures TailOf(v, data[1..]) {
      assert EncodeValue(c, v).value[1..] == data[1..];
    }
  }

  lemma {:induction false} IntOf(b: Bytes)
    requires |b| == 8
    ensures 0 <= FromBE(b) < 2 * HALF && IntBytes(FromBE(b) - HALF) == b
  {
    Width8();
    BEExact(b);
  }

  method DecodePrimaryKey(c: Column, data: Bytes) returns (r: Option<Value>)
    requires c.primaryKey
    ensures r.Some? <==> Readable(c) && exists v :: EncodeValue(c, v) == Some(data)
    ensures r.Some? ==> EncodeValue(c, r.value) == Some(data)
  {
    hide BE;
    if c.typ == INT64 && |data| == 8 {
      IntOf(data);
      r := Some(Int(FromBE(data) - HALF));
      assert EncodeValue(c, r.value) == Some(data);
      return;
    }
    if c.typ == STRING {
      r := Some(Text(data));
      assert EncodeValue(c, r.value) == Some(data);
      return;
    }
    r := None;
  }
}
