/**
 SELECT: rows are reached by primary key, by a range of primary keys or by a full scan,
 and then filtered. Whichever way is taken, the same rows come out in the same order.
 */
module Selection {
  import opened ByteStrings
  import opened Entries
  import opened Codecs
  import opened Schemas
  import opened Rows
  import opened TableData
  import opened Transactions
  import opened Tables

  datatype Op = Equal | NotEqual | Less_ | LessEqual | Greater | GreaterEqual

  datatype Literal = NullLiteral | Integer(i: Int64) | Str(s: Bytes) | Boolean(b: bool)

  datatype Predicate = Predicate(column: Bytes, op: Op, value: Literal)

  // ----- Predicates

  function LiteralValue(l: Literal, typ: Byte): Option<Value> {
    match l
    case NullLiteral => None
    case Integer(i) => if typ == INT64 then Some(Int(i)) else None
    case Str(s) => if typ == STRING then Some(Text(s)) else if typ == BYTES then Some(Blob(s)) else None
    case Boolean(b) => if typ == BOOL then Some(Flag(b)) else None
  }

  predicate SameKind(a: Value, b: Value) {
    (a.Int? && b.Int?) || (a.Text? && b.Text?) || (a.Blob? && b.Blob?) || (a.Flag? && b.Flag?)
  }

  predicate Compare(a: Value, b: Value, op: Op) {
    SameKind(a, b) &&
    match op
    case Equal => a == b
    case NotEqual => a != b
    case Less_ => ValueLess(a, b)
    case LessEqual => !ValueLess(b, a)
    case Greater => ValueLess(b, a)
    case GreaterEqual => !ValueLess(a, b)
  }

  predicate Holds(s: Schema, row: Row, p: Predicate) {
    match FindColumn(s.columns, p.column)
    case None => false
    case Some(c) =>
      match LiteralValue(p.value, c.typ)
      case None => false
      case Some(v) => Compare(Lookup(row, p.column), v, p.op)
  }

  ghost predicate Satisfies(s: Schema, row: Row, ps: seq<Predicate>) {
    forall i :: 0 <= i < |ps| ==> Holds(s, row, ps[i])
  }

  method Matches(s: Schema, row: Row, ps: seq<Predicate>) returns (ok: bool)
    ensures ok <==> Satisfies(s, row, ps)
  {
    var i := 0;
    while i < |ps|
      invariant 0 <= i <= |ps| && forall j :: 0 <= j < i ==> Holds(s, row, ps[j])
    {
      if !Holds(s, row, ps[i]) {
        return false;
      }
      i := i + 1;
    }
    ok := true;
  }

  // ----- Rows of a table

  /** A row as clients see it, with its primary column. */
  ghost predicate FullRow(d: Data, s: Schema, pk: Bytes, full: Row) {
    exists row, v ::
      && HasRow(d, s, pk, row) && EncodeValue(FindPrimary(s.columns), v) == Some(pk)
      && full == row[FindPrimary(s.columns).name := v]
  }

  /** Rows in ascending order of primary keys, among them all that should be. */
  ghost predicate Listing(d: Data, s: Schema, rows: seq<(Bytes, Row)>) {
    && (forall i, j :: 0 <= i < j < |rows| ==> Less(rows[i].0, rows[j].0))
    && (forall i :: 0 <= i < |rows| ==> FullRow(d, s, rows[i].0, rows[i].1))
  }

  ghost predicate Covers(d: Data, s: Schema, ps: seq<Predicate>, rows: seq<(Bytes, Row)>) {
    && Listing(d, s, rows)
    && forall pk, full :: FullRow(d, s, pk, full) && Satisfies(s, full, ps) ==> (pk, full) in rows
  }

  /** Exactly the rows of the table that satisfy all predicates, in ascending order of primary keys. */
  ghost predicate Selected(d: Data, s: Schema, ps: seq<Predicate>, rows: seq<(Bytes, Row)>) {
    && Covers(d, s, ps, rows)
    && forall i :: 0 <= i < |rows| ==> Satisfies(s, rows[i].1, ps)
  }

  lemma {:induction false} PrimaryColumn(s: Schema)
    requires ValidSchema(s)
    ensures var c := FindPrimary(s.columns);
            c.primaryKey && (c.typ == INT64 || c.typ == STRING) && ValidColumn(c)
            && FindColumn(s.columns, c.name) == Some(c)
  {
    var k: nat :| PrimaryAt(s.columns, k);
    PrimaryIs(s, k);
    ColumnIs(s, k);
  }

  /** A key has one full row at most. */
  lemma {:induction false} FullOnce(d: Data, s: Schema, pk: Bytes, a: Row, b: Row)
    requires ValidSchema(s) && FullRow(d, s, pk, a) && FullRow(d, s, pk, b)
    ensures a == b
  {
    hide EncodeValue, HasRow, ValidSchema;
    PrimaryColumn(s);
    var c := FindPrimary(s.columns);
    var ra, va :| HasRow(d, s, pk, ra) && EncodeValue(c, va) == Some(pk) && a == ra[c.name := va];
    var rb, vb :| HasRow(d, s, pk, rb) && EncodeValue(c, vb) == Some(pk) && b == rb[c.name := vb];
    HasRowOnce(d, s, pk, ra, rb);
    EncodeOnce(c, va, vb);
  }

  /** The primary column of a full row holds the key. */
  lemma {:induction false} FullPrimary(d: Data, s: Schema, pk: Bytes, full: Row)
    requires FullRow(d, s, pk, full)
    ensures var c := FindPrimary(s.columns);
            EncodeValue(c, Lookup(full, c.name)) == Some(pk) && RowAt(s.name, pk) in d
  {
    hide EncodeValue, RowOf, RowAt;
    var c := FindPrimary(s.columns);
    var r, v :| HasRow(d, s, pk, r) && EncodeValue(c, v) == Some(pk) && full == r[c.name := v];
  }

  /** What a SELECT returns does not depend on the way it was found, nor on the order of its predicates. */
  lemma {:induction false} SelectedOnce(d: Data, s: Schema, ps: seq<Predicate>, qs: seq<Predicate>,
      a: seq<(Bytes, Row)>, b: seq<(Bytes, Row)>)
    requires Selected(d, s, ps, a) && Selected(d, s, qs, b) && multiset(ps) == multiset(qs)
    ensures a == b
  {
    hide FullRow, Holds, Less;
    forall row: Row ensures Satisfies(s, row, ps) <==> Satisfies(s, row, qs) {
      SamePredicates(s, row, ps, qs);
      SamePredicates(s, row, qs, ps);
    }
    SameAscending(a, b);
  }

  lemma {:induction false} SamePredicates(s: Schema, row: Row, ps: seq<Predicate>, qs: seq<Predicate>)
    requires multiset(ps) == multiset(qs)
    ensures Satisfies(s, row, ps) ==> Satisfies(s, row, qs)
  {
    hide Holds;
    if Satisfies(s, row, ps) {
      forall i | 0 <= i < |qs| ensures Holds(s, row, qs[i]) {
        assert qs[i] in multiset(qs);
        assert qs[i] in ps;
      }
    }
  }

  lemma {:induction false} SomeMember(b: seq<(Bytes, Row)>)
    ensures b != [] ==> exists x :: x in b
  {
    if b != [] {
      assert b[0] in b;
    }
  }

  /** Two ascending sequences with the same members are equal. */
  lemma {:induction false} SameAscending(a: seq<(Bytes, Row)>, b: seq<(Bytes, Row)>)
    requires forall i, j :: 0 <= i < j < |a| ==> Less(a[i].0, a[j].0)
    requires forall i, j :: 0 <= i < j < |b| ==> Less(b[i].0, b[j].0)
    requires (forall x :: x in a ==> x in b) && (forall x :: x in b ==> x in a)
    ensures a == b
    decreases |a|
  {
    StrictTotalOrder();
    if a == [] {
      SomeMember(b);
    } else {
      assert a[0] in b;
      var i :| 0 <= i < |b| && b[i] == a[0];
      assert b[0] in a;
      var j :| 0 <= j < |a| && a[j] == b[0];
      assert i == 0;
      var x, y := a[1..], b[1..];
      forall e | e in x ensures e in y {
        var k :| 0 <= k < |x| && x[k] == e;
        assert a[k + 1] == e && e in b && Less(a[0].0, e.0);
        var l :| 0 <= l < |b| && b[l] == e;
        assert l != 0;
        assert y[l - 1] == e;
      }
      forall e | e in y ensures e in x {
        var k :| 0 <= k < |y| && y[k] == e;
        assert b[k + 1] == e && e in a && Less(b[0].0, e.0);
        var l :| 0 <= l < |a| && a[l] == e;
        assert l != 0;
        assert x[l - 1] == e;
      }
      SameAscending(x, y);
      assert a == [a[0]] + x && b == [b[0]] + y;
    }
  }

  // ----- Reaching rows

  /** One of the first `n` bindings is that of the row. */
  ghost predicate AmongFirst(s: Schema, items: seq<(Bytes, Bytes)>, n: nat, pk: Bytes) {
    exists k :: 0 <= k < n && k < |items| && items[k].0 == RowAt(s.name, pk)
  }

  /** Rows decoded from stored bindings of the table. */
  method DecodeRows(d: Data, s: Schema, items: seq<(Bytes, Bytes)>) returns (rows: seq<(Bytes, Row)>)
    requires TableOk(d, s)
    requires forall i, j :: 0 <= i < j < |items| ==> Less(items[i].0, items[j].0)
    requires forall i :: 0 <= i < |items| ==> items[i].0 in d && d[items[i].0] == items[i].1
    ensures Listing(d, s, rows)
    ensures forall pk, full :: FullRow(d, s, pk, full) && AmongFirst(s, items, |items|, pk) ==> (pk, full) in rows
    ensures forall i :: 0 <= i < |rows| ==> AmongFirst(s, items, |items|, rows[i].0)
  {
    hide TableOk, EncodeValue, RowOf, Less, FullRow, ValidSchema, Escape, AmongFirst;
    NothingYet(s, items);
    TableIsValid(d, s);
    PrimaryColumn(s);
    var primary := FindPrimary(s.columns);
    var prefix := RowPrefix(s.name);
    rows := [];
    var i := 0;
    while i < |items|
      invariant 0 <= i <= |items|
      invariant Listing(d, s, rows)
      invariant forall j :: 0 <= j < |rows| ==> AmongFirst(s, items, i, rows[j].0)
      invariant forall pk, full :: AmongFirst(s, items, i, pk) && FullRow(d, s, pk, full) ==> (pk, full) in rows
    {
      var key := items[i].0;
      if !(prefix <= key) {
        Skipped(s, items, i);
        i := i + 1;
        continue;
      }
      var pk := key[|prefix|..];
      assert key == RowAt(s.name, pk);
      var row := DecodeRow(s, items[i].1);
      assert row.Some?;
      var v := DecodePrimaryKey(primary, pk);
      assert v.Some?;
      var full := row.value[primary.name := v.value];
      MakesFull(d, s, pk, row.value, v.value);
      ghost var was := rows;
      Appended(d, s, items, was, i, pk, full);
      rows := rows + [(pk, full)];
      i := i + 1;
    }
  }

  lemma {:induction false} MakesFull(d: Data, s: Schema, pk: Bytes, row: Row, v: Value)
    requires HasRow(d, s, pk, row) && EncodeValue(FindPrimary(s.columns), v) == Some(pk)
    ensures FullRow(d, s, pk, row[FindPrimary(s.columns).name := v])
  {
    hide EncodeValue, HasRow;
  }

  lemma {:induction false} Appended(d: Data, s: Schema, items: seq<(Bytes, Bytes)>, was: seq<(Bytes, Row)>, i: nat,
      pk: Bytes, full: Row)
    requires ValidSchema(s) && i < |items| && items[i].0 == RowAt(s.name, pk) && FullRow(d, s, pk, full)
             && Listing(d, s, was)
    requires forall j, k :: 0 <= j < k < |items| ==> Less(items[j].0, items[k].0)
    requires forall j :: 0 <= j < |was| ==> AmongFirst(s, items, i, was[j].0)
    requires forall p, f :: AmongFirst(s, items, i, p) && FullRow(d, s, p, f) ==> (p, f) in was
    ensures var rows := was + [(pk, full)];
            && Listing(d, s, rows)
            && (forall j :: 0 <= j < |rows| ==> AmongFirst(s, items, i + 1, rows[j].0))
            && (forall p, f :: AmongFirst(s, items, i + 1, p) && FullRow(d, s, p, f) ==> (p, f) in rows)
  {
    hide ValidSchema, FullRow, Less, RowAt;
    var rows := was + [(pk, full)];
    forall j | 0 <= j < |was| ensures Less(was[j].0, pk) {
      assert AmongFirst(s, items, i, was[j].0);
      var k :| 0 <= k < i && items[k].0 == RowAt(s.name, was[j].0);
      RowOrder(s.name, was[j].0, pk);
    }
    forall j | 0 <= j < |rows| ensures AmongFirst(s, items, i + 1, rows[j].0) {
      if j < |was| {
        assert rows[j] == was[j] && AmongFirst(s, items, i, was[j].0);
        var k :| 0 <= k < i && items[k].0 == RowAt(s.name, was[j].0);
      }
    }
    forall p, f | AmongFirst(s, items, i + 1, p) && FullRow(d, s, p, f) ensures (p, f) in rows {
      var k :| 0 <= k < i + 1 && items[k].0 == RowAt(s.name, p);
      if k == i {
        RowKeyOnce(s.name, s.name, p, pk);
        FullOnce(d, s, pk, f, full);
        assert rows[|was|] == (p, f);
      } else {
        assert AmongFirst(s, items, i, p);
      }
    }
  }

  lemma {:induction false} NothingYet(s: Schema, items: seq<(Bytes, Bytes)>)
    ensures forall pk :: !AmongFirst(s, items, 0, pk)
  {
  }

  lemma {:induction false} Skipped(s: Schema, items: seq<(Bytes, Bytes)>, i: nat)
    requires i < |items| && !(RowPrefix(s.name) <= items[i].0)
    ensures forall pk :: AmongFirst(s, items, i + 1, pk) <==> AmongFirst(s, items, i, pk)
  {
    hide Escape;
    forall pk ensures AmongFirst(s, items, i + 1, pk) <==> AmongFirst(s, items, i, pk) {
      RowStarts(s.name, pk);
    }
  }

  lemma {:induction false} RowOrder(table: Bytes, p: Bytes, q: Bytes)
    ensures Less(RowAt(table, p), RowAt(table, q)) <==> Less(p, q)
  {
    LessAfter(RowPrefix(table), p, q);
  }

  /** All rows of the table. */
  method Scan(d: Data, s: Schema) returns (rows: seq<(Bytes, Row)>)
    requires TableOk(d, s)
    ensures Listing(d, s, rows) && forall pk, full :: FullRow(d, s, pk, full) ==> (pk, full) in rows
  {
    hide TableOk, FullRow, Less;
    LowFirst(RowPrefix(s.name));
    var items := ScanPrefix(d, RowPrefix(s.name));
    rows := DecodeRows(d, s, items);
    forall pk, full | FullRow(d, s, pk, full) ensures (pk, full) in rows {
      FullPrimary(d, s, pk, full);
      RowStarts(s.name, pk);
      assert AmongFirst(s, items, |items|, pk);
    }
  }

  /** The rows with primary keys from `lo` to `hi`; none if a bound is no primary key. */
  method Range(d: Data, s: Schema, lo: Value, hi: Value) returns (r: Option<seq<(Bytes, Row)>>)
    requires TableOk(d, s)
    ensures r.Some? <==> KeyFor(s, lo).Some? && KeyFor(s, hi).Some?
    ensures r.Some? ==> Listing(d, s, r.value)
    ensures r.Some? ==> forall pk, full :: FullRow(d, s, pk, full) ==>
              var v := Lookup(full, FindPrimary(s.columns).name);
              ((pk, full) in r.value <==> !ValueLess(v, lo) && !ValueLess(hi, v))
  {
    hide TableOk, FullRow, EncodeValue, ValueLess, Less;
    var start, end := KeyFor(s, lo), KeyFor(s, hi);
    if start.None? || end.None? {
      return None;
    }
    var rows: seq<(Bytes, Row)> := [];
    if !Less(end.value, start.value) {
      var items := RangeOf(d, start.value, end.value);
      rows := DecodeRows(d, s, items);
    }
    TableIsValid(d, s);
    forall pk, full | FullRow(d, s, pk, full)
      ensures var v := Lookup(full, FindPrimary(s.columns).name);
              && RowAt(s.name, pk) in d
              && (!ValueLess(v, lo) && !ValueLess(hi, v) <==>
                  Leq(start.value, RowAt(s.name, pk)) && Leq(RowAt(s.name, pk), end.value)
                  && !Less(end.value, start.value)) {
      FullPrimary(d, s, pk, full);
      Bounded(s, lo, hi, Lookup(full, FindPrimary(s.columns).name), pk);
    }
    r := Some(rows);
  }

  lemma {:induction false} Bounded(s: Schema, lo: Value, hi: Value, v: Value, pk: Bytes)
    requires ValidSchema(s) && KeyFor(s, lo).Some? && KeyFor(s, hi).Some?
             && EncodeValue(FindPrimary(s.columns), v) == Some(pk)
    ensures !ValueLess(v, lo) && !ValueLess(hi, v) <==>
              Leq(KeyFor(s, lo).value, RowAt(s.name, pk)) && Leq(RowAt(s.name, pk), KeyFor(s, hi).value)
              && !Less(KeyFor(s, hi).value, KeyFor(s, lo).value)
  {
    hide EncodeValue, ValueLess, Less, RowAt, ValidSchema;
    PrimaryColumn(s);
    var c := FindPrimary(s.columns);
    var a, b := EncodeValue(c, lo).value, EncodeValue(c, hi).value;
    PrimaryOrder(c, v, lo);
    PrimaryOrder(c, hi, v);
    RowOrder(s.name, pk, a);
    RowOrder(s.name, b, pk);
    RowOrder(s.name, b, a);
    if !Less(pk, a) && !Less(b, pk) {
      Between3(a, pk, b);
    }
  }

  lemma {:induction false} Between3(a: Bytes, x: Bytes, b: Bytes)
    requires !Less(x, a) && !Less(b, x)
    ensures !Less(b, a)
  {
    StrictTotalOrder();
  }

  // ----- Choosing an access path

  predicate ValidPredicate(s: Schema, p: Predicate) {
    match FindColumn(s.columns, p.column)
    case None => false
    case Some(c) => LiteralValue(p.value, c.typ).Some?
  }

  ghost predicate ValidPredicates(s: Schema, ps: seq<Predicate>) {
    forall i :: 0 <= i < |ps| ==> ValidPredicate(s, ps[i])
  }

  /** A predicate on the primary column compares the key of the row. */
  lemma {:induction false} OnPrimary(s: Schema, p: Predicate, full: Row)
    requires ValidSchema(s) && p.column == FindPrimary(s.columns).name && ValidPredicate(s, p)
    ensures LiteralValue(p.value, FindPrimary(s.columns).typ).Some?
    ensures Holds(s, full, p) ==>
              Compare(Lookup(full, p.column), LiteralValue(p.value, FindPrimary(s.columns).typ).value, p.op)
  {
    PrimaryColumn(s);
  }

  lemma {:induction false} ValueOrderFacts(a: Value, b: Value)
    ensures ValueLess(a, b) ==> !ValueLess(b, a)
  {
    StrictTotalOrder();
  }

  /** The value that the predicate compares a primary key with. */
  function KeyLiteral(s: Schema, p: Predicate): Option<Value> {
    if p.column == FindPrimary(s.columns).name then LiteralValue(p.value, FindPrimary(s.columns).typ) else None
  }

  /** The predicate bounds the primary key from above, or else from below. */
  predicate Binds(s: Schema, p: Predicate, above: bool) {
    && KeyLiteral(s, p).Some?
    && if above then p.op == Less_ || p.op == LessEqual else p.op == Greater || p.op == GreaterEqual
  }

  /** `v` is the tighter bound of the two. */
  predicate Tighter(above: bool, v: Value, w: Value) {
    SameKind(v, w) && if above then ValueLess(v, w) else ValueLess(w, v)
  }

  ghost predicate BindsWith(s: Schema, ps: seq<Predicate>, n: nat, above: bool, v: Value) {
    exists i :: 0 <= i < n && i < |ps| && Binds(s, ps[i], above) && KeyLiteral(s, ps[i]) == Some(v)
  }

  /** The tightest bound among the first `n` predicates, if there is one. */
  ghost predicate BoundOf(s: Schema, ps: seq<Predicate>, n: nat, above: bool, b: Option<Value>) {
    match b
    case None => forall v :: !BindsWith(s, ps, n, above, v)
    case Some(v) => BindsWith(s, ps, n, above, v) && forall w :: BindsWith(s, ps, n, above, w) ==> !Tighter(above, w, v)
  }

  lemma {:induction false} LiteralsAlike(s: Schema, p: Predicate, q: Predicate)
    requires ValidSchema(s) && KeyLiteral(s, p).Some? && KeyLiteral(s, q).Some?
    ensures SameKind(KeyLiteral(s, p).value, KeyLiteral(s, q).value)
  {
    PrimaryColumn(s);
  }

  lemma {:induction false} BindsAlike(s: Schema, ps: seq<Predicate>, n: nat, above: bool, v: Value, w: Value)
    requires ValidSchema(s) && BindsWith(s, ps, n, above, v) && BindsWith(s, ps, n, above, w)
    ensures SameKind(v, w)
  {
    hide KeyLiteral, ValidSchema;
    var i :| 0 <= i < n && i < |ps| && Binds(s, ps[i], above) && KeyLiteral(s, ps[i]) == Some(v);
    var j :| 0 <= j < n && j < |ps| && Binds(s, ps[j], above) && KeyLiteral(s, ps[j]) == Some(w);
    LiteralsAlike(s, ps[i], ps[j]);
  }

  /** Tightness orders the values of one kind. */
  lemma {:induction false} TighterOrder(above: bool, u: Value, v: Value, w: Value)
    requires SameKind(u, v) && SameKind(v, w)
    ensures !Tighter(above, v, v)
    ensures Tighter(above, u, v) && !Tighter(above, w, v) ==> !Tighter(above, w, u)
    ensures !Tighter(above, u, v) && !Tighter(above, v, u) ==> u == v
  {
    StrictTotalOrder();
  }

  /** There is one tightest bound. */
  lemma {:induction false} BoundOnce(s: Schema, ps: seq<Predicate>, n: nat, above: bool, b: Option<Value>,
      c: Option<Value>)
    requires ValidSchema(s) && BoundOf(s, ps, n, above, b) && BoundOf(s, ps, n, above, c)
    ensures b == c
  {
    hide Tighter, BindsWith, ValidSchema;
    if b.Some? && c.Some? {
      BindsAlike(s, ps, n, above, b.value, c.value);
      TighterOrder(above, b.value, c.value, c.value);
    }
  }

  /** One more predicate. */
  lemma {:induction false} BoundStep(s: Schema, ps: seq<Predicate>, i: nat, above: bool, b: Option<Value>)
    requires ValidSchema(s) && i < |ps| && BoundOf(s, ps, i, above, b)
    ensures !Binds(s, ps[i], above) ==> BoundOf(s, ps, i + 1, above, b)
    ensures Binds(s, ps[i], above) ==>
              var v := KeyLiteral(s, ps[i]).value;
              BoundOf(s, ps, i + 1, above, if b.None? || Tighter(above, v, b.value) then Some(v) else b)
  {
    hide Tighter, KeyLiteral, ValidSchema;
    forall w
      ensures BindsWith(s, ps, i + 1, above, w) <==>
                BindsWith(s, ps, i, above, w) || (Binds(s, ps[i], above) && KeyLiteral(s, ps[i]) == Some(w))
    {
      BindsStep(s, ps, i, above, w);
    }
    if Binds(s, ps[i], above) {
      var v := KeyLiteral(s, ps[i]).value;
      LiteralsAlike(s, ps[i], ps[i]);
      TighterOrder(above, v, v, v);
      if b.Some? {
        BindsAlike(s, ps, i + 1, above, v, b.value);
        forall w | BindsWith(s, ps, i, above, w) ensures Tighter(above, v, b.value) ==> !Tighter(above, w, v) {
          BindsAlike(s, ps, i + 1, above, b.value, w);
          TighterOrder(above, v, b.value, w);
        }
      }
    }
  }

  lemma {:induction false} BindsStep(s: Schema, ps: seq<Predicate>, i: nat, above: bool, w: Value)
    requires i < |ps|
    ensures BindsWith(s, ps, i + 1, above, w) <==>
            BindsWith(s, ps, i, above, w) || (Binds(s, ps[i], above) && KeyLiteral(s, ps[i]) == Some(w))
  {
    hide KeyLiteral;
    if BindsWith(s, ps, i + 1, above, w) {
      var j :| 0 <= j < i + 1 && j < |ps| && Binds(s, ps[j], above) && KeyLiteral(s, ps[j]) == Some(w);
    }
    if BindsWith(s, ps, i, above, w) {
      var j :| 0 <= j < i && j < |ps| && Binds(s, ps[j], above) && KeyLiteral(s, ps[j]) == Some(w);
      assert 0 <= j < i + 1;
    }
  }

  /** Looks one row up by its primary key. */
  method Get(d: Data, s: Schema, v: Value) returns (r: Option<seq<(Bytes, Row)>>)
    requires TableOk(d, s)
    ensures r.Some? <==> KeyFor(s, v).Some?
    ensures r.Some? ==> Listing(d, s, r.value)
    ensures r.Some? ==> forall pk, full :: FullRow(d, s, pk, full) ==>
              ((pk, full) in r.value <==> Lookup(full, FindPrimary(s.columns).name) == v)
  {
    hide TableOk, FullRow, EncodeValue, Less, RowOf;
    TableIsValid(d, s);
    var c := FindPrimary(s.columns);
    var key := KeyFor(s, v);
    if key.None? {
      return None;
    }
    ghost var pk := EncodeValue(c, v).value;
    forall q, full | FullRow(d, s, q, full) && Lookup(full, c.name) == v ensures q == pk && RowAt(s.name, pk) in d {
      FullPrimary(d, s, q, full);
    }
    if key.value !in d {
      return Some([]);
    }
    var row := DecodeRow(s, d[key.value]);
    assert row.Some?;
    var full := row.value[c.name := v];
    MakesFull(d, s, pk, row.value, v);
    var id := EncodeValue(c, v).value;
    r := Some([(id, full)]);
    forall q, f | FullRow(d, s, q, f) && Lookup(f, c.name) == v ensures (q, f) in r.value {
      FullOnce(d, s, pk, f, full);
      assert r.value[0] == (q, f);
    }
  }

  /** A bound that every row satisfying the predicates keeps. */
  ghost predicate Bounds(s: Schema, ps: seq<Predicate>, lower: Option<Value>, upper: Option<Value>) {
    forall full :: Satisfies(s, full, ps) ==>
      var v := Lookup(full, FindPrimary(s.columns).name);
      && (lower.Some? ==> SameKind(v, lower.value) && !ValueLess(v, lower.value))
      && (upper.Some? ==> SameKind(v, upper.value) && !ValueLess(upper.value, v))
  }

  lemma {:induction false} NewBound(s: Schema, ps: seq<Predicate>, i: nat, lower: Option<Value>, upper: Option<Value>)
    requires ValidSchema(s) && ValidPredicates(s, ps) && i < |ps| && ps[i].column == FindPrimary(s.columns).name
             && Bounds(s, ps, lower, upper)
    ensures var v := LiteralValue(ps[i].value, FindPrimary(s.columns).typ);
            && v.Some?
            && (ps[i].op == Greater || ps[i].op == GreaterEqual ==> Bounds(s, ps, v, upper))
            && (ps[i].op == Less_ || ps[i].op == LessEqual ==> Bounds(s, ps, lower, v))
  {
    hide ValueLess, Holds, ValidSchema, ValidPredicate, LiteralValue;
    var c := FindPrimary(s.columns);
    forall full
      ensures LiteralValue(ps[i].value, c.typ).Some?
              && (Satisfies(s, full, ps) ==>
                    Compare(Lookup(full, c.name), LiteralValue(ps[i].value, c.typ).value, ps[i].op))
    {
      OnPrimary(s, ps[i], full);
    }
    var any: Row := map[];
    OnPrimary(s, ps[i], any);
    var v := LiteralValue(ps[i].value, c.typ).value;
    forall full: Row ensures ValueLess(v, Lookup(full, c.name)) ==> !ValueLess(Lookup(full, c.name), v) {
      ValueOrderFacts(v, Lookup(full, c.name));
    }
    forall full: Row ensures ValueLess(Lookup(full, c.name), v) ==> !ValueLess(v, Lookup(full, c.name)) {
      ValueOrderFacts(Lookup(full, c.name), v);
    }
  }

  /** The tightest bounds that the predicates put on the primary key. */
  method KeyBounds(s: Schema, ps: seq<Predicate>) returns (lower: Option<Value>, upper: Option<Value>)
    requires ValidSchema(s) && ValidPredicates(s, ps)
    ensures Bounds(s, ps, lower, upper)
    ensures BoundOf(s, ps, |ps|, false, lower) && BoundOf(s, ps, |ps|, true, upper)
  {
    hide ValidSchema, ValidPredicates, Bounds, LiteralValue, ValueLess, BoundOf;
    var primary := FindPrimary(s.columns);
    lower, upper := None, None;
    NoBounds(s, ps);
    var i := 0;
    while i < |ps|
      invariant 0 <= i <= |ps| && Bounds(s, ps, lower, upper)
      invariant BoundOf(s, ps, i, false, lower) && BoundOf(s, ps, i, true, upper)
    {
      var p := ps[i];
      BoundStep(s, ps, i, false, lower);
      BoundStep(s, ps, i, true, upper);
      if p.column == primary.name {
        NewBound(s, ps, i, lower, upper);
        var value := LiteralValue(p.value, primary.typ).value;
        assert KeyLiteral(s, ps[i]) == Some(value);
        if p.op == Greater || p.op == GreaterEqual {
          if lower.None? || Compare(value, lower.value, Greater) {
            lower := Some(value);
          }
        } else if p.op == Less_ || p.op == LessEqual {
          if upper.None? || Compare(value, upper.value, Less_) {
            upper := Some(value);
          }
        }
      }
      i := i + 1;
    }
  }

  lemma {:induction false} NoBounds(s: Schema, ps: seq<Predicate>)
    ensures Bounds(s, ps, None, None) && BoundOf(s, ps, 0, false, None) && BoundOf(s, ps, 0, true, None)
  {
  }

  predicate EqualsKey(s: Schema, p: Predicate) {
    p.column == FindPrimary(s.columns).name && p.op == Equal
  }

  /** The first predicate that asks for one primary key. */
  ghost predicate FirstEqual(s: Schema, ps: seq<Predicate>, i: nat) {
    i < |ps| && EqualsKey(s, ps[i]) && forall j :: 0 <= j < i ==> !EqualsKey(s, ps[j])
  }

  /** The value is no key of the table, or too long for one. */
  predicate NoKey(s: Schema, v: Option<Value>) {
    v.Some? && KeyFor(s, v.value).None?
  }

  /** The rows cannot be reached: the key asked for is none, or else one of two tightest bounds. */
  ghost predicate Unreachable(s: Schema, ps: seq<Predicate>) {
    if exists i: nat :: FirstEqual(s, ps, i)
    then exists i: nat :: FirstEqual(s, ps, i) && NoKey(s, KeyLiteral(s, ps[i]))
    else exists lower, upper :: UnreachableBetween(s, ps, lower, upper)
  }

  ghost predicate UnreachableBetween(s: Schema, ps: seq<Predicate>, lower: Value, upper: Value) {
    && BoundOf(s, ps, |ps|, false, Some(lower)) && BoundOf(s, ps, |ps|, true, Some(upper))
    && (KeyFor(s, lower).None? || KeyFor(s, upper).None?)
  }

  lemma {:induction false} EqualReach(s: Schema, ps: seq<Predicate>, i: nat)
    requires FirstEqual(s, ps, i)
    ensures Unreachable(s, ps) <==> NoKey(s, KeyLiteral(s, ps[i]))
  {
    hide EqualsKey, NoKey, KeyLiteral, UnreachableBetween;
    forall j: nat | FirstEqual(s, ps, j) ensures j == i {
    }
  }

  lemma {:induction false} BoundsReach(s: Schema, ps: seq<Predicate>, lower: Option<Value>, upper: Option<Value>)
    requires ValidSchema(s) && (forall i :: 0 <= i < |ps| ==> !EqualsKey(s, ps[i]))
    requires BoundOf(s, ps, |ps|, false, lower) && BoundOf(s, ps, |ps|, true, upper)
    ensures Unreachable(s, ps) <==>
            lower.Some? && upper.Some? && (KeyFor(s, lower.value).None? || KeyFor(s, upper.value).None?)
  {
    hide EqualsKey, BoundOf, KeyFor, ValidSchema;
    forall lo, hi | UnreachableBetween(s, ps, lo, hi) ensures lower == Some(lo) && upper == Some(hi) {
      BoundOnce(s, ps, |ps|, false, lower, Some(lo));
      BoundOnce(s, ps, |ps|, true, upper, Some(hi));
    }
    if lower.Some? && upper.Some? && (KeyFor(s, lower.value).None? || KeyFor(s, upper.value).None?) {
      assert UnreachableBetween(s, ps, lower.value, upper.value);
    }
  }

  /** Rows that include all those satisfying the predicates, reached by key, by range or by a scan. */
  method SelectRows(d: Data, s: Schema, ps: seq<Predicate>) returns (r: Option<seq<(Bytes, Row)>>)
    requires TableOk(d, s) && ValidPredicates(s, ps)
    ensures r.Some? ==> Covers(d, s, ps, r.value)
    ensures r.None? <==> Unreachable(s, ps)
  {
    hide TableOk, Listing, FullRow, ValidSchema, ValidPredicates, LiteralValue, KeyFor, ValueLess, Holds, Bounds;
    hide BoundOf, Unreachable;
    TableIsValid(d, s);
    var primary := FindPrimary(s.columns);
    var i := 0;
    while i < |ps|
      invariant 0 <= i <= |ps|
      invariant forall j :: 0 <= j < i ==> !EqualsKey(s, ps[j])
    {
      if ps[i].column == primary.name && ps[i].op == Equal {
        var any: Row := map[];
        PredicateIsValid(s, ps, i);
        OnPrimary(s, ps[i], any);
        var key := LiteralValue(ps[i].value, primary.typ).value;
        assert KeyLiteral(s, ps[i]) == Some(key);
        EqualReach(s, ps, i);
        r := Get(d, s, key);
        if r.Some? {
          forall pk, full | FullRow(d, s, pk, full) && Satisfies(s, full, ps) ensures (pk, full) in r.value {
            OnPrimary(s, ps[i], full);
          }
        }
        return;
      }
      i := i + 1;
    }
    var lower, upper := KeyBounds(s, ps);
    BoundsReach(s, ps, lower, upper);
    if lower.Some? && upper.Some? {
      r := Range(d, s, lower.value, upper.value);
      if r.Some? {
        InBounds(d, s, ps, lower.value, upper.value, r.value);
      }
      return;
    }
    var rows := Scan(d, s);
    r := Some(rows);
  }

  lemma {:induction false} PredicateIsValid(s: Schema, ps: seq<Predicate>, i: nat)
    requires ValidPredicates(s, ps) && i < |ps|
    ensures ValidPredicate(s, ps[i])
  {
  }

  lemma {:induction false} InBounds(d: Data, s: Schema, ps: seq<Predicate>, lo: Value, hi: Value,
      rows: seq<(Bytes, Row)>)
    requires Bounds(s, ps, Some(lo), Some(hi)) && Listing(d, s, rows)
    requires forall pk, full :: FullRow(d, s, pk, full) ==>
              var v := Lookup(full, FindPrimary(s.columns).name);
              !ValueLess(v, lo) && !ValueLess(hi, v) ==> (pk, full) in rows
    ensures Covers(d, s, ps, rows)
  {
    hide FullRow, ValueLess, Listing, Satisfies;
  }

  /** Runs a SELECT: the columns asked for, of exactly the rows that satisfy all predicates. */
  method ExecuteSelect(d: Data, s: Schema, all: bool, columns: seq<Bytes>, ps: seq<Predicate>)
    returns (r: Option<seq<Row>>, ghost rows: seq<(Bytes, Row)>)
    requires TableOk(d, s)
    ensures r.Some? ==> Selected(d, s, ps, rows) && |r.value| == |rows|
    ensures r.None? <==>
            || all == (columns != []) || (exists i :: 0 <= i < |columns| && FindColumn(s.columns, columns[i]).None?)
            || !ValidPredicates(s, ps) || Unreachable(s, ps)
    ensures r.Some? ==> forall i :: 0 <= i < |rows| ==>
              r.value[i] == if all then rows[i].1 else Projected(rows[i].1, columns)
    ensures r.Some? && !all ==> forall i :: 0 <= i < |rows| ==> Projects(r.value[i], rows[i].1, columns)
  {
    hide TableOk, FullRow, Holds, ValidPredicate, ValidSchema, Less, Satisfies, Unreachable, Projected, Projects;
    rows := [];
    if all == (columns != []) {
      return None, rows;
    }
    var i := 0;
    while i < |columns|
      invariant 0 <= i <= |columns| && forall j :: 0 <= j < i ==> FindColumn(s.columns, columns[j]).Some?
    {
      if FindColumn(s.columns, columns[i]).None? {
        return None, rows;
      }
      i := i + 1;
    }
    i := 0;
    while i < |ps|
      invariant 0 <= i <= |ps| && forall j :: 0 <= j < i ==> ValidPredicate(s, ps[j])
    {
      if !ValidPredicate(s, ps[i]) {
        return None, rows;
      }
      i := i + 1;
    }
    var found := SelectRows(d, s, ps);
    if found.None? {
      return None, rows;
    }
    var out: seq<Row> := [];
    i := 0;
    while i < |found.value|
      invariant 0 <= i <= |found.value| && |out| == |rows|
      invariant forall j :: 0 <= j < |rows| ==> out[j] == if all then rows[j].1 else Projected(rows[j].1, columns)
      invariant forall j :: 0 <= j < |rows| ==> rows[j] in found.value[..i] && Satisfies(s, rows[j].1, ps)
      invariant forall j, k :: 0 <= j < k < |rows| ==> Less(rows[j].0, rows[k].0)
      invariant forall j :: 0 <= j < i && Satisfies(s, found.value[j].1, ps) ==> found.value[j] in rows
    {
      var ok := Matches(s, found.value[i].1, ps);
      TakeStep(found.value, i);
      if ok {
        ghost var was := rows;
        forall j | 0 <= j < |was| ensures Less(was[j].0, found.value[i].0) {
          assert was[j] in found.value[..i];
          var k :| 0 <= k < i && found.value[..i][k] == was[j];
        }
        rows := rows + [found.value[i]];
        var row := found.value[i].1;
        out := out + [if all then row else Projected(row, columns)];
        assert rows[|was|] == found.value[i];
      }
      i := i + 1;
    }
    TakeAll(found.value);
    forall j | 0 <= j < |rows| ensures Projects(Projected(rows[j].1, columns), rows[j].1, columns) {
      ProjectedHas(rows[j].1, columns);
    }
    r := Some(out);
  }

  lemma {:induction false} ProjectedHas(row: Row, columns: seq<Bytes>)
    ensures Projects(Projected(row, columns), row, columns)
  {
  }

  function Projected(row: Row, columns: seq<Bytes>): Row {
    map c | c in columns :: Lookup(row, c)
  }

  /** Exactly the columns asked for, with the values they have; null where there is none. */
  ghost predicate Projects(out: Row, full: Row, columns: seq<Bytes>) {
    && (forall c :: c in out <==> c in columns)
    && forall c :: c in columns ==> (c in full ==> out[c] == full[c]) && (c !in full ==> out[c].Null?)
  }
}
