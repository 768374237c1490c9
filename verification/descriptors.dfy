/**
 Table descriptors and index definitions as they are stored.
 */
module Descriptors {
  import opened ByteStrings
  import opened Entries
  import opened Codecs
  import opened Schemas
  import opened Rows

  const MAX_DESCRIPTOR: nat := 3000

  /** The bytes of "GDTB" and "GDXI". */
  const TABLE_MAGIC: Bytes := [71, 68, 84, 66]
  const INDEX_MAGIC: Bytes := [71, 68, 88, 73]

  // ----- Table descriptors

  function ColumnBytes(i: nat, c: Column): Bytes {
    LE(i + 1, 2) + [c.typ, if c.nullable then 1 else 0] + LE(|c.name|, 2) + c.name
  }

  function ColumnsBytes(cs: seq<Column>): Bytes {
    if cs == [] then [] else ColumnsBytes(cs[..|cs| - 1]) + ColumnBytes(|cs| - 1, cs[|cs| - 1])
  }

  /** The number of the primary column, counted from one; the last one if there are several. */
  function PrimaryId(cs: seq<Column>): nat {
    if cs == [] then 0 else if cs[|cs| - 1].primaryKey then |cs| else PrimaryId(cs[..|cs| - 1])
  }

  function HeadBytes(name: Bytes, pk: nat, n: nat): Bytes {
    TABLE_MAGIC + LE(2, 2) + [0, 0] + LE(1, 4) + LE(|name|, 2) + name + LE(pk, 2) + LE(n, 2)
  }

  function DescriptorBytes(s: Schema): Bytes {
    HeadBytes(s.name, PrimaryId(s.columns), |s.columns|) + ColumnsBytes(s.columns)
  }

  method EncodeDescriptor(s: Schema) returns (b: Bytes)
    ensures b == DescriptorBytes(s)
  {
    hide LE, ColumnBytes;
    var pk := 0;
    var i := 0;
    while i < |s.columns|
      invariant 0 <= i <= |s.columns| && pk == PrimaryId(s.columns[..i])
    {
      TakeStep(s.columns, i);
      assert s.columns[..i + 1][..i] == s.columns[..i];
      if s.columns[i].primaryKey {
        pk := i + 1;
      }
      i := i + 1;
    }
    TakeAll(s.columns);
    b := HeadBytes(s.name, pk, |s.columns|);
    ghost var head := b;
    i := 0;
    assert head == head + ColumnsBytes([]);
    while i < |s.columns|
      invariant 0 <= i <= |s.columns| && b == head + ColumnsBytes(s.columns[..i])
    {
      TakeStep(s.columns, i);
      assert s.columns[..i + 1][..i] == s.columns[..i];
      b := b + ColumnBytes(i, s.columns[i]);
      i := i + 1;
    }
  }

  lemma {:induction false} PrimaryIdIs(cs: seq<Column>, k: nat)
    requires PrimaryAt(cs, k)
    ensures PrimaryId(cs) == k + 1
  {
    if !cs[|cs| - 1].primaryKey {
      var front := cs[..|cs| - 1];
      assert PrimaryAt(front, k);
      PrimaryIdIs(front, k);
      assert PrimaryId(cs) == PrimaryId(front);
    }
  }

  /** A stored descriptor of a valid schema. */
  ghost predicate DescriptorOf(s: Schema, data: Bytes) {
    ValidSchema(s) && |data| <= MAX_DESCRIPTOR && data == DescriptorBytes(s)
  }

  /** A description of column `i` lies at `p`, in a table whose primary column has number `pk`. */
  ghost predicate ColumnAt(data: Bytes, p: nat, i: nat, pk: nat, c: Column) {
    && (c.primaryKey <==> i + 1 == pk) && (c.primaryKey ==> !c.nullable) && |c.name| < 65536
    && var b := ColumnBytes(i, c);
       p + |b| <= |data| && data[p..p + |b|] == b
  }

  lemma {:induction false} ColumnLayout(i: nat, c: Column)
    requires i < 65535 && |c.name| < 65536
    ensures var b := ColumnBytes(i, c);
            && |b| == 6 + |c.name| && FromLE(b[0..2]) == i + 1 && b[2] == c.typ && b[3] == (if c.nullable then 1 else 0)
            && FromLE(b[4..6]) == |c.name| && b[6..] == c.name
  {
    var b := ColumnBytes(i, c);
    assert b[0..2] == LE(i + 1, 2) && b[4..6] == LE(|c.name|, 2);
    Widths();
    LERoundTrip(i + 1, 2);
    LERoundTrip(|c.name|, 2);
  }

  lemma {:induction false} ColumnFrom(b: Bytes, i: nat, c: Column)
    requires |b| == 6 + |c.name| && FromLE(b[0..2]) == i + 1 && b[2] == c.typ && b[3] == (if c.nullable then 1 else 0)
    requires FromLE(b[4..6]) == |c.name| && b[6..] == c.name
    ensures b == ColumnBytes(i, c)
  {
    LEExact(b[0..2]);
    LEExact(b[4..6]);
    assert b == b[0..2] + [b[2], b[3]] + b[4..6] + b[6..];
  }

  /** What the fields at `p` show when a column is described there. */
  ghost predicate HasColumn(data: Bytes, p: nat, i: nat, pk: nat, c: Column)
    requires p + 6 <= |data|
  {
    && FromLE(data[p..p + 2]) == i + 1 && data[p + 2] == c.typ && data[p + 3] == (if c.nullable then 1 else 0)
    && var n := FromLE(data[p + 4..p + 6]);
       p + 6 + n <= |data| && data[p + 6..p + 6 + n] == c.name
  }

  lemma {:induction false} ColumnShows(data: Bytes, p: nat, i: nat, pk: nat, c: Column)
    requires ColumnAt(data, p, i, pk, c) && i < 65535
    ensures p + 6 <= |data| && HasColumn(data, p, i, pk, c)
  {
    hide FromLE;
    var b := ColumnBytes(i, c);
    ColumnLayout(i, c);
    SubSlice(data, p, p + |b|, 0, 2);
    SubSlice(data, p, p + |b|, 4, 6);
    SubSlice(data, p, p + |b|, 6, |b|);
    assert data[p + 2] == b[2] && data[p + 3] == b[3];
    assert b[6..] == b[6..|b|];
  }

  lemma {:induction false} ColumnOnce(data: Bytes, p: nat, i: nat, pk: nat, c: Column, d: Column)
    requires ColumnAt(data, p, i, pk, c) && ColumnAt(data, p, i, pk, d) && i < 65535
    ensures c == d
  {
    hide FromLE, ColumnBytes;
    ColumnShows(data, p, i, pk, c);
    ColumnShows(data, p, i, pk, d);
  }

  /** Reads the description of column `i`; found exactly if one is there. */
  method ReadColumn(data: Bytes, p: nat, i: nat, pk: nat) returns (r: Option<Column>)
    requires p <= |data| && i < 65535
    ensures r.Some? <==> exists c :: ColumnAt(data, p, i, pk, c)
    ensures r.Some? ==> ColumnAt(data, p, i, pk, r.value)
  {
    hide FromLE, ColumnBytes;
    forall c | ColumnAt(data, p, i, pk, c) ensures p + 6 <= |data| && HasColumn(data, p, i, pk, c) {
      ColumnShows(data, p, i, pk, c);
    }
    if p + 6 > |data| {
      return None;
    }
    var id, typ, flags := FromLE(data[p..p + 2]), data[p + 2], data[p + 3];
    var l := FromLE(data[p + 4..p + 6]);
    if id != i + 1 || flags > 1 || (id == pk && flags != 0) || p + 6 + l > |data| {
      return None;
    }
    var c := Column(data[p + 6..p + 6 + l], typ, id == pk, flags == 1 && id != pk);
    LEExact(data[p + 4..p + 6]);
    Widths();
    ghost var b := data[p..p + 6 + l];
    SubSlice(data, p, p + 6 + l, 0, 2);
    SubSlice(data, p, p + 6 + l, 4, 6);
    SubSlice(data, p, p + 6 + l, 6, 6 + l);
    assert b[6..] == b[6..6 + l];
    ColumnFrom(b, i, c);
    r := Some(c);
    assert ColumnAt(data, p, i, pk, c);
  }

  /** The columns read so far. */
  ghost predicate ReadColumns(data: Bytes, p: nat, head: Bytes, pk: nat, cs: seq<Column>) {
    && p <= |data| && data[..p] == head + ColumnsBytes(cs)
    && forall j :: 0 <= j < |cs| ==> (cs[j].primaryKey <==> j + 1 == pk)
  }

  lemma {:induction false} ReadColumnsStep(data: Bytes, p: nat, head: Bytes, pk: nat, cs: seq<Column>, c: Column)
    requires ReadColumns(data, p, head, pk, cs) && ColumnAt(data, p, |cs|, pk, c)
    ensures ReadColumns(data, p + 6 + |c.name|, head, pk, cs + [c])
  {
    hide LE;
    var b := ColumnBytes(|cs|, c);
    assert |b| == 6 + |c.name|;
    assert (cs + [c])[..|cs|] == cs;
    assert data[..p + |b|] == data[..p] + data[p..p + |b|];
    assert head + ColumnsBytes(cs) + b == head + (ColumnsBytes(cs) + b);
  }

  lemma {:induction false} ColumnsPrefix(cs: seq<Column>, n: nat)
    requires n <= |cs|
    ensures ColumnsBytes(cs[..n]) <= ColumnsBytes(cs)
    decreases |cs|
  {
    hide ColumnBytes;
    if n == |cs| {
      TakeAll(cs);
    } else {
      var front := cs[..|cs| - 1];
      assert front[..n] == cs[..n];
      ColumnsPrefix(front, n);
    }
  }

  /** The next column of a stored descriptor is where reading goes on. */
  lemma {:induction false} WantedColumn(s: Schema, data: Bytes, p: nat, i: nat)
    requires DescriptorOf(s, data) && i < |s.columns|
    requires ReadColumns(data, p, HeadBytes(s.name, PrimaryId(s.columns), |s.columns|),
                         PrimaryId(s.columns), s.columns[..i])
    ensures ColumnAt(data, p, i, PrimaryId(s.columns), s.columns[i])
  {
    hide HeadBytes, ColumnBytes;
    var cs := s.columns;
    var k: nat :| PrimaryAt(cs, k);
    PrimaryIdIs(cs, k);
    var head := HeadBytes(s.name, PrimaryId(cs), |cs|);
    TakeStep(cs, i);
    assert cs[..i + 1][..i] == cs[..i];
    ColumnsPrefix(cs, i + 1);
    var b := ColumnBytes(i, cs[i]);
    var upto := head + (ColumnsBytes(cs[..i]) + b);
    assert upto <= data;
    assert upto == data[..p] + b;
    assert data[..p + |b|] == upto;
    assert data[p..p + |b|] == upto[p..];
    assert ValidColumn(cs[i]);
  }

  /** Reads the columns after the head. */
  method DecodeColumns(data: Bytes, start: nat, head: Bytes, pk: nat, n: nat, ghost want: Option<Schema>)
    returns (r: Option<seq<Column>>)
    requires start <= |data| && data[..start] == head && n < 65536
    requires want.Some? ==>
              DescriptorOf(want.value, data) && n == |want.value.columns| && pk == PrimaryId(want.value.columns)
                            && head == HeadBytes(want.value.name, pk, n)
    ensures want.Some? ==> r == Some(want.value.columns)
    ensures r.Some? ==> |r.value| == n && ReadColumns(data, |data|, head, pk, r.value)
  {
    hide HeadBytes, ColumnAt, ColumnsBytes, ReadColumns, DescriptorOf;
    var cs: seq<Column> := [];
    var p: nat := start;
    NoColumns(data, start, head, pk);
    var i := 0;
    while i < n
      invariant 0 <= i <= n && |cs| == i && p <= |data|
      invariant ReadColumns(data, p, head, pk, cs)
      invariant want.Some? ==> cs == want.value.columns[..i]
    {
      if want.Some? {
        WantedColumn(want.value, data, p, i);
      }
      var c := ReadColumn(data, p, i, pk);
      if c.None? {
        return None;
      }
      if want.Some? {
        ColumnOnce(data, p, i, pk, c.value, want.value.columns[i]);
        TakeStep(want.value.columns, i);
      }
      ReadColumnsStep(data, p, head, pk, cs, c.value);
      cs := cs + [c.value];
      p := p + 6 + |c.value.name|;
      ReadWithin(data, p, head, pk, cs);
      i := i + 1;
    }
    if want.Some? {
      TakeAll(want.value.columns);
      ReadEnd(data, p, want.value);
    }
    if p != |data| {
      return None;
    }
    r := Some(cs);
  }

  lemma {:induction false} NoColumns(data: Bytes, p: nat, head: Bytes, pk: nat)
    requires p <= |data| && data[..p] == head
    ensures ReadColumns(data, p, head, pk, [])
  {
  }

  lemma {:induction false} ReadWithin(data: Bytes, p: nat, head: Bytes, pk: nat, cs: seq<Column>)
    requires ReadColumns(data, p, head, pk, cs)
    ensures p <= |data|
  {
  }

  lemma {:induction false} ReadEnd(data: Bytes, p: nat, s: Schema)
    requires DescriptorOf(s, data)
             && ReadColumns(data, p, HeadBytes(s.name, PrimaryId(s.columns), |s.columns|),
                            PrimaryId(s.columns), s.columns)
    ensures p == |data|
  {
    assert data[..p] == data;
  }

  /** Reads a descriptor, whatever the bytes; it succeeds exactly on the descriptors of valid schemas. */
  method DecodeDescriptor(data: Bytes) returns (r: Option<Schema>)
    ensures r.Some? <==> exists s :: DescriptorOf(s, data)
    ensures r.Some? ==> DescriptorOf(r.value, data)
  {
    hide DescriptorOf, ValidSchema, FromLE, HeadBytes, ReadColumns;
    ghost var want: Option<Schema> := None;
    if exists s :: DescriptorOf(s, data) {
      ghost var s :| DescriptorOf(s, data);
      want := Some(s);
      DescriptorShows(s, data);
    }
    if |data| < 18 || data[..4] != TABLE_MAGIC || FromLE(data[4..6]) != 2 || |data| > MAX_DESCRIPTOR
       || data[6] != 0 || data[7] != 0 || FromLE(data[8..12]) != 1 {
      return None;
    }
    var nl := FromLE(data[12..14]);
    if 14 + nl + 4 > |data| {
      return None;
    }
    var name := data[14..14 + nl];
    var pk := FromLE(data[14 + nl..16 + nl]);
    var n := FromLE(data[16 + nl..18 + nl]);
    HeadFrom(data, nl);
    var columns := DecodeColumns(data, 18 + nl, HeadBytes(name, pk, n), pk, n, want);
    if columns.None? {
      return None;
    }
    var s := Schema(name, columns.value);
    var ok := ValidateSchema(s);
    if want.Some? {
      DescriptorValid(want.value, data);
      assert s == want.value;
    }
    if !ok {
      return None;
    }
    DescriptorFrom(s, data, pk);
    r := Some(s);
  }

  lemma {:induction false} DescriptorValid(s: Schema, data: Bytes)
    requires DescriptorOf(s, data)
    ensures ValidSchema(s)
  {
  }

  lemma {:induction false} DescriptorFrom(s: Schema, data: Bytes, pk: nat)
    requires ValidSchema(s) && |data| <= MAX_DESCRIPTOR
             && ReadColumns(data, |data|, HeadBytes(s.name, pk, |s.columns|), pk, s.columns)
    ensures DescriptorOf(s, data)
  {
    hide HeadBytes;
    var k: nat :| PrimaryAt(s.columns, k);
    PrimaryIdIs(s.columns, k);
    assert s.columns[k].primaryKey;
    TakeAll(data);
  }

  /** The head of a descriptor says what it should. */
  lemma {:induction false} DescriptorShows(s: Schema, data: Bytes)
    requires DescriptorOf(s, data)
    ensures var nl := |s.name|;
            && 18 + nl <= |data| <= MAX_DESCRIPTOR && data[..4] == TABLE_MAGIC && FromLE(data[4..6]) == 2
            && data[6] == 0 && data[7] == 0
            && FromLE(data[8..12]) == 1 && FromLE(data[12..14]) == nl && data[14..14 + nl] == s.name
            && FromLE(data[14 + nl..16 + nl]) == PrimaryId(s.columns) && FromLE(data[16 + nl..18 + nl]) == |s.columns|
  {
    hide LE, FromLE, ColumnsBytes;
    var nl, pk, n := |s.name|, PrimaryId(s.columns), |s.columns|;
    var k: nat :| PrimaryAt(s.columns, k);
    PrimaryIdIs(s.columns, k);
    assert data[..4] == TABLE_MAGIC && data[4..6] == LE(2, 2) && data[8..12] == LE(1, 4) && data[12..14] == LE(nl, 2);
    assert data[14..14 + nl] == s.name && data[14 + nl..16 + nl] == LE(pk, 2) && data[16 + nl..18 + nl] == LE(n, 2);
    Widths();
    LERoundTrip(2, 2);
    LERoundTrip(1, 4);
    LERoundTrip(nl, 2);
    LERoundTrip(pk, 2);
    LERoundTrip(n, 2);
  }

  lemma {:induction false} HeadFrom(data: Bytes, nl: nat)
    requires 18 + nl <= |data| && data[..4] == TABLE_MAGIC && FromLE(data[4..6]) == 2 && data[6] == 0 && data[7] == 0
    requires FromLE(data[8..12]) == 1 && FromLE(data[12..14]) == nl
    ensures var name, pk, n := data[14..14 + nl], FromLE(data[14 + nl..16 + nl]), FromLE(data[16 + nl..18 + nl]);
            data[..18 + nl] == HeadBytes(name, pk, n) && n < 65536
  {
    hide LE, FromLE;
    LEExact(data[4..6]);
    LEExact(data[8..12]);
    LEExact(data[12..14]);
    LEExact(data[14 + nl..16 + nl]);
    LEExact(data[16 + nl..18 + nl]);
    Widths();
    assert data[..18 + nl] == data[..4] + data[4..6] + [data[6], data[7]] + data[8..12] + data[12..14]
                              + data[14..14 + nl] + data[14 + nl..16 + nl] + data[16 + nl..18 + nl];
  }

  /** A descriptor describes one schema only. */
  lemma {:induction false} DescriptorOnce(s: Schema, t: Schema, data: Bytes)
    requires DescriptorOf(s, data) && DescriptorOf(t, data)
    ensures s == t
  {
    hide FromLE, HeadBytes, ColumnsBytes;
    DescriptorShows(s, data);
    DescriptorShows(t, data);
    ColumnsAgree(s, t, data, |s.columns|);
    TakeAll(s.columns);
    TakeAll(t.columns);
  }

  lemma {:induction false} ColumnsAgree(s: Schema, t: Schema, data: Bytes, n: nat)
    requires DescriptorOf(s, data) && DescriptorOf(t, data) && s.name == t.name && |s.columns| == |t.columns|
             && PrimaryId(s.columns) == PrimaryId(t.columns)
    requires n <= |s.columns|
    ensures s.columns[..n] == t.columns[..n]
    decreases n
  {
    hide HeadBytes, ColumnAt, ColumnsBytes, ReadColumns, DescriptorOf, PrimaryId;
    if n > 0 {
      var i := n - 1;
      ColumnsAgree(s, t, data, i);
      var p := PrefixRead(s, data, i);
      WantedColumn(s, data, p, i);
      WantedColumn(t, data, p, i);
      DescriptorSize(s, data);
      ColumnOnce(data, p, i, PrimaryId(s.columns), s.columns[i], t.columns[i]);
      TakeStep(s.columns, i);
      TakeStep(t.columns, i);
    }
  }

  lemma {:induction false} DescriptorSize(s: Schema, data: Bytes)
    requires DescriptorOf(s, data)
    ensures |s.columns| <= 65535
  {
  }

  /** Where the first `i` columns of a stored descriptor end. */
  lemma {:induction false} PrefixRead(s: Schema, data: Bytes, i: nat) returns (p: nat)
    requires DescriptorOf(s, data) && i <= |s.columns|
    ensures ReadColumns(data, p, HeadBytes(s.name, PrimaryId(s.columns), |s.columns|),
                        PrimaryId(s.columns), s.columns[..i])
  {
    hide HeadBytes, ColumnsBytes;
    var cs := s.columns;
    var head := HeadBytes(s.name, PrimaryId(cs), |cs|);
    var k: nat :| PrimaryAt(cs, k);
    PrimaryIdIs(cs, k);
    ColumnsPrefix(cs, i);
    p := |head| + |ColumnsBytes(cs[..i])|;
    assert head + ColumnsBytes(cs[..i]) <= data;
  }

  // ----- Index definitions

  datatype Index = Index(name: Bytes, column: Bytes, unique: bool)

  function IndexBytes(x: Index): Bytes {
    INDEX_MAGIC + LE(2, 2) + [if x.unique then 1 else 0, 0] + LE(|x.column|, 2) + x.column
  }

  predicate StorableIndex(x: Index) {
    0 < |x.name| <= 128 && 0 < |x.column| <= 128
  }

  /** Reads an index definition, whatever the bytes; it succeeds exactly on the definitions of indexes of that name. */
  method DecodeIndexMetadata(name: Bytes, data: Bytes) returns (r: Option<Index>)
    ensures r.Some? <==> exists x :: StorableIndex(x) && x.name == name && data == IndexBytes(x)
    ensures r.Some? ==> StorableIndex(r.value) && r.value.name == name && data == IndexBytes(r.value)
  {
    hide FromLE, IndexBytes;
    forall x | StorableIndex(x) && data == IndexBytes(x) ensures IndexShown(x, data) {
      IndexShows(x);
    }
    if |data| < 10 || data[..4] != INDEX_MAGIC || FromLE(data[4..6]) != 2 || data[7] != 0
       || |name| == 0 || |name| > 128
    {
      return None;
    }
    var l := FromLE(data[8..10]);
    if 10 + l != |data| || data[6] > 1 || l == 0 || l > 128 {
      return None;
    }
    r := Some(Index(name, data[10..], data[6] == 1));
    IndexFrom(r.value, data);
  }

  ghost predicate IndexShown(x: Index, data: Bytes) {
    && |data| == 10 + |x.column| && data[..4] == INDEX_MAGIC && FromLE(data[4..6]) == 2
    && data[6] == (if x.unique then 1 else 0)
    && data[7] == 0 && FromLE(data[8..10]) == |x.column| && data[10..] == x.column
  }

  lemma {:induction false} IndexShows(x: Index)
    requires StorableIndex(x)
    ensures IndexShown(x, IndexBytes(x))
  {
    hide LE, FromLE;
    var data := IndexBytes(x);
    assert data[4..6] == LE(2, 2) && data[8..10] == LE(|x.column|, 2);
    Widths();
    LERoundTrip(2, 2);
    LERoundTrip(|x.column|, 2);
  }

  lemma {:induction false} IndexFrom(x: Index, data: Bytes)
    requires IndexShown(x, data)
    ensures data == IndexBytes(x)
  {
    hide LE, FromLE;
    LEExact(data[4..6]);
    LEExact(data[8..10]);
    assert data == data[..4] + data[4..6] + [data[6], data[7]] + data[8..10] + data[10..];
  }

  /** A definition read back under its name is the one that was stored. */
  lemma {:induction false} IndexOnce(x: Index, y: Index)
    requires StorableIndex(x) && StorableIndex(y) && x.name == y.name && IndexBytes(x) == IndexBytes(y)
    ensures x == y
  {
    hide IndexBytes, FromLE;
    IndexShows(x);
    IndexShows(y);
  }
}
