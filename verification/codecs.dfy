/**
 Self-delimiting, order-preserving encodings of integers and byte strings.
 */
module Codecs {
  import opened ByteStrings
  import opened Entries

  function Pow256(k: nat): nat {
    if k == 0 then 1 else 256 * Pow256(k - 1)
  }

  // ----- Fixed-width integers

  function LE(n: nat, k: nat): (b: Bytes)
    ensures |b| == k
  {
    if k == 0 then [] else [n % 256] + LE(n / 256, k - 1)
  }

  function FromLE(b: Bytes): nat {
    if b == [] then 0 else b[0] + 256 * FromLE(b[1..])
  }

  function BE(n: nat, k: nat): (b: Bytes)
    ensures |b| == k
  {
    if k == 0 then [] else BE(n / 256, k - 1) + [n % 256]
  }

  function FromBE(b: Bytes): nat {
    if b == [] then 0 else 256 * FromBE(b[..|b| - 1]) + b[|b| - 1]
  }

  lemma {:induction false} LERoundTrip(n: nat, k: nat)
    requires n < Pow256(k)
    ensures FromLE(LE(n, k)) == n
  {
    if k > 0 {
      LERoundTrip(n / 256, k - 1);
      assert LE(n, k)[1..] == LE(n / 256, k - 1);
    }
  }

  /** The byte at position `i` is the digit of weight 256^i. */
  lemma {:induction false} LEDigit(n: nat, k: nat, i: nat)
    requires i < k
    ensures Pow256(i) > 0 && LE(n, k)[i] == n / Pow256(i) % 256
    decreases i
  {
    PowPositive(i);
    if i > 0 {
      LEDigit(n / 256, k - 1, i - 1);
      DivTwice(n, Pow256(i - 1));
    }
  }

  lemma {:induction false} PowPositive(k: nat)
    ensures Pow256(k) > 0
  {
    if k > 0 {
      PowPositive(k - 1);
    }
  }

  lemma {:induction false} DivTwice(n: nat, d: nat)
    requires d > 0
    ensures n / 256 / d == n / (256 * d)
  {
    var q, r := n / 256, n % 256;
    var a, b := q / d, q % d;
    assert n == 256 * q + r && q == d * a + b;
    assert n == (256 * d) * a + (256 * b + r);
    assert 0 <= 256 * b + r < 256 * d;
    DivIs(n, 256 * d, a, 256 * b + r);
  }

  lemma {:induction false} DivIs(n: nat, d: nat, q: nat, r: nat)
    requires d > 0 && n == d * q + r && r < d
    ensures n / d == q
  {
    var p := n / d;
    assert p < q ==> d * (p + 1) <= d * q;
    assert p > q ==> d * p >= d * (q + 1);
  }

  /** The two byte orders are mirror images. */
  lemma {:induction false} BEMirrors(n: nat, k: nat, i: nat)
    requires i < k
    ensures BE(n, k)[i] == LE(n, k)[k - 1 - i]
    decreases k
  {
    if i < k - 1 {
      BEMirrors(n / 256, k - 1, i);
    }
  }

  lemma {:induction false} LEExact(b: Bytes)
    ensures LE(FromLE(b), |b|) == b && FromLE(b) < Pow256(|b|)
  {
    if b != [] {
      LEExact(b[1..]);
    }
  }

  lemma {:induction false} BERoundTrip(n: nat, k: nat)
    requires n < Pow256(k)
    ensures FromBE(BE(n, k)) == n
  {
    if k > 0 {
      BERoundTrip(n / 256, k - 1);
      assert BE(n, k)[..k - 1] == BE(n / 256, k - 1);
    }
  }

  lemma {:induction false} BEExact(b: Bytes)
    ensures BE(FromBE(b), |b|) == b && FromBE(b) < Pow256(|b|)
  {
    if b != [] {
      BEExact(b[..|b| - 1]);
    }
  }

  // ----- Comparing strings by their first difference

  /** `a` and `b` agree up to `i`, and `a` is smaller there. */
  ghost predicate DiffersAt(a: Bytes, b: Bytes, i: nat) {
    i <= |a| && i < |b| && a[..i] == b[..i] && (i == |a| || a[i] < b[i])
  }

  lemma {:induction false} LessFromDiffers(a: Bytes, b: Bytes, i: nat, j: nat)
    requires j <= i && DiffersAt(a, b, i)
    ensures LessFrom(a, b, j)
    decreases i - j
  {
    if j < i {
      assert a[..i][j] == b[..i][j];
      LessFromDiffers(a, b, i, j + 1);
    }
  }

  lemma {:induction false} DiffersFromLess(a: Bytes, b: Bytes, j: nat) returns (i: nat)
    requires j <= |a| && j <= |b| && a[..j] == b[..j] && LessFrom(a, b, j)
    ensures DiffersAt(a, b, i)
    decreases |a| - j
  {
    if j < |a| && a[j] == b[j] {
      assert a[..j + 1] == a[..j] + [a[j]] && b[..j + 1] == b[..j] + [b[j]];
      i := DiffersFromLess(a, b, j + 1);
    } else {
      i := j;
    }
  }

  lemma {:induction false} LessMeans(a: Bytes, b: Bytes)
    ensures Less(a, b) <==> exists i: nat :: DiffersAt(a, b, i)
  {
    if Less(a, b) {
      var i := DiffersFromLess(a, b, 0);
    }
    if i: nat :| DiffersAt(a, b, i) {
      LessFromDiffers(a, b, i, 0);
    }
  }

  /** A common prefix does not matter to the order. */
  lemma {:induction false} LessAfter(p: Bytes, a: Bytes, b: Bytes)
    ensures Less(p + a, p + b) <==> Less(a, b)
  {
    LessMeans(a, b);
    LessMeans(p + a, p + b);
    if i: nat :| DiffersAt(a, b, i) {
      assert (p + a)[..|p| + i] == p + a[..i] && (p + b)[..|p| + i] == p + b[..i];
      assert DiffersAt(p + a, p + b, |p| + i);
    }
    if i: nat :| DiffersAt(p + a, p + b, i) {
      if i < |p| {
        assert false;
      }
      assert (p + a)[..i] == p + a[..i - |p|] && (p + b)[..i] == p + b[..i - |p|];
      assert DiffersAt(a, b, i - |p|) by {
        assert a[..i - |p|] == (p + a[..i - |p|])[|p|..] && b[..i - |p|] == (p + b[..i - |p|])[|p|..];
      }
    }
  }

  /** Strings that differ before either ends keep their order whatever follows. */
  lemma {:induction false} LessBefore(a: Bytes, b: Bytes, x: Bytes, y: Bytes)
    requires Less(a, b) && !(a <= b)
    ensures Less(a + x, b + y)
  {
    LessMeans(a, b);
    var i: nat :| DiffersAt(a, b, i);
    TakeAll(a);
    assert (a + x)[..i] == a[..i] && (b + y)[..i] == b[..i];
    assert DiffersAt(a + x, b + y, i);
    LessMeans(a + x, b + y);
  }

  /** Big-endian numbers of one width are ordered as numbers. */
  lemma {:induction false} BEOrder(n: nat, m: nat, k: nat)
    requires n < m < Pow256(k)
    ensures Less(BE(n, k), BE(m, k))
  {
    if k == 0 {
      assert false;
    }
    var a, b := BE(n / 256, k - 1), BE(m / 256, k - 1);
    if n / 256 < m / 256 {
      BEOrder(n / 256, m / 256, k - 1);
      if a <= b {
        assert a == b;
        BERoundTrip(n / 256, k - 1);
        BERoundTrip(m / 256, k - 1);
        assert false;
      }
      LessBefore(a, b, [n % 256], [m % 256]);
    } else {
      assert n / 256 == m / 256;
      assert DiffersAt([n % 256], [m % 256], 0);
      LessMeans([n % 256], [m % 256]);
      LessAfter(a, [n % 256], [m % 256]);
    }
  }

  // ----- Escaped byte strings

  /** Zero bytes are escaped, and two zero bytes end the string. */
  function Escape(v: Bytes): Bytes {
    if v == [] then [0, 0]
    else if v[0] == 0 then [0, 255] + Escape(v[1..])
    else [v[0]] + Escape(v[1..])
  }

  lemma {:induction false} EscapeLength(v: Bytes)
    ensures 2 <= |Escape(v)| <= 2 * |v| + 2
  {
    if v != [] {
      EscapeLength(v[1..]);
    }
  }

  /** The escaped bytes without the end mark. */
  function Body(v: Bytes): Bytes {
    if v == [] then []
    else if v[0] == 0 then [0, 255] + Body(v[1..])
    else [v[0]] + Body(v[1..])
  }

  lemma {:induction false} EscapeIsBody(v: Bytes)
    ensures Escape(v) == Body(v) + [0, 0]
  {
    if v != [] {
      EscapeIsBody(v[1..]);
    }
  }

  lemma {:induction false} BodyAppend(v: Bytes, b: Byte)
    ensures Body(v + [b]) == Body(v) + (if b == 0 then [0, 255] else [b])
  {
    if v == [] {
      assert v + [b] == [b];
      assert Body([b][1..]) == [];
    } else {
      assert (v + [b])[1..] == v[1..] + [b];
      BodyAppend(v[1..], b);
    }
  }

  method EscapeBytes(v: Bytes) returns (out: Bytes)
    ensures out == Escape(v)
  {
    out := [];
    var i := 0;
    while i < |v|
      invariant 0 <= i <= |v|
      invariant out == Body(v[..i])
    {
      TakeStep(v, i);
      BodyAppend(v[..i], v[i]);
      out := if v[i] == 0 then out + [0, 255] else out + [v[i]];
      i := i + 1;
    }
    TakeAll(v);
    EscapeIsBody(v);
    out := out + [0, 0];
  }

  /** An escaped string is never the start of another one, whatever follows either. */
  lemma {:induction false} EscapePrefixFree(v: Bytes, w: Bytes, x: Bytes, y: Bytes)
    requires Escape(v) + x == Escape(w) + y
    ensures v == w && x == y
  {
    var l, r := Escape(v) + x, Escape(w) + y;
    assert l[0] == r[0] && l[1] == r[1];
    if v == [] {
      assert l[0] == 0 && l[1] == 0;
      assert w == [];
      assert x == l[2..] && y == r[2..];
    } else if v[0] == 0 {
      assert l[0] == 0 && l[1] == 255;
      assert w != [] && w[0] == 0;
      assert l[2..] == Escape(v[1..]) + x && r[2..] == Escape(w[1..]) + y;
      EscapePrefixFree(v[1..], w[1..], x, y);
    } else {
      assert l[0] == v[0];
      assert w != [] && w[0] == v[0];
      assert l[1..] == Escape(v[1..]) + x && r[1..] == Escape(w[1..]) + y;
      EscapePrefixFree(v[1..], w[1..], x, y);
    }
  }

  /** Escaping keeps the order, whatever follows. */
  lemma {:induction false} EscapeOrder(v: Bytes, w: Bytes, x: Bytes, y: Bytes)
    requires Less(v, w)
    ensures Less(Escape(v) + x, Escape(w) + y)
  {
    LessMeans(v, w);
    var i: nat :| DiffersAt(v, w, i);
    var a := v[..i];
    assert v == a + v[i..] && w == a + w[i..];
    EscapeSplit(a, v[i..]);
    EscapeSplit(a, w[i..]);
    var c, d := Escape(v[i..]) + x, Escape(w[i..]) + y;
    assert Escape(v) + x == Body(a) + c && Escape(w) + y == Body(a) + d;
    TailOrder(v[i..], w[i..], x, y);
    LessAfter(Body(a), c, d);
  }

  lemma {:induction false} EscapeSplit(a: Bytes, b: Bytes)
    ensures Escape(a + b) == Body(a) + Escape(b)
  {
    if a == [] {
      assert a + b == b;
    } else {
      assert (a + b)[1..] == a[1..] + b;
      EscapeSplit(a[1..], b);
    }
  }

  lemma {:induction false} TailOrder(v: Bytes, w: Bytes, x: Bytes, y: Bytes)
    requires w != [] && (v == [] || v[0] < w[0])
    ensures Less(Escape(v) + x, Escape(w) + y)
  {
    var c, d := Escape(v) + x, Escape(w) + y;
    if v == [] && w[0] == 0 {
      assert c[0] == d[0] == 0 && c[1] == 0 && d[1] == 255;
      assert c[..1] == [0] && d[..1] == [0];
      assert DiffersAt(c, d, 1);
    } else {
      assert c[..0] == d[..0];
      assert DiffersAt(c, d, 0);
    }
    LessMeans(c, d);
  }

  /** Reads back an escaped string; it succeeds exactly on the encodings, and returns what was encoded. */
  method DecodeEscapedComponent(data: Bytes) returns (r: Option<Bytes>)
    ensures r.Some? <==> exists v :: data == Escape(v)
    ensures r.Some? ==> data == Escape(r.value)
  {
    var n := |data| - 2;
    if |data| < 2 || data[n] != 0 || data[n + 1] != 0 {
      NotEscaped(data);
      return None;
    }
    var decoded: Bytes := [];
    var i := 0;
    assert data[..0] == [];
    while i < n
      invariant 0 <= i <= n
      invariant data[..i] == Body(decoded)
    {
      if data[i] != 0 {
        BodyAppend(decoded, data[i]);
        TakeStep(data, i);
        decoded := decoded + [data[i]];
        i := i + 1;
        continue;
      }
      if i + 1 >= n || data[i + 1] != 255 {
        BadEscape(data, decoded, i);
        return None;
      }
      BodyAppend(decoded, 0);
      assert data[..i + 2] == data[..i] + [0, 255];
      decoded := decoded + [0];
      i := i + 2;
    }
    EscapeIsBody(decoded);
    assert data == data[..n] + [0, 0];
    r := Some(decoded);
  }

  lemma {:induction false} NotEscaped(data: Bytes)
    requires |data| < 2 || data[|data| - 2] != 0 || data[|data| - 1] != 0
    ensures forall v :: data != Escape(v)
  {
    forall v ensures data != Escape(v) {
      EscapeIsBody(v);
    }
  }

  lemma {:induction false} BadEscape(data: Bytes, decoded: Bytes, i: nat)
    requires i < |data| - 2 && data[i] == 0 && (i + 1 >= |data| - 2 || data[i + 1] != 255) && data[..i] == Body(decoded)
    ensures forall v :: data != Escape(v)
  {
    forall v ensures data != Escape(v) {
      if data == Escape(v) {
        BadTail(v, decoded, i);
      }
    }
  }

  /** In an escaped string, what follows whole characters is an escaped string again. */
  lemma {:induction false} BadTail(v: Bytes, decoded: Bytes, i: nat)
    requires i < |Escape(v)| && Escape(v)[..i] == Body(decoded)
    ensures var data := Escape(v);
            data[i] == 0 && i < |data| - 2 ==> i + 1 < |data| - 2 && data[i + 1] == 255
    decreases decoded
  {
    EscapeIsBody(v);
    if decoded == [] {
      assert i == 0;
      if v != [] && v[0] == 0 {
        EscapeIsBody(v[1..]);
      }
    } else if v != [] {
      var k := if decoded[0] == 0 then 2 else 1;
      assert Body(decoded)[0] == decoded[0];
      assert Escape(v)[..i][0] == decoded[0];
      assert v[0] == decoded[0];
      EscapeIsBody(v[1..]);
      assert Escape(v)[k..] == Escape(v[1..]);
      assert Escape(v[1..])[..i - k] == Escape(v)[..i][k..] == Body(decoded)[k..] == Body(decoded[1..]);
      BadTail(v[1..], decoded[1..], i - k);
    }
  }
}
