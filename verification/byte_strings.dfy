/**
 Byte strings and the order in which the engine keeps them: the lexicographic order
 of `bytes.Compare`, which is also Go's order on strings.
 */
module ByteStrings {

  type Byte = b: int | 0 <= b < 256

  type Bytes = seq<Byte>

  /** `bytes.Compare(a, b) < 0`. */
  predicate Less(a: Bytes, b: Bytes) {
    LessFrom(a, b, 0)
  }

  predicate Leq(a: Bytes, b: Bytes) {
    !Less(b, a)
  }

  /** The comparison of the two strings from position `i` on. */
  predicate LessFrom(a: Bytes, b: Bytes, i: nat)
    requires i <= |a| && i <= |b|
    decreases |a| - i
  {
    if i == |b| then false
    else if i == |a| then true
    else if a[i] != b[i] then a[i] < b[i]
    else LessFrom(a, b, i + 1)
  }

  lemma {:induction false} LessFromIrreflexive(a: Bytes, i: nat)
    requires i <= |a|
    ensures !LessFrom(a, a, i)
    decreases |a| - i
  {
    if i < |a| {
      LessFromIrreflexive(a, i + 1);
    }
  }

  lemma {:induction false} LessFromTransitive(a: Bytes, b: Bytes, c: Bytes, i: nat)
    requires i <= |a| && i <= |b| && i <= |c|
    requires LessFrom(a, b, i) && LessFrom(b, c, i)
    ensures LessFrom(a, c, i)
    decreases |a| - i
  {
    if i < |a| && i < |b| && i < |c| && a[i] == b[i] == c[i] {
      LessFromTransitive(a, b, c, i + 1);
    }
  }

  lemma {:induction false} LessFromTotal(a: Bytes, b: Bytes, i: nat)
    requires i <= |a| && i <= |b|
    requires a[..i] == b[..i]
    ensures LessFrom(a, b, i) || LessFrom(b, a, i) || a == b
    decreases |a| - i
  {
    if i == |a| && i == |b| {
      assert a == a[..i] && b == b[..i];
    } else if i < |a| && i < |b| && a[i] == b[i] {
      assert a[..i + 1] == a[..i] + [a[i]];
      assert b[..i + 1] == b[..i] + [b[i]];
      LessFromTotal(a, b, i + 1);
    }
  }

  /** The byte order is a strict total order. */
  lemma StrictTotalOrder()
    ensures forall a: Bytes {:trigger Less(a, a)} :: !Less(a, a)
    ensures forall a: Bytes, b: Bytes, c: Bytes {:trigger Less(a, b), Less(b, c)} ::
              Less(a, b) && Less(b, c) ==> Less(a, c)
    ensures forall a: Bytes, b: Bytes {:trigger Less(a, b)} :: Less(a, b) || Less(b, a) || a == b
  {
    forall a: Bytes ensures !Less(a, a) {
      LessFromIrreflexive(a, 0);
    }
    forall a: Bytes, b: Bytes, c: Bytes | Less(a, b) && Less(b, c) ensures Less(a, c) {
      LessFromTransitive(a, b, c, 0);
    }
    forall a: Bytes, b: Bytes ensures Less(a, b) || Less(b, a) || a == b {
      LessFromTotal(a, b, 0);
    }
  }
}
