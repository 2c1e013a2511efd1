/** Go's `<` on strings.

    Go compares strings byte by byte (UTF-8), and a proper prefix sorts first.
    A string here is a `seq<char>` of Unicode scalar values; comparing UTF-8 byte
    sequences gives the same order as comparing the scalar values one by one, so
    `Below` is that comparison on characters. Dafny's own `<` on sequences means
    "proper prefix" and is not used for ordering.
 */
module StringOrder {

  /** `a < b` as Go evaluates it on strings. */
  predicate Below(a: string, b: string)
    decreases |a|
  {
    if |b| == 0 then false
    else if |a| == 0 then true
    else if a[0] != b[0] then a[0] < b[0]
    else Below(a[1..], b[1..])
  }

  /** `a <= b` in the same order. */
  predicate AtMost(a: string, b: string) {
    !Below(b, a)
  }

  lemma {:induction false} BelowIrreflexive(a: string)
    ensures !Below(a, a)
  {
    if |a| > 0 {
      BelowIrreflexive(a[1..]);
    }
  }

  lemma {:induction false} BelowAsymmetric(a: string, b: string)
    requires Below(a, b)
    ensures !Below(b, a)
  {
    if |a| > 0 && a[0] == b[0] {
      BelowAsymmetric(a[1..], b[1..]);
    }
  }

  lemma {:induction false} BelowTransitive(a: string, b: string, c: string)
    requires Below(a, b) && Below(b, c)
    ensures Below(a, c)
  {
    if |a| > 0 && a[0] == b[0] && b[0] == c[0] {
      BelowTransitive(a[1..], b[1..], c[1..]);
    }
  }

  /** Any two different strings are ordered one way or the other. */
  lemma {:induction false} BelowTotal(a: string, b: string)
    requires a != b
    ensures Below(a, b) || Below(b, a)
  {
    if |a| > 0 && |b| > 0 && a[0] == b[0] {
      assert a == [a[0]] + a[1..] && b == [b[0]] + b[1..];
      BelowTotal(a[1..], b[1..]);
    }
  }

  /** A proper prefix sorts before the longer string ("igw" < "igw-1"). */
  lemma {:induction false} ProperPrefixBelow(a: string, b: string)
    requires a < b
    ensures Below(a, b)
  {
    if |a| > 0 {
      ProperPrefixBelow(a[1..], b[1..]);
    }
  }

  lemma AtMostTransitive(a: string, b: string, c: string)
    requires AtMost(a, b) && AtMost(b, c)
    ensures AtMost(a, c)
  {
    if Below(c, a) && a != b {
      BelowTotal(a, b);
      BelowTransitive(c, a, b);
    }
  }

  /** `<=` is antisymmetric: two strings each at most the other are equal. */
  lemma AtMostAntisymmetric(a: string, b: string)
    requires AtMost(a, b) && AtMost(b, a)
    ensures a == b
  {
    if a != b {
      BelowTotal(a, b);
    }
  }
}
