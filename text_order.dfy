/**
 * The order in which SQL `ORDER BY` puts TEXT values under SQLite's default
 * BINARY collation: lexicographic comparison of the encoded bytes. UTF-8
 * preserves code-point order, so comparing the characters of a Dafny string
 * (Unicode scalar values) one by one gives the same order. A proper prefix
 * comes first.
 *
 * The issue store orders `created_at` timestamps this way.
 */
module TextOrder {

  /** `a` sorts no later than `b`. */
  predicate AtMost(a: string, b: string)
  {
    if a == [] then true
    else if b == [] then false
    else if a[0] != b[0] then a[0] < b[0]
    else AtMost(a[1..], b[1..])
  }

  lemma {:induction false} AtMostReflexive(a: string)
    ensures AtMost(a, a)
  {
    if a != [] {
      AtMostReflexive(a[1..]);
    }
  }

  /** Any two strings are comparable: the order is total. */
  lemma {:induction false} AtMostTotal(a: string, b: string)
    ensures AtMost(a, b) || AtMost(b, a)
  {
    if a != [] && b != [] && a[0] == b[0] {
      AtMostTotal(a[1..], b[1..]);
    }
  }

  lemma {:induction false} AtMostAntisymmetric(a: string, b: string)
    requires AtMost(a, b) && AtMost(b, a)
    ensures a == b
  {
    if a != [] && b != [] {
      AtMostAntisymmetric(a[1..], b[1..]);
      assert a == [a[0]] + a[1..];
      assert b == [b[0]] + b[1..];
    }
  }

  lemma {:induction false} AtMostTransitive(a: string, b: string, c: string)
    requires AtMost(a, b) && AtMost(b, c)
    ensures AtMost(a, c)
  {
    if a != [] && b != [] && c != [] && a[0] == b[0] && b[0] == c[0] {
      AtMostTransitive(a[1..], b[1..], c[1..]);
    }
  }

  /**
   * A prefix sorts no later than any extension of it. An ISO 8601 time
   * written without fractional seconds is a prefix of the same second
   * written with them, so it is listed as the earlier of the two.
   */
  lemma {:induction false} PrefixAtMost(a: string, b: string)
    requires a <= b
    ensures AtMost(a, b)
  {
    if a != [] {
      PrefixAtMost(a[1..], b[1..]);
    }
  }
}
