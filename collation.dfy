/**
  The order SQLite uses for `BETWEEN` on TEXT columns under its default
  BINARY collation: compare character by character, and when one string is a
  prefix of the other the shorter one is smaller. (SQLite compares UTF-8
  bytes; UTF-8 preserves the order of code points, so comparing characters
  gives the same answer.) Dafny's own `<=` on sequences is the prefix
  relation, which is why the order is spelled out here.
 */
module Collation {

  /** `a <= b` in the BINARY collation. */
  predicate TextLe(a: string, b: string) {
    if a == [] then true
    else if b == [] then false
    else if a[0] != b[0] then a[0] < b[0]
    else TextLe(a[1..], b[1..])
  }

  /** A prefix never sorts after the string it starts. */
  lemma {:induction false} PrefixIsLe(a: string, b: string)
    requires a <= b
    ensures TextLe(a, b)
  {
    if a != [] {
      assert a[1..] <= b[1..];
      PrefixIsLe(a[1..], b[1..]);
    }
  }

  lemma {:induction false} Reflexive(a: string)
    ensures TextLe(a, a)
  {
    if a != [] {
      Reflexive(a[1..]);
    }
  }

  lemma {:induction false} Antisymmetric(a: string, b: string)
    requires TextLe(a, b) && TextLe(b, a)
    ensures a == b
  {
    if a != [] && b != [] {
      Antisymmetric(a[1..], b[1..]);
      assert a == [a[0]] + a[1..] && b == [b[0]] + b[1..];
    }
  }

  lemma {:induction false} Transitive(a: string, b: string, c: string)
    requires TextLe(a, b) && TextLe(b, c)
    ensures TextLe(a, c)
  {
    if a != [] && b != [] && c != [] && a[0] == b[0] && b[0] == c[0] {
      Transitive(a[1..], b[1..], c[1..]);
    }
  }

  /** Any two strings are comparable, so the order is total. */
  lemma {:induction false} Total(a: string, b: string)
    ensures TextLe(a, b) || TextLe(b, a)
  {
    if a != [] && b != [] && a[0] == b[0] {
      Total(a[1..], b[1..]);
    }
  }

  /**
    For dates written as ISO `YYYY-MM-DD` strings this order is the
    calendar order; two instances used by the report query.
   */
  lemma IsoDateExamples()
    ensures TextLe("2024-01-01", "2024-01-31")
    ensures !TextLe("2024-02-01", "2024-01-01")
  {
  }
}
