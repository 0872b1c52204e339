/**
 The ordering `sorted` uses on client names: Python's comparison of `str`
 values, which is lexicographic by code point, a proper prefix sorting first.
 Dafny's `char` ordering is also by code point, so upper-case letters sort
 before lower-case ones here as they do in Python.
 */
module NameOrder {

  /** `a <= b` on Python strings. */
  predicate NameLe(a: string, b: string)
  {
    |a| == 0 || (|b| > 0 && (a[0] < b[0] || (a[0] == b[0] && NameLe(a[1..], b[1..]))))
  }

  lemma {:induction false} NameLeReflexive(a: string)
    ensures NameLe(a, a)
  {
    if |a| > 0 {
      NameLeReflexive(a[1..]);
    }
  }

  lemma {:induction false} NameLeTotal(a: string, b: string)
    ensures NameLe(a, b) || NameLe(b, a)
  {
    if |a| > 0 && |b| > 0 && a[0] == b[0] {
      NameLeTotal(a[1..], b[1..]);
    }
  }

  lemma {:induction false} NameLeAntisymmetric(a: string, b: string)
    requires NameLe(a, b) && NameLe(b, a)
    ensures a == b
  {
    if |a| > 0 && |b| > 0 {
      NameLeAntisymmetric(a[1..], b[1..]);
      assert a == [a[0]] + a[1..] && b == [b[0]] + b[1..];
    }
  }

  lemma {:induction false} NameLeTransitive(a: string, b: string, c: string)
    requires NameLe(a, b) && NameLe(b, c)
    ensures NameLe(a, c)
  {
    if |a| > 0 && |b| > 0 && |c| > 0 && a[0] == b[0] == c[0] {
      NameLeTransitive(a[1..], b[1..], c[1..]);
    }
  }

  /** Names that differ are strictly ordered one way. */
  lemma NameLeStrict(a: string, b: string)
    requires !NameLe(a, b)
    ensures NameLe(b, a) && a != b
  {
    NameLeTotal(a, b);
    if a == b {
      NameLeReflexive(a);
    }
  }
}
