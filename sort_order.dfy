/** The order in which a grouped table sorts its string keys: lexicographic
    by code point, a proper prefix coming first. */
module SortOrder {

  /** `a` sorts strictly before `b`. */
  predicate StrLess(a: string, b: string)
  {
    if |b| == 0 then false
    else if |a| == 0 then true
    else if a[0] != b[0] then a[0] < b[0]
    else StrLess(a[1..], b[1..])
  }

  lemma {:induction false} StrLessIrreflexive(a: string)
    ensures !StrLess(a, a)
  {
    if |a| > 0 {
      StrLessIrreflexive(a[1..]);
    }
  }

  lemma {:induction false} StrLessTransitive(a: string, b: string, c: string)
    requires StrLess(a, b) && StrLess(b, c)
    ensures StrLess(a, c)
  {
    if |a| > 0 && a[0] == b[0] && b[0] == c[0] {
      StrLessTransitive(a[1..], b[1..], c[1..]);
    }
  }

  /** Any two different strings are ordered one way or the other. */
  lemma {:induction false} StrLessTotal(a: string, b: string)
    requires a != b
    ensures StrLess(a, b) || StrLess(b, a)
  {
    if |a| > 0 && |b| > 0 && a[0] == b[0] {
      assert a == [a[0]] + a[1..] && b == [b[0]] + b[1..];
      StrLessTotal(a[1..], b[1..]);
    }
  }

  /** The order in which the grouped table lists the six indicator names. */
  lemma IndicatorNameOrder()
    ensures StrLess("active", "alco") && StrLess("alco", "cholesterol")
    ensures StrLess("cholesterol", "gluc") && StrLess("gluc", "overweight")
    ensures StrLess("overweight", "smoke")
  {
    assert StrLess("ctive", "lco");
  }
}
