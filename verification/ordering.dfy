/**
 * The orders the store sorts by. Strings compare code point by code point, the way
 * Python compares `str` values; a sort key pairs a string with an integer that
 * breaks ties (the roll number in `ORDER BY course, roll_number`).
 */
module Ordering {

  /** Strict lexicographic order on strings by code point. */
  predicate StrLess(a: string, b: string)
    decreases |a|
  {
    |b| > 0 && (|a| == 0 || a[0] < b[0] || (a[0] == b[0] && StrLess(a[1..], b[1..])))
  }

  lemma {:induction false} StrLessIrreflexive(a: string)
    ensures !StrLess(a, a)
  {
    if |a| > 0 {
      StrLessIrreflexive(a[1..]);
    }
  }

  lemma {:induction false} StrLessTransitive(a: string, b: string, c: string)
    requires StrLess(a, b) && StrLess(b, c)
    ensures StrLess(a, c)
    decreases |a|
  {
    if |a| > 0 && a[0] == b[0] && b[0] == c[0] {
      StrLessTransitive(a[1..], b[1..], c[1..]);
    }
  }

  lemma {:induction false} StrLessTrichotomy(a: string, b: string)
    ensures a == b || StrLess(a, b) || StrLess(b, a)
    decreases |a|
  {
    if |a| > 0 && |b| > 0 && a[0] == b[0] {
      StrLessTrichotomy(a[1..], b[1..]);
      if a[1..] == b[1..] {
        assert a == [a[0]] + a[1..] && b == [b[0]] + b[1..];
      }
    }
  }

  /** A sort key: compared by `text` first, then by `num`. */
  datatype SortKey = SortKey(text: string, num: int)

  predicate KeyLess(x: SortKey, y: SortKey) {
    StrLess(x.text, y.text) || (x.text == y.text && x.num < y.num)
  }

  /** `x` may precede `y` in a sorted sequence. */
  predicate KeyLeq(x: SortKey, y: SortKey) {
    !KeyLess(y, x)
  }

  lemma KeyLessAsymmetric(x: SortKey, y: SortKey)
    requires KeyLess(x, y)
    ensures KeyLeq(x, y)
  {
    if StrLess(y.text, x.text) {
      if StrLess(x.text, y.text) {
        StrLessTransitive(x.text, y.text, x.text);
      }
      StrLessIrreflexive(x.text);
    } else if y.text == x.text {
      StrLessIrreflexive(x.text);
    }
  }

  lemma KeyLeqTotal(x: SortKey, y: SortKey)
    ensures KeyLeq(x, y) || KeyLeq(y, x)
  {
    if KeyLess(x, y) {
      KeyLessAsymmetric(x, y);
    }
  }

  lemma KeyLeqTransitive(x: SortKey, y: SortKey, z: SortKey)
    requires KeyLeq(x, y) && KeyLeq(y, z)
    ensures KeyLeq(x, z)
  {
    StrLessTrichotomy(x.text, y.text);
    StrLessTrichotomy(y.text, z.text);
    StrLessTrichotomy(x.text, z.text);
    if KeyLess(z, x) {
      if StrLess(z.text, x.text) {
        if x.text == y.text {
        } else if StrLess(x.text, y.text) {
          StrLessTransitive(z.text, x.text, y.text);
          if StrLess(y.text, z.text) {
            StrLessTransitive(y.text, z.text, x.text);
            StrLessTransitive(y.text, x.text, y.text);
            StrLessIrreflexive(y.text);
          }
        }
      }
    }
  }
}
