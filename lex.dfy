/** Python's comparison of `str` values: lexicographic by code point. */
module Lex {

  /** `a <= b` */
  predicate LexLe(a: string, b: string)
    decreases |a|
  {
    a == [] || (b != [] && (a[0] < b[0] || (a[0] == b[0] && LexLe(a[1..], b[1..]))))
  }

  /** `a < b` */
  predicate LexLt(a: string, b: string) {
    LexLe(a, b) && a != b
  }

  lemma {:induction false} LexLeRefl(a: string)
    ensures LexLe(a, a)
    decreases |a|
  {
    if a != [] { LexLeRefl(a[1..]); }
  }

  lemma {:induction false} LexLeTrans(a: string, b: string, c: string)
    requires LexLe(a, b) && LexLe(b, c)
    ensures LexLe(a, c)
    decreases |a|
  {
    if a != [] && a[0] == b[0] && b[0] == c[0] {
      LexLeTrans(a[1..], b[1..], c[1..]);
    }
  }

  lemma {:induction false} LexLeTotal(a: string, b: string)
    ensures LexLe(a, b) || LexLe(b, a)
    decreases |a|
  {
    if a != [] && b != [] && a[0] == b[0] {
      LexLeTotal(a[1..], b[1..]);
    }
  }

  lemma {:induction false} LexLeAntisym(a: string, b: string)
    requires LexLe(a, b) && LexLe(b, a)
    ensures a == b
    decreases |a|
  {
    if a != [] && b != [] {
      LexLeAntisym(a[1..], b[1..]);
      assert a == [a[0]] + a[1..] && b == [b[0]] + b[1..];
    }
  }

  /** A common prefix does not change the comparison. */
  lemma {:induction false} LexLeCommonPrefix(d: string, a: string, b: string)
    ensures LexLe(d + a, d + b) <==> LexLe(a, b)
    decreases |d|
  {
    if d != [] {
      assert (d + a)[0] == d[0] && (d + b)[0] == d[0];
      assert (d + a)[1..] == d[1..] + a && (d + b)[1..] == d[1..] + b;
      LexLeCommonPrefix(d[1..], a, b);
    } else {
      assert d + a == a && d + b == b;
    }
  }

  /** Strings that differ in the first character compare by it. */
  lemma {:induction false} LexLtFirst(a: string, b: string)
    requires a != [] && b != [] && a[0] < b[0]
    ensures LexLt(a, b) && !LexLe(b, a)
  {
  }
}
