/**
 * The few Python `str` operations the manual builder relies on, on
 * `seq<char>`: `startswith`, `endswith`, `index`, `rfind`,
 * `split(sep)[-1]` and an ASCII `lower`.
 */
module Strings {
  import opened Wrappers

  /** `s.startswith(p)` */
  predicate StartsWith(s: string, p: string) {
    |p| <= |s| && s[..|p|] == p
  }

  /** `s.endswith(p)` */
  predicate EndsWith(s: string, p: string) {
    |p| <= |s| && s[|s| - |p|..] == p
  }

  /** `sub` occurs in `s` starting at index `i`. */
  predicate OccursAt(s: string, sub: string, i: nat) {
    i + |sub| <= |s| && MatchesFrom(s, sub, i, 0)
  }

  /** The characters of `sub` from its `k`-th on are those of `s` from `i + k` on. */
  predicate MatchesFrom(s: string, sub: string, i: nat, k: nat)
    requires i + |sub| <= |s| && k <= |sub|
    decreases |sub| - k
  {
    k == |sub| || (s[i + k] == sub[k] && MatchesFrom(s, sub, i, k + 1))
  }

  lemma {:induction false} MatchesSlice(s: string, sub: string, i: nat, k: nat)
    requires i + |sub| <= |s| && k <= |sub|
    ensures MatchesFrom(s, sub, i, k) <==> s[i + k..i + |sub|] == sub[k..]
    decreases |sub| - k
  {
    if k < |sub| {
      MatchesSlice(s, sub, i, k + 1);
      assert s[i + k..i + |sub|] == [s[i + k]] + s[i + k + 1..i + |sub|];
      assert sub[k..] == [sub[k]] + sub[k + 1..];
    }
  }

  /** An occurrence is a slice equal to `sub`. */
  lemma {:induction false} OccursSlice(s: string, sub: string, i: nat)
    ensures OccursAt(s, sub, i) <==> i + |sub| <= |s| && s[i..i + |sub|] == sub
  {
    if i + |sub| <= |s| {
      MatchesSlice(s, sub, i, 0);
      assert sub[0..] == sub;
    }
  }

  /** `sub in s` */
  ghost predicate Contains(s: string, sub: string) {
    exists i: nat :: OccursAt(s, sub, i)
  }

  /** The first occurrence of `sub` in `s` at or after `i`. */
  function IndexFrom(s: string, sub: string, i: nat): (r: Option<nat>)
    requires i <= |s|
    decreases |s| - i
    ensures r.Some? ==> i <= r.value && OccursAt(s, sub, r.value)
    ensures r.Some? ==> forall j: nat :: i <= j < r.value ==> !OccursAt(s, sub, j)
    ensures r.None? ==> forall j: nat :: i <= j ==> !OccursAt(s, sub, j)
  {
    if OccursAt(s, sub, i) then Some(i)
    else if i + |sub| >= |s| then None
    else IndexFrom(s, sub, i + 1)
  }

  /** `s.index(sub)`, with the `ValueError` of a missing `sub` as `None`. */
  function IndexOf(s: string, sub: string): (r: Option<nat>)
    ensures r.Some? ==> OccursAt(s, sub, r.value)
    ensures r.Some? ==> forall j: nat :: j < r.value ==> !OccursAt(s, sub, j)
    ensures r.None? <==> !Contains(s, sub)
  {
    IndexFrom(s, sub, 0)
  }

  /** `s.find(c)`, with -1 as `None`. */
  function Find(s: string, c: char): (r: Option<nat>)
    ensures r.Some? ==> r.value < |s| && s[r.value] == c && c !in s[..r.value]
    ensures r.Some? ==> forall q :: 0 <= q < r.value ==> s[q] != c
    ensures r.None? <==> c !in s
  {
    if s == [] then None
    else if s[0] == c then Some(0)
    else match Find(s[1..], c)
      case None => None
      case Some(i) =>
        assert s[..i + 1] == [s[0]] + s[1..][..i];
        Some(i + 1)
  }

  /** `s.rfind(c)`, with -1 as `None`. */
  function RFind(s: string, c: char): (r: Option<nat>)
    ensures r.Some? ==> r.value < |s| && s[r.value] == c
    ensures r.Some? ==> forall q :: r.value < q < |s| ==> s[q] != c
    ensures r.None? <==> c !in s
  {
    if s == [] then None
    else if s[|s| - 1] == c then Some(|s| - 1)
    else RFind(s[..|s| - 1], c)
  }

  /**
   * Where the piece of `s.split(sep)` that is last starts: the scan looks
   * for `sep` from `i` on, left to right, and the current piece started
   * at `start`; each occurrence found ends a piece and the next one
   * starts after it.
   */
  function CutFrom(s: string, sep: string, start: nat, i: nat): (c: nat)
    requires |sep| > 0 && start <= i <= |s|
    decreases |s| - i
    ensures start <= c <= |s|
  {
    if i + |sep| > |s| then start
    else if OccursAt(s, sep, i) then CutFrom(s, sep, i + |sep|, i + |sep|)
    else CutFrom(s, sep, start, i + 1)
  }

  /** `s.split(sep)[-1]` */
  function LastPiece(s: string, sep: string): string
    requires |sep| > 0
  {
    s[CutFrom(s, sep, 0, 0)..]
  }

  /** An occurrence at `i` ends the current piece; the next starts at `n`, right after it. */
  lemma {:induction false} CutAtSep(s: string, sep: string, start: nat, i: nat, n: nat)
    requires |sep| > 0 && start <= i && n == i + |sep| <= |s| && OccursAt(s, sep, i)
    ensures CutFrom(s, sep, start, i) == CutFrom(s, sep, n, n)
  {
  }

  /** Without an occurrence at `i` the scan moves on to `n`, one further. */
  lemma {:induction false} CutPastChar(s: string, sep: string, start: nat, i: nat, n: nat)
    requires |sep| > 0 && start <= i && n == i + 1 && i + |sep| <= |s| && !OccursAt(s, sep, i)
    ensures CutFrom(s, sep, start, i) == CutFrom(s, sep, start, n)
  {
  }

  /** Too close to the end for another occurrence, the current piece is the last. */
  lemma {:induction false} CutAtEnd(s: string, sep: string, start: nat, i: nat)
    requires |sep| > 0 && start <= i <= |s| < i + |sep|
    ensures CutFrom(s, sep, start, i) == start
  {
  }

  /** No occurrence of `sep` starts at or after the last cut. */
  lemma {:induction false} CutClean(s: string, sep: string, start: nat, i: nat)
    requires |sep| > 0 && start <= i <= |s|
    requires forall j :: start <= j < i ==> !OccursAt(s, sep, j)
    ensures forall j :: CutFrom(s, sep, start, i) <= j ==> !OccursAt(s, sep, j)
    decreases |s| - i
  {
    if i + |sep| > |s| {
      CutAtEnd(s, sep, start, i);
    } else if OccursAt(s, sep, i) {
      CutAtSep(s, sep, start, i, i + |sep|);
      CutClean(s, sep, i + |sep|, i + |sep|);
    } else {
      CutPastChar(s, sep, start, i, i + 1);
      CutClean(s, sep, start, i + 1);
    }
  }

  /** The last cut is the start of the text or comes right after an occurrence of `sep`. */
  lemma {:induction false} CutAfterSep(s: string, sep: string, start: nat, i: nat)
    requires |sep| > 0 && start <= i <= |s|
    requires start == 0 || (|sep| <= start && OccursAt(s, sep, start - |sep|))
    ensures var c := CutFrom(s, sep, start, i);
      c == 0 || (|sep| <= c && OccursAt(s, sep, c - |sep|))
    decreases |s| - i
  {
    if i + |sep| > |s| {
      CutAtEnd(s, sep, start, i);
    } else if OccursAt(s, sep, i) {
      CutAtSep(s, sep, start, i, i + |sep|);
      CutAfterSep(s, sep, i + |sep|, i + |sep|);
    } else {
      CutPastChar(s, sep, start, i, i + 1);
      CutAfterSep(s, sep, start, i + 1);
    }
  }

  /** An occurrence in a suffix of `s` is an occurrence in `s`. */
  lemma {:induction false} OccursInSuffix(s: string, sep: string, c: nat, k: nat)
    requires c <= |s| && OccursAt(s[c..], sep, k)
    ensures OccursAt(s, sep, c + k)
  {
    OccursSlice(s[c..], sep, k);
    OccursSlice(s, sep, c + k);
    assert s[c..][k..k + |sep|] == s[c + k..c + k + |sep|];
  }

  /**
   * `s.split(sep)[-1]` is a suffix of `s` that does not contain `sep`, and
   * unless it is all of `s` an occurrence of `sep` comes right before it.
   */
  lemma {:induction false} LastPieceSuffix(s: string, sep: string)
    requires |sep| > 0
    ensures |LastPiece(s, sep)| <= |s| && LastPiece(s, sep) == s[|s| - |LastPiece(s, sep)|..]
    ensures !Contains(LastPiece(s, sep), sep)
    ensures LastPiece(s, sep) == s ||
      (|LastPiece(s, sep)| + |sep| <= |s| && OccursAt(s, sep, |s| - |LastPiece(s, sep)| - |sep|))
  {
    var c := CutFrom(s, sep, 0, 0);
    CutClean(s, sep, 0, 0);
    CutAfterSep(s, sep, 0, 0);
    forall k: nat
      ensures !OccursAt(s[c..], sep, k)
    {
      if OccursAt(s[c..], sep, k) {
        OccursInSuffix(s, sep, c, k);
      }
    }
  }

  /** No proper suffix of `sep` is also a prefix of it, so two occurrences of `sep` never overlap. */
  predicate Unbordered(sep: string) {
    forall d :: 0 < d < |sep| ==> sep[d..] != sep[..|sep| - d]
  }

  /** Two overlapping occurrences of `sep` give a suffix of `sep` that is also a prefix of it. */
  lemma {:induction false} OverlapBorder(s: string, sep: string, i: nat, j: nat)
    requires OccursAt(s, sep, i) && OccursAt(s, sep, j) && i < j < i + |sep|
    ensures sep[j - i..] == sep[..|sep| - (j - i)]
  {
    OccursSlice(s, sep, i);
    OccursSlice(s, sep, j);
    var d := j - i;
    assert sep[d..] == s[j..i + |sep|];
    assert sep[..|sep| - d] == s[j..i + |sep|];
  }

  /** An occurrence in `s` at or after `c` is an occurrence in `s[c..]`. */
  lemma {:induction false} OccursInSuffixBack(s: string, sep: string, c: nat, k: nat)
    requires c <= k && OccursAt(s, sep, k)
    ensures c <= |s| && OccursAt(s[c..], sep, k - c) && Contains(s[c..], sep)
  {
    OccursSlice(s, sep, k);
    OccursSlice(s[c..], sep, k - c);
    assert s[c..][k - c..k - c + |sep|] == s[k..k + |sep|];
  }

  /**
   * When `sep` cannot overlap itself, the last piece of `s.split(sep)` is
   * what follows the last occurrence of `sep`, wherever earlier occurrences are.
   */
  lemma {:induction false} LastPieceAt(s: string, sep: string, k: nat, p: string)
    requires |sep| > 0 && Unbordered(sep)
    requires OccursAt(s, sep, k) && p == s[k + |sep|..] && !Contains(p, sep)
    ensures LastPiece(s, sep) == p
  {
    LastPieceSuffix(s, sep);
    var lp := LastPiece(s, sep);
    var st := |s| - |lp|;
    if st <= k {
      OccursInSuffixBack(s, sep, st, k);
    }
    assert st > k;
    var q := st - |sep|;
    assert OccursAt(s, sep, q);
    if q < k {
      OverlapBorder(s, sep, q, k);
    } else if k < q < k + |sep| {
      OverlapBorder(s, sep, k, q);
    } else if k + |sep| <= q {
      OccursInSuffixBack(s, sep, k + |sep|, q);
    }
    assert q == k;
  }

  /** Occurrences in `xs`, which is `x + s`, after `x` are the occurrences in `s`, shifted. */
  lemma {:induction false} OccursAfterPrefix(x: string, s: string, xs: string, sep: string, j: nat)
    requires xs == x + s
    ensures OccursAt(xs, sep, |x| + j) == OccursAt(s, sep, j)
  {
    OccursSlice(xs, sep, |x| + j);
    OccursSlice(s, sep, j);
    if j + |sep| <= |s| {
      assert xs[|x| + j..|x| + j + |sep|] == s[j..j + |sep|];
    }
  }

  lemma {:induction false} ShiftAtSep(x: string, s: string, xs: string, k: nat, sep: string, start: nat, i: nat, n: nat)
    requires xs == x + s && k == |x|
    requires |sep| > 0 && start <= i && n == i + |sep| <= |s| && OccursAt(s, sep, i)
    requires CutFrom(xs, sep, k + n, k + n) == k + CutFrom(s, sep, n, n)
    ensures CutFrom(xs, sep, k + start, k + i) == k + CutFrom(s, sep, start, i)
  {
    OccursAfterPrefix(x, s, xs, sep, i);
    CutAtSep(s, sep, start, i, n);
    CutAtSep(xs, sep, k + start, k + i, k + n);
  }

  lemma {:induction false} ShiftPastChar(x: string, s: string, xs: string, k: nat, sep: string, start: nat, i: nat, n: nat)
    requires xs == x + s && k == |x|
    requires |sep| > 0 && start <= i && n == i + 1 && i + |sep| <= |s| && !OccursAt(s, sep, i)
    requires CutFrom(xs, sep, k + start, k + n) == k + CutFrom(s, sep, start, n)
    ensures CutFrom(xs, sep, k + start, k + i) == k + CutFrom(s, sep, start, i)
  {
    OccursAfterPrefix(x, s, xs, sep, i);
    CutPastChar(s, sep, start, i, n);
    CutPastChar(xs, sep, k + start, k + i, k + n);
  }

  lemma {:induction false} ShiftAtEnd(x: string, s: string, xs: string, k: nat, sep: string, start: nat, i: nat)
    requires xs == x + s && k == |x|
    requires |sep| > 0 && start <= i <= |s| < i + |sep|
    ensures CutFrom(xs, sep, k + start, k + i) == k + CutFrom(s, sep, start, i)
  {
    CutAtEnd(s, sep, start, i);
    CutAtEnd(xs, sep, k + start, k + i);
  }

  /** The scan over `xs`, which is `x + s`, from past `x` (of length `k`) is the scan over `s`, shifted. */
  lemma {:induction false} CutAfterPrefix(x: string, s: string, xs: string, k: nat, sep: string, start: nat, i: nat)
    requires xs == x + s && k == |x|
    requires |sep| > 0 && start <= i <= |s|
    ensures CutFrom(xs, sep, k + start, k + i) == k + CutFrom(s, sep, start, i)
    decreases |s| - i
  {
    if i + |sep| > |s| {
      ShiftAtEnd(x, s, xs, k, sep, start, i);
    } else if OccursAt(s, sep, i) {
      CutAfterPrefix(x, s, xs, k, sep, i + |sep|, i + |sep|);
      ShiftAtSep(x, s, xs, k, sep, start, i, i + |sep|);
    } else {
      CutAfterPrefix(x, s, xs, k, sep, start, i + 1);
      ShiftPastChar(x, s, xs, k, sep, start, i, i + 1);
    }
  }

  /** A string shorter than the separator is its own last piece. */
  lemma {:induction false} LastPieceShort(s: string, sep: string)
    requires 0 < |sep| && |s| < |sep|
    ensures LastPiece(s, sep) == s
  {
  }

  /** A string without `sep` is its own last piece. */
  lemma {:induction false} LastPieceWhole(s: string, sep: string)
    requires |sep| > 0 && !Contains(s, sep)
    ensures LastPiece(s, sep) == s
  {
    CutAfterSep(s, sep, 0, 0);
  }

  /** Cutting off a leading separator does not change the last piece. */
  lemma {:induction false} LastPieceAfterPrefix(sep: string, s: string)
    requires |sep| > 0
    ensures LastPiece(sep + s, sep) == LastPiece(s, sep)
  {
    var xs := sep + s;
    assert OccursAt(xs, sep, 0) by {
      OccursSlice(xs, sep, 0);
      assert xs[0..|sep|] == sep;
    }
    CutAtSep(xs, sep, 0, 0, |sep|);
    CutAfterPrefix(sep, s, xs, |sep|, sep, 0, 0);
    var c := CutFrom(s, sep, 0, 0);
    assert xs[|sep| + c..] == s[c..];
  }

  /** ASCII lower-casing of one character. */
  function LowerChar(c: char): (r: char)
    ensures 'A' <= c <= 'Z' ==> r as int == c as int + 32
    ensures !('A' <= c <= 'Z') ==> r == c
  {
    if 'A' <= c <= 'Z' then (c as int + 32) as char else c
  }

  /** `s.lower()` on ASCII letters. */
  function Lower(s: string): (r: string)
    ensures |r| == |s|
    ensures forall i :: 0 <= i < |s| ==> r[i] == LowerChar(s[i])
  {
    if s == [] then [] else [LowerChar(s[0])] + Lower(s[1..])
  }

  // ------------------------------------------- slicing and concatenation

  lemma {:induction false} SliceSplit(s: string, i: nat, j: nat)
    requires i <= j <= |s|
    ensures s[i..j] + s[j..] == s[i..]
  {
  }

  lemma {:induction false} AppendAssoc(a: string, b: string, c: string)
    ensures a + (b + c) == (a + b) + c
  {
  }

  lemma {:induction false} ConcatParts(a: string, b: string)
    ensures (a + b)[..|a|] == a && (a + b)[|a|..] == b
  {
  }

  /** A string that starts with `d + [c]` is `d` followed by a rest that starts with `c`. */
  lemma {:induction false} StartsWithSplit(s: string, d: string, p: string, c: char, rest: string)
    requires p == d + [c] && StartsWith(s, p) && rest == s[|d|..]
    ensures s == d + rest && rest != [] && rest[0] == c
  {
    assert s[..|d|] == p[..|d|] == d;
    assert rest[0] == s[|d|] == p[|d|];
    assert s == s[..|d|] + rest;
  }

  /** Two texts that are the same start followed by equal rests are equal. */
  lemma {:induction false} SameTail(a: string, x: string, b: string, c: string, d: string)
    requires a == x + b && d == x + c && b == c
    ensures a == d
  {
  }
}
