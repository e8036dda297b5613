/**
 * The heading pass `re.sub(r'^\s*(#+)', fix_headings, data, flags=re.MULTILINE)`:
 * every heading marker at the start of a line loses its indentation and
 * gains one `#`, so each file's headings sit one level below the section
 * the file becomes.
 */
module Headings {
  import opened Strings
  import opened Regex
  import opened Rewrite

  /** `fix_headings`: the run of `#` the match captured, with one more `#`. */
  function FixHeadings(s: string, m: Match): string {
    Group(s, m, 1) + "#"
  }

  /** The heading pass over a file's text. */
  function HeadingPass(s: string): string {
    Substitute(HeadingPattern, FixHeadings, s)
  }


  /** `n` hash signs */
  function Hashes(n: nat): (r: string)
    ensures |r| == n && forall i :: 0 <= i < n ==> r[i] == '#'
  {
    if n == 0 then "" else "#" + Hashes(n - 1)
  }

  lemma {:induction false} HashesAppend(n: nat)
    ensures Hashes(n) + "#" == Hashes(n + 1)
  {
    if n > 0 {
      HashesAppend(n - 1);
      assert Hashes(n) + "#" == "#" + (Hashes(n - 1) + "#");
    }
  }

  /** Every character of `w` is whitespace. */
  predicate Blank(w: string) {
    forall i :: 0 <= i < |w| ==> IsSpace(w[i])
  }

  lemma {:induction false} BlankSpace(s: string, lo: nat, hi: nat)
    requires lo <= hi <= |s| && Blank(s[lo..hi])
    ensures AllSpace(s, lo, hi)
  {
    assert forall q :: lo <= q < hi ==> s[q] == s[lo..hi][q - lo];
  }

  lemma {:induction false} NoNewlineSlice(s: string, lo: nat, hi: nat)
    requires lo <= hi <= |s| && '\n' !in s[lo..hi]
    ensures NoNewline(s, lo, hi)
  {
    assert forall q :: lo <= q < hi ==> s[q] == s[lo..hi][q - lo];
  }

  /** A run of `#` followed by one more is one more followed by the run. */
  lemma {:induction false} HashShift(s: string, w: nat, h: nat, e: nat)
    requires w <= h <= e <= |s| && forall i :: w <= i < h ==> s[i] == '#'
    ensures s[w..h] + "#" + s[h..e] == "#" + s[w..e]
  {
    assert s[w..h] == Hashes(h - w);
    HashesAppend(h - w);
    assert s[w..e] == s[w..h] + s[h..e];
  }

  /** At a line start followed by whitespace and `#`, the match is replaced by its run of `#` and one more. */
  lemma {:induction false} HeadingMatch(s: string, pos: nat, w: nat)
    requires pos <= w < |s| && LineStart(s, pos) && AllSpace(s, pos, w) && s[w] == '#'
    ensures SubFrom(HeadingPattern, FixHeadings, s, pos) == s[w..HashEnd(s, w)] + "#" + SubFrom(HeadingPattern, FixHeadings, s, HashEnd(s, w))
  {
    HeadingAtHash(s, pos, w);
    SubAtMatch(HeadingPattern, FixHeadings, s, pos);
  }

  /**
   * A line from `pos` to `e` whose first non-blank character `s[w]` is
   * `#` loses the whitespace before `w` and gains one `#`.
   */
  lemma {:induction false} HeadingRun(s: string, pos: nat, w: nat, e: nat)
    requires pos <= w < e <= |s| && LineStart(s, pos) && AllSpace(s, pos, w) && s[w] == '#'
    requires NoNewline(s, w, e) && (e == |s| || s[e] == '\n')
    ensures SubFrom(HeadingPattern, FixHeadings, s, pos) == "#" + s[w..e] + SubFrom(HeadingPattern, FixHeadings, s, e)
  {
    HeadingMatch(s, pos, w);
    var h := HashEnd(s, w);
    HashEndRun(s, w);
    assert h <= e by {
      assert e < |s| ==> s[e] != '#';
    }
    NoHeadingWithin(s, w, e);
    var rest := SubFrom(HeadingPattern, FixHeadings, s, e);
    calc {
      SubFrom(HeadingPattern, FixHeadings, s, pos);
      s[w..h] + "#" + SubFrom(HeadingPattern, FixHeadings, s, h);
      { SubLiteralRun(HeadingPattern, FixHeadings, s, h, e); }
      s[w..h] + "#" + (s[h..e] + rest);
      { AppendAssoc(s[w..h] + "#", s[h..e], rest); }
      s[w..h] + "#" + s[h..e] + rest;
      { HashShift(s, w, h, e); }
      "#" + s[w..e] + rest;
    }
  }

  /**
   * Whitespace (newlines included) followed by `n` hash signs at the
   * start of the text loses the whitespace and gains one hash sign; the
   * rest of the line is kept.
   */
  lemma {:induction false} HeadingLine(w: string, n: nat, t: string)
    requires Blank(w) && n >= 1 && '\n' !in t
    ensures HeadingPass(w + Hashes(n) + t) == Hashes(n + 1) + t
  {
    var u := Hashes(n) + t;
    var s := w + u;
    var v := |w|;
    assert w + Hashes(n) + t == s by { AppendAssoc(w, Hashes(n), t); }
    ConcatParts(w, u);
    assert s[0..v] == w && s[v..|s|] == u;
    BlankSpace(s, 0, v);
    assert '\n' !in u;
    NoNewlineSlice(s, v, |s|);
    HeadingRun(s, 0, v, |s|);
    SubstituteSteps(HeadingPattern, FixHeadings, s);
    calc {
      SubFrom(HeadingPattern, FixHeadings, s, 0);
      "#" + s[v..|s|] + SubFrom(HeadingPattern, FixHeadings, s, |s|);
      "#" + u;
      { AppendAssoc("#", Hashes(n), t); }
      Hashes(n + 1) + t;
    }
  }

  /** A second heading pass adds another `#`: the shift is not idempotent. */
  lemma {:induction false} HeadingTwice(w: string, n: nat, t: string)
    requires Blank(w) && n >= 1 && '\n' !in t
    ensures HeadingPass(HeadingPass(w + Hashes(n) + t)) == Hashes(n + 2) + t
    ensures HeadingPass(HeadingPass(w + Hashes(n) + t)) != HeadingPass(w + Hashes(n) + t)
  {
    var once := Hashes(n + 1) + t;
    HeadingLine(w, n, t);
    HeadingAgain(n + 1, t, once);
  }

  /** A heading line with no indentation gains one more `#`. */
  lemma {:induction false} HeadingAgain(n: nat, t: string, s: string)
    requires n >= 1 && '\n' !in t && s == Hashes(n) + t
    ensures HeadingPass(s) == Hashes(n + 1) + t && |HeadingPass(s)| == |s| + 1
  {
    assert "" + Hashes(n) + t == s;
    HeadingLine("", n, t);
  }

  // ------------------------------------------------------ line by line

  /** The lines joined by newlines. */
  function JoinLines(ls: seq<string>): string
    decreases |ls|
  {
    if |ls| == 0 then "" else if |ls| == 1 then ls[0] else ls[0] + "\n" + JoinLines(ls[1..])
  }

  /** The number of whitespace characters a line starts with. */
  function Indent(l: string): (r: nat)
    ensures r <= |l| && Blank(l[..r]) && (r == |l| || !IsSpace(l[r]))
  {
    if l != [] && IsSpace(l[0]) then
      var k := Indent(l[1..]);
      assert l[..k + 1] == [l[0]] + l[1..][..k];
      k + 1
    else 0
  }

  /** A line of one file that is not blank. */
  predicate TextLine(l: string) {
    '\n' !in l && Indent(l) < |l|
  }

  /** What the heading pass makes of a line that is not blank. */
  function ShiftLine(l: string): string
    requires TextLine(l)
  {
    var k := Indent(l);
    if l[k] == '#' then "#" + l[k..] else l
  }

  /** None of the lines is blank. */
  predicate AllText(ls: seq<string>)
    decreases |ls|
  {
    ls == [] || (TextLine(ls[0]) && AllText(ls[1..]))
  }

  function ShiftAll(ls: seq<string>): (r: seq<string>)
    requires AllText(ls)
    ensures |r| == |ls|
  {
    if ls == [] then [] else [ShiftLine(ls[0])] + ShiftAll(ls[1..])
  }

  /** What a line `l` at `pos` of `s` says about `s`. */
  lemma {:induction false} LineFacts(s: string, pos: nat, l: string)
    requires pos + |l| <= |s| && s[pos..pos + |l|] == l && TextLine(l)
    ensures var w := pos + Indent(l);
      AllSpace(s, pos, w) && !IsSpace(s[w]) && s[w] == l[Indent(l)] &&
      NoNewline(s, pos, pos + |l|) && s[w..pos + |l|] == l[Indent(l)..]
  {
    var k := Indent(l);
    assert forall q :: pos <= q < pos + |l| ==> s[q] == l[q - pos];
    assert forall q :: pos <= q < pos + k ==> s[q] == l[..k][q - pos];
  }

  /** A heading line at `pos` loses its indentation and gains a `#`. */
  lemma {:induction false} HeadingLineAt(s: string, pos: nat, l: string)
    requires pos + |l| <= |s| && LineStart(s, pos) && s[pos..pos + |l|] == l && TextLine(l)
    requires pos + |l| == |s| || s[pos + |l|] == '\n'
    requires l[Indent(l)] == '#'
    ensures SubFrom(HeadingPattern, FixHeadings, s, pos) == "#" + l[Indent(l)..] + SubFrom(HeadingPattern, FixHeadings, s, pos + |l|)
  {
    var e, w := pos + |l|, pos + Indent(l);
    LineFacts(s, pos, l);
    HeadingRun(s, pos, w, e);
    assert s[w..e] == l[Indent(l)..];
  }

  /** A line at `pos` whose first non-blank character is not `#` is kept. */
  lemma {:induction false} TextLineAt(s: string, pos: nat, l: string)
    requires pos + |l| <= |s| && s[pos..pos + |l|] == l && TextLine(l)
    requires l[Indent(l)] != '#'
    ensures SubFrom(HeadingPattern, FixHeadings, s, pos) == l + SubFrom(HeadingPattern, FixHeadings, s, pos + |l|)
  {
    var e := pos + |l|;
    LineFacts(s, pos, l);
    NoHeadingAtText(s, pos, pos + Indent(l));
    NoHeadingWithin(s, pos, e);
    SubLiteralRun(HeadingPattern, FixHeadings, s, pos, e);
    assert s[pos..e] == l;
  }

  /** The heading pass on one line that starts at `pos` and ends at a newline or the end. */
  lemma {:induction false} LineStep(s: string, pos: nat, l: string)
    requires pos + |l| <= |s| && LineStart(s, pos) && s[pos..pos + |l|] == l && TextLine(l)
    requires pos + |l| == |s| || s[pos + |l|] == '\n'
    ensures SubFrom(HeadingPattern, FixHeadings, s, pos) == ShiftLine(l) + SubFrom(HeadingPattern, FixHeadings, s, pos + |l|)
  {
    if l[Indent(l)] == '#' {
      HeadingLineAt(s, pos, l);
    } else {
      TextLineAt(s, pos, l);
    }
  }

  /** The newline after a line is kept, and the next line starts after it. */
  lemma {:induction false} NewlineStep(s: string, e: nat)
    requires 0 < e < |s| && s[e] == '\n' && s[e - 1] != '\n'
    ensures SubFrom(HeadingPattern, FixHeadings, s, e) == "\n" + SubFrom(HeadingPattern, FixHeadings, s, e + 1) && LineStart(s, e + 1)
  {
    NoHeadingWithin(s, e - 1, e);
    SubAtLiteral(HeadingPattern, FixHeadings, s, e);
  }

  /** Where the first of the joined lines ends in `s`. */
  lemma {:induction false} FirstLine(s: string, pos: nat, ls: seq<string>)
    requires pos <= |s| && s[pos..] == JoinLines(ls) && ls != []
    ensures pos + |ls[0]| <= |s| && s[pos..pos + |ls[0]|] == ls[0]
    ensures |ls| == 1 ==> pos + |ls[0]| == |s|
    ensures ls[0] != "" ==> s[pos + |ls[0]| - 1] == ls[0][|ls[0]| - 1]
    ensures |ls| > 1 ==> pos + |ls[0]| < |s| && s[pos + |ls[0]|] == '\n' && s[pos + |ls[0]| + 1..] == JoinLines(ls[1..])
  {
    var e := pos + |ls[0]|;
    if ls[0] != "" {
      assert s[pos..e][|ls[0]| - 1] == s[e - 1];
    }
    if |ls| > 1 {
      var u := JoinLines(ls[1..]);
      assert s[pos..] == ls[0] + ("\n" + u) by { AppendAssoc(ls[0], "\n", u); }
      ConcatParts(ls[0], "\n" + u);
      assert s[pos..][..|ls[0]|] == s[pos..e];
      assert s[pos..][|ls[0]|..] == s[e..];
      assert s[e..] == "\n" + u;
      assert s[e + 1..] == s[e..][1..];
    }
  }

  /** The shifted lines, joined, are the first one shifted and then the rest. */
  lemma {:induction false} ShiftAllCons(ls: seq<string>)
    requires ls != [] && AllText(ls)
    ensures |ls| == 1 ==> JoinLines(ShiftAll(ls)) == ShiftLine(ls[0])
    ensures |ls| > 1 ==> JoinLines(ShiftAll(ls)) == ShiftLine(ls[0]) + ("\n" + JoinLines(ShiftAll(ls[1..])))
  {
    var shifted := ShiftAll(ls);
    assert shifted[0] == ShiftLine(ls[0]) && shifted[1..] == ShiftAll(ls[1..]);
    if |ls| > 1 {
      AppendAssoc(ShiftLine(ls[0]), "\n", JoinLines(ShiftAll(ls[1..])));
    }
  }

  /** The heading pass on a text that is one line. */
  lemma {:induction false} LastLine(s: string, pos: nat, ls: seq<string>)
    requires pos <= |s| && LineStart(s, pos) && s[pos..] == JoinLines(ls)
    requires |ls| == 1 && TextLine(ls[0])
    ensures SubFrom(HeadingPattern, FixHeadings, s, pos) == ShiftLine(ls[0])
  {
    FirstLine(s, pos, ls);
    LineStep(s, pos, ls[0]);
    assert SubFrom(HeadingPattern, FixHeadings, s, |s|) == "";
  }

  /** Where the line after the first of several lines starts. */
  lemma {:induction false} NextLine(s: string, pos: nat, ls: seq<string>, n: nat, rest: seq<string>)
    requires pos <= |s| && LineStart(s, pos) && s[pos..] == JoinLines(ls)
    requires |ls| > 1 && AllText(ls) && n == pos + |ls[0]| + 1 && rest == ls[1..]
    ensures n <= |s| && LineStart(s, n) && s[n..] == JoinLines(rest) && AllText(rest)
  {
    FirstLine(s, pos, ls);
    NewlineStep(s, pos + |ls[0]|);
  }

  /** The heading pass on the first of several lines and the newline after it. */
  lemma {:induction false} FirstLineSteps(s: string, pos: nat, ls: seq<string>, e: nat, n: nat)
    requires pos <= |s| && LineStart(s, pos) && s[pos..] == JoinLines(ls)
    requires |ls| > 1 && TextLine(ls[0]) && e == pos + |ls[0]| && n == e + 1
    ensures e < |s|
    ensures SubFrom(HeadingPattern, FixHeadings, s, pos) == ShiftLine(ls[0]) + SubFrom(HeadingPattern, FixHeadings, s, e)
    ensures SubFrom(HeadingPattern, FixHeadings, s, e) == "\n" + SubFrom(HeadingPattern, FixHeadings, s, n)
  {
    FirstLine(s, pos, ls);
    LineStep(s, pos, ls[0]);
    NewlineStep(s, e);
  }

  /** The heading pass on the first of several lines, given the pass on the rest. */
  lemma {:induction false} FirstOfLines(s: string, pos: nat, ls: seq<string>, n: nat, rest: seq<string>)
    requires pos <= |s| && LineStart(s, pos) && s[pos..] == JoinLines(ls)
    requires |ls| > 1 && AllText(ls) && n == pos + |ls[0]| + 1 && rest == ls[1..] && n <= |s|
    requires SubFrom(HeadingPattern, FixHeadings, s, n) == JoinLines(ShiftAll(rest))
    ensures SubFrom(HeadingPattern, FixHeadings, s, pos) == JoinLines(ShiftAll(ls))
  {
    var e := n - 1;
    FirstLineSteps(s, pos, ls, e, n);
    ShiftAllCons(ls);
    Chain(SubFrom(HeadingPattern, FixHeadings, s, pos), ShiftLine(ls[0]), SubFrom(HeadingPattern, FixHeadings, s, e), SubFrom(HeadingPattern, FixHeadings, s, n),
          JoinLines(ShiftAll(rest)), JoinLines(ShiftAll(ls)));
  }

  lemma {:induction false} Chain(a: string, x: string, b: string, c: string, d: string, j: string)
    requires a == x + b && b == "\n" + c && c == d && j == x + ("\n" + d)
    ensures a == j
  {
  }

  lemma {:induction false} LinesFrom(s: string, pos: nat, ls: seq<string>)
    requires pos <= |s| && LineStart(s, pos) && s[pos..] == JoinLines(ls) && AllText(ls)
    ensures SubFrom(HeadingPattern, FixHeadings, s, pos) == JoinLines(ShiftAll(ls))
    decreases |ls|
  {
    if ls == [] {
      assert SubFrom(HeadingPattern, FixHeadings, s, pos) == "";
    } else if |ls| == 1 {
      ShiftAllCons(ls);
      LastLine(s, pos, ls);
    } else {
      var n, rest := pos + |ls[0]| + 1, ls[1..];
      NextLine(s, pos, ls, n, rest);
      LinesFrom(s, n, rest);
      FirstOfLines(s, pos, ls, n, rest);
    }
  }

  /**
   * Text made of lines none of which is blank: every line whose first
   * non-blank character is `#` loses its indentation and gains one `#`,
   * whatever Markdown block (a code block, say) it sits in; every other
   * line is kept.
   */
  lemma {:induction false} ShiftLines(ls: seq<string>)
    requires AllText(ls)
    ensures HeadingPass(JoinLines(ls)) == JoinLines(ShiftAll(ls))
  {
    var s := JoinLines(ls);
    SubstituteSteps(HeadingPattern, FixHeadings, s);
    assert s[0..] == s;
    LinesFrom(s, 0, ls);
  }
}
