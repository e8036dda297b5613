/**
 * `re.sub(pattern, callback, text)`: the scan of the text into literal
 * characters and matches (module Regex), each match replaced by what the
 * callback returns for it and the literal characters kept as they are.
 */
module Rewrite {
  import opened Strings
  import opened Regex

  /** A `re.sub` callback: what a match of the text becomes. */
  type Callback = (string, Match) -> string

  /** `match.group(i)`; group 0 is the whole match. */
  function Group(s: string, m: Match, i: nat): string {
    if i == 0 then Slice(s, m.start, m.end)
    else if i <= |m.groups| then Slice(s, m.groups[i - 1].lo, m.groups[i - 1].hi)
    else ""
  }

  /** What one piece becomes: a literal character is kept, a match replaced. */
  function Piece(f: Callback, s: string, seg: Segment): string {
    match seg
    case Literal(q) => if q < |s| then [s[q]] else ""
    case Matched(m) => f(s, m)
  }

  /** The pieces put back together, each match replaced. */
  function Render(f: Callback, s: string, segs: seq<Segment>): string
    decreases |segs|
  {
    if segs == [] then "" else Piece(f, s, segs[0]) + Render(f, s, segs[1..])
  }

  lemma {:induction false} RenderCons(f: Callback, s: string, seg: Segment, rest: seq<Segment>)
    ensures Render(f, s, [seg] + rest) == Piece(f, s, seg) + Render(f, s, rest)
  {
    assert ([seg] + rest)[1..] == rest;
  }

  /** `re.sub(pattern, callback, s)`: the scan of `s`, each match replaced. */
  function Substitute(p: Pattern, f: Callback, s: string): string {
    Render(f, s, Scan(p, s, 0))
  }

  /** The substitution applied to `s[pos..]`, one step of the scan at a time. */
  function SubFrom(p: Pattern, f: Callback, s: string, pos: nat): string
    requires pos <= |s|
    decreases |s| - pos
  {
    if pos == |s| then ""
    else match MatchAt(p, s, pos)
      case Some(m) => f(s, m) + SubFrom(p, f, s, m.end)
      case None => [s[pos]] + SubFrom(p, f, s, pos + 1)
  }

  lemma {:induction false} RenderAtMatch(p: Pattern, f: Callback, s: string, pos: nat)
    requires pos < |s| && MatchAt(p, s, pos).Some?
    ensures
      var m := MatchAt(p, s, pos).value;
      Render(f, s, Scan(p, s, pos)) == f(s, m) + Render(f, s, Scan(p, s, m.end))
  {
    var m := MatchAt(p, s, pos).value;
    ScanAtMatch(p, s, pos);
    RenderCons(f, s, Matched(m), Scan(p, s, m.end));
  }

  lemma {:induction false} RenderAtLiteral(p: Pattern, f: Callback, s: string, pos: nat)
    requires pos < |s| && MatchAt(p, s, pos).None?
    ensures Render(f, s, Scan(p, s, pos)) == [s[pos]] + Render(f, s, Scan(p, s, pos + 1))
  {
    ScanAtLiteral(p, s, pos);
    RenderCons(f, s, Literal(pos), Scan(p, s, pos + 1));
  }

  /** Rendering the scan from `pos` is substituting step by step from there. */
  lemma {:induction false} RenderScan(p: Pattern, f: Callback, s: string, pos: nat)
    requires pos <= |s|
    ensures Render(f, s, Scan(p, s, pos)) == SubFrom(p, f, s, pos)
    decreases |s| - pos
  {
    if pos < |s| {
      var found := MatchAt(p, s, pos);
      if found.Some? {
        var e := found.value.end;
        RenderAtMatch(p, f, s, pos);
        RenderScan(p, f, s, e);
        SubAtMatch(p, f, s, pos);
        SameTail(Render(f, s, Scan(p, s, pos)), f(s, found.value),
                 Render(f, s, Scan(p, s, e)), SubFrom(p, f, s, e), SubFrom(p, f, s, pos));
      } else {
        RenderAtLiteral(p, f, s, pos);
        RenderScan(p, f, s, pos + 1);
        SubAtLiteral(p, f, s, pos);
        SameTail(Render(f, s, Scan(p, s, pos)), [s[pos]],
                 Render(f, s, Scan(p, s, pos + 1)), SubFrom(p, f, s, pos + 1), SubFrom(p, f, s, pos));
      }
    }
  }

  lemma {:induction false} SubstituteSteps(p: Pattern, f: Callback, s: string)
    ensures Substitute(p, f, s) == SubFrom(p, f, s, 0)
  {
    RenderScan(p, f, s, 0);
  }

  // ------------------------------------------------- the scan, step by step

  /** Where the pattern matches, the callback's result comes next and the scan resumes after the match. */
  lemma {:induction false} SubAtMatch(p: Pattern, f: Callback, s: string, pos: nat)
    requires pos <= |s| && MatchAt(p, s, pos).Some?
    ensures
      var m := MatchAt(p, s, pos).value;
      SubFrom(p, f, s, pos) == f(s, m) + SubFrom(p, f, s, m.end)
  {
  }

  /** Where the pattern does not match, the character is kept and the scan moves one on. */
  lemma {:induction false} SubAtLiteral(p: Pattern, f: Callback, s: string, pos: nat)
    requires pos < |s| && MatchAt(p, s, pos).None?
    ensures SubFrom(p, f, s, pos) == [s[pos]] + SubFrom(p, f, s, pos + 1)
  {
  }

  /** The characters `s[lo..hi]`, one at a time. */
  function Chars(s: string, lo: nat, hi: nat): string
    requires lo <= hi <= |s|
    decreases hi - lo
  {
    if lo == hi then "" else [s[lo]] + Chars(s, lo + 1, hi)
  }

  lemma {:induction false} CharsSlice(s: string, lo: nat, hi: nat)
    requires lo <= hi <= |s|
    ensures Chars(s, lo, hi) == s[lo..hi]
    decreases hi - lo
  {
    if lo < hi {
      CharsSlice(s, lo + 1, hi);
      assert [s[lo]] + s[lo + 1..hi] == s[lo..hi];
    }
  }

  lemma {:induction false} CharsCons(s: string, lo: nat, hi: nat, rest: string)
    requires lo < hi <= |s|
    ensures Chars(s, lo, hi) + rest == [s[lo]] + (Chars(s, lo + 1, hi) + rest)
  {
    AppendAssoc([s[lo]], Chars(s, lo + 1, hi), rest);
  }

  lemma {:induction false} LiteralStep(p: Pattern, f: Callback, s: string, lo: nat, hi: nat)
    requires lo < hi <= |s| && MatchAt(p, s, lo).None?
    requires SubFrom(p, f, s, lo + 1) == Chars(s, lo + 1, hi) + SubFrom(p, f, s, hi)
    ensures SubFrom(p, f, s, lo) == Chars(s, lo, hi) + SubFrom(p, f, s, hi)
  {
    var rest := SubFrom(p, f, s, hi);
    SubAtLiteral(p, f, s, lo);
    CharsCons(s, lo, hi, rest);
    SameTail(SubFrom(p, f, s, lo), [s[lo]], SubFrom(p, f, s, lo + 1), Chars(s, lo + 1, hi) + rest, Chars(s, lo, hi) + rest);
  }

  lemma {:induction false} LiteralChars(p: Pattern, f: Callback, s: string, lo: nat, hi: nat)
    requires lo <= hi <= |s|
    requires forall q :: lo <= q < hi ==> MatchAt(p, s, q).None?
    ensures SubFrom(p, f, s, lo) == Chars(s, lo, hi) + SubFrom(p, f, s, hi)
    decreases hi - lo
  {
    if lo < hi {
      LiteralChars(p, f, s, lo + 1, hi);
      LiteralStep(p, f, s, lo, hi);
    }
  }

  /** Text where the pattern matches nowhere is copied unchanged. */
  lemma {:induction false} SubLiteralRun(p: Pattern, f: Callback, s: string, lo: nat, hi: nat)
    requires lo <= hi <= |s|
    requires forall q :: lo <= q < hi ==> MatchAt(p, s, q).None?
    ensures SubFrom(p, f, s, lo) == s[lo..hi] + SubFrom(p, f, s, hi)
  {
    LiteralChars(p, f, s, lo, hi);
    CharsSlice(s, lo, hi);
  }

  /** A text the pattern does not match anywhere comes out unchanged. */
  lemma {:induction false} NoMatchUnchanged(p: Pattern, f: Callback, s: string)
    requires forall q :: 0 <= q < |s| ==> MatchAt(p, s, q).None?
    ensures Substitute(p, f, s) == s
  {
    SubstituteSteps(p, f, s);
    SubLiteralRun(p, f, s, 0, |s|);
    assert s[0..|s|] == s;
  }

  /** When every match is replaced by itself the text comes out unchanged. */
  lemma {:induction false} IdentityFrom(p: Pattern, f: Callback, s: string, pos: nat)
    requires pos <= |s|
    requires forall q :: 0 <= q <= |s| && MatchAt(p, s, q).Some? ==>
      f(s, MatchAt(p, s, q).value) == Group(s, MatchAt(p, s, q).value, 0)
    ensures SubFrom(p, f, s, pos) == s[pos..]
    decreases |s| - pos
  {
    if pos < |s| {
      var found := MatchAt(p, s, pos);
      if found.Some? {
        var m := found.value;
        calc {
          SubFrom(p, f, s, pos);
          { SubAtMatch(p, f, s, pos); }
          f(s, m) + SubFrom(p, f, s, m.end);
          s[pos..m.end] + SubFrom(p, f, s, m.end);
          { IdentityFrom(p, f, s, m.end); }
          s[pos..m.end] + s[m.end..];
          { SliceSplit(s, pos, m.end); }
          s[pos..];
        }
      } else {
        calc {
          SubFrom(p, f, s, pos);
          { SubAtLiteral(p, f, s, pos); }
          [s[pos]] + SubFrom(p, f, s, pos + 1);
          { IdentityFrom(p, f, s, pos + 1); }
          [s[pos]] + s[pos + 1..];
          { assert [s[pos]] == s[pos..pos + 1]; SliceSplit(s, pos, pos + 1); }
          s[pos..];
        }
      }
    }
  }

  lemma {:induction false} IdentityUnchanged(p: Pattern, f: Callback, s: string)
    requires forall q :: 0 <= q <= |s| && MatchAt(p, s, q).Some? ==>
      f(s, MatchAt(p, s, q).value) == Group(s, MatchAt(p, s, q).value, 0)
    ensures Substitute(p, f, s) == s
  {
    SubstituteSteps(p, f, s);
    IdentityFrom(p, f, s, 0);
  }
}
