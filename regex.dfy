/**
 * The two regular expressions the manual builder substitutes, matched as
 * Python's `re` matches them, and the left-to-right scan of `re.sub`:
 *
 *   LinkPattern     `\[(.+?)\]\((.+?)\)`   (a Markdown link or image)
 *   HeadingPattern  `^\s*(#+)` with `re.MULTILINE`
 *
 * `.` matches anything but a newline; `\s` is ASCII whitespace.
 *
 * The matching functions promise only the shape of a match; what a match
 * is (which text it takes and why no other) is stated by the lemmas
 * beside them.
 */
module Regex {
  import opened Wrappers

  datatype Pattern = LinkPattern | HeadingPattern

  /** The characters `s[lo..hi]` a group captured. */
  datatype Span = Span(lo: nat, hi: nat)

  /** A match of `s[start..end]`, with the spans of its groups 1, 2, ... */
  datatype Match = Match(start: nat, end: nat, groups: seq<Span>)

  /** `s[lo..hi]`, or nothing when that is not a range of `s`. */
  function Slice(s: string, lo: nat, hi: nat): string {
    if lo <= hi <= |s| then s[lo..hi] else ""
  }

  /** `\s` on ASCII */
  predicate IsSpace(c: char) {
    c == ' ' || c == '\t' || c == '\n' || c == '\r' || c == '\U{000B}' || c == '\U{000C}'
  }

  predicate NoNewline(s: string, lo: nat, hi: nat)
    requires lo <= hi <= |s|
  {
    forall q :: lo <= q < hi ==> s[q] != '\n'
  }

  predicate AllSpace(s: string, lo: nat, hi: nat)
    requires lo <= hi <= |s|
  {
    forall q :: lo <= q < hi ==> IsSpace(s[q])
  }

  /** `^` in multi-line mode */
  predicate LineStart(s: string, pos: nat)
    requires pos <= |s|
  {
    pos == 0 || s[pos - 1] == '\n'
  }

  /** The match is a non-empty part of `s`, and its groups lie inside it. */
  predicate WellFormed(s: string, m: Match) {
    m.start < m.end <= |s| &&
    forall i :: 0 <= i < |m.groups| ==> m.start <= m.groups[i].lo <= m.groups[i].hi <= m.end
  }

  /** The number of groups a pattern has. */
  function GroupCount(p: Pattern): nat {
    match p case LinkPattern => 2 case HeadingPattern => 1
  }

  // ---------------------------------------------------------------- links

  /**
   * One way the link pattern can match at `pos`: label `s[pos+1..j]`,
   * target `s[j+2..k]`, both non-empty and without newlines, `)` at `k`.
   */
  predicate IsLinkAt(s: string, pos: nat, j: nat, k: nat) {
    pos + 1 < j && j + 2 < k < |s| &&
    s[pos] == '[' && s[j] == ']' && s[j + 1] == '(' && s[k] == ')' &&
    NoNewline(s, pos + 1, j) && NoNewline(s, j + 2, k)
  }

  /**
   * The match the lazy quantifiers choose: the shortest label for which
   * some target exists, then the shortest target for that label.
   */
  ghost predicate LazyLinkAt(s: string, pos: nat, j: nat, k: nat) {
    IsLinkAt(s, pos, j, k) &&
    (forall jj: nat, kk: nat :: jj < j ==> !IsLinkAt(s, pos, jj, kk)) &&
    (forall kk: nat :: kk < k ==> !IsLinkAt(s, pos, j, kk))
  }

  /** The first `)` at or after `q`, if there is one before the next newline. */
  function CloseFrom(s: string, q: nat): (r: Option<nat>)
    requires q <= |s|
    decreases |s| - q
    ensures r.Some? ==> q <= r.value < |s| && s[r.value] == ')'
  {
    if q == |s| || s[q] == '\n' then None
    else if s[q] == ')' then Some(q)
    else CloseFrom(s, q + 1)
  }

  lemma {:induction false} CloseFromSome(s: string, q: nat)
    requires q <= |s| && CloseFrom(s, q).Some?
    ensures NoNewline(s, q, CloseFrom(s, q).value)
    ensures forall k :: q <= k < CloseFrom(s, q).value ==> s[k] != ')'
    decreases |s| - q
  {
    if s[q] != ')' {
      CloseFromSome(s, q + 1);
    }
  }

  lemma {:induction false} CloseFromNone(s: string, q: nat)
    requires q <= |s| && CloseFrom(s, q).None?
    ensures forall k {:trigger NoNewline(s, q, k)} :: q <= k < |s| && s[k] == ')' ==> !NoNewline(s, q, k)
    decreases |s| - q
  {
    if q < |s| && s[q] != '\n' {
      CloseFromNone(s, q + 1);
      forall k | q <= k < |s| && s[k] == ')' ensures !NoNewline(s, q, k) {
        assert !NoNewline(s, q + 1, k);
      }
    }
  }

  /** The lazy link match at `pos` whose label ends at `j` or later. */
  function LinkFrom(s: string, pos: nat, j: nat): (r: Option<(nat, nat)>)
    requires pos + 2 <= j <= |s|
    decreases |s| - j
    ensures r.Some? ==> j <= r.value.0 && r.value.0 + 2 < r.value.1 < |s|
  {
    if j + 3 >= |s| || s[j - 1] == '\n' then None
    else
      var close := CloseFrom(s, j + 3);
      if s[j] == ']' && s[j + 1] == '(' && s[j + 2] != '\n' && close.Some? then
        Some((j, close.value))
      else
        LinkFrom(s, pos, j + 1)
  }

  /** No link has its label end at `j` when the scan from `j` does not stop there. */
  lemma {:induction false} NoLinkEndingAt(s: string, pos: nat, j: nat)
    requires pos + 2 <= j && j + 3 < |s| && s[j - 1] != '\n'
    requires !(s[j] == ']' && s[j + 1] == '(' && s[j + 2] != '\n' && CloseFrom(s, j + 3).Some?)
    ensures forall kk: nat :: !IsLinkAt(s, pos, j, kk)
  {
    if s[j] == ']' && s[j + 1] == '(' && s[j + 2] != '\n' {
      CloseFromNone(s, j + 3);
      forall kk: nat ensures !IsLinkAt(s, pos, j, kk) {
        if j + 3 <= kk < |s| && s[kk] == ')' {
          assert !NoNewline(s, j + 3, kk);
        }
      }
    }
  }

  lemma {:induction false} LinkFromSome(s: string, pos: nat, j: nat)
    requires pos + 2 <= j <= |s| && s[pos] == '[' && NoNewline(s, pos + 1, j - 1)
    requires LinkFrom(s, pos, j).Some?
    ensures IsLinkAt(s, pos, LinkFrom(s, pos, j).value.0, LinkFrom(s, pos, j).value.1)
    ensures forall jj: nat, kk: nat :: j <= jj < LinkFrom(s, pos, j).value.0 ==> !IsLinkAt(s, pos, jj, kk)
    ensures forall kk: nat :: kk < LinkFrom(s, pos, j).value.1 ==> !IsLinkAt(s, pos, LinkFrom(s, pos, j).value.0, kk)
    decreases |s| - j
  {
    var close := CloseFrom(s, j + 3);
    if s[j] == ']' && s[j + 1] == '(' && s[j + 2] != '\n' && close.Some? {
      CloseFromSome(s, j + 3);
    } else {
      NoLinkEndingAt(s, pos, j);
      LinkFromSome(s, pos, j + 1);
    }
  }

  lemma {:induction false} LinkFromNone(s: string, pos: nat, j: nat)
    requires pos + 2 <= j <= |s| && NoNewline(s, pos + 1, j - 1)
    requires LinkFrom(s, pos, j).None?
    ensures forall jj: nat, kk: nat :: j <= jj ==> !IsLinkAt(s, pos, jj, kk)
    decreases |s| - j
  {
    if j + 3 < |s| && s[j - 1] != '\n' {
      NoLinkEndingAt(s, pos, j);
      LinkFromNone(s, pos, j + 1);
    }
  }

  /** The link pattern's match at `pos`, if any. */
  function LinkAt(s: string, pos: nat): (r: Option<Match>)
    requires pos <= |s|
    ensures r.Some? ==> r.value.start == pos && WellFormed(s, r.value) && |r.value.groups| == 2
  {
    if pos + 2 <= |s| && s[pos] == '[' then
      match LinkFrom(s, pos, pos + 2)
      case Some((j, k)) => Some(Match(pos, k + 1, [Span(pos + 1, j), Span(j + 2, k)]))
      case None => None
    else None
  }

  /** A link match takes the shortest label, then the shortest target. */
  lemma {:induction false} LinkAtLazy(s: string, pos: nat)
    requires pos <= |s| && LinkAt(s, pos).Some?
    ensures
      var m := LinkAt(s, pos).value;
      var j, k := m.groups[0].hi, m.groups[1].hi;
      m == Match(pos, k + 1, [Span(pos + 1, j), Span(j + 2, k)]) && LazyLinkAt(s, pos, j, k)
  {
    LinkFromSome(s, pos, pos + 2);
  }

  /** Where there is no link match, no way of reading a link fits. */
  lemma {:induction false} LinkAtNone(s: string, pos: nat)
    requires pos <= |s| && LinkAt(s, pos).None?
    ensures forall j: nat, k: nat :: !IsLinkAt(s, pos, j, k)
  {
    if pos + 2 <= |s| && s[pos] == '[' {
      LinkFromNone(s, pos, pos + 2);
    }
  }

  /**
   * With no `]` in the label and no `)` in the target, a link at `pos` is
   * the one the link pattern matches there.
   */
  lemma {:induction false} LinkAtPlain(s: string, pos: nat, j: nat, k: nat)
    requires IsLinkAt(s, pos, j, k)
    requires forall q :: pos < q < j ==> s[q] != ']'
    requires forall q :: j + 2 <= q < k ==> s[q] != ')'
    ensures MatchAt(LinkPattern, s, pos) == Some(Match(pos, k + 1, [Span(pos + 1, j), Span(j + 2, k)]))
  {
    if LinkAt(s, pos).None? {
      LinkAtNone(s, pos);
      assert false;
    }
    LinkAtLazy(s, pos);
    var m := LinkAt(s, pos).value;
    var j', k' := m.groups[0].hi, m.groups[1].hi;
    assert j' == j;
    assert k' == k;
  }

  // ------------------------------------------------------------- headings

  /** The end of the run of whitespace starting at `q`. */
  function SpaceEnd(s: string, q: nat): (r: nat)
    requires q <= |s|
    decreases |s| - q
    ensures q <= r <= |s|
  {
    if q < |s| && IsSpace(s[q]) then SpaceEnd(s, q + 1) else q
  }

  lemma {:induction false} SpaceEndRun(s: string, q: nat)
    requires q <= |s|
    ensures AllSpace(s, q, SpaceEnd(s, q)) && (SpaceEnd(s, q) == |s| || !IsSpace(s[SpaceEnd(s, q)]))
    decreases |s| - q
  {
    if q < |s| && IsSpace(s[q]) {
      SpaceEndRun(s, q + 1);
    }
  }

  /** The end of the run of `#` starting at `q`. */
  function HashEnd(s: string, q: nat): (r: nat)
    requires q <= |s|
    decreases |s| - q
    ensures q <= r <= |s|
  {
    if q < |s| && s[q] == '#' then HashEnd(s, q + 1) else q
  }

  lemma {:induction false} HashEndRun(s: string, q: nat)
    requires q <= |s|
    ensures (forall i :: q <= i < HashEnd(s, q) ==> s[i] == '#') && (HashEnd(s, q) == |s| || s[HashEnd(s, q)] != '#')
    decreases |s| - q
  {
    if q < |s| && s[q] == '#' {
      HashEndRun(s, q + 1);
    }
  }

  /**
   * The heading pattern at `pos`: at the start of a line, all the
   * whitespace, then all the `#`s, which group 1 captures.
   */
  function HeadingAt(s: string, pos: nat): (r: Option<Match>)
    requires pos <= |s|
    ensures r.Some? ==> r.value.start == pos && WellFormed(s, r.value) && |r.value.groups| == 1
  {
    if pos < |s| && LineStart(s, pos) then
      var w := SpaceEnd(s, pos);
      var h := HashEnd(s, w);
      if w < h then Some(Match(pos, h, [Span(w, h)])) else None
    else None
  }

  /** A heading match is the whitespace and the whole run of `#` after it, at a line start. */
  lemma {:induction false} HeadingAtSome(s: string, pos: nat)
    requires pos <= |s| && HeadingAt(s, pos).Some?
    ensures
      var m := HeadingAt(s, pos).value;
      var w, h := m.groups[0].lo, m.groups[0].hi;
      m == Match(pos, h, [Span(w, h)]) && LineStart(s, pos) &&
      pos <= w < h <= |s| && AllSpace(s, pos, w) &&
      (forall i :: w <= i < h ==> s[i] == '#') && (h == |s| || s[h] != '#')
  {
    SpaceEndRun(s, pos);
    HashEndRun(s, SpaceEnd(s, pos));
  }

  /** Where there is no heading match at a line start, no `#` follows the whitespace. */
  lemma {:induction false} HeadingAtNone(s: string, pos: nat)
    requires pos <= |s| && HeadingAt(s, pos).None? && LineStart(s, pos)
    ensures forall w {:trigger AllSpace(s, pos, w)} :: pos <= w < |s| && AllSpace(s, pos, w) ==> s[w] != '#'
  {
    if pos < |s| {
      var w := SpaceEnd(s, pos);
      SpaceEndRun(s, pos);
      HashEndRun(s, w);
      forall v | pos <= v < |s| && AllSpace(s, pos, v) ensures s[v] != '#' {
      }
    }
  }

  // ------------------------------------------------------------ scanning

  /** The match of `p` that starts at `pos`, if any. */
  function MatchAt(p: Pattern, s: string, pos: nat): (r: Option<Match>)
    requires pos <= |s|
    ensures r.Some? ==> r.value.start == pos && WellFormed(s, r.value)
    ensures r.Some? ==> |r.value.groups| == GroupCount(p)
  {
    match p
    case LinkPattern => LinkAt(s, pos)
    case HeadingPattern => HeadingAt(s, pos)
  }

  /** No heading match starts inside a line, after its first character. */
  lemma {:induction false} NoHeadingWithin(s: string, lo: nat, hi: nat)
    requires lo <= hi <= |s| && NoNewline(s, lo, hi)
    ensures forall q :: lo < q <= hi ==> MatchAt(HeadingPattern, s, q).None?
  {
    assert forall q :: lo < q <= hi ==> !LineStart(s, q);
  }

  /** A line whose first non-blank character `s[w]` is `#` is a heading match up to the last `#` of the run. */
  lemma {:induction false} HeadingAtHash(s: string, pos: nat, w: nat)
    requires pos <= w < |s| && LineStart(s, pos) && AllSpace(s, pos, w) && s[w] == '#'
    ensures MatchAt(HeadingPattern, s, pos) == Some(Match(pos, HashEnd(s, w), [Span(w, HashEnd(s, w))]))
  {
    SpaceEndRun(s, pos);
    assert SpaceEnd(s, pos) == w;
  }

  /** A line whose first non-blank character `s[w]` is not `#` is no heading match. */
  lemma {:induction false} NoHeadingAtText(s: string, pos: nat, w: nat)
    requires pos <= w < |s| && AllSpace(s, pos, w) && !IsSpace(s[w]) && s[w] != '#'
    ensures MatchAt(HeadingPattern, s, pos).None?
  {
    if LineStart(s, pos) {
      SpaceEndRun(s, pos);
      assert SpaceEnd(s, pos) == w;
    }
  }

  /** A piece of the scanned text: one character no match starts at, or a match. */
  datatype Segment = Literal(at: nat) | Matched(m: Match)

  /** `segs` cut `s[from..to]` into consecutive pieces. */
  predicate Covers(segs: seq<Segment>, from: nat, to: nat)
    decreases |segs|
  {
    if segs == [] then from == to
    else match segs[0]
      case Literal(q) => q == from && from < to && Covers(segs[1..], from + 1, to)
      case Matched(m) => m.start == from && from < m.end <= to && Covers(segs[1..], m.end, to)
  }

  /** A literal is a place where `p` does not match; a match is what `p` matches there. */
  predicate SegmentOk(p: Pattern, s: string, seg: Segment) {
    match seg
    case Literal(q) => q < |s| && MatchAt(p, s, q).None?
    case Matched(m) => m.start <= |s| && MatchAt(p, s, m.start) == Some(m)
  }

  predicate AllOk(p: Pattern, s: string, segs: seq<Segment>)
    decreases |segs|
  {
    segs == [] || (SegmentOk(p, s, segs[0]) && AllOk(p, s, segs[1..]))
  }

  /**
   * The scan of `re.sub`: try to match at `pos`; on a match, take it and
   * go on after it; otherwise keep one character and go on after that.
   */
  function Scan(p: Pattern, s: string, pos: nat): (r: seq<Segment>)
    requires pos <= |s|
    decreases |s| - pos
    ensures r == [] <==> pos == |s|
  {
    if pos == |s| then []
    else match MatchAt(p, s, pos)
      case Some(m) => [Matched(m)] + Scan(p, s, m.end)
      case None => [Literal(pos)] + Scan(p, s, pos + 1)
  }

  lemma {:induction false} ScanAtMatch(p: Pattern, s: string, pos: nat)
    requires pos < |s| && MatchAt(p, s, pos).Some?
    ensures Scan(p, s, pos) == [Matched(MatchAt(p, s, pos).value)] + Scan(p, s, MatchAt(p, s, pos).value.end)
  {
  }

  lemma {:induction false} ScanAtLiteral(p: Pattern, s: string, pos: nat)
    requires pos < |s| && MatchAt(p, s, pos).None?
    ensures Scan(p, s, pos) == [Literal(pos)] + Scan(p, s, pos + 1)
  {
  }

  /** The scan cuts `s[pos..]` into pieces, each of them a place where `p` does not match or the match `p` makes. */
  lemma {:induction false} ScanCovers(p: Pattern, s: string, pos: nat)
    requires pos <= |s|
    ensures Covers(Scan(p, s, pos), pos, |s|) && AllOk(p, s, Scan(p, s, pos))
    decreases |s| - pos
  {
    if pos < |s| {
      var found := MatchAt(p, s, pos);
      var seg, next := if found.Some? then Matched(found.value) else Literal(pos),
                       if found.Some? then found.value.end else pos + 1;
      var rest := Scan(p, s, next);
      ScanCovers(p, s, next);
      assert Scan(p, s, pos) == [seg] + rest;
      assert ([seg] + rest)[1..] == rest;
    }
  }

  /**
   * The scan is the only cutting of `s[pos..]` into pieces that cover it,
   * where no match is skipped and every match is the one `p` makes.
   */
  lemma {:induction false} ScanUnique(p: Pattern, s: string, pos: nat, segs: seq<Segment>)
    requires pos <= |s| && Covers(segs, pos, |s|) && AllOk(p, s, segs)
    ensures segs == Scan(p, s, pos)
    decreases |segs|
  {
    if segs != [] {
      var rest := segs[1..];
      match segs[0]
      case Literal(q) =>
        ScanUnique(p, s, pos + 1, rest);
        ScanAtLiteral(p, s, pos);
        ConsEqual(segs, Scan(p, s, pos), Scan(p, s, pos + 1));
      case Matched(m) =>
        ScanUnique(p, s, m.end, rest);
        ScanAtMatch(p, s, pos);
        ConsEqual(segs, Scan(p, s, pos), Scan(p, s, m.end));
    }
  }

  lemma {:induction false} ConsEqual(segs: seq<Segment>, t: seq<Segment>, rest: seq<Segment>)
    requires segs != [] && segs[1..] == rest && t == [segs[0]] + rest
    ensures segs == t
  {
    assert segs == [segs[0]] + segs[1..];
  }

  /** The text of one piece, as it is in `s`. */
  function Text(s: string, seg: Segment): string {
    match seg
    case Literal(q) => Slice(s, q, q + 1)
    case Matched(m) => Slice(s, m.start, m.end)
  }

  /** The text of the pieces, as they are in `s`. */
  function Pieces(s: string, segs: seq<Segment>): string {
    if segs == [] then "" else Text(s, segs[0]) + Pieces(s, segs[1..])
  }

  /** Pieces that cover a text put together give back the text. */
  lemma {:induction false} PiecesCover(s: string, segs: seq<Segment>, from: nat)
    requires from <= |s| && Covers(segs, from, |s|)
    ensures Pieces(s, segs) == s[from..]
    decreases |segs|
  {
    if segs != [] {
      match segs[0]
      case Literal(q) =>
        PiecesCover(s, segs[1..], from + 1);
        assert s[from..] == s[from..from + 1] + s[from + 1..];
      case Matched(m) =>
        PiecesCover(s, segs[1..], m.end);
        assert s[from..] == s[from..m.end] + s[m.end..];
    }
  }
}
