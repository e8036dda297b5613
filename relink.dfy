/**
 * The link pass `re.sub(r'\[(.+?)\]\((.+?)\)', fix_links, data)`: every
 * markdown link of a file's text rewritten by `fix_links` (module Links).
 */
module Relink {
  import opened Strings
  import opened Regex
  import opened Rewrite
  import opened Links

  /** `fix_links` as the pass's callback, for the file being processed. */
  function FixLinks(file: string): Callback {
    (s: string, m: Match) => RewriteLink(file, Group(s, m, 1), Group(s, m, 2), Group(s, m, 0))
  }

  /** The link pass over the text of `file`. */
  function LinkPass(file: string, s: string): string {
    Substitute(LinkPattern, FixLinks(file), s)
  }


  /** A text whose every link goes to an external URL passes the link pass unchanged. */
  lemma {:induction false} ExternalLinksUnchanged(file: string, s: string)
    requires forall q :: 0 <= q <= |s| && MatchAt(LinkPattern, s, q).Some? ==>
      Classify(Group(s, MatchAt(LinkPattern, s, q).value, 2)) == ExternalUrl
    ensures LinkPass(file, s) == s
  {
    IdentityUnchanged(LinkPattern, FixLinks(file), s);
  }

  /** Where the label and the target of `[text](target)` lie. */
  lemma {:induction false} LinkLayout(text: string, target: string, s: string, j: nat, k: nat)
    requires s == LinkTo(text, target) && j == |text| + 1 && k + 1 == |s|
    ensures k == j + 2 + |target|
    ensures s[1..j] == text && s[j + 2..k] == target
    ensures s[0] == '[' && s[j] == ']' && s[j + 1] == '(' && s[k] == ')'
  {
    var a := "[" + text;
    var b := a + "](";
    var c := b + target;
    assert s == c + ")";
    ConcatParts(c, ")");
    ConcatParts(b, target);
    ConcatParts(a, "](");
    ConcatParts("[", text);
    assert s[j + 2..k] == c[j + 2..];
    assert s[1..j] == a[1..];
  }

  /**
   * A text that is one link `[text](target)`, with no `]` in the text, no
   * `)` in the target and no newline in either, becomes what `fix_links`
   * makes of that link.
   */
  lemma {:induction false} SingleLink(file: string, text: string, target: string)
    requires text != "" && target != ""
    requires '\n' !in text && '\n' !in target && ']' !in text && ')' !in target
    ensures LinkPass(file, LinkTo(text, target)) == RewriteLink(file, text, target, LinkTo(text, target))
  {
    var s := LinkTo(text, target);
    SubstituteSteps(LinkPattern, FixLinks(file), s);
    var j, k := |text| + 1, |s| - 1;
    LinkLayout(text, target, s, j, k);
    assert forall q :: 1 <= q < j ==> s[q] == text[q - 1];
    assert forall q :: j + 2 <= q < k ==> s[q] == target[q - j - 2];
    LinkAtPlain(s, 0, j, k);
    var m := Match(0, k + 1, [Span(1, j), Span(j + 2, k)]);
    assert s[0..|s|] == s;
    calc {
      SubFrom(LinkPattern, FixLinks(file), s, 0);
      { SubAtMatch(LinkPattern, FixLinks(file), s, 0); }
      FixLinks(file)(s, m) + SubFrom(LinkPattern, FixLinks(file), s, |s|);
      RewriteLink(file, text, target, s);
    }
  }
}
