/**
 * `fix_links`: what a Markdown link or image `[text](target)` in one
 * file of the manual becomes, so that links keep working inside the one
 * document the files are merged into.
 */
module Links {
  import opened Strings
  import opened Paths

  /** Links into the project's repository are links to other pages of the manual. */
  const BaseUrl := "https://" + "github.com/" + "tildearrow/furnace/" + "tree/master/"

  /** The four cases of `fix_links`. */
  datatype TargetKind = Image | RepoFile(path: string) | ExternalUrl | RelativePath

  /** The file a repository URL names; a directory stands for its README. */
  function RepoPath(target: string): string {
    var p := LastPiece(target, BaseUrl);
    if Ext(p) == "" then p + "/README.md" else p
  }

  /** The case a target falls in, tested in the order the source tests them. */
  function Classify(target: string): TargetKind {
    if Ext(target) == ".png" then Image
    else if StartsWith(target, BaseUrl) then RepoFile(RepoPath(target))
    else if StartsWith(target, "http") then ExternalUrl
    else RelativePath
  }

  /** The Markdown link `[text](dest)`. */
  function LinkTo(text: string, dest: string): string {
    "[" + text + "](" + dest + ")"
  }

  /** The anchor of a path relative to the working directory. */
  function Anchor(path: string): string {
    "#" + AnchorId(path)
  }

  /**
   * `fix_links` for the match `whole`, which is `[text](target)`, found
   * in `file` (the source reads `file` from a global).
   */
  function RewriteLink(file: string, text: string, target: string, whole: string): string {
    match Classify(target)
    case Image => LinkTo(text, PathJoin(DirName(file), target))
    case RepoFile(p) => LinkTo(text, Anchor(p))
    case ExternalUrl => whole
    case RelativePath => LinkTo(text, Anchor(Normalize(DirName(file) + "/" + target)))
  }

  /**
   * A target is an image exactly when its last component ends in `.png`
   * after a stem: the test is case-sensitive, ignores any `http` prefix,
   * and a name that is only dots before `.png` has no extension.
   */
  lemma {:induction false} ImageWhen(target: string)
    ensures Classify(target) == Image <==>
      EndsWith(target, ".png") && HasStem(target[..|target| - 4])
  {
    ExtIs(target, ".png");
  }

  /** An image keeps its text and is resolved against the file's directory, without normalisation. */
  lemma {:induction false} ImageLink(file: string, text: string, target: string, whole: string)
    requires EndsWith(target, ".png") && HasStem(target[..|target| - 4])
    ensures RewriteLink(file, text, target, whole) == LinkTo(text, PathJoin(DirName(file), target))
    ensures StartsWith(target, "/") ==> RewriteLink(file, text, target, whole) == LinkTo(text, target)
  {
    ImageWhen(target);
  }

  /** The base URL has `h` at 0 and 11 only, followed by `t` and `u`. */
  lemma {:induction false} BaseUrlLetters()
    ensures |BaseUrl| == 50
    ensures BaseUrl[0] == 'h' && BaseUrl[1] == 't' && BaseUrl[11] == 'h' && BaseUrl[12] == 'u'
  {
  }

  /** The base URL around its second `h`. */
  lemma {:induction false} BaseUrlParts()
    ensures BaseUrl[1..11] == "ttps://git"
    ensures BaseUrl[12..] == "ub.com/" + "tildearrow/furnace/" + "tree/master/"
  {
  }

  lemma {:induction false} NoLetterH()
    ensures 'h' !in "ttps://git"
    ensures 'h' !in "ub.com/" + "tildearrow/furnace/" + "tree/master/"
  {
    var u, v, w := "ub.com/", "tildearrow/furnace/", "tree/master/";
    assert 'h' !in u && 'h' !in v && 'h' !in w;
  }

  lemma {:induction false} BaseUrlOtherLetters(d: nat)
    requires 0 < d < |BaseUrl| && d != 11
    ensures BaseUrl[d] != 'h'
  {
    BaseUrlParts();
    NoLetterH();
    var b := BaseUrl;
    if d < 11 {
      assert b[d] == b[1..11][d - 1];
    } else {
      assert b[d] == b[12..][d - 12];
    }
  }

  /** The base URL cannot overlap itself: its only other `h` is not followed by `t`. */
  lemma {:induction false} BaseUrlUnbordered()
    ensures Unbordered(BaseUrl)
  {
    var b := BaseUrl;
    BaseUrlLetters();
    forall d | 0 < d < |b|
      ensures b[d..] != b[..|b| - d]
    {
      if d == 11 {
        assert b[d..][1] != b[..|b| - d][1];
      } else {
        BaseUrlOtherLetters(d);
        assert b[d..][0] != b[..|b| - d][0];
      }
    }
  }

  /**
   * A link to the repository becomes the anchor of the page named by what
   * follows the last occurrence of the base URL, with `/README.md` added
   * to a path without extension.
   */
  lemma {:induction false} RepoLink(file: string, text: string, target: string, x: string, p: string, whole: string)
    requires target == x + BaseUrl + p && StartsWith(target, BaseUrl)
    requires !Contains(p, BaseUrl) && Ext(target) != ".png"
    ensures RewriteLink(file, text, target, whole) ==
      LinkTo(text, Anchor(if Ext(p) == "" then p + "/README.md" else p))
  {
    var k := |x|;
    assert OccursAt(target, BaseUrl, k) && p == target[k + |BaseUrl|..] by {
      OccursSlice(target, BaseUrl, k);
      assert target[k..k + |BaseUrl|] == BaseUrl;
    }
    BaseUrlUnbordered();
    LastPieceAt(target, BaseUrl, k, p);
    ClassifyRepo(target);
    RewriteRepoKind(file, text, target, whole, RepoPath(target));
  }

  /** Any other `http` target leaves the whole match as it was. */
  lemma {:induction false} ExternalLink(file: string, text: string, target: string, whole: string)
    requires Ext(target) != ".png" && !StartsWith(target, BaseUrl) && StartsWith(target, "http")
    ensures RewriteLink(file, text, target, whole) == whole
  {
  }

  /** Every repository URL starts with `http`. */
  lemma {:induction false} BaseUrlIsHttp(target: string)
    requires StartsWith(target, BaseUrl)
    ensures StartsWith(target, "http")
  {
    assert BaseUrl[..4] == "http";
    assert target[..4] == target[..|BaseUrl|][..4];
  }

  lemma {:induction false} ClassifyRelative(target: string)
    requires Ext(target) != ".png" && !StartsWith(target, "http")
    ensures Classify(target) == RelativePath
  {
    NotHttpNotBase(target);
  }

  lemma {:induction false} RewriteRelativeKind(file: string, text: string, target: string, whole: string)
    requires Classify(target) == RelativePath
    ensures RewriteLink(file, text, target, whole) ==
      LinkTo(text, Anchor(Normalize(DirName(file) + "/" + target)))
  {
  }

  lemma {:induction false} RewriteRepoKind(file: string, text: string, target: string, whole: string, p: string)
    requires Classify(target) == RepoFile(p)
    ensures RewriteLink(file, text, target, whole) == LinkTo(text, Anchor(p))
  {
  }

  lemma {:induction false} ClassifyRepo(target: string)
    requires Ext(target) != ".png" && StartsWith(target, BaseUrl)
    ensures Classify(target) == RepoFile(RepoPath(target))
  {
  }

  lemma {:induction false} NotHttpNotBase(target: string)
    requires !StartsWith(target, "http")
    ensures !StartsWith(target, BaseUrl)
  {
    if StartsWith(target, BaseUrl) {
      BaseUrlIsHttp(target);
    }
  }

  /**
   * A relative target becomes the anchor of the normalised path of the
   * file's directory joined with it.
   */
  lemma {:induction false} RelativeLink(file: string, text: string, target: string, whole: string)
    requires Ext(target) != ".png" && !StartsWith(target, "http")
    ensures RewriteLink(file, text, target, whole) ==
      LinkTo(text, Anchor(Normalize(DirName(file) + "/" + target)))
  {
    ClassifyRelative(target);
    RewriteRelativeKind(file, text, target, whole);
  }
}
