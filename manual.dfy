/**
 * The manual builder's main block: the Markdown files of the `papers`
 * tree are listed in walk order, ordered by `sort_func`, and each is
 * rewritten by the link pass and then the heading pass, rendered, and
 * wrapped in a `<section>` of its own; the sections, in order, are the
 * body of the HTML template.
 *
 * The walk, the files' contents, the Markdown renderer and the template
 * text are inputs of the model.
 */
module Manual {
  import opened Wrappers
  import opened Strings
  import opened Paths
  import opened Ordering
  import opened Links
  import opened Relink
  import opened Headings

  /** One entry `(base_dir, subfolders, files)` of `os.walk('papers')`. */
  datatype WalkEntry = WalkEntry(baseDir: string, subfolders: seq<string>, files: seq<string>)

  /** What stops the run: a listed file that `open` cannot read. */
  datatype Error = FileNotFound(path: string)

  /** `markdown.markdown(data, extensions=[GithubFlavoredMarkdownExtension()])` */
  type Renderer = string -> string

  // ------------------------------------------------------------ discovery

  /** `x.lower().endswith('.md')` */
  predicate IsMarkdown(name: string) {
    EndsWith(Lower(name), ".md")
  }

  /** A name is kept exactly when it ends in `.md` in any mix of cases. */
  lemma {:induction false} IsMarkdownWhen(name: string)
    ensures IsMarkdown(name) <==>
      |name| >= 3 && name[|name| - 3] == '.' &&
      (name[|name| - 2] == 'm' || name[|name| - 2] == 'M') &&
      (name[|name| - 1] == 'd' || name[|name| - 1] == 'D')
  {
    var l := Lower(name);
    if |name| >= 3 {
      var n := |name|;
      assert l[n - 3..] == [l[n - 3], l[n - 2], l[n - 1]];
      LowerIs(name[n - 3], '.', '.');
      LowerIs(name[n - 2], 'm', 'M');
      LowerIs(name[n - 1], 'd', 'D');
    }
  }

  /** The characters that lower-case to the lower-case letter or symbol `lo` are `lo` and `up`. */
  lemma {:induction false} LowerIs(c: char, lo: char, up: char)
    requires (lo == '.' && up == '.') || (lo == 'm' && up == 'M') || (lo == 'd' && up == 'D')
    ensures LowerChar(c) == lo <==> c == lo || c == up
  {
  }

  /** `filter(lambda x: x.lower().endswith('.md'), files)` */
  function MarkdownNames(files: seq<string>): seq<string>
    decreases |files|
  {
    if files == [] then []
    else
      var n := |files| - 1;
      MarkdownNames(files[..n]) + (if IsMarkdown(files[n]) then [files[n]] else [])
  }

  /** `os.path.join(dir, f)` for each name `f` of `names`, in order. */
  function JoinAll(dir: string, names: seq<string>): seq<string> {
    seq(|names|, k requires 0 <= k < |names| => PathJoin(dir, names[k]))
  }

  /** The paths one directory of the walk contributes. */
  function Contributed(e: WalkEntry): seq<string> {
    JoinAll(e.baseDir, MarkdownNames(e.files))
  }

  /** The `file_list` the walk builds: each directory's Markdown files, directory by directory. */
  function Discovered(walk: seq<WalkEntry>): seq<string>
    decreases |walk|
  {
    if walk == [] then []
    else
      var n := |walk| - 1;
      Discovered(walk[..n]) + Contributed(walk[n])
  }

  lemma {:induction false} MarkdownNamesStep(files: seq<string>, j: nat)
    requires j < |files|
    ensures MarkdownNames(files[..j + 1]) ==
      MarkdownNames(files[..j]) + (if IsMarkdown(files[j]) then [files[j]] else [])
  {
    var f := files[..j + 1];
    assert f[..j] == files[..j];
  }

  lemma {:induction false} JoinAllSnoc(dir: string, names: seq<string>, f: string)
    ensures JoinAll(dir, names + [f]) == JoinAll(dir, names) + [PathJoin(dir, f)]
  {
  }

  lemma {:induction false} JoinAllEmpty(dir: string)
    ensures JoinAll(dir, []) == []
  {
  }

  lemma {:induction false} DiscoveredStep(walk: seq<WalkEntry>, i: nat)
    requires i < |walk|
    ensures Discovered(walk[..i + 1]) == Discovered(walk[..i]) + Contributed(walk[i])
  {
    var w := walk[..i + 1];
    assert w[..i] == walk[..i];
  }

  lemma {:induction false} InSnoc(a: seq<string>, b: seq<string>, c: seq<string>, x: string)
    requires c == a + b
    ensures x in c <==> x in a || x in b
  {
  }

  /** A name of the directory is kept exactly when its lower-cased form ends with `.md`. */
  lemma {:induction false} MarkdownNamesIff(files: seq<string>, f: string)
    ensures f in MarkdownNames(files) <==> f in files && IsMarkdown(f)
    decreases |files|
  {
    if files != [] {
      var n := |files| - 1;
      var init, last := files[..n], files[n];
      MarkdownNamesIff(init, f);
      InSnoc(MarkdownNames(init), if IsMarkdown(last) then [last] else [], MarkdownNames(files), f);
      InSnoc(init, [last], files, f);
      assert files == init + [last];
    }
  }

  /** Filtering two lists one after the other is filtering them joined: kept names stay in walk order. */
  lemma {:induction false} MarkdownNamesAppend(a: seq<string>, b: seq<string>)
    ensures MarkdownNames(a + b) == MarkdownNames(a) + MarkdownNames(b)
    decreases |b|
  {
    if b == [] {
      assert a + b == a;
    } else {
      var n := |b| - 1;
      var ab, init := a + b, b[..n];
      var tail := if IsMarkdown(b[n]) then [b[n]] else [];
      assert ab[..|ab| - 1] == a + init && ab[|ab| - 1] == b[n];
      MarkdownNamesAppend(a, init);
      assert MarkdownNames(ab) == (MarkdownNames(a) + MarkdownNames(init)) + tail;
      assert MarkdownNames(b) == MarkdownNames(init) + tail;
    }
  }

  /** A list of Markdown names passes the filter whole. */
  lemma {:induction false} MarkdownNamesAll(files: seq<string>)
    requires forall j :: 0 <= j < |files| ==> IsMarkdown(files[j])
    ensures MarkdownNames(files) == files
    decreases |files|
  {
    if files != [] {
      var n := |files| - 1;
      var init := files[..n];
      assert forall j :: 0 <= j < |init| ==> init[j] == files[j];
      MarkdownNamesAll(init);
      assert files == init + [files[n]];
    }
  }

  /** Some directory of the walk contributes `x`. */
  ghost predicate FromSomeDir(walk: seq<WalkEntry>, x: string) {
    exists i :: 0 <= i < |walk| && x in Contributed(walk[i])
  }

  lemma {:induction false} FromSomeDirSnoc(walk: seq<WalkEntry>, init: seq<WalkEntry>, e: WalkEntry, x: string)
    requires walk != [] && init == walk[..|walk| - 1] && e == walk[|walk| - 1]
    ensures FromSomeDir(walk, x) <==> FromSomeDir(init, x) || x in Contributed(e)
  {
    if FromSomeDir(init, x) {
      var i :| 0 <= i < |init| && x in Contributed(init[i]);
      assert walk[i] == init[i];
    }
    if FromSomeDir(walk, x) {
      var i :| 0 <= i < |walk| && x in Contributed(walk[i]);
      if i < |init| {
        assert init[i] == walk[i];
      }
    }
  }

  /** A path is discovered exactly when some directory of the walk contributes it. */
  lemma {:induction false} DiscoveredIff(walk: seq<WalkEntry>, x: string)
    ensures x in Discovered(walk) <==> FromSomeDir(walk, x)
    decreases |walk|
  {
    if walk != [] {
      var n := |walk| - 1;
      var init, e := walk[..n], walk[n];
      DiscoveredIff(init, x);
      FromSomeDirSnoc(walk, init, e, x);
      InSnoc(Discovered(init), Contributed(e), Discovered(walk), x);
    }
  }

  /** The two nested loops over the walk that fill `file_list`. */
  method DiscoverFiles(walk: seq<WalkEntry>) returns (fileList: seq<string>)
    ensures fileList == Discovered(walk)
  {
    fileList := [];
    var i := 0;
    while i < |walk|
      invariant 0 <= i <= |walk|
      invariant fileList == Discovered(walk[..i])
    {
      var e := walk[i];
      var j := 0;
      assert e.files[..0] == [];
      JoinAllEmpty(e.baseDir);
      while j < |e.files|
        invariant 0 <= j <= |e.files|
        invariant fileList == Discovered(walk[..i]) + JoinAll(e.baseDir, MarkdownNames(e.files[..j]))
      {
        MarkdownNamesStep(e.files, j);
        if IsMarkdown(e.files[j]) {
          JoinAllSnoc(e.baseDir, MarkdownNames(e.files[..j]), e.files[j]);
          fileList := fileList + [PathJoin(e.baseDir, e.files[j])];
        } else {
          assert MarkdownNames(e.files[..j + 1]) == MarkdownNames(e.files[..j]);
        }
        j := j + 1;
      }
      assert e.files[..j] == e.files;
      DiscoveredStep(walk, i);
      i := i + 1;
    }
    assert walk[..i] == walk;
  }

  // ------------------------------------------------------------- sections

  /** A file's text after the link pass and then the heading pass. */
  function Rewritten(file: string, data: string): string {
    HeadingPass(LinkPass(file, data))
  }

  /** `my_file.replace(os.path.sep, "__")` */
  function SectionId(file: string): string {
    AnchorId(file)
  }

  /** `'<section id="%s">%s</section>' % (id, html)` */
  function Section(id: string, html: string): string {
    "<section id=\"" + id + "\">" + html + "</section>"
  }

  /** The section one file with text `data` becomes. */
  function FileSection(file: string, data: string, render: Renderer): string {
    Section(SectionId(file), render(Rewritten(file, data)))
  }

  /**
   * The `html` the loop over `files` accumulates, or the first of them
   * that cannot be opened; `contents` holds the text of each readable file.
   */
  function Body(files: seq<string>, contents: map<string, string>, render: Renderer): Result<string, Error>
    decreases |files|
  {
    if files == [] then Success("")
    else
      var n := |files| - 1;
      match Body(files[..n], contents, render)
      case Failure(e) => Failure(e)
      case Success(html) =>
        if files[n] in contents then Success(html + FileSection(files[n], contents[files[n]], render))
        else Failure(FileNotFound(files[n]))
  }

  /** Every file in the list can be read. */
  predicate Readable(files: seq<string>, contents: map<string, string>) {
    forall j :: 0 <= j < |files| ==> files[j] in contents
  }

  /** One section per file, the first file's first. */
  function Sections(files: seq<string>, contents: map<string, string>, render: Renderer): string
    requires Readable(files, contents)
    decreases |files|
  {
    if files == [] then ""
    else FileSection(files[0], contents[files[0]], render) + Sections(files[1..], contents, render)
  }

  lemma {:induction false} BodyStep(files: seq<string>, contents: map<string, string>, render: Renderer, i: nat)
    requires i < |files|
    ensures Body(files[..i + 1], contents, render) ==
      match Body(files[..i], contents, render)
      case Failure(e) => Failure(e)
      case Success(html) =>
        if files[i] in contents then Success(html + FileSection(files[i], contents[files[i]], render))
        else Failure(FileNotFound(files[i]))
  {
    var f := files[..i + 1];
    assert f[..i] == files[..i];
  }

  /** A section appended to the sections of `xs`. */
  lemma {:induction false} SectionsSnoc(xs: seq<string>, y: string, ys: seq<string>, contents: map<string, string>, render: Renderer)
    requires ys == xs + [y] && Readable(ys, contents)
    ensures Readable(xs, contents) && y in contents
    ensures Sections(ys, contents, render) == Sections(xs, contents, render) + FileSection(y, contents[y], render)
    decreases |xs|
  {
    assert forall j :: 0 <= j < |xs| ==> xs[j] == ys[j];
    assert ys[|xs|] == y;
    if xs != [] {
      var t := xs[1..];
      var yt := ys[1..];
      assert yt == t + [y];
      assert forall j :: 0 <= j < |yt| ==> yt[j] == ys[j + 1];
      SectionsSnoc(t, y, yt, contents, render);
      var h := FileSection(xs[0], contents[xs[0]], render);
      assert ys[0] == xs[0];
      AppendAssoc(h, Sections(t, contents, render), FileSection(y, contents[y], render));
    }
  }

  /** When every file can be read, the body is the files' sections in list order. */
  lemma {:induction false} BodyIsSections(files: seq<string>, contents: map<string, string>, render: Renderer)
    requires Readable(files, contents)
    ensures Body(files, contents, render) == Success(Sections(files, contents, render))
    decreases |files|
  {
    if files != [] {
      var n := |files| - 1;
      var init := files[..n];
      assert files == init + [files[n]];
      SectionsSnoc(init, files[n], files, contents, render);
      BodyIsSections(init, contents, render);
    }
  }

  /** Once a prefix of the list fails, so does the whole list, with the same error. */
  lemma {:induction false} BodyFailureStays(files: seq<string>, contents: map<string, string>, render: Renderer, k: nat)
    requires k <= |files| && Body(files[..k], contents, render).Failure?
    ensures Body(files, contents, render) == Body(files[..k], contents, render)
    decreases |files| - k
  {
    if k < |files| {
      BodyStep(files, contents, render, k);
      BodyFailureStays(files, contents, render, k + 1);
    } else {
      assert files[..k] == files;
    }
  }

  /** The body fails exactly when some file cannot be read, and then names the first such file. */
  lemma {:induction false} BodyFailsAtFirstMissing(files: seq<string>, contents: map<string, string>, render: Renderer, k: nat)
    requires k < |files| && files[k] !in contents && Readable(files[..k], contents)
    ensures Body(files, contents, render) == Failure(FileNotFound(files[k]))
  {
    BodyIsSections(files[..k], contents, render);
    BodyStep(files, contents, render, k);
    BodyFailureStays(files, contents, render, k + 1);
  }

  /** The loop over the sorted list that grows `html` one section at a time. */
  method AssembleBody(files: seq<string>, contents: map<string, string>, render: Renderer)
    returns (r: Result<string, Error>)
    ensures r == Body(files, contents, render)
  {
    var html := "";
    var i := 0;
    assert files[..0] == [];
    while i < |files|
      invariant 0 <= i <= |files|
      invariant Body(files[..i], contents, render) == Success(html)
    {
      var myFile := files[i];
      BodyStep(files, contents, render, i);
      if myFile !in contents {
        BodyFailureStays(files, contents, render, i + 1);
        return Failure(FileNotFound(myFile));
      }
      var data := contents[myFile];
      data := LinkPass(myFile, data);
      data := HeadingPass(data);
      html := html + Section(SectionId(myFile), render(data));
      i := i + 1;
    }
    assert files[..i] == files;
    return Success(html);
  }

  // ------------------------------------------------------------- the run

  /** The whole run: the template's text around the body, or the error that stopped it. */
  function Build(walk: seq<WalkEntry>, contents: map<string, string>, render: Renderer,
                 prefix: string, suffix: string): Result<string, Error>
  {
    match Body(SortFiles(Discovered(walk)), contents, render)
    case Failure(e) => Failure(e)
    case Success(html) => Success(prefix + html + suffix)
  }

  /** The main block: list the files, sort them, assemble the body and fill in the template. */
  method BuildManual(walk: seq<WalkEntry>, contents: map<string, string>, render: Renderer,
                     prefix: string, suffix: string) returns (r: Result<string, Error>)
    ensures r == Build(walk, contents, render, prefix, suffix)
  {
    var fileList := DiscoverFiles(walk);
    fileList := SortFiles(fileList);
    var html := AssembleBody(fileList, contents, render);
    match html
    case Failure(e) => r := Failure(e);
    case Success(h) => r := Success(prefix + h + suffix);
  }

  /**
   * When every listed file can be read, the manual is the template's text
   * around one section per discovered file, in the order `sort_func`
   * gives them.
   */
  lemma {:induction false} BuildSections(walk: seq<WalkEntry>, contents: map<string, string>, render: Renderer,
                                         prefix: string, suffix: string)
    requires Readable(SortFiles(Discovered(walk)), contents)
    ensures Build(walk, contents, render, prefix, suffix) ==
      Success(prefix + Sections(SortFiles(Discovered(walk)), contents, render) + suffix)
  {
    BodyIsSections(SortFiles(Discovered(walk)), contents, render);
  }

  /** A walk that finds no Markdown file gives the bare template. */
  lemma {:induction false} BuildEmpty(walk: seq<WalkEntry>, contents: map<string, string>, render: Renderer,
                                      prefix: string, suffix: string)
    requires Discovered(walk) == []
    ensures Build(walk, contents, render, prefix, suffix) == Success(prefix + suffix)
  {
    assert SortFiles([]) == [];
    assert prefix + "" == prefix;
  }

  // ------------------------------------------------------ links to sections

  /**
   * A relative link from the file `a` in the directory `ds` to the file
   * reached by `n` steps up and then the names `names` becomes a link to
   * the anchor `#` + the section id that file receives.
   */
  lemma {:induction false} RelativeLinkToSection(ds: seq<string>, a: string, n: nat, names: seq<string>,
                                                 text: string, whole: string)
    requires |ds| >= 1 && AllPlain(ds) && Plain(a) && n <= |ds| && names != [] && AllPlain(names)
    requires Ext(JoinSegs(Ups(n) + names)) != ".png" && !StartsWith(JoinSegs(Ups(n) + names), "http")
    ensures RewriteLink(PathJoin(JoinSegs(ds), a), text, JoinSegs(Ups(n) + names), whole) ==
      LinkTo(text, "#" + SectionId(JoinSegs(ds[..|ds| - n] + names)))
  {
    var dir, rel := JoinSegs(ds), Ups(n) + names;
    var file, target := PathJoin(dir, a), JoinSegs(rel);
    var kept := ds[..|ds| - n];
    FileDir(ds, a, dir, file);
    RelativeLink(file, text, target, whole);
    ResolvedTarget(ds, n, names, rel, dir, target, kept);
  }

  /** The file `a` of directory `ds` is at `dir/a`, and its directory is `dir`. */
  lemma {:induction false} FileDir(ds: seq<string>, a: string, dir: string, file: string)
    requires |ds| >= 1 && AllPlain(ds) && Plain(a) && dir == JoinSegs(ds) && file == PathJoin(dir, a)
    ensures file == dir + "/" + a && DirName(file) == dir
  {
    JoinLast(ds);
    assert !StartsWith(a, "/") by { assert a[0] != '/'; }
    DirNameOfChild(dir, a);
  }

  /** `normpath(dir + '/' + target)` is the directory climbed `n` levels, then the names. */
  lemma {:induction false} ResolvedTarget(ds: seq<string>, n: nat, names: seq<string>, rel: seq<string>,
                                          dir: string, target: string, kept: seq<string>)
    requires |ds| >= 1 && AllPlain(ds) && n <= |ds| && names != [] && AllPlain(names)
    requires rel == Ups(n) + names && dir == JoinSegs(ds) && target == JoinSegs(rel) && kept == ds[..|ds| - n]
    ensures Normalize(dir + "/" + target) == JoinSegs(kept + names)
  {
    var all := ds + rel;
    var p := dir + "/" + target;
    JoinAppend(ds, rel);
    ClimbNoSlashes(ds, n, names, rel, all);
    SplitJoin(all);
    ResolveRelative(ds, n, names);
    NormalizeTo(p, all, kept + names);
  }

  /** The components of the directory, the `..` steps and the names have no `/`, in order. */
  lemma {:induction false} ClimbNoSlashes(ds: seq<string>, n: nat, names: seq<string>, rel: seq<string>, all: seq<string>)
    requires AllPlain(ds) && AllPlain(names) && rel == Ups(n) + names && all == ds + rel
    ensures NoSlashes(all) && |all| >= 1 + |names| - 1 && all == ds + Ups(n) + names
  {
    forall i | 0 <= i < |all| ensures '/' !in all[i] {
      if i < |ds| {
        assert all[i] == ds[i];
      } else if i < |ds| + n {
        assert all[i] == Ups(n)[i - |ds|];
      } else {
        assert all[i] == names[i - |ds| - n];
      }
    }
    assert ds + Ups(n) + names == ds + (Ups(n) + names);
  }

  /** A path whose components resolve to a non-empty list normalises to that list, joined. */
  lemma {:induction false} NormalizeTo(p: string, all: seq<string>, comps: seq<string>)
    requires Split(p) == all && Resolve([], all) == comps && comps != []
    ensures Normalize(p) == JoinSegs(comps)
  {
  }
}
