/**
 * POSIX path handling as Python's `posixpath` does it, with `/` as the
 * only separator: `split`, `join`, `splitext`, the normalisation that
 * `relpath(abspath(p))` performs, and the `replace('/', '__')` that turns
 * a path into an anchor token.
 */
module Paths {
  import opened Wrappers
  import opened Strings

  /** `p.split('/')` */
  function Split(p: string): (r: seq<string>)
    ensures |r| >= 1
    ensures forall i :: 0 <= i < |r| ==> '/' !in r[i]
    decreases |p|
  {
    match Find(p, '/')
    case None => [p]
    case Some(i) => [p[..i]] + Split(p[i + 1..])
  }

  /** `'/'.join(segs)` */
  function JoinSegs(segs: seq<string>): string
  {
    if |segs| == 0 then ""
    else if |segs| == 1 then segs[0]
    else segs[0] + "/" + JoinSegs(segs[1..])
  }

  predicate NoSlashes(segs: seq<string>) {
    forall i :: 0 <= i < |segs| ==> '/' !in segs[i]
  }

  /** Splitting a joined path gives back its components. */
  lemma {:induction false} SplitJoin(segs: seq<string>)
    requires |segs| >= 1 && NoSlashes(segs)
    ensures Split(JoinSegs(segs)) == segs
  {
    if |segs| > 1 {
      var p, n, rest := JoinSegs(segs), |segs[0]|, segs[1..];
      JoinHead(segs, p, n, rest);
      FindAt(p, '/', n);
      SplitJoin(rest);
      assert Split(p) == [segs[0]] + Split(JoinSegs(rest));
      assert segs == [segs[0]] + rest;
    }
  }

  /** The first component of a joined path, and the separator after it. */
  lemma {:induction false} JoinHead(segs: seq<string>, p: string, n: nat, rest: seq<string>)
    requires |segs| > 1 && p == JoinSegs(segs) && n == |segs[0]| && rest == segs[1..] && '/' !in segs[0]
    ensures n < |p| && p[..n] == segs[0] && p[n] == '/' && p[n + 1..] == JoinSegs(rest)
    ensures forall k :: 0 <= k < n ==> p[k] != '/'
  {
    var u := JoinSegs(rest);
    assert p == segs[0] + "/" + u;
    assert p[..n] == segs[0];
    forall k | 0 <= k < n ensures p[k] != '/' {
      assert p[k] == segs[0][k];
    }
    assert p[n + 1..] == u;
  }

  /** The first `c` of `p` is at `i` when `p[i]` is `c` and none precedes. */
  lemma {:induction false} FindAt(p: string, c: char, i: nat)
    requires i < |p| && p[i] == c && forall k :: 0 <= k < i ==> p[k] != c
    ensures Find(p, c) == Some(i)
  {
  }

  /** Joining the components of a split path gives back the path. */
  lemma {:induction false} JoinSplit(p: string)
    ensures JoinSegs(Split(p)) == p
    decreases |p|
  {
    match Find(p, '/')
    case None =>
    case Some(i) =>
      var rest := Split(p[i + 1..]);
      JoinSplit(p[i + 1..]);
      assert ([p[..i]] + rest)[1..] == rest;
      assert JoinSegs([p[..i]] + rest) == p[..i] + "/" + JoinSegs(rest);
      assert p == p[..i] + "/" + p[i + 1..];
  }

  /** Joining two non-empty component lists puts one separator between them. */
  lemma {:induction false} JoinAppend(xs: seq<string>, ys: seq<string>)
    requires |xs| >= 1 && |ys| >= 1
    ensures JoinSegs(xs + ys) == JoinSegs(xs) + "/" + JoinSegs(ys)
  {
    if |xs| > 1 {
      assert (xs + ys)[1..] == xs[1..] + ys;
      JoinAppend(xs[1..], ys);
    }
  }

  /** A component that names a file or directory: not empty, `.` or `..`. */
  predicate Plain(c: string) {
    c != "" && c != "." && c != ".." && '/' !in c
  }

  predicate AllPlain(segs: seq<string>) {
    forall i :: 0 <= i < |segs| ==> Plain(segs[i])
  }

  /**
   * The normal form `posixpath.normpath` gives a relative path: no empty
   * or `.` components, and `..` only in a leading run.
   */
  predicate Canonical(st: seq<string>) {
    forall i :: 0 <= i < |st| ==>
      st[i] != "" && st[i] != "." && '/' !in st[i] &&
      (st[i] == ".." ==> forall j :: 0 <= j < i ==> st[j] == "..")
  }

  /** One turn of `normpath`'s loop over the components of a relative path. */
  function Step(stack: seq<string>, c: string): seq<string>
  {
    if c == "" || c == "." then stack
    else if c != ".." || stack == [] || stack[|stack| - 1] == ".." then stack + [c]
    else stack[..|stack| - 1]
  }

  function Resolve(stack: seq<string>, comps: seq<string>): seq<string>
    decreases |comps|
  {
    if comps == [] then stack else Resolve(Step(stack, comps[0]), comps[1..])
  }

  /**
   * `os.path.relpath(os.path.abspath(p))` for a relative path `p`:
   * `normpath` of `p`, with `.` for the working directory itself.
   */
  function Normalize(p: string): (r: string)
    ensures r == "." || Canonical(Split(r))
  {
    var comps := Resolve([], Split(p));
    ResolveCanonical([], Split(p));
    if comps == [] then "."
    else
      SplitJoin(comps);
      JoinSegs(comps)
  }

  /** Resolving components keeps a canonical stack canonical. */
  lemma {:induction false} ResolveCanonical(st: seq<string>, comps: seq<string>)
    requires Canonical(st) && NoSlashes(comps)
    ensures Canonical(Resolve(st, comps))
    decreases |comps|
  {
    if comps != [] {
      ResolveCanonical(Step(st, comps[0]), comps[1..]);
    }
  }

  /** A canonical component list resolves to itself. */
  lemma {:induction false} ResolveFixed(st: seq<string>, comps: seq<string>)
    requires Canonical(st + comps)
    ensures Resolve(st, comps) == st + comps
    decreases |comps|
  {
    if comps != [] {
      var c := comps[0];
      assert (st + comps)[|st|] == c;
      if c == ".." && st != [] {
        assert (st + comps)[|st| - 1] == st[|st| - 1];
      }
      assert Step(st, c) == st + [c];
      assert st + comps == (st + [c]) + comps[1..];
      ResolveFixed(st + [c], comps[1..]);
    }
  }

  /** A path already in normal form is left as it is. */
  lemma {:induction false} NormalizeFixed(p: string)
    requires Canonical(Split(p))
    ensures Normalize(p) == p
  {
    ResolveFixed([], Split(p));
    assert [] + Split(p) == Split(p);
    JoinSplit(p);
  }

  /** Normalising twice is normalising once. */
  lemma {:induction false} NormalizeIdempotent(p: string)
    ensures Normalize(Normalize(p)) == Normalize(p)
  {
    var n := Normalize(p);
    if n == "." {
      assert Split(".") == ["."];
      assert Resolve([], ["."]) == [];
    } else {
      NormalizeFixed(n);
    }
  }

  /** `n` parent references. */
  function Ups(n: nat): (r: seq<string>)
    ensures |r| == n && forall i :: 0 <= i < n ==> r[i] == ".."
  {
    if n == 0 then [] else [".."] + Ups(n - 1)
  }

  /** Each `..` removes the last plain component. */
  lemma {:induction false} ResolveUps(st: seq<string>, n: nat)
    requires AllPlain(st) && n <= |st|
    ensures Resolve(st, Ups(n)) == st[..|st| - n]
  {
    if n > 0 {
      assert Step(st, "..") == st[..|st| - 1];
      assert Ups(n)[1..] == Ups(n - 1);
      ResolveUps(st[..|st| - 1], n - 1);
      assert st[..|st| - 1][..|st| - 1 - (n - 1)] == st[..|st| - n];
    }
  }

  lemma {:induction false} ResolveAppend(st: seq<string>, xs: seq<string>, ys: seq<string>)
    ensures Resolve(st, xs + ys) == Resolve(Resolve(st, xs), ys)
    decreases |xs|
  {
    if xs != [] {
      assert (xs + ys)[0] == xs[0];
      assert (xs + ys)[1..] == xs[1..] + ys;
      ResolveAppend(Step(st, xs[0]), xs[1..], ys);
    } else {
      assert xs + ys == ys;
    }
  }

  /**
   * A directory joined with `../`-steps and plain names normalises to the
   * directory climbed that many levels, followed by the names.
   */
  lemma {:induction false} ResolveRelative(ds: seq<string>, n: nat, names: seq<string>)
    requires AllPlain(ds) && n <= |ds| && AllPlain(names)
    ensures Resolve([], ds + Ups(n) + names) == ds[..|ds| - n] + names
  {
    var ups := Ups(n);
    var kept := ds[..|ds| - n];
    calc {
      Resolve([], ds + ups + names);
      { assert ds + ups + names == ds + (ups + names); }
      Resolve([], ds + (ups + names));
      { ResolveAppend([], ds, ups + names); }
      Resolve(Resolve([], ds), ups + names);
      { ResolvePlain([], ds); assert [] + ds == ds; }
      Resolve(ds, ups + names);
      { ResolveAppend(ds, ups, names); }
      Resolve(Resolve(ds, ups), names);
      { ResolveUps(ds, n); }
      Resolve(kept, names);
      { assert AllPlain(kept) by { assert forall i :: 0 <= i < |kept| ==> kept[i] == ds[i]; }
        ResolvePlain(kept, names); }
      kept + names;
    }
  }

  /** Plain components are pushed one after the other. */
  lemma {:induction false} ResolvePlain(st: seq<string>, names: seq<string>)
    requires AllPlain(st) && AllPlain(names)
    ensures Resolve(st, names) == st + names
  {
    assert Canonical(st + names) by {
      forall i | 0 <= i < |st + names| ensures Plain((st + names)[i]) {
        if i < |st| { assert (st + names)[i] == st[i]; } else { assert (st + names)[i] == names[i - |st|]; }
      }
    }
    ResolveFixed(st, names);
  }

  /** Every character is `/`. */
  predicate AllSlashes(s: string) {
    forall i :: 0 <= i < |s| ==> s[i] == '/'
  }

  /** `s.rstrip('/')` */
  function TrimSlashes(s: string): (r: string)
    ensures |r| <= |s| && r == s[..|r|]
    ensures r == "" || r[|r| - 1] != '/'
  {
    if s != [] && s[|s| - 1] == '/' then TrimSlashes(s[..|s| - 1]) else s
  }

  /** `os.path.split(p)[0]` */
  function DirName(p: string): (r: string)
    ensures StartsWith(p, r)
  {
    var i := match RFind(p, '/') case None => 0 case Some(k) => k + 1;
    var head := p[..i];
    if head != "" && !AllSlashes(head) then TrimSlashes(head) else head
  }

  /** The directory of `d/a`, for a file name `a`, is `d`. */
  lemma {:induction false} DirNameOfChild(d: string, a: string)
    requires d != "" && d[|d| - 1] != '/' && '/' !in a
    ensures DirName(d + "/" + a) == d
  {
    var p := d + "/" + a;
    assert p[|d|] == '/';
    assert RFind(p, '/') == Some(|d|) by {
      forall k | |d| < k < |p| ensures p[k] != '/' {
        assert p[k] == a[k - |d| - 1];
      }
    }
    assert p[..|d| + 1] == d + "/";
    assert !AllSlashes(d + "/") by { assert (d + "/")[|d| - 1] != '/'; }
    assert (d + "/")[..|d|] == d;
    assert TrimSlashes(d) == d;
    assert TrimSlashes(d + "/") == TrimSlashes(d);
  }

  /** `os.path.join(a, b)` */
  function PathJoin(a: string, b: string): (r: string)
    ensures StartsWith(b, "/") ==> r == b
    ensures !StartsWith(b, "/") ==> EndsWith(r, b) && StartsWith(r, a)
  {
    if StartsWith(b, "/") then b
    else if a == "" || EndsWith(a, "/") then a + b
    else a + "/" + b
  }

  /** Joining a directory in normal form and a file name gives the joined components. */
  lemma {:induction false} PathJoinSegs(ds: seq<string>, a: string)
    requires |ds| >= 1 && AllPlain(ds) && Plain(a)
    ensures PathJoin(JoinSegs(ds), a) == JoinSegs(ds + [a])
  {
    JoinAppend(ds, [a]);
    JoinLast(ds);
    assert !StartsWith(a, "/") by { if |a| > 0 { assert a[0] != '/'; } }
  }

  /** A path of plain components neither is empty nor ends with `/`. */
  lemma {:induction false} JoinLast(ds: seq<string>)
    requires |ds| >= 1 && AllPlain(ds)
    ensures JoinSegs(ds) != "" && JoinSegs(ds)[|JoinSegs(ds)| - 1] == ds[|ds| - 1][|ds[|ds| - 1]| - 1]
  {
    if |ds| > 1 {
      JoinLast(ds[1..]);
    }
  }

  /** Every character is `.` */
  predicate AllDots(s: string) {
    forall i :: 0 <= i < |s| ==> s[i] == '.'
  }

  /**
   * `os.path.splitext(p)[1]`: from the last `.` of the last component,
   * provided that component has some character other than `.` before it.
   */
  function Ext(p: string): (r: string)
    ensures r == "" || (r[0] == '.' && EndsWith(p, r) && '/' !in r && '.' !in r[1..])
  {
    match RFind(p, '.')
    case None => ""
    case Some(dot) =>
      var start := match RFind(p, '/') case None => 0 case Some(sl) => sl + 1;
      if start <= dot && !AllDots(p[start..dot]) then
        assert forall q :: dot < q < |p| ==> p[q] != '/' && p[q] != '.';
        p[dot..]
      else ""
  }

  /** The last component of `b` has a character other than `.`. */
  ghost predicate HasStem(b: string) {
    exists q :: 0 <= q < |b| && b[q] != '.' && forall i :: q <= i < |b| ==> b[i] != '/'
  }

  /**
   * A path has extension `e` exactly when it ends with `e` and the last
   * component has a stem before it: a name made of dots alone has none.
   */
  lemma {:induction false} ExtIs(p: string, e: string)
    requires |e| >= 1 && e[0] == '.' && '.' !in e[1..] && '/' !in e
    ensures Ext(p) == e <==> EndsWith(p, e) && HasStem(p[..|p| - |e|])
  {
    if Ext(p) == e {
      ExtHasStem(p, e);
    }
    if EndsWith(p, e) && HasStem(p[..|p| - |e|]) {
      StemGivesExt(p, e);
    }
  }

  lemma {:induction false} ExtHasStem(p: string, e: string)
    requires e != "" && Ext(p) == e
    ensures EndsWith(p, e) && HasStem(p[..|p| - |e|])
  {
    var dot := RFind(p, '.').value;
    var start := match RFind(p, '/') case None => 0 case Some(sl) => sl + 1;
    assert start <= dot && !AllDots(p[start..dot]);
    var k :| 0 <= k < |p[start..dot]| && p[start..dot][k] != '.';
    var q := start + k;
    assert p[q] != '.';
    var b := p[..|p| - |e|];
    assert b[q] == p[q];
    forall i | q <= i < |b| ensures b[i] != '/' {
      assert b[i] == p[i];
    }
  }

  lemma {:induction false} StemGivesExt(p: string, e: string)
    requires |e| >= 1 && e[0] == '.' && '.' !in e[1..] && '/' !in e
    requires EndsWith(p, e) && HasStem(p[..|p| - |e|])
    ensures Ext(p) == e
  {
    var dot := |p| - |e|;
    var b := p[..dot];
    ExtTail(p, e, dot);
    RFindAt(p, '.', dot);
    var q :| 0 <= q < |b| && b[q] != '.' && forall i :: q <= i < |b| ==> b[i] != '/';
    StemNoSlash(p, b, dot, q);
    var start := match RFind(p, '/') case None => 0 case Some(sl) => sl + 1;
    assert start <= q;
    assert p[start..dot][q - start] == p[q];
  }

  /** The extension `e` that `p` ends with starts at a `.` and has no `.` or `/` after it. */
  lemma {:induction false} ExtTail(p: string, e: string, dot: nat)
    requires |e| >= 1 && e[0] == '.' && '.' !in e[1..] && '/' !in e
    requires EndsWith(p, e) && dot == |p| - |e|
    ensures p[dot..] == e && p[dot] == '.'
    ensures forall k :: dot < k < |p| ==> p[k] != '.' && p[k] != '/'
  {
    assert p[dot..] == e;
    assert p[dot] == '.' by { assert p[dot..][0] == e[0]; }
    forall k | dot < k < |p| ensures p[k] != '.' && p[k] != '/' {
      assert p[k] == e[k - dot];
      assert e[k - dot] == e[1..][k - dot - 1];
    }
  }

  /** The last `c` of `p` is at `i` when `p[i]` is `c` and none follows. */
  lemma {:induction false} RFindAt(p: string, c: char, i: nat)
    requires i < |p| && p[i] == c && forall k :: i < k < |p| ==> p[k] != c
    ensures RFind(p, c) == Some(i)
  {
  }

  /** From the stem's character at `q` on, `p` has no `/`. */
  lemma {:induction false} StemNoSlash(p: string, b: string, dot: nat, q: nat)
    requires dot <= |p| && b == p[..dot] && q < |b| && b[q] != '.'
    requires forall i :: q <= i < |b| ==> b[i] != '/'
    requires forall k :: dot < k < |p| ==> p[k] != '/'
    requires dot < |p| ==> p[dot] != '/'
    ensures p[q] != '.' && forall k :: q <= k < |p| ==> p[k] != '/'
  {
    assert p[q] == b[q];
    forall k | q <= k < |p| ensures p[k] != '/' {
      if k < dot { assert p[k] == b[k]; }
    }
  }

  /** `p.replace('/', '__')`: the flat anchor token of a path. */
  function AnchorId(p: string): (r: string)
    ensures '/' !in r
    ensures '/' !in p ==> r == p
  {
    if p == [] then [] else (if p[0] == '/' then "__" else [p[0]]) + AnchorId(p[1..])
  }

  lemma {:induction false} AnchorIdAppend(a: string, b: string)
    ensures AnchorId(a + b) == AnchorId(a) + AnchorId(b)
  {
    if a != [] {
      var ab, t := a + b, a[1..];
      var tb := t + b;
      var h := if a[0] == '/' then "__" else [a[0]];
      assert ab[0] == a[0] && ab[1..] == tb;
      AnchorIdAppend(t, b);
      assert AnchorId(ab) == h + AnchorId(tb);
      assert AnchorId(a) == h + AnchorId(t);
      AppendAssoc(h, AnchorId(t), AnchorId(b));
    } else {
      assert a + b == b;
    }
  }

  /** Two paths without `_` get the same anchor only if they are equal. */
  lemma {:induction false} AnchorIdInjective(a: string, b: string)
    requires '_' !in a && '_' !in b && AnchorId(a) == AnchorId(b)
    ensures a == b
  {
    if a != [] && b != [] {
      var ra, rb := AnchorId(a[1..]), AnchorId(b[1..]);
      assert a[0] == b[0] by {
        assert AnchorId(a)[0] == (if a[0] == '/' then '_' else a[0]);
        assert AnchorId(b)[0] == (if b[0] == '/' then '_' else b[0]);
      }
      var n := if a[0] == '/' then 2 else 1;
      assert ra == AnchorId(a)[n..] && rb == AnchorId(b)[n..];
      AnchorIdInjective(a[1..], b[1..]);
    }
  }

  /** With `_` in a name, a file in a directory and a flat name can share an anchor. */
  lemma {:induction false} AnchorIdCollision(d: string, f: string)
    requires '/' !in d && '/' !in f
    ensures d + "/" + f != d + "__" + f
    ensures AnchorId(d + "/" + f) == AnchorId(d + "__" + f)
  {
    var slash, flat := d + "/", d + "__";
    assert slash != flat by { assert |slash| != |flat|; }
    assert (d + "/" + f)[..|slash|] == slash;
    assert (d + "__" + f)[..|slash|] == d + "_";
    assert (d + "_")[|d|] != slash[|d|];
    var a := flat + f;
    AnchorIdAppend(slash, f);
    AnchorIdAppend(d, "/");
    AnchorIdSlash();
    assert AnchorId(slash) == flat;
    AnchorIdAppend(flat, f);
    AnchorIdAppend(d, "__");
    assert AnchorId(flat) == flat;
    assert AnchorId(d + "/" + f) == a;
    assert AnchorId(d + "__" + f) == a;
  }

  lemma {:induction false} AnchorIdSlash()
    ensures AnchorId("/") == "__"
  {
    assert "/"[1..] == "";
  }
}
