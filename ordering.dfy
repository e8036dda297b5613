/**
 * The order of the manual's sections: the key `sort_func` gives each
 * path, and the stable sort `file_list.sort(key=sort_func)` performs.
 */
module Ordering {
  import opened Wrappers
  import opened Strings
  import opened Lex

  /** The folder whose files make up the main part; everything else is an appendix. */
  const DocSegment := "/doc/"
  const Readme := "README.md"

  /** `sort_func(x)` */
  function SortKey(x: string): string
  {
    if IndexOf(x, DocSegment).None? then "z"
    else match IndexOf(x, Readme)
      case Some(rm) => x[..rm] + "0"
      case None => x
  }

  /** A path outside any `/doc/` folder gets the sentinel key `z`. */
  lemma {:induction false} SortKeyAppendix(x: string)
    requires !Contains(x, DocSegment)
    ensures SortKey(x) == "z"
  {
  }

  /** A `/doc/` path that mentions `README.md` is keyed by what precedes its first mention, and `0`. */
  lemma {:induction false} SortKeyReadme(x: string, i: nat)
    requires Contains(x, DocSegment)
    requires OccursAt(x, Readme, i) && forall j: nat :: j < i ==> !OccursAt(x, Readme, j)
    ensures SortKey(x) == x[..i] + "0"
  {
    var f := IndexOf(x, Readme);
    assert f.Some?;
    assert f.value == i by {
      assert !(f.value < i) && !(i < f.value);
    }
  }

  /** Any other `/doc/` path is its own key. */
  lemma {:induction false} SortKeyPlain(x: string)
    requires Contains(x, DocSegment) && !Contains(x, Readme)
    ensures SortKey(x) == x
  {
  }

  /** A non-empty list is its head followed by its tail. */
  lemma {:induction false} Uncons<T>(s: seq<T>)
    requires s != []
    ensures s == [s[0]] + s[1..]
  {
  }

  /** Keys never decrease along `t`. */
  predicate SortedBy(t: seq<string>, key: string -> string) {
    forall i, j :: 0 <= i < j < |t| ==> LexLe(key(t[i]), key(t[j]))
  }

  /** Puts `x` in front of the first element whose key is not below its own. */
  function Insert(x: string, t: seq<string>, key: string -> string): (r: seq<string>)
    ensures multiset(r) == multiset([x] + t)
  {
    if t == [] || LexLe(key(x), key(t[0])) then [x] + t
    else
      assert t == [t[0]] + t[1..];
      [t[0]] + Insert(x, t[1..], key)
  }

  /**
   * The stable sort by `key` that Python's `list.sort(key=...)` performs:
   * each element is inserted before the elements after it whose keys are
   * not smaller.
   */
  function SortBy(fs: seq<string>, key: string -> string): (r: seq<string>)
    ensures SortedBy(r, key)
    ensures multiset(r) == multiset(fs)
  {
    if fs == [] then []
    else
      var rest := SortBy(fs[1..], key);
      InsertKeepsSorted(fs[0], rest, key);
      assert fs == [fs[0]] + fs[1..];
      Insert(fs[0], rest, key)
  }

  /** `file_list.sort(key=sort_func)` */
  function SortFiles(fs: seq<string>): (r: seq<string>)
    ensures SortedBy(r, SortKey)
    ensures multiset(r) == multiset(fs)
  {
    SortBy(fs, SortKey)
  }

  lemma {:induction false} InsertKeepsSorted(x: string, t: seq<string>, key: string -> string)
    requires SortedBy(t, key)
    ensures SortedBy(Insert(x, t, key), key)
    decreases |t|
  {
    if t != [] && !LexLe(key(x), key(t[0])) {
      LexLeTotal(key(x), key(t[0]));
      InsertAfterHead(x, t, key);
    } else if t != [] {
      var r := [x] + t;
      forall i, j | 0 <= i < j < |r| ensures LexLe(key(r[i]), key(r[j])) {
        if i == 0 && j > 1 {
          LexLeTrans(key(x), key(t[0]), key(t[j - 1]));
        }
      }
    }
  }

  /** The case of `InsertKeepsSorted` where `x` goes after the head of `t`. */
  lemma {:induction false} InsertAfterHead(x: string, t: seq<string>, key: string -> string)
    requires SortedBy(t, key) && t != [] && LexLe(key(t[0]), key(x)) && !LexLe(key(x), key(t[0]))
    ensures SortedBy(Insert(x, t, key), key)
    decreases |t|, 0
  {
    var h, tl := t[0], t[1..];
    var tail := Insert(x, tl, key);
    SortedTail(t, key);
    InsertKeepsSorted(x, tl, key);
    forall j | 0 <= j < |tail| ensures LexLe(key(h), key(tail[j])) {
      HeadBelowInserted(x, t, tail, key, j);
    }
    ConsSorted(h, tail, Insert(x, t, key), key);
  }

  /** Every element of `Insert(x, t[1..])` is `x` or an element of `t[1..]`, so its key is not below `t[0]`'s. */
  lemma {:induction false} HeadBelowInserted(x: string, t: seq<string>, tail: seq<string>, key: string -> string, j: nat)
    requires SortedBy(t, key) && t != [] && LexLe(key(t[0]), key(x))
    requires tail == Insert(x, t[1..], key) && j < |tail|
    ensures LexLe(key(t[0]), key(tail[j]))
  {
    var tl := t[1..];
    assert tail[j] in multiset([x] + tl);
    assert tail[j] in [x] + tl;
    if tail[j] != x {
      var k :| 0 <= k < |tl| && tl[k] == tail[j];
      assert t[k + 1] == tail[j];
    }
  }

  /** A sorted list stays sorted under a head whose key is not above any of its keys. */
  lemma {:induction false} ConsSorted(h: string, tail: seq<string>, r: seq<string>, key: string -> string)
    requires SortedBy(tail, key) && r == [h] + tail
    requires forall j :: 0 <= j < |tail| ==> LexLe(key(h), key(tail[j]))
    ensures SortedBy(r, key)
  {
    forall i, j | 0 <= i < j < |r| ensures LexLe(key(r[i]), key(r[j])) {
      if i == 0 {
        assert r[j] == tail[j - 1];
      } else {
        assert r[i] == tail[i - 1] && r[j] == tail[j - 1];
      }
    }
  }

  /** The elements of `xs` whose key is `k`, in their order in `xs`. */
  function WithKey(xs: seq<string>, key: string -> string, k: string): (r: seq<string>)
    ensures forall i :: 0 <= i < |r| ==> key(r[i]) == k
  {
    if xs == [] then []
    else (if key(xs[0]) == k then [xs[0]] else []) + WithKey(xs[1..], key, k)
  }

  lemma {:induction false} WithKeySingle(x: string, key: string -> string, k: string)
    ensures WithKey([x], key, k) == if key(x) == k then [x] else []
  {
    assert [x][1..] == [];
    assert WithKey([x][1..], key, k) == [];
  }

  lemma {:induction false} WithKeyCons(x: string, xs: seq<string>, key: string -> string, k: string)
    ensures WithKey([x] + xs, key, k) == WithKey([x], key, k) + WithKey(xs, key, k)
  {
    assert ([x] + xs)[1..] == xs;
    assert [x][1..] == [];
  }

  /** Inserting `x` keeps every key's elements in the order `[x] + t` has them. */
  lemma {:induction false} InsertStable(x: string, t: seq<string>, key: string -> string, k: string)
    requires SortedBy(t, key)
    ensures WithKey(Insert(x, t, key), key, k) == WithKey([x] + t, key, k)
    decreases |t|
  {
    if t != [] && !LexLe(key(x), key(t[0])) {
      var h, tl := t[0], t[1..];
      SortedTail(t, key);
      InsertStable(x, tl, key, k);
      LexLeRefl(key(x));
      StableSwap(x, h, tl, t, Insert(x, tl, key), Insert(x, t, key), key, k);
    }
  }

  lemma {:induction false} SortedTail(t: seq<string>, key: string -> string)
    requires SortedBy(t, key) && t != []
    ensures SortedBy(t[1..], key)
  {
  }

  /** Moving `x` past an element with another key changes no key's subsequence. */
  lemma {:induction false} StableSwap(x: string, h: string, tl: seq<string>, t: seq<string>,
                                      ins: seq<string>, r: seq<string>, key: string -> string, k: string)
    requires t == [h] + tl && r == [h] + ins && key(x) != key(h)
    requires WithKey(ins, key, k) == WithKey([x] + tl, key, k)
    ensures WithKey(r, key, k) == WithKey([x] + t, key, k)
  {
    var wh, wx, rest := WithKey([h], key, k), WithKey([x], key, k), WithKey(tl, key, k);
    WithKeySingle(h, key, k);
    WithKeySingle(x, key, k);
    WithKeyCons(h, ins, key, k);
    WithKeyCons(x, tl, key, k);
    WithKeyCons(h, tl, key, k);
    WithKeyCons(x, t, key, k);
    assert WithKey(r, key, k) == wh + (wx + rest);
    assert WithKey([x] + t, key, k) == wx + (wh + rest);
    if key(h) == k {
      assert wx == [];
      assert wx + rest == rest && wh + rest == wx + (wh + rest);
    } else {
      assert wh == [];
      assert wh + rest == rest && wh + (wx + rest) == wx + rest;
    }
  }

  /**
   * The sort is stable: the files that share a key appear in the sorted
   * list in the order they were discovered in.
   */
  lemma {:induction false} SortStable(fs: seq<string>, key: string -> string, k: string)
    ensures WithKey(SortBy(fs, key), key, k) == WithKey(fs, key, k)
  {
    if fs != [] {
      var x, rest := fs[0], fs[1..];
      var sorted := SortBy(rest, key);
      SortStable(rest, key, k);
      InsertStable(x, sorted, key, k);
      assert SortBy(fs, key) == Insert(x, sorted, key);
      WithKeyCons(x, sorted, key, k);
      WithKeyCons(x, rest, key, k);
      Uncons(fs);
    }
  }

  /** The appendix (`z`-keyed) files keep their discovery order. */
  lemma {:induction false} AppendixKeepsOrder(fs: seq<string>)
    ensures WithKey(SortFiles(fs), SortKey, "z") == WithKey(fs, SortKey, "z")
  {
    SortStable(fs, SortKey, "z");
  }

  /** A file whose key starts below `z` comes before every file outside `/doc/`. */
  lemma {:induction false} AppendixLast(fs: seq<string>, i: nat, j: nat)
    requires i < |SortFiles(fs)| && j < |SortFiles(fs)|
    requires SortKey(SortFiles(fs)[i]) != "" && SortKey(SortFiles(fs)[i])[0] < 'z'
    requires !Contains(SortFiles(fs)[j], DocSegment)
    ensures i < j
  {
    var r := SortFiles(fs);
    SortKeyAppendix(r[j]);
    LexLtFirst(SortKey(r[i]), "z");
    if j <= i {
      SortedAt(r, SortKey, j, i);
    }
  }

  lemma {:induction false} SortedAt(t: seq<string>, key: string -> string, i: nat, j: nat)
    requires SortedBy(t, key) && i <= j < |t|
    ensures LexLe(key(t[i]), key(t[j]))
  {
    if i == j {
      LexLeRefl(key(t[i]));
    }
  }

  /** No occurrence of `sub` starts inside `d` when `d` ends in `/` and neither `d` nor `sub` allows one. */
  lemma {:induction false} NoOccurrenceBefore(d: string, t: string, sub: string, j: nat)
    requires d != "" && d[|d| - 1] == '/' && '/' !in sub && !Contains(d, sub)
    requires j < |d|
    ensures !OccursAt(d + t, sub, j)
  {
    var s := d + t;
    OccursSlice(s, sub, j);
    OccursSlice(d, sub, j);
    if j + |sub| <= |d| {
      assert s[j..j + |sub|] == d[j..j + |sub|];
      assert !OccursAt(d, sub, j);
    } else if j + |sub| <= |s| {
      assert s[j..j + |sub|][|d| - 1 - j] == '/';
    }
  }

  lemma {:induction false} ContainsExtends(a: string, b: string, sub: string)
    requires Contains(a, sub)
    ensures Contains(a + b, sub)
  {
    var i: nat :| OccursAt(a, sub, i);
    var s := a + b;
    OccursSlice(a, sub, i);
    OccursSlice(s, sub, i);
    assert s[i..i + |sub|] == a[i..i + |sub|];
    assert OccursAt(s, sub, i);
  }

  /** The key of the README of directory `d` (a path ending in `/`). */
  lemma {:induction false} ReadmeKey(d: string)
    requires d != "" && d[|d| - 1] == '/' && Contains(d, DocSegment) && !Contains(d, Readme)
    ensures SortKey(d + Readme) == d + "0"
  {
    var s := d + Readme;
    ContainsExtends(d, Readme, DocSegment);
    assert '/' !in Readme;
    forall j: nat | j < |d| ensures !OccursAt(s, Readme, j) {
      NoOccurrenceBefore(d, Readme, Readme, j);
    }
    assert s[|d|..|d| + |Readme|] == Readme;
    OccursSlice(s, Readme, |d|);
    SortKeyReadme(s, |d|);
    assert s[..|d|] == d;
  }

  /** The key of a sibling `d + name` starts with `d` and the first letter of `name`. */
  lemma {:induction false} SiblingKey(d: string, name: string)
    requires d != "" && d[|d| - 1] == '/' && Contains(d, DocSegment) && !Contains(d, Readme)
    requires name != "" && !StartsWith(name, Readme)
    ensures StartsWith(SortKey(d + name), d + [name[0]])
  {
    var s := d + name;
    ContainsExtends(d, name, DocSegment);
    assert '/' !in Readme;
    var f := IndexOf(s, Readme);
    if f.Some? {
      var q := f.value;
      if q < |d| {
        NoOccurrenceBefore(d, name, Readme, q);
      }
      assert q > |d|;
      assert SortKey(s) == s[..q] + "0";
      assert (s[..q] + "0")[..|d| + 1] == d + [name[0]];
    } else {
      assert s[..|d| + 1] == d + [name[0]];
    }
  }

  /** The README key of `d` is below the key of any sibling named with a character above `0`. */
  lemma {:induction false} ReadmeKeyBelow(d: string, name: string)
    requires d != "" && d[|d| - 1] == '/' && Contains(d, DocSegment) && !Contains(d, Readme)
    requires name != "" && name[0] > '0' && !StartsWith(name, Readme)
    ensures !LexLe(SortKey(d + name), SortKey(d + Readme))
  {
    ReadmeKey(d);
    SiblingKey(d, name);
    var ks := SortKey(d + name);
    var rest := ks[|d|..];
    StartsWithSplit(ks, d, d + [name[0]], name[0], rest);
    LexLtFirst("0", rest);
    LexLeCommonPrefix(d, rest, "0");
  }

  /**
   * In a `/doc/` directory `d`, the README is placed before every sibling
   * whose name starts with a character above `0`.
   */
  lemma {:induction false} ReadmeFirst(fs: seq<string>, d: string, name: string, i: nat, j: nat)
    requires d != "" && d[|d| - 1] == '/' && Contains(d, DocSegment) && !Contains(d, Readme)
    requires name != "" && name[0] > '0' && !StartsWith(name, Readme)
    requires i < |SortFiles(fs)| && j < |SortFiles(fs)|
    requires SortFiles(fs)[i] == d + Readme && SortFiles(fs)[j] == d + name
    ensures i < j
  {
    ReadmeKeyBelow(d, name);
    assert name != Readme;
    assert d + name != d + Readme by {
      assert (d + Readme)[|d|..] == Readme;
      assert (d + name)[|d|..] == name;
    }
  }
}
