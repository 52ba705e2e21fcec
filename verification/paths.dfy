/** POSIX path manipulation as `os.path` performs it on the strings the
    scripts build: `join`, `basename` and `splitext`. Paths are compared as
    strings; no normalisation takes place. */
module Paths {
  import opened Wrappers
  import opened Strings

  type Path = string

  /** A single path component: non-empty and free of separators. */
  predicate PlainName(s: string) {
    s != "" && Lacks(s, '/')
  }

  /** A plain name followed by text without separators is a plain name that
      starts with the first part. */
  lemma PlainConcat(a: string, b: string)
    requires PlainName(a) && Lacks(b, '/')
    ensures PlainName(a + b) && StartsWith(a + b, a)
  {
    LacksConcat(a, b, '/');
    assert (a + b)[..|a|] == a;
  }

  /** The text every path inside directory `d` starts with. */
  function DirPrefix(d: Path): (p: Path)
    ensures StartsWith(p, d)
    ensures p == "" || p[|p| - 1] == '/'
    ensures d != "" ==> p != ""
  {
    if d == "" || d[|d| - 1] == '/' then d else d + "/"
  }

  /** `os.path.join(d, name)`: an absolute `name` replaces `d`, otherwise a
      separator is inserted unless `d` is empty or already ends with one. */
  function JoinPath(d: Path, name: string): (r: Path)
    ensures name != "" && name[0] == '/' ==> r == name
    ensures !(name != "" && name[0] == '/') ==> r == DirPrefix(d) + name
  {
    if name != "" && name[0] == '/' then name
    else if d == "" || d[|d| - 1] == '/' then d + name
    else d + "/" + name
  }

  /** Key `k` is the path `d` itself or lies somewhere below it. */
  predicate AtOrUnder(k: Path, d: Path) {
    k == d || StartsWith(k, DirPrefix(d))
  }

  /** Index of the last occurrence of `c` in `s`. */
  function LastIndexOf(s: string, c: char): (r: Option<nat>)
    ensures r.Some? ==> r.value < |s| && s[r.value] == c && Lacks(s[r.value + 1..], c)
    ensures r.None? ==> Lacks(s, c)
  {
    if |s| == 0 then None
    else if s[|s| - 1] == c then Some(|s| - 1)
    else
      var r := LastIndexOf(s[..|s| - 1], c);
      assert r.Some? ==> s[r.value + 1..] == s[..|s| - 1][r.value + 1..] + [s[|s| - 1]];
      r
  }

  /** `os.path.basename(p)`: the text after the last separator. */
  function Basename(p: Path): (b: string)
    ensures Lacks(b, '/')
    ensures EndsWith(p, b)
    ensures |b| == |p| || p[|p| - |b| - 1] == '/'
  {
    match LastIndexOf(p, '/')
    case None => p
    case Some(i) => p[i + 1..]
  }

  /** Every character of `s` is a dot. */
  predicate AllDots(s: string) {
    forall k :: 0 <= k < |s| ==> s[k] == '.'
  }

  /** `os.path.splitext(name)` for a name without separators: the extension
      starts at the last dot, unless only dots precede that dot. */
  function SplitExt(name: string): (r: (string, string))
    ensures r.0 + r.1 == name
    ensures r.1 == "" || (r.1[0] == '.' && Lacks(r.1[1..], '.') && !AllDots(r.0))
    ensures r.1 == "" ==> Lacks(name, '.') || AllDots(name[..LastIndexOf(name, '.').value])
  {
    match LastIndexOf(name, '.')
    case None => (name, "")
    case Some(d) =>
      if AllDots(name[..d]) then (name, "")
      else
        assert name[d..][1..] == name[d + 1..];
        (name[..d], name[d..])
  }

  /** The file name without its last extension, as the converter derives it. */
  function Stem(p: Path): (stem: string)
    ensures Lacks(stem, '/')
    ensures StartsWith(Basename(p), stem)
    ensures stem + SplitExt(Basename(p)).1 == Basename(p)
  {
    var b := Basename(p);
    var parts := SplitExt(b);
    PrefixOfConcat(parts.0, parts.1, b);
    parts.0
  }

  /** A PDF named `<name>.<ext>` in any directory, with no dot in the name
      or the extension, has stem `<name>`. */
  lemma StemOfJoin(d: Path, name: string, ext: string)
    requires name != "" && Lacks(name, '/') && Lacks(name, '.')
    requires Lacks(ext, '/') && Lacks(ext, '.')
    ensures Stem(JoinPath(d, name + "." + ext)) == name
  {
    var file := name + "." + ext;
    LacksConcat(name, ".", '/');
    LacksConcat(name + ".", ext, '/');
    BasenameOfJoin(d, file);
    var p := JoinPath(d, file);
    assert Basename(p) == file;
    LastDotBetween(name, ext);
    PrefixOfThree(name, ".", ext);
    assert !AllDots(file[..|name|]) by {
      assert name[0] != '.';
    }
    assert SplitExt(file).0 == name;
    assert Stem(p) == SplitExt(Basename(p)).0;
  }

  /** The first of three appended strings is the prefix of its length. */
  lemma PrefixOfThree(a: string, b: string, c: string)
    ensures (a + b + c)[..|a|] == a
  {
    assert (a + b + c)[..|a + b|] == a + b;
    assert (a + b)[..|a|] == a;
  }

  /** The only dot of `<name>.<ext>` is the one between them. */
  lemma LastDotBetween(name: string, ext: string)
    requires Lacks(name, '.') && Lacks(ext, '.')
    ensures LastIndexOf(name + "." + ext, '.') == Some(|name|)
  {
    var file := name + "." + ext;
    assert file[|name|] == '.';
    var i := LastIndexOf(file, '.').value;
    if i < |name| {
      assert false;
    } else if i > |name| {
      assert false;
    }
  }

  lemma PrefixOfConcat(x: string, y: string, s: string)
    requires x + y == s
    ensures StartsWith(s, x)
    ensures forall k :: 0 <= k < |x| ==> x[k] == s[k]
  {
    assert s[..|x|] == x;
  }

  /** The last `c` of `x + y` is the last character of `x` when `y` has none. */
  lemma {:induction false} LastIndexAfter(x: string, y: string, c: char)
    requires x != "" && x[|x| - 1] == c
    requires Lacks(y, c)
    ensures LastIndexOf(x + y, c) == Some(|x| - 1)
    decreases |y|
  {
    if y == [] {
      assert x + y == x;
    } else {
      var y' := y[..|y| - 1];
      LastIndexAfter(x, y', c);
      assert (x + y)[..|x + y| - 1] == x + y';
    }
  }

  /** Joining a plain name onto a directory and taking the basename gives the
      name back. */
  lemma BasenameOfJoin(d: Path, name: string)
    requires PlainName(name)
    ensures Basename(JoinPath(d, name)) == name
  {
    var dp := DirPrefix(d);
    var p := JoinPath(d, name);
    assert p == dp + name;
    if dp == "" {
      assert p == name;
    } else {
      LastIndexAfter(dp, name, '/');
      assert p[|dp|..] == name;
    }
  }

  /** A plain name joined onto a directory lies below it. */
  lemma JoinIsUnder(d: Path, name: string)
    requires PlainName(name)
    ensures AtOrUnder(JoinPath(d, name), d)
    ensures JoinPath(d, name) != d
  {
    assert JoinPath(d, name)[..|DirPrefix(d)|] == DirPrefix(d);
  }

  /** Distinct plain names joined onto one directory give distinct paths. */
  lemma JoinInjective(d: Path, a: string, b: string)
    requires PlainName(a) && PlainName(b)
    requires JoinPath(d, a) == JoinPath(d, b)
    ensures a == b
  {
    var p := DirPrefix(d);
    assert (p + a)[|p|..] == a;
    assert (p + b)[|p|..] == b;
  }

  /** End of the path component of `k` that starts at index `from`: the
      first separator at or after `from`, or the end of `k`. */
  function ComponentEnd(k: Path, from: nat): (e: nat)
    requires from <= |k|
    ensures from <= e <= |k|
    ensures forall i :: from <= i < e ==> k[i] != '/'
    ensures e < |k| ==> k[e] == '/'
    decreases |k| - from
  {
    if from == |k| || k[from] == '/' then from else ComponentEnd(k, from + 1)
  }

  /** The component end is determined by where the first separator is. */
  lemma {:induction false} ComponentEndAt(k: Path, from: nat, e: nat)
    requires from <= e <= |k|
    requires forall i :: from <= i < e ==> k[i] != '/'
    requires e == |k| || k[e] == '/'
    ensures ComponentEnd(k, from) == e
    decreases e - from
  {
    if from < e {
      ComponentEndAt(k, from + 1, e);
    }
  }

  /** The component of `k` right after the directory prefix `p`. */
  function ComponentAfter(k: Path, p: Path): string
    requires StartsWith(k, p)
  {
    k[|p|..ComponentEnd(k, |p|)]
  }

  /** A path at or below `p + a` has `a` as its component after `p`. */
  lemma ComponentOf(k: Path, p: Path, a: string)
    requires p == "" || p[|p| - 1] == '/'
    requires PlainName(a)
    requires AtOrUnder(k, p + a)
    ensures StartsWith(k, p) && ComponentAfter(k, p) == a
  {
    assert DirPrefix(p + a) == p + a + "/";
    var m := |p| + |a|;
    if k == p + a {
      assert k[..|p|] == p;
      assert k[|p|..m] == a;
    } else {
      assert k[..m + 1] == p + a + "/";
      assert k[..|p|] == k[..m + 1][..|p|] == p;
      assert k[|p|..m] == k[..m + 1][|p|..m] == a;
      assert k[m] == k[..m + 1][m] == '/';
    }
    forall i | |p| <= i < m
      ensures k[i] != '/'
    {
      assert k[i] == k[|p|..m][i - |p|];
    }
    ComponentEndAt(k, |p|, m);
  }

  /** Two different entries of one directory have no path in common: nothing
      is at or below both of them. */
  lemma SiblingsDisjoint(p: Path, a: string, b: string, k: Path)
    requires p == "" || p[|p| - 1] == '/'
    requires PlainName(a) && PlainName(b) && a != b
    ensures !(AtOrUnder(k, p + a) && AtOrUnder(k, p + b))
  {
    if AtOrUnder(k, p + a) && AtOrUnder(k, p + b) {
      ComponentOf(k, p, a);
      ComponentOf(k, p, b);
    }
  }

  /** The same for two entries joined onto a directory. */
  lemma JoinedSiblingsDisjoint(d: Path, a: string, b: string, k: Path)
    requires PlainName(a) && PlainName(b) && a != b
    requires AtOrUnder(k, JoinPath(d, a))
    ensures !AtOrUnder(k, JoinPath(d, b))
  {
    SiblingsDisjoint(DirPrefix(d), a, b, k);
  }

  /** Joining any relative name onto `d` gives a path at or below `d`. */
  lemma JoinRelativeIsUnder(d: Path, name: string)
    requires name == "" || name[0] != '/'
    ensures AtOrUnder(JoinPath(d, name), d)
  {
    assert JoinPath(d, name)[..|DirPrefix(d)|] == DirPrefix(d);
  }

  /** What lies at or below an entry of `d` lies strictly below `d`. */
  lemma UnderJoinIsUnder(d: Path, name: string, k: Path)
    requires PlainName(name)
    requires AtOrUnder(k, JoinPath(d, name))
    ensures AtOrUnder(k, d) && k != d
  {
    var p := DirPrefix(d);
    var e := JoinPath(d, name);
    assert e == p + name;
    if k != e {
      assert DirPrefix(e) == e + "/";
      assert k[..|e|] == DirPrefix(e)[..|e|] == e;
      assert k[..|p|] == e[..|p|];
    }
    assert k[..|p|] == p;
  }

  /** Nothing outside `d` lies at or below an entry of `d`. */
  lemma NotUnderJoin(d: Path, name: string, k: Path)
    requires PlainName(name)
    requires !AtOrUnder(k, d)
    ensures !AtOrUnder(k, JoinPath(d, name))
  {
    if AtOrUnder(k, JoinPath(d, name)) {
      UnderJoinIsUnder(d, name, k);
    }
  }
}
