/** Python string primitives the scripts rely on: `in`, `str.find`,
    `str.split(sep)`, `sep.join`, `str.replace`, `str.endswith`, and
    `str.lower` restricted to ASCII letters. */
module Strings {
  import opened Wrappers

  predicate StartsWith(s: string, prefix: string) {
    |prefix| <= |s| && s[..|prefix|] == prefix
  }

  predicate EndsWith(s: string, suffix: string) {
    |suffix| <= |s| && s[|s| - |suffix|..] == suffix
  }

  /** `pat` occurs in `s` starting at index `i`. */
  predicate OccursAt(s: string, pat: string, i: nat) {
    i + |pat| <= |s| && s[i..i + |pat|] == pat
  }

  /** Python's `pat in s`, as a specification. */
  ghost predicate Occurs(s: string, pat: string) {
    exists i: nat :: OccursAt(s, pat, i)
  }

  /** Leftmost occurrence of `pat` in `s` at or after `from`. */
  function FindFrom(s: string, pat: string, from: nat): (r: Option<nat>)
    requires from <= |s|
    ensures r.Some? ==> from <= r.value && OccursAt(s, pat, r.value)
    ensures r.Some? ==> forall j: nat :: from <= j < r.value ==> !OccursAt(s, pat, j)
    ensures r.None? ==> forall j: nat :: from <= j ==> !OccursAt(s, pat, j)
    decreases |s| - from
  {
    if OccursAt(s, pat, from) then Some(from)
    else if from == |s| then None
    else FindFrom(s, pat, from + 1)
  }

  /** Python's `s.find(pat)`, with `None` for -1. */
  function Find(s: string, pat: string): (r: Option<nat>)
    ensures r.Some? ==> OccursAt(s, pat, r.value)
    ensures r.Some? ==> forall j: nat :: j < r.value ==> !OccursAt(s, pat, j)
    ensures r.None? <==> !Occurs(s, pat)
  {
    FindFrom(s, pat, 0)
  }

  /** Python's `pat in s`. */
  predicate Contains(s: string, pat: string) {
    Find(s, pat).Some?
  }

  /** Python's `s.split(sep)` for a non-empty separator (an empty one raises
      `ValueError` in Python; every caller passes a literal). */
  function Split(s: string, sep: string): (parts: seq<string>)
    requires |sep| > 0
    ensures |parts| >= 1
    ensures forall k :: 0 <= k < |parts| ==> !Occurs(parts[k], sep)
    ensures Occurs(s, sep) <==> |parts| >= 2
    decreases |s|
  {
    match Find(s, sep)
    case None => [s]
    case Some(i) =>
      PrefixBeforeFirstIsFree(s, sep, i);
      [s[..i]] + Split(s[i + |sep|..], sep)
  }

  /** Python's `sep.join(parts)`. */
  function Join(parts: seq<string>, sep: string): string {
    if |parts| == 0 then ""
    else if |parts| == 1 then parts[0]
    else parts[0] + sep + Join(parts[1..], sep)
  }

  /** Python's `s.replace(target, repl)`: every non-overlapping occurrence, scanning
      from the left, is replaced. */
  function ReplaceAll(s: string, target: string, repl: string): (r: string)
    requires |target| > 0
    ensures !Occurs(s, target) ==> r == s
    decreases |s|
  {
    match Find(s, target)
    case None => s
    case Some(i) => s[..i] + repl + ReplaceAll(s[i + |target|..], target, repl)
  }

  /** An occurrence inside a prefix is an occurrence in the whole string. */
  lemma OccursInPrefix(s: string, pat: string, i: nat, j: nat)
    requires i <= |s|
    requires OccursAt(s[..i], pat, j)
    ensures OccursAt(s, pat, j) && j + |pat| <= i
  {
    assert s[..i][j..j + |pat|] == s[j..j + |pat|];
  }

  /** The part of `s` before the leftmost occurrence of `sep` holds no
      occurrence of `sep`. */
  lemma PrefixBeforeFirstIsFree(s: string, sep: string, i: nat)
    requires |sep| > 0
    requires OccursAt(s, sep, i)
    requires forall j: nat :: j < i ==> !OccursAt(s, sep, j)
    ensures !Occurs(s[..i], sep)
  {
    forall j: nat
      ensures !OccursAt(s[..i], sep, j)
    {
      if OccursAt(s[..i], sep, j) {
        OccursInPrefix(s, sep, i, j);
      }
    }
  }

  /** Splitting and joining back with the same separator is the identity. */
  lemma {:induction false} JoinSplit(s: string, sep: string)
    requires |sep| > 0
    ensures Join(Split(s, sep), sep) == s
    decreases |s|
  {
    match Find(s, sep)
    case None =>
    case Some(i) =>
      var rest := s[i + |sep|..];
      JoinSplit(rest, sep);
      var parts := Split(s, sep);
      assert parts == [s[..i]] + Split(rest, sep);
      assert parts[1..] == Split(rest, sep);
      assert s[i..i + |sep|] == sep;
      assert s == s[..i] + s[i..i + |sep|] + rest;
  }

  /** Replacing is splitting on the target and joining with the replacement. */
  lemma {:induction false} ReplaceAllIsJoinSplit(s: string, target: string, repl: string)
    requires |target| > 0
    ensures ReplaceAll(s, target, repl) == Join(Split(s, target), repl)
    decreases |s|
  {
    match Find(s, target)
    case None =>
    case Some(i) =>
      var rest := s[i + |target|..];
      ReplaceAllIsJoinSplit(rest, target, repl);
      var parts := Split(s, target);
      assert parts[1..] == Split(rest, target);
  }

  /** What `s.replace(target, repl)` means: `s` is a sequence of pieces free of
      `target` separated by `target`, and the result is the same pieces, in the same
      order, separated by `repl`. So every occurrence is replaced and nothing
      else changes. */
  lemma ReplaceAllMeaning(s: string, target: string, repl: string)
    requires |target| > 0
    ensures var pieces := Split(s, target);
      && s == Join(pieces, target)
      && ReplaceAll(s, target, repl) == Join(pieces, repl)
      && (forall k :: 0 <= k < |pieces| ==> !Occurs(pieces[k], target))
  {
    JoinSplit(s, target);
    ReplaceAllIsJoinSplit(s, target, repl);
  }

  /** ASCII lower-casing of one character. */
  function LowerChar(c: char): char {
    if 'A' <= c <= 'Z' then (c as int - 'A' as int + 'a' as int) as char else c
  }

  /** Python's `s.lower()` on ASCII letters; other characters are kept. */
  function Lower(s: string): (r: string)
    ensures |r| == |s|
    ensures forall k :: 0 <= k < |s| ==> r[k] == LowerChar(s[k])
    ensures forall k :: 0 <= k < |r| ==> !('A' <= r[k] <= 'Z')
  {
    seq(|s|, k requires 0 <= k < |s| => LowerChar(s[k]))
  }

  /** Python's `s.endswith(suffixes)` for a tuple of suffixes. */
  predicate EndsWithAny(s: string, suffixes: seq<string>) {
    exists k :: 0 <= k < |suffixes| && EndsWith(s, suffixes[k])
  }

  /** `c` does not occur anywhere in `s`. */
  predicate Lacks(s: string, c: char) {
    forall k :: 0 <= k < |s| ==> s[k] != c
  }

  /** A concatenation lacks `c` exactly when both parts do. */
  lemma LacksConcat(a: string, b: string, c: char)
    ensures Lacks(a + b, c) <==> Lacks(a, c) && Lacks(b, c)
  {
    forall k | 0 <= k < |b|
      ensures b[k] == (a + b)[|a| + k]
    {
    }
    forall k | 0 <= k < |a|
      ensures a[k] == (a + b)[k]
    {
    }
  }

  /** A string with `c` at some index differs from every string lacking `c`. */
  lemma LacksDiffers(s: string, t: string, c: char, i: nat)
    requires i < |s| && s[i] == c
    requires Lacks(t, c)
    ensures s != t
  {
  }

  /** Index of the first occurrence of `c` in `s`. */
  function FirstIndexOf(s: string, c: char): (r: Option<nat>)
    ensures r.Some? ==> r.value < |s| && s[r.value] == c && Lacks(s[..r.value], c)
    ensures r.None? ==> Lacks(s, c)
  {
    if |s| == 0 then None
    else if s[0] == c then Some(0)
    else
      match FirstIndexOf(s[1..], c)
      case None => None
      case Some(i) =>
        assert s[..i + 1] == [s[0]] + s[1..][..i];
        Some(i + 1)
  }

  /** In `a + [c] + x` with `a` free of `c`, the first `c` is the one after `a`. */
  lemma {:induction false} FirstIndexAfter(a: string, x: string, c: char)
    requires Lacks(a, c)
    ensures FirstIndexOf(a + [c] + x, c) == Some(|a|)
    decreases |a|
  {
    if |a| > 0 {
      FirstIndexAfter(a[1..], x, c);
      assert (a + [c] + x)[1..] == a[1..] + [c] + x;
    } else {
      assert a + [c] + x == [c] + x;
    }
  }

  /** Joining pieces that lack `c` with a separator that lacks `c` gives a
      string that lacks `c`. */
  lemma {:induction false} JoinLacks(parts: seq<string>, sep: string, c: char)
    requires forall k :: 0 <= k < |parts| ==> Lacks(parts[k], c)
    requires Lacks(sep, c)
    ensures Lacks(Join(parts, sep), c)
    decreases |parts|
  {
    if |parts| > 1 {
      JoinLacks(parts[1..], sep, c);
    }
  }

  /** A string holding no occurrence of the one-character string `[c]`
      lacks `c`. */
  lemma FreeOfCharLacks(s: string, c: char)
    requires !Occurs(s, [c])
    ensures Lacks(s, c)
  {
    forall k | 0 <= k < |s|
      ensures s[k] != c
    {
      if s[k] == c {
        assert s[k..k + 1] == [c];
        assert OccursAt(s, [c], k);
      }
    }
  }

  /** Both sides of a cut of a text lacking `c` lack `c`. */
  lemma LacksSlices(s: string, i: nat, c: char)
    requires i <= |s| && Lacks(s, c)
    ensures Lacks(s[..i], c) && Lacks(s[i..], c)
  {
    LacksConcat(s[..i], s[i..], c);
    assert s[..i] + s[i..] == s;
  }

  /** Replacing within a text lacking `c` by a text lacking `c` introduces
      no `c`. */
  lemma {:induction false} ReplaceAllLacks(s: string, target: string, repl: string, c: char)
    requires |target| > 0 && Lacks(s, c) && Lacks(repl, c)
    ensures Lacks(ReplaceAll(s, target, repl), c)
    decreases |s|
  {
    match Find(s, target)
    case None =>
    case Some(i) =>
      var rest := s[i + |target|..];
      LacksSlices(s, i, c);
      LacksSlices(s, i + |target|, c);
      ReplaceAllLacks(rest, target, repl, c);
      LacksConcat(s[..i], repl, c);
      LacksConcat(s[..i] + repl, ReplaceAll(rest, target, repl), c);
  }

  /** After replacing every `c` by a text without `c`, no `c` is left. */
  lemma ReplaceCharRemovesIt(s: string, c: char, repl: string)
    requires Lacks(repl, c)
    ensures Lacks(ReplaceAll(s, [c], repl), c)
  {
    var pieces := Split(s, [c]);
    ReplaceAllMeaning(s, [c], repl);
    forall k | 0 <= k < |pieces|
      ensures Lacks(pieces[k], c)
    {
      FreeOfCharLacks(pieces[k], c);
    }
    JoinLacks(pieces, repl, c);
  }

  /** Replacing a character by a character, as a character-wise map. */
  function MapChar(s: string, c: char, d: char): (r: string)
    ensures |r| == |s|
    ensures forall k :: 0 <= k < |s| ==> r[k] == (if s[k] == c then d else s[k])
  {
    seq(|s|, k requires 0 <= k < |s| => if s[k] == c then d else s[k])
  }

  /** `s.replace(c, d)` for single characters changes each `c` into `d` and
      keeps every other character in place. */
  lemma {:induction false} ReplaceCharIsMap(s: string, c: char, d: char)
    ensures ReplaceAll(s, [c], [d]) == MapChar(s, c, d)
    decreases |s|
  {
    match Find(s, [c])
    case None =>
      FreeOfCharLacks(s, c);
      assert MapChar(s, c, d) == s;
    case Some(i) =>
      var rest := s[i + 1..];
      ReplaceCharIsMap(rest, c, d);
      PrefixBeforeFirstIsFree(s, [c], i);
      FreeOfCharLacks(s[..i], c);
      assert s[i..i + 1] == [c];
      var lhs := s[..i] + [d] + MapChar(rest, c, d);
      assert |lhs| == |s|;
      forall k | 0 <= k < |s|
        ensures lhs[k] == MapChar(s, c, d)[k]
      {
        if k < i {
          assert s[..i][k] == s[k];
        } else if k > i {
          assert rest[k - i - 1] == s[k];
        }
      }
      assert lhs == MapChar(s, c, d);
  }
  /** A string lacking `c` has no occurrence of `[c]`. */
  lemma LacksHasNoOccurrence(s: string, c: char)
    requires Lacks(s, c)
    ensures !Occurs(s, [c])
  {
    forall i: nat
      ensures !OccursAt(s, [c], i)
    {
      if i < |s| {
        assert s[i] != c;
        assert s[i..i + 1][0] == s[i];
      }
    }
  }

  /** No proper prefix of `sep` is also a suffix of it, so two occurrences
      of `sep` never overlap. */
  predicate NoBorder(sep: string) {
    forall m :: 0 < m < |sep| ==> sep[..m] != sep[|sep| - m..]
  }

  /** In `p + sep + t` with `p` free of `sep`, the leftmost `sep` is the one
      right after `p`. */
  lemma FindAfterFree(p: string, sep: string, t: string)
    requires |sep| > 0 && NoBorder(sep) && !Occurs(p, sep)
    ensures Find(p + sep + t, sep) == Some(|p|)
  {
    var s := p + sep + t;
    assert s[|p|..|p| + |sep|] == sep;
    assert OccursAt(s, sep, |p|);
    forall j: nat | j < |p|
      ensures !OccursAt(s, sep, j)
    {
      if j + |sep| <= |p| {
        assert s[j..j + |sep|] == p[j..j + |sep|];
        assert !OccursAt(p, sep, j);
      } else {
        var m := j + |sep| - |p|;
        assert s[j..j + |sep|][|p| - j..] == s[|p|..|p| + m] == sep[..m];
        assert sep[..m] != sep[|sep| - m..];
      }
    }
  }

  /** Splitting pieces joined with a self-avoiding separator gives the
      pieces back, provided none of them holds the separator. */
  lemma {:induction false} SplitJoin(parts: seq<string>, sep: string)
    requires |sep| > 0 && NoBorder(sep) && |parts| > 0
    requires forall k :: 0 <= k < |parts| ==> !Occurs(parts[k], sep)
    ensures Split(Join(parts, sep), sep) == parts
    decreases |parts|
  {
    if |parts| > 1 {
      var rest := Join(parts[1..], sep);
      SplitCons(parts[0], sep, rest);
      SplitJoin(parts[1..], sep);
      assert parts == [parts[0]] + parts[1..];
    }
  }

  /** Splitting a piece free of a self-avoiding separator, the separator and
      a rest gives the piece followed by the split of the rest. */
  lemma SplitCons(p: string, sep: string, t: string)
    requires |sep| > 0 && NoBorder(sep) && !Occurs(p, sep)
    ensures Split(p + sep + t, sep) == [p] + Split(t, sep)
  {
    FindAfterFree(p, sep, t);
    var s := p + sep + t;
    assert s[..|p|] == p;
    assert s[|p| + |sep|..] == t;
  }

  /** The first piece of `s.split(sep)` is a prefix of `s` free of `sep`,
      ending where `s` ends or where the first `sep` begins. */
  lemma SplitHead(s: string, sep: string)
    requires |sep| > 0
    ensures var h := Split(s, sep)[0];
      StartsWith(s, h) && !Occurs(h, sep) && (h == s || OccursAt(s, sep, |h|))
  {
  }

  /** After a prefix lacking `c`, the first `c` is where it is in the rest,
      shifted by the prefix. */
  lemma FindCharAfterPrefix(a: string, s: string, c: char)
    requires Lacks(a, c)
    ensures Find(a + s, [c]).None? <==> Find(s, [c]).None?
    ensures Find(s, [c]).Some? ==> Find(a + s, [c]) == Some(|a| + Find(s, [c]).value)
  {
    assert NoBorder([c]);
    match Find(s, [c])
    case None =>
      FreeOfCharLacks(s, c);
      LacksConcat(a, s, c);
      LacksHasNoOccurrence(a + s, c);
    case Some(i) =>
      PrefixBeforeFirstIsFree(s, [c], i);
      FreeOfCharLacks(s[..i], c);
      LacksConcat(a, s[..i], c);
      LacksHasNoOccurrence(a + s[..i], c);
      assert s == s[..i] + [c] + s[i + 1..];
      assert a + s == (a + s[..i]) + [c] + s[i + 1..];
      FindAfterFree(a + s[..i], [c], s[i + 1..]);
  }

  /** Splitting on a character after a prefix that lacks it extends the
      first piece by that prefix and leaves the others. */
  lemma SplitCharPrefix(a: string, s: string, c: char)
    requires Lacks(a, c)
    ensures var parts := Split(s, [c]);
      Split(a + s, [c]) == [a + parts[0]] + parts[1..]
  {
    FindCharAfterPrefix(a, s, c);
    if Find(s, [c]).Some? {
      var i := Find(s, [c]).value;
      assert (a + s)[..|a| + i] == a + s[..i];
      assert (a + s)[|a| + i + 1..] == s[i + 1..];
    }
  }

  /** The pieces of a four-part concatenation sit at their offsets. */
  lemma FourParts(a: string, b: string, c: string, d: string)
    ensures var s := a + b + c + d;
      && |s| == |a| + |b| + |c| + |d|
      && s[..|a|] == a
      && s[|a|..|a| + |b|] == b
      && s[|a| + |b|..|a| + |b| + |c|] == c
      && s[|a| + |b| + |c|..] == d
  {
    var ab := a + b;
    var abc := ab + c;
    var s := abc + d;
    assert s[..|abc|] == abc;
    assert abc[..|ab|] == ab;
    assert s[..|a|] == ab[..|a|] == a;
    assert s[|a|..|a| + |b|] == ab[|a|..] == b;
    assert s[|ab|..|abc|] == abc[|ab|..] == c;
  }
}
