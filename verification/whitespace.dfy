/** Whitespace handling: Python's `str.strip()` and the regular-expression
    substitution `re.sub(r'\s+', ' ', s)`. Both use the same fixed set of
    whitespace characters, `IsSpace`. */
module Whitespace {
  import Strings

  /** The characters Python's `str.isspace()` (and hence `\s` and
      `str.strip()`) treats as whitespace. */
  predicate IsSpace(c: char) {
    || c == ' ' || c == '\t' || c == '\n' || c == '\r'
    || c == '\U{000B}' || c == '\U{000C}'
    || ('\U{001C}' <= c <= '\U{001F}')
    || c == '\U{0085}' || c == '\U{00A0}' || c == '\U{1680}'
    || ('\U{2000}' <= c <= '\U{200A}')
    || c == '\U{2028}' || c == '\U{2029}' || c == '\U{202F}' || c == '\U{205F}' || c == '\U{3000}'
  }

  predicate AllSpace(s: string) {
    forall k :: 0 <= k < |s| ==> IsSpace(s[k])
  }

  /** No whitespace at either end. */
  predicate Trimmed(s: string) {
    s == [] || (!IsSpace(s[0]) && !IsSpace(s[|s| - 1]))
  }

  /** The only whitespace character present is the plain space. */
  predicate OnlyPlainSpaces(s: string) {
    forall k :: 0 <= k < |s| && IsSpace(s[k]) ==> s[k] == ' '
  }

  /** No two adjacent whitespace characters. */
  predicate NoDoubleSpace(s: string) {
    forall k :: 0 <= k < |s| - 1 ==> !(IsSpace(s[k]) && IsSpace(s[k + 1]))
  }

  /** Length of the whitespace run at the start of `s`. */
  function LeadingSpace(s: string): (n: nat)
    ensures n <= |s|
    ensures AllSpace(s[..n])
    ensures n < |s| ==> !IsSpace(s[n])
  {
    if |s| == 0 || !IsSpace(s[0]) then 0 else 1 + LeadingSpace(s[1..])
  }

  /** Length of the whitespace run at the end of `s`. */
  function TrailingSpace(s: string): (n: nat)
    ensures n <= |s|
    ensures forall k :: |s| - n <= k < |s| ==> IsSpace(s[k])
    ensures n < |s| ==> !IsSpace(s[|s| - 1 - n])
  {
    if |s| == 0 || !IsSpace(s[|s| - 1]) then 0
    else 1 + TrailingSpace(s[..|s| - 1])
  }

  /** Python's `s.strip()`: drops the whitespace at both ends and nothing else. */
  function Strip(s: string): (r: string)
    ensures Trimmed(r)
    ensures exists i, j :: 0 <= i <= j <= |s| && r == s[i..j] && AllSpace(s[..i]) && AllSpace(s[j..])
  {
    var i := LeadingSpace(s);
    var t := s[i..];
    var n := TrailingSpace(t);
    var j := |s| - n;
    assert t[..|t| - n] == s[i..j];
    assert AllSpace(s[j..]) by {
      forall k | 0 <= k < |s| - j
        ensures IsSpace(s[j..][k])
      {
        assert s[j..][k] == t[|t| - n + k];
      }
    }
    assert i < |s| ==> !IsSpace(t[0]) && n < |t|;
    t[..|t| - n]
  }

  /** `re.sub(r'\s+', ' ', s)`: every maximal run of whitespace becomes one
      plain space. */
  function Collapse(s: string): (r: string)
    ensures OnlyPlainSpaces(r)
    ensures NoDoubleSpace(r)
    ensures |r| == 0 <==> |s| == 0
    ensures |s| > 0 ==> (IsSpace(r[0]) <==> IsSpace(s[0]))
    decreases |s|
  {
    if |s| == 0 then ""
    else if IsSpace(s[0]) then " " + Collapse(s[LeadingSpace(s)..])
    else [s[0]] + Collapse(s[1..])
  }

  /** The non-whitespace characters of `s`, in order. */
  function RemoveSpaces(s: string): string {
    if |s| == 0 then "" else (if IsSpace(s[0]) then "" else [s[0]]) + RemoveSpaces(s[1..])
  }

  lemma {:induction false} RemoveSpacesConcat(a: string, b: string)
    ensures RemoveSpaces(a + b) == RemoveSpaces(a) + RemoveSpaces(b)
    decreases |a|
  {
    if |a| > 0 {
      assert (a + b)[0] == a[0];
      assert (a + b)[1..] == a[1..] + b;
      RemoveSpacesConcat(a[1..], b);
    } else {
      assert a + b == b;
    }
  }

  lemma {:induction false} RemoveSpacesOfSpace(s: string)
    requires AllSpace(s)
    ensures RemoveSpaces(s) == ""
    decreases |s|
  {
    if |s| > 0 {
      RemoveSpacesOfSpace(s[1..]);
    }
  }

  /** Collapsing whitespace runs only touches whitespace. */
  lemma {:induction false} CollapseKeepsNonSpace(s: string)
    ensures RemoveSpaces(Collapse(s)) == RemoveSpaces(s)
    decreases |s|
  {
    if |s| > 0 {
      if IsSpace(s[0]) {
        var n := LeadingSpace(s);
        CollapseKeepsNonSpace(s[n..]);
        assert s == s[..n] + s[n..];
        RemoveSpacesConcat(s[..n], s[n..]);
        RemoveSpacesOfSpace(s[..n]);
        RemoveSpacesConcat(" ", Collapse(s[n..]));
      } else {
        CollapseKeepsNonSpace(s[1..]);
        RemoveSpacesConcat([s[0]], Collapse(s[1..]));
      }
    }
  }

  /** Stripping only touches whitespace. */
  lemma StripKeepsNonSpace(s: string)
    ensures RemoveSpaces(Strip(s)) == RemoveSpaces(s)
  {
    var i, j :| 0 <= i <= j <= |s| && Strip(s) == s[i..j] && AllSpace(s[..i]) && AllSpace(s[j..]);
    assert s == s[..i] + s[i..j] + s[j..];
    RemoveSpacesConcat(s[..i] + s[i..j], s[j..]);
    RemoveSpacesConcat(s[..i], s[i..j]);
    RemoveSpacesOfSpace(s[..i]);
    RemoveSpacesOfSpace(s[j..]);
  }

  /** A string already in collapsed form is left alone by `Collapse`. */
  lemma {:induction false} CollapseFixesCollapsed(s: string)
    requires OnlyPlainSpaces(s) && NoDoubleSpace(s)
    ensures Collapse(s) == s
    decreases |s|
  {
    if |s| > 0 {
      var rest := s[1..];
      assert OnlyPlainSpaces(rest) && NoDoubleSpace(rest) by {
        forall k | 0 <= k < |rest| - 1
          ensures !(IsSpace(rest[k]) && IsSpace(rest[k + 1]))
        {
          assert rest[k] == s[k + 1] && rest[k + 1] == s[k + 2];
        }
      }
      CollapseFixesCollapsed(rest);
      if IsSpace(s[0]) {
        assert |s| > 1 ==> !IsSpace(s[1]);
        assert LeadingSpace(s) == 1;
      }
    }
  }

  /** A string without whitespace at its ends is left alone by `Strip`. */
  lemma StripFixesTrimmed(s: string)
    requires Trimmed(s)
    ensures Strip(s) == s
  {
    if |s| > 0 {
      assert LeadingSpace(s) == 0;
      assert TrailingSpace(s) == 0;
    }
  }

  /** Every slice of a string with single plain spaces has single plain spaces. */
  lemma SliceKeepsSpacing(s: string, i: nat, j: nat)
    requires i <= j <= |s|
    requires OnlyPlainSpaces(s) && NoDoubleSpace(s)
    ensures OnlyPlainSpaces(s[i..j]) && NoDoubleSpace(s[i..j])
  {
    var t := s[i..j];
    forall k | 0 <= k < |t| - 1
      ensures !(IsSpace(t[k]) && IsSpace(t[k + 1]))
    {
      assert t[k] == s[i + k] && t[k + 1] == s[i + k + 1];
    }
  }
  /** No whitespace anywhere. */
  predicate NoSpace(s: string) {
    forall k :: 0 <= k < |s| ==> !IsSpace(s[k])
  }

  /** Length of the non-whitespace run at the start of `s`. */
  function LeadingWord(s: string): (n: nat)
    ensures n <= |s|
    ensures forall k :: 0 <= k < n ==> !IsSpace(s[k])
    ensures n < |s| ==> IsSpace(s[n])
  {
    if |s| == 0 || IsSpace(s[0]) then 0 else 1 + LeadingWord(s[1..])
  }

  /** Python's `s.split()` without a separator: the maximal runs of
      non-whitespace characters, in order. */
  function Words(s: string): (ws: seq<string>)
    ensures forall k :: 0 <= k < |ws| ==> |ws[k]| > 0 && NoSpace(ws[k])
    decreases |s|
  {
    if |s| == 0 then []
    else if IsSpace(s[0]) then Words(s[LeadingSpace(s)..])
    else
      var n := LeadingWord(s);
      [s[..n]] + Words(s[n..])
  }

  /** A string without words is all whitespace. */
  lemma {:induction false} NoWordsAllSpace(s: string)
    requires Words(s) == []
    ensures AllSpace(s)
    decreases |s|
  {
    if |s| > 0 {
      var n := LeadingSpace(s);
      NoWordsAllSpace(s[n..]);
      assert s == s[..n] + s[n..];
    }
  }

  /** Collapsing passes a word at the front through unchanged. */
  lemma {:induction false} CollapseWord(s: string, m: nat)
    requires m <= |s| && forall k :: 0 <= k < m ==> !IsSpace(s[k])
    ensures Collapse(s) == s[..m] + Collapse(s[m..])
    decreases m
  {
    if m == 0 {
      assert s[m..] == s;
    } else {
      var t := s[1..];
      CollapseWord(t, m - 1);
      calc {
        Collapse(s);
        [s[0]] + Collapse(t);
        [s[0]] + (t[..m - 1] + Collapse(t[m - 1..]));
        { assert [s[0]] + t[..m - 1] == s[..m]; assert t[m - 1..] == s[m..]; }
        s[..m] + Collapse(s[m..]);
      }
    }
  }

  /** The single space `Collapse` leaves in front of `s`, if any. */
  function Lead(s: string): string {
    if |s| > 0 && IsSpace(s[0]) then " " else ""
  }

  /** The single space `Collapse` leaves behind the last word of `s`, if any. */
  function Trail(s: string): string {
    if Words(s) != [] && IsSpace(s[|s| - 1]) then " " else ""
  }

  /** What `Collapse` produces: the words of `s` separated by single spaces,
      with one space in front when `s` starts with whitespace and one behind
      when whitespace follows the last word. */
  lemma {:induction false} CollapseShape(s: string)
    ensures Collapse(s) == Lead(s) + Strings.Join(Words(s), " ") + Trail(s)
    decreases |s|
  {
    if |s| == 0 {
    } else if IsSpace(s[0]) {
      var n := LeadingSpace(s);
      CollapseShape(s[n..]);
      CollapseShapeSpace(s, n);
    } else {
      var m := LeadingWord(s);
      CollapseShape(s[m..]);
      CollapseShapeWord(s, m);
    }
  }

  /** The step of `CollapseShape` past a leading whitespace run. */
  lemma CollapseShapeSpace(s: string, n: nat)
    requires 0 < |s| && IsSpace(s[0]) && n == LeadingSpace(s)
    requires Collapse(s[n..]) == Lead(s[n..]) + Strings.Join(Words(s[n..]), " ") + Trail(s[n..])
    ensures Collapse(s) == Lead(s) + Strings.Join(Words(s), " ") + Trail(s)
  {
    SpaceRunFacts(s, n);
    Layout(Collapse(s), Collapse(s[n..]), " ", "", Strings.Join(Words(s), " "), Trail(s), Trail(s[n..]));
  }

  /** Past a leading whitespace run, `s` has the same words and the same
      trailing space, and no leading space. */
  lemma SpaceRunFacts(s: string, n: nat)
    requires 0 < |s| && IsSpace(s[0]) && n == LeadingSpace(s)
    ensures Collapse(s) == " " + Collapse(s[n..])
    ensures Words(s) == Words(s[n..])
    ensures Lead(s[n..]) == "" && Lead(s) == " "
    ensures Trail(s[n..]) == Trail(s)
  {
    assert Words(s[n..]) != [] ==> s[n..][|s[n..]| - 1] == s[|s| - 1];
  }

  /** The string identity behind both steps of `CollapseShape`. */
  lemma Layout(c: string, rc: string, head: string, lead: string, joined: string, trail: string, rtrail: string)
    requires c == head + rc && rc == lead + joined + rtrail && rtrail == trail
    ensures c == (head + lead) + joined + trail
  {
  }

  /** The step of `CollapseShape` past a leading word. */
  lemma CollapseShapeWord(s: string, m: nat)
    requires 0 < |s| && !IsSpace(s[0]) && m == LeadingWord(s)
    requires Collapse(s[m..]) == Lead(s[m..]) + Strings.Join(Words(s[m..]), " ") + Trail(s[m..])
    ensures Collapse(s) == Lead(s) + Strings.Join(Words(s), " ") + Trail(s)
  {
    if m == |s| {
      LastWord(s, m);
    } else if Words(s[m..]) == [] {
      LastWordThenSpace(s, m);
    } else {
      WordThenMore(s, m);
    }
  }

  /** The word step when more words follow: one space separates them. */
  lemma WordThenMore(s: string, m: nat)
    requires 0 < |s| && !IsSpace(s[0]) && m == LeadingWord(s) && Words(s[m..]) != []
    requires Collapse(s[m..]) == Lead(s[m..]) + Strings.Join(Words(s[m..]), " ") + Trail(s[m..])
    ensures Collapse(s) == Lead(s) + Strings.Join(Words(s), " ") + Trail(s)
  {
    var w, rest := s[..m], s[m..];
    var ws := Words(rest);
    CollapseWord(s, m);
    WordRunWords(s, m);
    SameTrail(s, m);
    JoinCons(w, ws);
    WordLayout(Collapse(s), Collapse(rest), w, Strings.Join(ws, " "), Trail(s), Lead(s), Strings.Join(Words(s), " "));
  }

  /** The string identity behind the word step of `CollapseShape`. */
  lemma WordLayout(c: string, rc: string, w: string, joined: string, trail: string, front: string, whole: string)
    requires c == w + rc && rc == " " + joined + trail
    requires whole == w + " " + joined && front == ""
    ensures c == front + whole + trail
  {
  }

  /** A suffix holding the last word has the same trailing space. */
  lemma SameTrail(s: string, m: nat)
    requires m <= |s| && Words(s[m..]) != [] && Words(s) != []
    ensures Trail(s[m..]) == Trail(s)
  {
    assert s[m..][|s[m..]| - 1] == s[|s| - 1];
  }

  /** The word step when the word ends the text. */
  lemma LastWord(s: string, m: nat)
    requires 0 < |s| && !IsSpace(s[0]) && m == LeadingWord(s) && m == |s|
    ensures Collapse(s) == Lead(s) + Strings.Join(Words(s), " ") + Trail(s)
  {
    CollapseWord(s, m);
    assert s[..m] == s;
    assert Words(s) == [s];
    assert !IsSpace(s[|s| - 1]);
  }

  /** The word step when only whitespace follows the last word: it
      becomes the trailing space. */
  lemma LastWordThenSpace(s: string, m: nat)
    requires 0 < |s| && !IsSpace(s[0]) && m == LeadingWord(s) && m < |s| && Words(s[m..]) == []
    requires Collapse(s[m..]) == Lead(s[m..]) + Strings.Join(Words(s[m..]), " ") + Trail(s[m..])
    ensures Collapse(s) == Lead(s) + Strings.Join(Words(s), " ") + Trail(s)
  {
    WordRunCollapse(s, m);
    WordRunWords(s, m);
    WordRunTrail(s, m);
    assert Collapse(s[m..]) == " ";
    assert Words(s) == [s[..m]];
  }

  /** Past a leading word, collapsing continues with the rest. */
  lemma WordRunCollapse(s: string, m: nat)
    requires 0 < |s| && !IsSpace(s[0]) && m == LeadingWord(s)
    ensures Collapse(s) == s[..m] + Collapse(s[m..])
  {
    CollapseWord(s, m);
  }

  /** The leading word is the first word, and a space follows it exactly when
      anything does. */
  lemma WordRunWords(s: string, m: nat)
    requires 0 < |s| && !IsSpace(s[0]) && m == LeadingWord(s)
    ensures Words(s) == [s[..m]] + Words(s[m..])
    ensures Lead(s) == "" && (|s[m..]| > 0 ==> Lead(s[m..]) == " ")
  {
  }

  /** Past a leading word, the trailing space is that of the rest, or a
      single space when the rest has no word but is not empty. */
  lemma WordRunTrail(s: string, m: nat)
    requires 0 < |s| && !IsSpace(s[0]) && m == LeadingWord(s)
    ensures |s[m..]| == 0 ==> Trail(s) == "" && Words(s[m..]) == []
    ensures |s[m..]| > 0 && Words(s[m..]) == [] ==> Trail(s) == " " && Trail(s[m..]) == ""
    ensures Words(s[m..]) != [] ==> Trail(s[m..]) == Trail(s)
  {
    var w, rest := s[..m], s[m..];
    assert Words(s) == [w] + Words(rest);
    if |rest| == 0 {
      assert s[|s| - 1] == w[|w| - 1];
    } else {
      assert rest[|rest| - 1] == s[|s| - 1];
      if Words(rest) == [] {
        NoWordsAllSpace(rest);
      }
    }
  }

  /** Joining with a word in front. */
  lemma JoinCons(w: string, ws: seq<string>)
    ensures Strings.Join([w] + ws, " ") == if ws == [] then w else w + " " + Strings.Join(ws, " ")
  {
    assert ([w] + ws)[1..] == ws;
  }

  /** Words joined by single spaces have no whitespace at either end. */
  lemma {:induction false} JoinWordsTrimmed(ws: seq<string>)
    requires forall k :: 0 <= k < |ws| ==> |ws[k]| > 0 && NoSpace(ws[k])
    ensures Trimmed(Strings.Join(ws, " "))
  {
    if |ws| > 1 {
      JoinWordsTrimmed(ws[1..]);
      assert ws[1..][0] == ws[1];
    }
  }

  lemma SpaceOnBothSides(x: string, i: nat)
    requires i <= |x| && AllSpace(x[..i]) && AllSpace(x[i..])
    ensures AllSpace(x)
  {
    assert x == x[..i] + x[i..];
  }

  /** There is only one way to cut a string into whitespace, a trimmed
      middle and whitespace. */
  lemma TrimmedMiddleUnique(x: string, i: nat, j: nat, p: nat, q: nat)
    requires i <= j <= |x| && p <= q <= |x|
    requires AllSpace(x[..i]) && AllSpace(x[j..]) && Trimmed(x[i..j])
    requires AllSpace(x[..p]) && AllSpace(x[q..]) && Trimmed(x[p..q])
    ensures x[i..j] == x[p..q]
  {
    if i == j {
      SpaceOnBothSides(x, i);
      if p < q {
        assert false;
      }
    } else if p == q {
      SpaceOnBothSides(x, p);
      assert false;
    } else {
      assert x[i..j][0] == x[i] && x[p..q][0] == x[p];
      assert x[i..j][j - i - 1] == x[j - 1] && x[p..q][q - p - 1] == x[q - 1];
      assert i == p by {
        if i < p {
          assert false;
        } else if p < i {
          assert false;
        }
      }
      assert j == q by {
        if j < q {
          assert false;
        } else if q < j {
          assert false;
        }
      }
    }
  }

  /** `Strip` removes exactly the whitespace around a trimmed middle. */
  lemma StripBetweenSpaces(a: string, t: string, b: string)
    requires AllSpace(a) && AllSpace(b) && Trimmed(t)
    ensures Strip(a + t + b) == t
  {
    var x := a + t + b;
    var r := Strip(x);
    var i, j :| 0 <= i <= j <= |x| && r == x[i..j] && AllSpace(x[..i]) && AllSpace(x[j..]);
    var p, q := |a|, |a| + |t|;
    assert x[..p] == a && x[p..q] == t && x[q..] == b;
    TrimmedMiddleUnique(x, i, j, p, q);
  }

  /** Collapsing and then stripping is Python's `" ".join(s.split())`: the
      words of `s` separated by single spaces. */
  lemma StripCollapseIsJoinWords(s: string)
    ensures Strip(Collapse(s)) == Strings.Join(Words(s), " ")
  {
    CollapseShape(s);
    JoinWordsTrimmed(Words(s));
    StripBetweenSpaces(Lead(s), Strings.Join(Words(s), " "), Trail(s));
  }

  /** `s` and `t` differ at most in which whitespace character stands where
      `s` has whitespace. */
  predicate SameUpToSpace(s: string, t: string) {
    && |s| == |t|
    && forall k :: 0 <= k < |s| ==> (IsSpace(s[k]) <==> IsSpace(t[k])) && (!IsSpace(s[k]) ==> s[k] == t[k])
  }

  /** Suffixes of such texts are such texts. */
  lemma SameUpToSpaceSuffix(s: string, t: string, n: nat)
    requires SameUpToSpace(s, t) && n <= |s|
    ensures SameUpToSpace(s[n..], t[n..])
  {
    assert forall k :: 0 <= k < |s| - n ==> s[n..][k] == s[n + k] && t[n..][k] == t[n + k];
  }

  /** Such texts start with runs of the same lengths. */
  lemma {:induction false} SameLeadingRuns(s: string, t: string)
    requires SameUpToSpace(s, t)
    ensures LeadingSpace(s) == LeadingSpace(t) && LeadingWord(s) == LeadingWord(t)
    decreases |s|
  {
    if |s| > 0 {
      SameUpToSpaceSuffix(s, t, 1);
      SameLeadingRuns(s[1..], t[1..]);
    }
  }

  /** Which whitespace character separates the words does not matter. */
  lemma {:induction false} SameWords(s: string, t: string)
    requires SameUpToSpace(s, t)
    ensures Words(s) == Words(t)
    decreases |s|
  {
    if |s| > 0 {
      SameLeadingRuns(s, t);
      if IsSpace(s[0]) {
        var n := LeadingSpace(s);
        SameUpToSpaceSuffix(s, t, n);
        SameWords(s[n..], t[n..]);
      } else {
        var n := LeadingWord(s);
        SameUpToSpaceSuffix(s, t, n);
        SameWords(s[n..], t[n..]);
        assert s[..n] == t[..n] by {
          forall k | 0 <= k < n
            ensures s[..n][k] == t[..n][k]
          {
            assert !IsSpace(s[..n][k]);
          }
        }
      }
    }
  }
}
