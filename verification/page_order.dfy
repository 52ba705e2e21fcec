/** `sort_values('page_label', na_position='last')`: rows ordered by page
    label, labels compared as Python compares strings, missing labels after
    all present ones. pandas' default sort is not stable, so the model sorts
    with one admissible algorithm and only its order and its permutation
    property are promised. */
module PageOrder {
  import opened AnnotationRows

  /** Python's `a <= b` on strings: lexicographic by code point, a proper
      prefix first. */
  predicate StrLeq(a: string, b: string)
    decreases |a|
  {
    a == [] || (b != [] && (a[0] < b[0] || (a[0] == b[0] && StrLeq(a[1..], b[1..]))))
  }

  lemma {:induction false} StrLeqRefl(a: string)
    ensures StrLeq(a, a)
    decreases |a|
  {
    if a != [] {
      StrLeqRefl(a[1..]);
    }
  }

  lemma {:induction false} StrLeqTotal(a: string, b: string)
    ensures StrLeq(a, b) || StrLeq(b, a)
    decreases |a|
  {
    if a != [] && b != [] && a[0] == b[0] {
      StrLeqTotal(a[1..], b[1..]);
    }
  }

  lemma {:induction false} StrLeqAntisym(a: string, b: string)
    requires StrLeq(a, b) && StrLeq(b, a)
    ensures a == b
    decreases |a|
  {
    if a != [] {
      StrLeqAntisym(a[1..], b[1..]);
      assert a == [a[0]] + a[1..] && b == [b[0]] + b[1..];
    }
  }

  lemma {:induction false} StrLeqTrans(a: string, b: string, c: string)
    requires StrLeq(a, b) && StrLeq(b, c)
    ensures StrLeq(a, c)
    decreases |a|
  {
    if a != [] && a[0] == b[0] && b[0] == c[0] {
      StrLeqTrans(a[1..], b[1..], c[1..]);
    }
  }

  /** The order of page labels: present labels by string order, missing
      labels last and tied with each other. */
  predicate PageLeq(a: Cell, b: Cell) {
    match (a, b)
    case (Text(x), Text(y)) => StrLeq(x, y)
    case (Text(_), Missing) => true
    case (Missing, Text(_)) => false
    case (Missing, Missing) => true
  }

  lemma PageLeqTotal(a: Cell, b: Cell)
    ensures PageLeq(a, b) || PageLeq(b, a)
  {
    if a.Text? && b.Text? {
      StrLeqTotal(a.s, b.s);
    }
  }

  lemma PageLeqTrans(a: Cell, b: Cell, c: Cell)
    requires PageLeq(a, b) && PageLeq(b, c)
    ensures PageLeq(a, c)
  {
    if a.Text? && b.Text? && c.Text? {
      StrLeqTrans(a.s, b.s, c.s);
    }
  }

  /** Two present labels ordered both ways are the same label; a missing
      label is never before a present one. */
  lemma PageLeqAntisym(a: Cell, b: Cell)
    requires PageLeq(a, b) && PageLeq(b, a)
    ensures a.Missing? <==> b.Missing?
    ensures a.Text? ==> a == b
  {
    if a.Text? && b.Text? {
      StrLeqAntisym(a.s, b.s);
    }
  }

  /** Every row comes no later in page order than every row after it. */
  predicate SortedByPage(rows: seq<Row>) {
    forall i, j :: 0 <= i < j < |rows| ==> PageLeq(rows[i].pageLabel, rows[j].pageLabel)
  }

  /** Each row is in page order with the one after it. */
  predicate AdjacentSorted(rows: seq<Row>) {
    forall i :: 0 < i < |rows| ==> PageLeq(rows[i - 1].pageLabel, rows[i].pageLabel)
  }

  /** Order between neighbours gives order between any two rows. */
  lemma {:induction false} AdjacentIsSorted(rows: seq<Row>)
    requires AdjacentSorted(rows)
    ensures SortedByPage(rows)
    decreases |rows|
  {
    if |rows| > 1 {
      var tail := rows[1..];
      assert AdjacentSorted(tail) by {
        forall i | 0 < i < |tail|
          ensures PageLeq(tail[i - 1].pageLabel, tail[i].pageLabel)
        {
          assert tail[i - 1] == rows[i] && tail[i] == rows[i + 1];
        }
      }
      AdjacentIsSorted(tail);
      forall i, j | 0 <= i < j < |rows|
        ensures PageLeq(rows[i].pageLabel, rows[j].pageLabel)
      {
        if i > 0 {
          assert rows[i] == tail[i - 1] && rows[j] == tail[j - 1];
        } else if j > 1 {
          assert rows[1] == tail[0] && rows[j] == tail[j - 1];
          PageLeqTrans(rows[0].pageLabel, rows[1].pageLabel, rows[j].pageLabel);
        }
      }
    }
  }

  /** Inserts `x` before the first row it is in page order with. */
  function Insert(x: Row, rows: seq<Row>): (r: seq<Row>)
    requires AdjacentSorted(rows)
    ensures AdjacentSorted(r)
    ensures multiset(r) == multiset(rows) + multiset{x}
    ensures r[0] == x || (rows != [] && r[0] == rows[0])
    decreases |rows|
  {
    if rows == [] || PageLeq(x.pageLabel, rows[0].pageLabel) then [x] + rows
    else
      var rest := Insert(x, rows[1..]);
      PageLeqTotal(x.pageLabel, rows[0].pageLabel);
      InsertStep(x, rows, rest);
      [rows[0]] + rest
  }

  /** The step of `Insert` that keeps the first row in front. */
  lemma InsertStep(x: Row, rows: seq<Row>, rest: seq<Row>)
    requires rows != [] && AdjacentSorted(rows) && AdjacentSorted(rest)
    requires PageLeq(rows[0].pageLabel, x.pageLabel)
    requires multiset(rest) == multiset(rows[1..]) + multiset{x}
    requires rest[0] == x || (rows[1..] != [] && rest[0] == rows[1])
    ensures AdjacentSorted([rows[0]] + rest)
    ensures multiset([rows[0]] + rest) == multiset(rows) + multiset{x}
  {
    var r := [rows[0]] + rest;
    forall i | 0 < i < |r|
      ensures PageLeq(r[i - 1].pageLabel, r[i].pageLabel)
    {
      if i > 1 {
        assert r[i - 1] == rest[i - 2] && r[i] == rest[i - 1];
      }
    }
    assert rows == [rows[0]] + rows[1..];
  }

  /** The rows in page order: a permutation of the input, sorted. Rows with
      equal labels may come in any order. */
  function SortByPage(rows: seq<Row>): (r: seq<Row>)
    ensures AdjacentSorted(r)
    ensures multiset(r) == multiset(rows)
    decreases |rows|
  {
    if rows == [] then []
    else
      assert rows == [rows[0]] + rows[1..];
      Insert(rows[0], SortByPage(rows[1..]))
  }

  /** The sorted rows are ordered pairwise, are the input rows, and have
      every row without a label after every row with one. */
  lemma SortByPageSorted(rows: seq<Row>)
    ensures SortedByPage(SortByPage(rows))
    ensures multiset(SortByPage(rows)) == multiset(rows)
    ensures |SortByPage(rows)| == |rows|
    ensures var r := SortByPage(rows);
      forall i, j :: 0 <= i < j < |r| && r[i].pageLabel.Missing? ==> r[j].pageLabel.Missing?
  {
    AdjacentIsSorted(SortByPage(rows));
    assert |multiset(SortByPage(rows))| == |multiset(rows)|;
  }

  /** In page order, the rows between two rows with the same present label
      carry that label too. */
  lemma SameLabelBetween(rows: seq<Row>, i: nat, k: nat, j: nat)
    requires SortedByPage(rows)
    requires i <= k <= j < |rows|
    requires rows[i].pageLabel.Text? && rows[i].pageLabel == rows[j].pageLabel
    ensures rows[k].pageLabel == rows[i].pageLabel
  {
    if i < k < j {
      StrLeqRefl(rows[i].pageLabel.s);
      PageLeqTrans(rows[k].pageLabel, rows[j].pageLabel, rows[i].pageLabel);
      PageLeqAntisym(rows[i].pageLabel, rows[k].pageLabel);
    }
  }
}
