/** The markdown the annotation converter writes for one attachment: a
    header taken from the attachment's first row, then the rows in page
    order, a "## Page" heading whenever the page changes and one block per
    annotation. */
module AnnotationRender {
  import opened Wrappers
  import opened Strings
  import opened Numerals
  import opened AnnotationRows
  import opened PageOrder

  predicate IsAsciiLetter(c: char) {
    'a' <= c <= 'z' || 'A' <= c <= 'Z'
  }

  function UpperChar(c: char): char {
    if 'a' <= c <= 'z' then (c as int - 'a' as int + 'A' as int) as char else c
  }

  /** `str.title()` on one character: a letter is upper-cased at the start
      of a word and lower-cased inside one; anything else is kept. */
  function TitleChar(inWord: bool, c: char): char {
    if !IsAsciiLetter(c) then c else if inWord then LowerChar(c) else UpperChar(c)
  }

  /** `str.title()` scanning from the left; `inWord` tells whether the
      character before `s` was a letter. */
  function TitleFrom(s: string, inWord: bool): (r: string)
    ensures |r| == |s|
    ensures forall k :: 0 <= k < |s| ==> r[k] == TitleChar(if k == 0 then inWord else IsAsciiLetter(s[k - 1]), s[k])
    decreases |s|
  {
    if s == [] then []
    else [TitleChar(inWord, s[0])] + TitleFrom(s[1..], IsAsciiLetter(s[0]))
  }

  /** Python's `s.title()` on ASCII letters: each character is decided by
      whether the character before it is a letter. */
  function TitleCase(s: string): (r: string)
    ensures |r| == |s|
    ensures forall k :: 0 <= k < |s| ==> r[k] == TitleChar(k > 0 && IsAsciiLetter(s[k - 1]), s[k])
  {
    TitleFrom(s, false)
  }

  /** One character title-cased: the same letter in some case, or the same
      non-letter; doing it twice changes nothing more. */
  lemma TitleCharFacts(inWord: bool, c: char)
    ensures LowerChar(TitleChar(inWord, c)) == LowerChar(c)
    ensures IsAsciiLetter(TitleChar(inWord, c)) == IsAsciiLetter(c)
    ensures TitleChar(inWord, TitleChar(inWord, c)) == TitleChar(inWord, c)
  {
  }

  /** Title-casing only changes the case of letters. */
  lemma TitleCaseKeepsLetters(s: string)
    ensures Lower(TitleCase(s)) == Lower(s)
  {
    var r := TitleCase(s);
    forall k | 0 <= k < |s|
      ensures Lower(r)[k] == Lower(s)[k]
    {
      TitleCharFacts(k > 0 && IsAsciiLetter(s[k - 1]), s[k]);
    }
  }

  /** Title-casing twice is title-casing once. */
  lemma TitleCaseIdempotent(s: string)
    ensures TitleCase(TitleCase(s)) == TitleCase(s)
  {
    var r := TitleCase(s);
    forall k | 0 <= k < |s|
      ensures TitleCase(r)[k] == r[k]
    {
      TitleCharFacts(k > 0 && IsAsciiLetter(s[k - 1]), s[k]);
      if k > 0 {
        TitleCharFacts(k > 1 && IsAsciiLetter(s[k - 2]), s[k - 1]);
      }
    }
  }

  /** The message of the `AttributeError` raised by `.title()` on a missing
      (float NaN) type name. */
  const TitleError: string := "'float' object has no attribute 'title'"

  /** The colour after the type, when the colour is truthy. */
  function ColorPart(color: Cell): string {
    if Truthy(color) then " `" + Shown(color) + "`" else ""
  }

  /** A labelled line for a text or comment that has content. */
  function FieldLine(caption: string, value: Cell): string {
    if HasContent(value) then caption + value.s + "\n\n" else ""
  }

  /** The block of one annotation; a missing type name raises. */
  function Block(row: Row): (r: Result<string>)
    ensures r.Failure? <==> row.typeName.Missing?
    ensures r.Failure? ==> r.error == TitleError
    ensures r.Success? ==> StartsWith(r.value, "### " + TitleCase(row.typeName.s) + ColorPart(row.color) + "\n\n")
    ensures r.Success? ==> EndsWith(r.value, "---\n\n")
  {
    match row.typeName
    case Missing => Failure(TitleError)
    case Text(t) =>
      var head := "### " + TitleCase(t) + ColorPart(row.color) + "\n\n";
      var tail := FieldLine("**Text:** ", row.text) + FieldLine("**Comment:** ", row.comment) + "---\n\n";
      assert (head + tail)[..|head|] == head;
      assert (head + tail)[|head + tail| - 5..] == tail[|tail| - 5..];
      Success(head + tail)
  }

  /** The header block: title, attachment id, paper id and file path, each
      on its own line, then a rule. */
  function Header(first: Row, id: int): (h: string)
    ensures StartsWith(h, "# " + Shown(first.paperTitle) + "\n\n")
    ensures h == ("# " + Shown(first.paperTitle) + "\n\n")
      + ("**Attachment ID:** " + IntToString(id) + "  \n")
      + ("**Paper ID:** " + Shown(first.paperId) + "  \n")
      + ("**File Path:** " + Shown(first.attachmentPath) + "  \n\n")
      + "---\n\n"
  {
    var top := "# " + Shown(first.paperTitle) + "\n\n";
    var idLine := "**Attachment ID:** " + IntToString(id) + "  \n";
    var paperLine := "**Paper ID:** " + Shown(first.paperId) + "  \n";
    var pathLine := "**File Path:** " + Shown(first.attachmentPath) + "  \n\n";
    PrefixOfAppends(top, idLine, paperLine, pathLine, "---\n\n");
    top + idLine + paperLine + pathLine + "---\n\n"
  }

  /** The first of several appended strings is a prefix of the result. */
  lemma PrefixOfAppends(a: string, b: string, c: string, d: string, e: string)
    ensures StartsWith(a + b + c + d + e, a)
  {
    var s := a + b + c + d + e;
    assert s[..|a + b + c + d|] == a + b + c + d;
    assert (a + b + c + d)[..|a + b + c|] == a + b + c;
    assert (a + b + c)[..|a + b|] == a + b;
    assert (a + b)[..|a|] == a;
    assert s[..|a|] == (a + b)[..|a|];
  }

  /** The `###` line of a block whose row has a type name. */
  function BlockHead(row: Row): string
    requires row.typeName.Text?
  {
    "### " + TitleCase(row.typeName.s) + ColorPart(row.color) + "\n\n"
  }

  /** The `**Text:**` line of a block, when the text has content. */
  function TextLine(row: Row): string {
    if HasContent(row.text) then "**Text:** " + row.text.s + "\n\n" else ""
  }

  /** The `**Comment:**` line of a block, when the comment has content. */
  function CommentLine(row: Row): string {
    if HasContent(row.comment) then "**Comment:** " + row.comment.s + "\n\n" else ""
  }

  /** The lines of a block between its `###` line and its rule: a `**Text:**`
      line exactly when the text has content, then a `**Comment:**` line
      exactly when the comment has content, and nothing else. */
  lemma BlockLines(row: Row)
    requires row.typeName.Text?
    ensures Block(row).Success?
    ensures !HasContent(row.text) && !HasContent(row.comment) ==> Block(row).value == BlockHead(row) + "---\n\n"
    ensures |Block(row).value| == |BlockHead(row)| + |TextLine(row)| + |CommentLine(row)| + 5
    ensures Block(row).value[..|BlockHead(row)|] == BlockHead(row)
    ensures Block(row).value[|BlockHead(row)|..|BlockHead(row)| + |TextLine(row)|] == TextLine(row)
    ensures Block(row).value[|BlockHead(row)| + |TextLine(row)|..|BlockHead(row)| + |TextLine(row)| + |CommentLine(row)|] == CommentLine(row)
    ensures Block(row).value[|BlockHead(row)| + |TextLine(row)| + |CommentLine(row)|..] == "---\n\n"
  {
    var head, textLine, commentLine := BlockHead(row), TextLine(row), CommentLine(row);
    BlockParts(row, head, textLine, commentLine);
    var b := Block(row).value;
    assert b == head + textLine + commentLine + "---\n\n";
    FourParts(head, textLine, commentLine, "---\n\n");
    if textLine == [] && commentLine == [] {
      assert head + textLine + commentLine == head;
    }
  }

  /** A block is its `###` line, its two field lines and the rule, in that
      order. */
  lemma BlockParts(row: Row, head: string, textLine: string, commentLine: string)
    requires row.typeName.Text?
    requires head == "### " + TitleCase(row.typeName.s) + ColorPart(row.color) + "\n\n"
    requires textLine == FieldLine("**Text:** ", row.text)
    requires commentLine == FieldLine("**Comment:** ", row.comment)
    ensures Block(row) == Success(head + textLine + commentLine + "---\n\n")
  {
    assert head + (textLine + commentLine + "---\n\n") == head + textLine + commentLine + "---\n\n";
  }

  /** The header tells the attachment id: two headers of one paper row
      agree only for the same id. */
  lemma HeaderDeterminesId(first: Row, a: int, b: int)
    requires Header(first, a) == Header(first, b)
    ensures a == b
  {
    var top := "# " + Shown(first.paperTitle) + "\n\n";
    var paperLine := "**Paper ID:** " + Shown(first.paperId) + "  \n";
    var pathLine := "**File Path:** " + Shown(first.attachmentPath) + "  \n\n";
    var la := "**Attachment ID:** " + IntToString(a) + "  \n";
    var lb := "**Attachment ID:** " + IntToString(b) + "  \n";
    FourParts(top + la, paperLine, pathLine, "---\n\n");
    FourParts(top + lb, paperLine, pathLine, "---\n\n");
    assert top + la == top + lb;
    assert (top + la)[|top|..] == la;
    assert (top + lb)[|top|..] == lb;
    FourParts("**Attachment ID:** ", IntToString(a), "  \n", "");
    FourParts("**Attachment ID:** ", IntToString(b), "  \n", "");
    assert IntToString(a) == IntToString(b);
    IntToStringInjective(a, b);
  }

  /** What the loop over the sorted rows appends, before rendering. */
  datatype Piece = Spacer | Heading(page: Cell) | Entry(row: Row)

  /** Python's `page != current_page` between two labels: NaN differs from
      everything, itself included. */
  predicate Differs(a: Cell, b: Cell) {
    a.Missing? || b.Missing? || a.s != b.s
  }

  /** The loop of the converter, with `current` the page of the last
      heading (`None` before the first). */
  function Layout(rows: seq<Row>, current: Option<Cell>): (ps: seq<Piece>)
    decreases |rows|
  {
    if rows == [] then []
    else
      var page := rows[0].pageLabel;
      var changed := current.None? || Differs(page, current.value);
      var head := if changed then (if current.Some? then [Spacer] else []) + [Heading(page)] else [];
      head + [Entry(rows[0])] + Layout(rows[1..], if changed then Some(page) else current)
  }

  /** A heading precedes row `i` exactly when it is the first row or its
      page differs from the page of the row before it. */
  predicate HeadingBefore(rows: seq<Row>, i: nat)
    requires i < |rows|
  {
    i == 0 || Differs(rows[i].pageLabel, rows[i - 1].pageLabel)
  }

  /** The pieces for row `i`, defined by position: a spacer and a heading
      when a heading precedes it (no spacer before the first heading), then
      its entry. */
  function RowPieces(rows: seq<Row>, i: nat): seq<Piece>
    requires i < |rows|
  {
    (if HeadingBefore(rows, i) then (if i > 0 then [Spacer] else []) + [Heading(rows[i].pageLabel)] else [])
      + [Entry(rows[i])]
  }

  /** The pieces of rows `i..`, defined by position. */
  function PiecesFrom(rows: seq<Row>, i: nat): seq<Piece>
    requires i <= |rows|
    decreases |rows| - i
  {
    if i == |rows| then [] else RowPieces(rows, i) + PiecesFrom(rows, i + 1)
  }

  /** The loop state when it reaches row `i`: the page of the row before. */
  function CurrentAt(rows: seq<Row>, i: nat): Option<Cell>
    requires i <= |rows|
  {
    if i == 0 then None else Some(rows[i - 1].pageLabel)
  }

  /** The loop produces, from row `i` on, the pieces defined by position. */
  lemma {:induction false} LayoutFrom(rows: seq<Row>, i: nat)
    requires i <= |rows|
    ensures Layout(rows[i..], CurrentAt(rows, i)) == PiecesFrom(rows, i)
    decreases |rows| - i
  {
    if i < |rows| {
      LayoutFrom(rows, i + 1);
      var cur := CurrentAt(rows, i);
      var page := rows[i].pageLabel;
      assert rows[i..][0] == rows[i] && rows[i..][1..] == rows[i + 1..];
      var changed := cur.None? || Differs(page, cur.value);
      assert changed == HeadingBefore(rows, i);
      assert (if changed then Some(page) else cur) == CurrentAt(rows, i + 1);
    }
  }

  /** The loop's output is the output defined by position. */
  lemma LayoutIsPositional(rows: seq<Row>)
    ensures Layout(rows, None) == PiecesFrom(rows, 0)
  {
    LayoutFrom(rows, 0);
  }

  /** The rows of the entries, in order. */
  function EntryRows(ps: seq<Piece>): (rows: seq<Row>)
    ensures |rows| <= |ps|
    decreases |ps|
  {
    if ps == [] then [] else (if ps[0].Entry? then [ps[0].row] else []) + EntryRows(ps[1..])
  }

  lemma {:induction false} EntriesConcat(a: seq<Piece>, b: seq<Piece>)
    ensures EntryRows(a + b) == EntryRows(a) + EntryRows(b)
    decreases |a|
  {
    if a == [] {
      assert a + b == b;
    } else {
      var x := if a[0].Entry? then [a[0].row] else [];
      assert (a + b)[0] == a[0] && (a + b)[1..] == a[1..] + b;
      assert EntryRows(a + b) == x + EntryRows(a[1..] + b);
      EntriesConcat(a[1..], b);
      assert EntryRows(a) == x + EntryRows(a[1..]);
      assert x + (EntryRows(a[1..]) + EntryRows(b)) == (x + EntryRows(a[1..])) + EntryRows(b);
    }
  }

  /** There is one entry per row, in row order. */
  lemma {:induction false} EntriesFrom(rows: seq<Row>, i: nat)
    requires i <= |rows|
    ensures EntryRows(PiecesFrom(rows, i)) == rows[i..]
    decreases |rows| - i
  {
    if i < |rows| {
      EntriesFrom(rows, i + 1);
      var head := RowPieces(rows, i);
      EntriesConcat(head, PiecesFrom(rows, i + 1));
      assert EntryRows(head) == [rows[i]] by {
        var pre := if HeadingBefore(rows, i) then (if i > 0 then [Spacer] else []) + [Heading(rows[i].pageLabel)] else [];
        EntriesConcat(pre, [Entry(rows[i])]);
        assert EntryRows(pre) == [] by {
          if HeadingBefore(rows, i) && i > 0 {
            EntriesConcat([Spacer], [Heading(rows[i].pageLabel)]);
          }
        }
      }
      assert rows[i..] == [rows[i]] + rows[i + 1..];
    }
  }

  /** The loop emits one block per row, in the order of the rows. */
  lemma LayoutEntries(rows: seq<Row>)
    ensures EntryRows(Layout(rows, None)) == rows
  {
    LayoutIsPositional(rows);
    EntriesFrom(rows, 0);
  }

  /** In page order, a present label is headed once: a later row with the
      same label as an earlier one never gets a heading. */
  lemma SortedHeadingOnce(rows: seq<Row>, i: nat, j: nat)
    requires SortedByPage(rows)
    requires i < j < |rows| && rows[i].pageLabel.Text? && rows[i].pageLabel == rows[j].pageLabel
    ensures !HeadingBefore(rows, j)
  {
    SameLabelBetween(rows, i, j - 1, j);
  }

  /** The text of one piece. */
  function PieceText(p: Piece): (r: Result<string>)
    ensures r.Failure? <==> p.Entry? && p.row.typeName.Missing?
  {
    match p
    case Spacer => Success("\n")
    case Heading(page) => Success("## Page " + Shown(page) + "\n\n")
    case Entry(row) => Block(row)
  }

  /** `''.join(...)` of texts each of which may have raised: the first
      failure is the one raised, otherwise the texts are concatenated. */
  function JoinTexts(rs: seq<Result<string>>): (r: Result<string>)
    decreases |rs|
  {
    if rs == [] then Success("")
    else if rs[0].Failure? then Failure(rs[0].error)
    else
      match JoinTexts(rs[1..])
      case Failure(e) => Failure(e)
      case Success(rest) => Success(rs[0].value + rest)
  }

  /** Joining fails exactly when some text failed, and then with the error
      every failed text carries. */
  lemma {:induction false} JoinTextsFails(rs: seq<Result<string>>, e: string)
    requires forall k :: 0 <= k < |rs| && rs[k].Failure? ==> rs[k].error == e
    ensures JoinTexts(rs).Failure? <==> exists k :: 0 <= k < |rs| && rs[k].Failure?
    ensures JoinTexts(rs).Failure? ==> JoinTexts(rs).error == e
    decreases |rs|
  {
    if rs != [] {
      JoinTextsFails(rs[1..], e);
      if exists k :: 0 <= k < |rs[1..]| && rs[1..][k].Failure? {
        var k :| 0 <= k < |rs[1..]| && rs[1..][k].Failure?;
        assert rs[k + 1] == rs[1..][k];
      }
      if exists k :: 0 <= k < |rs| && rs[k].Failure? {
        var k :| 0 <= k < |rs| && rs[k].Failure?;
        if k > 0 {
          assert rs[1..][k - 1] == rs[k];
        }
      }
    }
  }

  /** Joining a concatenation joins each part and concatenates the texts. */
  lemma {:induction false} JoinTextsConcat(a: seq<Result<string>>, b: seq<Result<string>>)
    requires JoinTexts(a).Success? && JoinTexts(b).Success?
    ensures JoinTexts(a + b) == Success(JoinTexts(a).value + JoinTexts(b).value)
    decreases |a|
  {
    if a == [] {
      assert a + b == b;
      assert "" + JoinTexts(b).value == JoinTexts(b).value;
    } else {
      JoinTextsConcat(a[1..], b);
      assert (a + b)[0] == a[0] && (a + b)[1..] == a[1..] + b;
      var t, x, y := a[0].value, JoinTexts(a[1..]).value, JoinTexts(b).value;
      assert t + (x + y) == (t + x) + y;
    }
  }

  /** The text of every piece, in order. */
  function Texts(ps: seq<Piece>): (rs: seq<Result<string>>)
    ensures |rs| == |ps|
    ensures forall k :: 0 <= k < |rs| && rs[k].Failure? ==> rs[k].error == TitleError
    decreases |ps|
  {
    if ps == [] then [] else [PieceText(ps[0])] + Texts(ps[1..])
  }

  /** The text of the `k`-th piece. */
  lemma {:induction false} TextsAt(ps: seq<Piece>, k: nat)
    requires k < |ps|
    ensures Texts(ps)[k] == PieceText(ps[k])
    decreases |ps|
  {
    if k > 0 {
      TextsAt(ps[1..], k - 1);
    }
  }

  /** The texts of a concatenation are the texts of its parts. */
  lemma TextsConcat(a: seq<Piece>, b: seq<Piece>)
    ensures Texts(a + b) == Texts(a) + Texts(b)
  {
    forall k | 0 <= k < |a + b|
      ensures Texts(a + b)[k] == (Texts(a) + Texts(b))[k]
    {
      TextsAt(a + b, k);
      if k < |a| {
        TextsAt(a, k);
      } else {
        TextsAt(b, k - |a|);
      }
    }
  }

  /** The markdown of the pieces; the first block with a missing type name
      raises and nothing is produced. */
  function Emit(ps: seq<Piece>): (r: Result<string>)
    ensures r.Failure? ==> r.error == TitleError
  {
    JoinTextsFails(Texts(ps), TitleError);
    JoinTexts(Texts(ps))
  }

  /** Emitting fails exactly when some entry has a missing type name. */
  lemma EmitFails(ps: seq<Piece>)
    ensures Emit(ps).Failure? <==> exists row :: row in EntryRows(ps) && row.typeName.Missing?
  {
    var rs := Texts(ps);
    JoinTextsFails(rs, TitleError);
    if exists k :: 0 <= k < |rs| && rs[k].Failure? {
      var k :| 0 <= k < |rs| && rs[k].Failure?;
      TextsAt(ps, k);
      EntryRowsHas(ps, k);
    }
    if exists row :: row in EntryRows(ps) && row.typeName.Missing? {
      var row :| row in EntryRows(ps) && row.typeName.Missing?;
      var k := EntryIndex(ps, row);
      TextsAt(ps, k);
      assert rs[k].Failure?;
    }
  }

  /** The row of an entry is among the entry rows. */
  lemma {:induction false} EntryRowsHas(ps: seq<Piece>, k: nat)
    requires k < |ps| && ps[k].Entry?
    ensures ps[k].row in EntryRows(ps)
    decreases |ps|
  {
    if k > 0 {
      EntryRowsHas(ps[1..], k - 1);
    }
  }

  /** Where an entry row comes from. */
  lemma {:induction false} EntryIndex(ps: seq<Piece>, row: Row) returns (k: nat)
    requires row in EntryRows(ps)
    ensures k < |ps| && ps[k] == Entry(row)
    decreases |ps|
  {
    if ps[0] == Entry(row) {
      k := 0;
    } else {
      var j := EntryIndex(ps[1..], row);
      k := j + 1;
    }
  }

  /** Emitting a concatenation emits each part and concatenates the texts. */
  lemma EmitConcat(a: seq<Piece>, b: seq<Piece>)
    requires Emit(a).Success? && Emit(b).Success?
    ensures Emit(a + b) == Success(Emit(a).value + Emit(b).value)
  {
    TextsConcat(a, b);
    JoinTextsConcat(Texts(a), Texts(b));
  }

  /** The markdown of a non-empty selection: the header from its first row,
      then the sorted rows laid out. */
  function Render(sel: seq<Row>, id: int): (r: Result<string>)
    requires sel != []
    ensures r.Failure? <==> exists k :: 0 <= k < |sel| && sel[k].typeName.Missing?
    ensures r.Failure? ==> r.error == TitleError
    ensures r.Success? ==> StartsWith(r.value, Header(sel[0], id))
  {
    var sorted := SortByPage(sel);
    var body := Emit(Layout(sorted, None));
    LayoutEntries(sorted);
    EmitFails(Layout(sorted, None));
    SortedSameRows(sel);
    if body.Failure? then Failure(body.error)
    else
      var h := Header(sel[0], id);
      assert (h + body.value)[..|h|] == h;
      Success(h + body.value)
  }

  /** Sorting keeps the rows, so a row with a missing type is in the sorted
      rows exactly when it is in the selection. */
  lemma SortedSameRows(sel: seq<Row>)
    ensures (exists row :: row in SortByPage(sel) && row.typeName.Missing?)
        <==> (exists k :: 0 <= k < |sel| && sel[k].typeName.Missing?)
  {
    var sorted := SortByPage(sel);
    assert forall row :: row in sorted <==> row in multiset(sorted);
    assert forall row :: row in sel <==> row in multiset(sel);
  }

  /** A successful rendering is the header followed by the emitted layout of
      a page-sorted permutation of the selection, with one entry per row. */
  lemma RenderShape(sel: seq<Row>, id: int)
    requires sel != [] && Render(sel, id).Success?
    ensures var sorted := SortByPage(sel);
      && SortedByPage(sorted) && multiset(sorted) == multiset(sel)
      && EntryRows(PiecesFrom(sorted, 0)) == sorted
      && Emit(PiecesFrom(sorted, 0)).Success?
      && Render(sel, id).value == Header(sel[0], id) + Emit(PiecesFrom(sorted, 0)).value
  {
    var sorted := SortByPage(sel);
    SortByPageSorted(sel);
    LayoutIsPositional(sorted);
    EntriesFrom(sorted, 0);
  }
}
