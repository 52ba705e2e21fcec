/** Writing the annotation markdown files: one attachment at a time, and the
    batch over every attachment of the table with its per-attachment results
    and counters. */
module AnnotationBatch {
  import opened Wrappers
  import opened Strings
  import opened Numerals
  import opened Paths
  import opened FileSystem
  import opened Config
  import opened AnnotationRows
  import opened PageOrder
  import opened AnnotationRender

  /** The file an attachment's markdown goes to: `<output>/<id>.md`. */
  function OutputFile(outDir: Path, id: int): Path {
    JoinPath(outDir, IntToString(id) + MarkdownExt)
  }

  /** The file name `<id>.md` is a plain name. */
  lemma OutputNamePlain(id: int)
    ensures PlainName(IntToString(id) + MarkdownExt)
  {
    var t := IntToString(id);
    assert forall k :: 0 <= k < |t| ==> t[k] != '/';
    LacksConcat(t, MarkdownExt, '/');
  }

  /** Different attachments are written to different files. */
  lemma OutputFileInjective(outDir: Path, a: int, b: int)
    requires a != b
    ensures OutputFile(outDir, a) != OutputFile(outDir, b)
  {
    OutputNamePlain(a);
    OutputNamePlain(b);
    var na := IntToString(a) + MarkdownExt;
    var nb := IntToString(b) + MarkdownExt;
    if OutputFile(outDir, a) == OutputFile(outDir, b) {
      JoinInjective(outDir, na, nb);
      assert na[..|na| - 3] == IntToString(a);
      assert nb[..|nb| - 3] == IntToString(b);
      IntToStringInjective(a, b);
    }
  }

  /** What `annotations_to_markdown` does: nothing when the attachment has
      no rows (it returns `None`), the exception of a failed rendering, or
      the markdown written to the attachment's file. */
  datatype SingleOutcome = NoAnnotations | Raised(error: string) | Written(fs: Fs, path: Path)

  function AnnotationsToMarkdown(rows: seq<Row>, id: int, outDir: Path, fs: Fs): (r: SingleOutcome)
    ensures r.NoAnnotations? <==> forall k :: 0 <= k < |rows| ==> rows[k].attachmentId != id
    ensures r.Raised? ==> r.error == TitleError
    ensures r.Written? ==> r.path == OutputFile(outDir, id)
    ensures r.Written? ==> forall k :: k != r.path ==> (k in r.fs <==> k in fs) && (k in fs ==> r.fs[k] == fs[k])
  {
    SelectEmpty(rows, id);
    var sel := Select(rows, id);
    if sel == [] then NoAnnotations
    else
      match Render(sel, id)
      case Failure(e) => Raised(e)
      case Success(text) => Written(fs[OutputFile(outDir, id) := text], OutputFile(outDir, id))
  }

  /** A written file holds the attachment's header, taken from its first row
      in table order, and one block per annotation of the attachment. */
  lemma WrittenContent(rows: seq<Row>, id: int, outDir: Path, fs: Fs, j: nat)
    requires j < |rows| && rows[j].attachmentId == id
    requires forall k :: 0 <= k < j ==> rows[k].attachmentId != id
    requires AnnotationsToMarkdown(rows, id, outDir, fs).Written?
    ensures var w := AnnotationsToMarkdown(rows, id, outDir, fs);
      var sorted := SortByPage(Select(rows, id));
      && w.path in w.fs
      && Emit(PiecesFrom(sorted, 0)).Success?
      && w.fs[w.path] == Header(rows[j], id) + Emit(PiecesFrom(sorted, 0)).value
      && EntryRows(PiecesFrom(sorted, 0)) == sorted
      && multiset(sorted) == multiset(Select(rows, id))
      && SortedByPage(sorted)
  {
    SelectFirst(rows, id, j);
    RenderShape(Select(rows, id), id);
  }

  /** A rendering fails exactly when a row of the attachment lacks a type
      name. */
  lemma RaisedExactly(rows: seq<Row>, id: int, outDir: Path, fs: Fs)
    requires !AnnotationsToMarkdown(rows, id, outDir, fs).NoAnnotations?
    ensures AnnotationsToMarkdown(rows, id, outDir, fs).Raised?
        <==> exists k :: 0 <= k < |rows| && rows[k].attachmentId == id && rows[k].typeName.Missing?
  {
    var sel := Select(rows, id);
    SelectEmpty(rows, id);
    assert sel != [];
    var rendered := Render(sel, id);
    assert AnnotationsToMarkdown(rows, id, outDir, fs).Raised? <==> rendered.Failure?;
    assert rendered.Failure? <==> exists k :: 0 <= k < |sel| && sel[k].typeName.Missing?;
    SelectMissing(rows, id);
  }

  /** Strictly ascending: sorted and without repetitions. */
  predicate Ascending(ids: seq<int>) {
    forall i, j :: 0 <= i < j < |ids| ==> ids[i] < ids[j]
  }

  /** The attachment ids occurring in the table. */
  function IdSet(rows: seq<Row>): set<int> {
    set k | 0 <= k < |rows| :: rows[k].attachmentId
  }

  /** Adds `x` to an ascending list, keeping it ascending. */
  function InsertId(x: int, ids: seq<int>): (r: seq<int>)
    requires Ascending(ids)
    ensures Ascending(r)
    ensures forall y :: y in r <==> y == x || y in ids
    decreases |ids|
  {
    if ids == [] || x < ids[0] then [x] + ids
    else if x == ids[0] then ids
    else
      var rest := InsertId(x, ids[1..]);
      assert forall y :: y in rest ==> ids[0] < y;
      AscendingCons(ids[0], rest);
      assert ids == [ids[0]] + ids[1..];
      [ids[0]] + rest
  }

  /** A smaller id in front of an ascending list keeps it ascending. */
  lemma AscendingCons(x: int, ids: seq<int>)
    requires Ascending(ids) && forall y :: y in ids ==> x < y
    ensures Ascending([x] + ids)
    ensures forall y :: y in [x] + ids <==> y == x || y in ids
  {
    var r := [x] + ids;
    forall i, j | 0 <= i < j < |r|
      ensures r[i] < r[j]
    {
      assert r[j] == ids[j - 1] && ids[j - 1] in ids;
      if i > 0 {
        assert r[i] == ids[i - 1];
      }
    }
  }

  /** `sorted(annot['attachment_id'].unique())`: each attachment id of the
      table once, in ascending order. */
  function AttachmentIds(rows: seq<Row>): (ids: seq<int>)
    ensures Ascending(ids)
    ensures forall x :: x in ids <==> x in IdSet(rows)
    decreases |rows|
  {
    if rows == [] then []
    else
      var n := |rows| - 1;
      var prev := AttachmentIds(rows[..n]);
      assert forall x :: x in IdSet(rows) <==> x in IdSet(rows[..n]) || x == rows[n].attachmentId by {
        forall x | x in IdSet(rows) ensures x in IdSet(rows[..n]) || x == rows[n].attachmentId {
          var k :| 0 <= k < |rows| && rows[k].attachmentId == x;
          if k < n {
            assert rows[..n][k] == rows[k];
          }
        }
        forall x | x in IdSet(rows[..n]) ensures x in IdSet(rows) {
          var k :| 0 <= k < n && rows[..n][k].attachmentId == x;
          assert rows[k] == rows[..n][k];
        }
      }
      InsertId(rows[n].attachmentId, prev)
  }

  /** Every attachment id of the batch has rows in the table. */
  lemma IdHasRows(rows: seq<Row>, id: int)
    requires id in AttachmentIds(rows)
    ensures exists k :: 0 <= k < |rows| && rows[k].attachmentId == id
  {
    assert id in IdSet(rows);
  }

  /** The result the batch records for one attachment. */
  datatype AttachmentResult =
    | Succeeded(filePath: Path, annotationCount: nat, paperTitle: Cell)
    | FailedWith(reason: string)

  /** The reason recorded for an attachment without rows. */
  const NoAnnotationsReason: string := "No annotations found"

  /** The body of the batch loop for one attachment id. */
  function ProcessOne(rows: seq<Row>, id: int, outDir: Path, fs: Fs): (r: (Fs, AttachmentResult))
  {
    var sel := Select(rows, id);
    if sel == [] then (fs, FailedWith(NoAnnotationsReason))
    else
      match Render(sel, id)
      case Failure(e) => (fs, FailedWith(e))
      case Success(text) => (fs[OutputFile(outDir, id) := text], Succeeded(OutputFile(outDir, id), |sel|, sel[0].paperTitle))
  }

  /** For each attachment, the batch does what the single-attachment
      function does: it writes the same file with the same text, or fails
      with the same exception, and counts the same annotations. */
  lemma ProcessOneMatchesSingle(rows: seq<Row>, id: int, outDir: Path, fs: Fs)
    ensures var (fs2, res) := ProcessOne(rows, id, outDir, fs);
      match AnnotationsToMarkdown(rows, id, outDir, fs)
      case NoAnnotations => res == FailedWith(NoAnnotationsReason) && fs2 == fs
      case Raised(e) => res == FailedWith(e) && fs2 == fs
      case Written(w, path) =>
        && res == Succeeded(path, |Select(rows, id)|, Select(rows, id)[0].paperTitle)
        && fs2 == w
  {
  }

  /** The batch's results and counters, with the filesystem it leaves. */
  datatype BatchResult = BatchResult(fs: Fs, results: seq<(int, AttachmentResult)>, successful: nat, failed: nat)

  /** How many results are successes. */
  function CountSucceeded(results: seq<(int, AttachmentResult)>): (n: nat)
    ensures n <= |results|
    decreases |results|
  {
    if results == [] then 0 else (if results[0].1.Succeeded? then 1 else 0) + CountSucceeded(results[1..])
  }

  /** The count is zero exactly when no attachment succeeded, and the whole
      length exactly when every one did. */
  lemma {:induction false} CountSucceededMeaning(results: seq<(int, AttachmentResult)>)
    ensures CountSucceeded(results) == 0 <==> forall i :: 0 <= i < |results| ==> !results[i].1.Succeeded?
    ensures CountSucceeded(results) == |results| <==> forall i :: 0 <= i < |results| ==> results[i].1.Succeeded?
    decreases |results|
  {
    if results != [] {
      var rest := results[1..];
      CountSucceededMeaning(rest);
      assert forall i :: 0 <= i < |rest| ==> rest[i] == results[i + 1];
    }
  }

  /** The batch loop over `ids`, in order. */
  function ProcessIds(rows: seq<Row>, ids: seq<int>, outDir: Path, fs: Fs): (b: BatchResult)
    ensures |b.results| == |ids|
    ensures forall i :: 0 <= i < |ids| ==> b.results[i].0 == ids[i]
    ensures b.successful == CountSucceeded(b.results)
    ensures b.successful + b.failed == |ids|
    decreases |ids|
  {
    if ids == [] then BatchResult(fs, [], 0, 0)
    else
      var step := ProcessOne(rows, ids[0], outDir, fs);
      var rest := ProcessIds(rows, ids[1..], outDir, step.0);
      var results := [(ids[0], step.1)] + rest.results;
      assert results[1..] == rest.results;
      BatchResult(rest.fs, results,
        rest.successful + (if step.1.Succeeded? then 1 else 0),
        rest.failed + (if step.1.Succeeded? then 0 else 1))
  }

  /** `process_all_attachments`: every attachment id of the table, ascending. */
  function ProcessAll(rows: seq<Row>, outDir: Path, fs: Fs): (b: BatchResult)
    ensures |b.results| == |IdSet(rows)|
    ensures b.successful + b.failed == |b.results|
  {
    var ids := AttachmentIds(rows);
    AscendingCount(ids, IdSet(rows));
    ProcessIds(rows, ids, outDir, fs)
  }

  /** An ascending list holding exactly the elements of a set has one entry
      per element. */
  lemma {:induction false} AscendingCount(ids: seq<int>, s: set<int>)
    requires Ascending(ids)
    requires forall x :: x in ids <==> x in s
    ensures |ids| == |s|
    decreases |ids|
  {
    if ids == [] {
      assert forall x :: x !in s;
      assert s == {};
    } else {
      var rest := ids[1..];
      assert forall x :: x in rest <==> x in s - {ids[0]} by {
        forall x | x in rest ensures x != ids[0] {
          var j :| 0 <= j < |rest| && rest[j] == x;
          assert ids[j + 1] == x;
        }
        forall x | x in s - {ids[0]} ensures x in rest {
          var j :| 0 <= j < |ids| && ids[j] == x;
          assert j > 0;
          assert rest[j - 1] == x;
        }
      }
      AscendingCount(rest, s - {ids[0]});
    }
  }

  /** The batch only writes the files of the attachments it processes. */
  lemma {:induction false} ProcessIdsFrame(rows: seq<Row>, ids: seq<int>, outDir: Path, fs: Fs, k: Path)
    requires forall i :: 0 <= i < |ids| ==> k != OutputFile(outDir, ids[i])
    ensures var r := ProcessIds(rows, ids, outDir, fs).fs;
      (k in r <==> k in fs) && (k in fs ==> r[k] == fs[k])
    decreases |ids|
  {
    if ids != [] {
      var fs1 := ProcessOne(rows, ids[0], outDir, fs).0;
      ProcessIdsCons(rows, ids, outDir, fs);
      ProcessOneFrame(rows, ids[0], outDir, fs, k);
      ProcessIdsFrame(rows, ids[1..], outDir, fs1, k);
    }
  }

  /** One iteration writes no file but its attachment's. */
  lemma ProcessOneFrame(rows: seq<Row>, id: int, outDir: Path, fs: Fs, k: Path)
    requires k != OutputFile(outDir, id)
    ensures var r := ProcessOne(rows, id, outDir, fs).0;
      (k in r <==> k in fs) && (k in fs ==> r[k] == fs[k])
  {
  }

  /** The result for the `i`-th attachment is the result of its own
      iteration, whatever the earlier iterations wrote. */
  lemma {:induction false} ProcessIdsResult(rows: seq<Row>, ids: seq<int>, outDir: Path, fs: Fs, other: Fs, i: nat)
    requires i < |ids|
    ensures ProcessIds(rows, ids, outDir, fs).results[i].1 == ProcessOne(rows, ids[i], outDir, other).1
    decreases |ids|
  {
    if i > 0 {
      ProcessIdsResult(rows, ids[1..], outDir, ProcessOne(rows, ids[0], outDir, fs).0, other, i - 1);
    }
  }

  /** Over distinct ids, each successful attachment's file holds, when the
      batch ends, the text its own iteration wrote. */
  lemma {:induction false} ProcessIdsWritten(rows: seq<Row>, ids: seq<int>, outDir: Path, fs: Fs, i: nat)
    requires Ascending(ids) && i < |ids|
    requires ProcessOne(rows, ids[i], outDir, fs).1.Succeeded?
    ensures var p := OutputFile(outDir, ids[i]);
      var r := ProcessIds(rows, ids, outDir, fs).fs;
      p in r && r[p] == ProcessOne(rows, ids[i], outDir, fs).0[p]
    decreases |ids|
  {
    if i == 0 {
      FirstWritten(rows, ids, outDir, fs);
    } else {
      var fs1 := ProcessOne(rows, ids[0], outDir, fs).0;
      ProcessIdsCons(rows, ids, outDir, fs);
      AscendingTail(ids);
      assert ids[1..][i - 1] == ids[i];
      ProcessOneIndependent(rows, ids[i], outDir, fs, fs1);
      ProcessIdsWritten(rows, ids[1..], outDir, fs1, i - 1);
    }
  }

  /** The first attachment's file, when its iteration succeeds, is there
      when the batch ends, as that iteration wrote it. */
  lemma FirstWritten(rows: seq<Row>, ids: seq<int>, outDir: Path, fs: Fs)
    requires Ascending(ids) && ids != []
    requires ProcessOne(rows, ids[0], outDir, fs).1.Succeeded?
    ensures var p := OutputFile(outDir, ids[0]);
      var r := ProcessIds(rows, ids, outDir, fs).fs;
      p in r && r[p] == ProcessOne(rows, ids[0], outDir, fs).0[p]
  {
    ProcessIdsCons(rows, ids, outDir, fs);
    FirstWrittenKept(rows, ids, outDir, fs);
  }

  /** The tail of an ascending list is ascending. */
  lemma AscendingTail(ids: seq<int>)
    requires Ascending(ids) && ids != []
    ensures Ascending(ids[1..])
  {
  }

  /** The files the loop leaves are those the rest of the loop leaves after
      the first iteration. */
  lemma ProcessIdsCons(rows: seq<Row>, ids: seq<int>, outDir: Path, fs: Fs)
    requires ids != []
    ensures ProcessIds(rows, ids, outDir, fs).fs
      == ProcessIds(rows, ids[1..], outDir, ProcessOne(rows, ids[0], outDir, fs).0).fs
  {
  }

  /** What one iteration reports, and the text it writes, do not depend on
      the files already there. */
  lemma ProcessOneIndependent(rows: seq<Row>, id: int, outDir: Path, fs: Fs, other: Fs)
    ensures ProcessOne(rows, id, outDir, fs).1 == ProcessOne(rows, id, outDir, other).1
    ensures ProcessOne(rows, id, outDir, fs).1.Succeeded? ==>
      var p := OutputFile(outDir, id);
      p in ProcessOne(rows, id, outDir, fs).0 && p in ProcessOne(rows, id, outDir, other).0
      && ProcessOne(rows, id, outDir, fs).0[p] == ProcessOne(rows, id, outDir, other).0[p]
  {
  }

  /** The file of the first attachment is not written again by the rest of
      the loop. */
  lemma FirstWrittenKept(rows: seq<Row>, ids: seq<int>, outDir: Path, fs: Fs)
    requires Ascending(ids) && ids != []
    ensures var p := OutputFile(outDir, ids[0]);
      var fs1 := ProcessOne(rows, ids[0], outDir, fs).0;
      var r := ProcessIds(rows, ids[1..], outDir, fs1).fs;
      (p in r <==> p in fs1) && (p in fs1 ==> r[p] == fs1[p])
  {
    var rest := ids[1..];
    forall j | 0 <= j < |rest|
      ensures OutputFile(outDir, ids[0]) != OutputFile(outDir, rest[j])
    {
      assert rest[j] == ids[j + 1];
      OutputFileInjective(outDir, ids[0], ids[j + 1]);
    }
    ProcessIdsFrame(rows, rest, outDir, ProcessOne(rows, ids[0], outDir, fs).0, OutputFile(outDir, ids[0]));
  }

  /** The batch visits every attachment of the table once, in ascending id
      order; never reports "No annotations found", since every id comes from
      the table; and agrees with the single-attachment function on every
      attachment: a success names the file that function writes, and that
      file holds the same text when the batch ends. */
  lemma BatchMatchesSingle(rows: seq<Row>, outDir: Path, fs: Fs, i: nat)
    requires i < |ProcessAll(rows, outDir, fs).results|
    ensures var b := ProcessAll(rows, outDir, fs);
      var id := b.results[i].0;
      var single := AnnotationsToMarkdown(rows, id, outDir, fs);
      && id in IdSet(rows)
      && (forall j :: 0 <= j < i ==> b.results[j].0 < id)
      && !single.NoAnnotations?
      && (single.Raised? ==> b.results[i].1 == FailedWith(single.error))
      && (single.Written? ==>
            && b.results[i].1 == Succeeded(single.path, |Select(rows, id)|, Select(rows, id)[0].paperTitle)
            && single.path in b.fs && b.fs[single.path] == single.fs[single.path])
  {
    var ids := AttachmentIds(rows);
    var id := ids[i];
    IdHasRows(rows, id);
    ProcessIdsResult(rows, ids, outDir, fs, fs, i);
    ProcessOneMatchesSingle(rows, id, outDir, fs);
    if AnnotationsToMarkdown(rows, id, outDir, fs).Written? {
      ProcessIdsWritten(rows, ids, outDir, fs, i);
    }
  }

  /** The batch leaves every file other than the attachments' files as it
      was. */
  lemma BatchFrame(rows: seq<Row>, outDir: Path, fs: Fs, k: Path)
    requires forall id :: id in IdSet(rows) ==> k != OutputFile(outDir, id)
    ensures var r := ProcessAll(rows, outDir, fs).fs;
      (k in r <==> k in fs) && (k in fs ==> r[k] == fs[k])
  {
    var ids := AttachmentIds(rows);
    assert forall i :: 0 <= i < |ids| ==> ids[i] in IdSet(rows);
    ProcessIdsFrame(rows, ids, outDir, fs, k);
  }

  /** `convert_all_annotations`: a table without attachment ids gives an
      empty result at once; otherwise the batch runs. */
  function ConvertAll(rows: seq<Row>, outDir: Path, fs: Fs): (b: BatchResult)
    ensures rows == [] ==> b.results == [] && b.fs == fs
  {
    if |AttachmentIds(rows)| == 0 then BatchResult(fs, [], 0, 0)
    else ProcessAll(rows, outDir, fs)
  }

  /** The early return for an empty table only saves work: the batch would
      return the same empty result. */
  lemma ConvertAllIsProcessAll(rows: seq<Row>, outDir: Path, fs: Fs)
    ensures ConvertAll(rows, outDir, fs) == ProcessAll(rows, outDir, fs)
  {
  }
}
