/** The batch orchestrator `convert_multiple_pdfs_to_md`: per request it
    decides between reusing an existing output, skipping the document, and
    converting it in a temporary directory whose markdown and images are then
    moved into the shared output directory under id-prefixed names. */
module BatchConvert {
  import opened Wrappers
  import opened Strings
  import opened Numerals
  import opened Paths
  import opened FileSystem
  import opened Config
  import opened PdfConvert

  /** One document to convert, with the numeric id its outputs are named by. */
  datatype Request = Request(pdf: Path, id: int)

  /** The batch-wide arguments. */
  datatype Settings = Settings(outDir: Path, pagesMax: Option<int>, forceRebuild: bool)

  /** What the loop does with one request, before any conversion work. */
  datatype Decision = Reuse | SkipTooLarge(pages: nat) | SkipUnreadable | Attempt

  /** What became of one request. */
  datatype Outcome =
    | AlreadyConverted
    | SkippedTooLarge(pages: nat)
    | SkippedUnreadable
    | Converted
    | Failed(reason: string)

  /** The request's markdown path is part of the returned list. */
  predicate Produced(o: Outcome) {
    o.AlreadyConverted? || o.Converted?
  }

  predicate IsReuse(o: Outcome) {
    o.AlreadyConverted?
  }

  /** The request went into the skipped list. */
  predicate Skipped(o: Outcome) {
    o.SkippedTooLarge? || o.SkippedUnreadable?
  }

  /** The checks of one loop iteration, in the order the script makes them:
      an existing output is reused unless rebuilding; with a page limit, a
      count above the limit skips, then a count of zero (unreadable) skips;
      everything else is converted. `pages` is only consulted when there is
      a limit. */
  function Decide(force: bool, finalExists: bool, pagesMax: Option<int>, pages: nat): (d: Decision)
    ensures d.Reuse? <==> !force && finalExists
    ensures d.SkipTooLarge? <==> !(!force && finalExists) && pagesMax.Some? && pages > pagesMax.value
    ensures d.SkipTooLarge? ==> d.pages == pages
    ensures d.SkipUnreadable? <==> !(!force && finalExists) && pagesMax.Some? && pages == 0 && pages <= pagesMax.value
    ensures d.Attempt? <==> !(!force && finalExists) && (pagesMax.None? || 0 < pages <= pagesMax.value)
  {
    if !force && finalExists then Reuse
    else if pagesMax.Some? && pages > pagesMax.value then SkipTooLarge(pages)
    else if pagesMax.Some? && pages == 0 then SkipUnreadable
    else Attempt
  }

  /** The image test of the relocation loop: the lower-cased name ends with
      one of the image extensions. */
  predicate IsImageName(name: string) {
    EndsWithAny(Lower(name), ImageExtensions)
  }

  /** The reference in the markdown text to an image of the images directory. */
  function ImageRef(name: string): (r: string)
    ensures |r| > 0 && EndsWith(r, name)
    ensures StartsWith(r, ImagesDirName + "/")
    ensures |r| == |ImagesDirName| + 1 + |name|
  {
    var head := ImagesDirName + "/";
    assert (head + name)[|head| + |name| - |name|..] == name;
    assert (head + name)[..|head|] == head;
    head + name
  }

  /** The markdown text after the references to the image files among
      `names` have been rewritten, in order, to their prefixed names. Each
      rewrite reads the file in text mode first, so once an image has been
      relocated the line endings are those `ReadText` gives. */
  function RewriteRefs(content: string, names: seq<string>, id: int): string
    decreases |names|
  {
    if |names| == 0 then content
    else if !IsImageName(names[0]) then RewriteRefs(content, names[1..], id)
    else
      var n := names[0];
      RewriteRefs(ReplaceAll(ReadText(content), ImageRef(n), ImageRef(PrefixedImageName(id, n))), names[1..], id)
  }

  /** The relocation loop over the listing `names` of the temporary images
      directory `srcDir`: each image file is moved to `dstDir` under its
      prefixed name and the references in the markdown file `md` are
      rewritten (read in text mode, replaced, written back); any failing move
      or read ends the loop with an error. */
  function Relocate(fs: Fs, names: seq<string>, srcDir: Path, dstDir: Path, md: Path, id: int): (r: (Fs, Option<string>))
    ensures r.1.None? && md in fs ==> md in r.0
    decreases |names|
  {
    if |names| == 0 then (fs, None)
    else if !IsImageName(names[0]) then Relocate(fs, names[1..], srcDir, dstDir, md, id)
    else
      var n := names[0];
      match MoveFile(fs, JoinPath(srcDir, n), JoinPath(dstDir, PrefixedImageName(id, n)))
      case Failure(e) => (fs, Some(e))
      case Success(fs1) =>
        if md !in fs1 then (fs1, Some("[Errno 2] No such file or directory: '" + md + "'"))
        else
          var content := ReplaceAll(ReadText(fs1[md]), ImageRef(n), ImageRef(PrefixedImageName(id, n)));
          Relocate(fs1[md := content], names[1..], srcDir, dstDir, md, id)
  }

  /** The body of the `try` block for request `index`: conversion into the
      temporary directory, the move of the markdown file, and the relocation
      of the images. The error, if any, is the exception the block raises. */
  function TryConvert(eng: Engine, fs: Fs, outDir: Path, index: nat, req: Request): (r: (Fs, Option<string>))
    ensures eng.analyze(req.pdf).Failure? ==> r == (fs, Some(eng.analyze(req.pdf).error))
  {
    var temp := TempDir(outDir, index);
    var final := FinalMdPath(outDir, req.pdf, req.id);
    match ConvertSingle(eng, fs, req.pdf, temp, Some(RequestName(req.pdf, req.id)))
    case Failure(e) => (fs, Some(e))
    case Success(converted) =>
      match MoveFile(converted.0, converted.1, final)
      case Failure(e) => (converted.0, Some(e))
      case Success(fs2) =>
        var tempImages := ImagesDir(temp);
        if !Exists(fs2, tempImages) then (fs2, None)
        else Relocate(fs2, eng.listOrder(Entries(fs2, tempImages)), tempImages, ImagesDir(outDir), final, req.id)
  }

  /** A conversion attempt: the `try` block, then the `finally` clause that
      removes the temporary directory whatever happened. */
  function AttemptConversion(eng: Engine, fs: Fs, outDir: Path, index: nat, req: Request): (r: (Fs, Outcome))
    ensures r.1.Converted? || r.1.Failed?
    ensures !Exists(r.0, TempDir(outDir, index))
    ensures eng.analyze(req.pdf).Failure? ==> r == (RemoveTree(fs, TempDir(outDir, index)), Failed(eng.analyze(req.pdf).error))
  {
    var attempt := TryConvert(eng, fs, outDir, index, req);
    var cleaned := RemoveTree(attempt.0, TempDir(outDir, index));
    match attempt.1
    case None => (cleaned, Converted)
    case Some(e) => (cleaned, Failed(e))
  }

  /** One iteration of the loop, for request `index`. */
  function Step(eng: Engine, st: Settings, fs: Fs, index: nat, req: Request): (r: (Fs, Outcome))
    ensures var final := FinalMdPath(st.outDir, req.pdf, req.id);
      var d := Decide(st.forceRebuild, Exists(fs, final), st.pagesMax, eng.pageCount(req.pdf));
      && (r.1.AlreadyConverted? <==> d.Reuse?)
      && (Skipped(r.1) <==> d.SkipTooLarge? || d.SkipUnreadable?)
      && (r.1.Converted? || r.1.Failed? <==> d.Attempt?)
      && (!d.Attempt? ==> r.0 == fs)
  {
    var final := FinalMdPath(st.outDir, req.pdf, req.id);
    var d := Decide(st.forceRebuild, Exists(fs, final), st.pagesMax, eng.pageCount(req.pdf));
    if d.Attempt? then AttemptConversion(eng, fs, st.outDir, index, req)
    else (fs, NotAttempted(d))
  }

  /** The outcome of a request the loop does not try to convert. */
  function NotAttempted(d: Decision): (o: Outcome)
    requires !d.Attempt?
    ensures o.AlreadyConverted? <==> d.Reuse?
    ensures Skipped(o) <==> d.SkipTooLarge? || d.SkipUnreadable?
    ensures !o.Converted? && !o.Failed?
  {
    match d
    case Reuse => AlreadyConverted
    case SkipTooLarge(pages) => SkippedTooLarge(pages)
    case SkipUnreadable => SkippedUnreadable
  }

  /** The loop's state: the filesystem and the three lists the function
      keeps, plus the outcome of every request handled so far. */
  datatype Progress = Progress(
    fs: Fs,
    generated: seq<Path>,
    alreadyConverted: seq<Path>,
    skipped: seq<Path>,
    outcomes: seq<Outcome>)

  /** The paths `pathOf(req)` of the requests whose outcome satisfies
      `keep`, in request order: the shape of the lists the loop builds. */
  function Collect(reqs: seq<Request>, outcomes: seq<Outcome>, keep: Outcome -> bool, pathOf: Request -> Path): (ps: seq<Path>)
    requires |outcomes| == |reqs|
    ensures |ps| == CountWhere(outcomes, keep)
    decreases |reqs|
  {
    if |reqs| == 0 then []
    else
      var n := |reqs| - 1;
      assert outcomes[..n] == outcomes[..|outcomes| - 1];
      Collect(reqs[..n], outcomes[..n], keep, pathOf) + (if keep(outcomes[n]) then [pathOf(reqs[n])] else [])
  }

  /** Collecting over one more request appends that request's path when its
      outcome is kept. */
  lemma CollectLast(reqs: seq<Request>, outcomes: seq<Outcome>, keep: Outcome -> bool, pathOf: Request -> Path)
    requires |outcomes| == |reqs| > 0
    ensures var n := |reqs| - 1;
      Collect(reqs, outcomes, keep, pathOf)
        == Collect(reqs[..n], outcomes[..n], keep, pathOf) + (if keep(outcomes[n]) then [pathOf(reqs[n])] else [])
  {
  }

  /** A path is collected exactly when some request with a kept outcome has
      it as its path. */
  lemma {:induction false} CollectMembers(reqs: seq<Request>, outcomes: seq<Outcome>, keep: Outcome -> bool, pathOf: Request -> Path, p: Path)
    requires |outcomes| == |reqs|
    ensures p in Collect(reqs, outcomes, keep, pathOf) <==>
      exists i :: 0 <= i < |reqs| && keep(outcomes[i]) && p == pathOf(reqs[i])
    decreases |reqs|
  {
    if |reqs| > 0 {
      var n := |reqs| - 1;
      var prev := Collect(reqs[..n], outcomes[..n], keep, pathOf);
      CollectLast(reqs, outcomes, keep, pathOf);
      CollectMembers(reqs[..n], outcomes[..n], keep, pathOf, p);
      if p in prev {
        var i :| 0 <= i < n && keep(outcomes[..n][i]) && p == pathOf(reqs[..n][i]);
        assert keep(outcomes[i]) && p == pathOf(reqs[i]);
      }
      if exists i :: 0 <= i < |reqs| && keep(outcomes[i]) && p == pathOf(reqs[i]) {
        var i :| 0 <= i < |reqs| && keep(outcomes[i]) && p == pathOf(reqs[i]);
        if i < n {
          assert keep(outcomes[..n][i]) && p == pathOf(reqs[..n][i]);
        }
      }
    }
  }

  /** Where a request's markdown file ends up. */
  function MdPathIn(outDir: Path): Request -> Path {
    (req: Request) => FinalMdPath(outDir, req.pdf, req.id)
  }

  function PdfOf(req: Request): Path {
    req.pdf
  }

  /** Number of outcomes satisfying `keep`. */
  function CountWhere(outcomes: seq<Outcome>, keep: Outcome -> bool): (c: nat)
    ensures c <= |outcomes|
  {
    if |outcomes| == 0 then 0
    else CountWhere(outcomes[..|outcomes| - 1], keep) + (if keep(outcomes[|outcomes| - 1]) then 1 else 0)
  }

  /** One iteration of the loop as a value: from the filesystem, the index
      and the request to the new filesystem and the request's outcome. */
  type Iteration = (Fs, nat, Request) -> (Fs, Outcome)

  /** The loop over the first `|reqs|` requests, starting from `fs0`, for any
      iteration; `mdPath` gives the markdown path the lists record. */
  function Fold(iter: Iteration, mdPath: Request -> Path, fs0: Fs, reqs: seq<Request>): (p: Progress)
    ensures |p.outcomes| == |reqs|
    decreases |reqs|
  {
    if |reqs| == 0 then Progress(fs0, [], [], [], [])
    else
      var n := |reqs| - 1;
      var prev := Fold(iter, mdPath, fs0, reqs[..n]);
      var req := reqs[n];
      var step := iter(prev.fs, n, req);
      var o := step.1;
      Progress(
        step.0,
        prev.generated + (if Produced(o) then [mdPath(req)] else []),
        prev.alreadyConverted + (if IsReuse(o) then [mdPath(req)] else []),
        prev.skipped + (if Skipped(o) then [PdfOf(req)] else []),
        prev.outcomes + [o])
  }

  /** The loop over one more request is one more iteration. */
  lemma FoldLast(iter: Iteration, mdPath: Request -> Path, fs0: Fs, reqs: seq<Request>)
    requires |reqs| > 0
    ensures var n := |reqs| - 1;
      var prev := Fold(iter, mdPath, fs0, reqs[..n]);
      var step := iter(prev.fs, n, reqs[n]);
      var p := Fold(iter, mdPath, fs0, reqs);
      && p.fs == step.0
      && p.outcomes == prev.outcomes + [step.1]
      && p.outcomes[..n] == prev.outcomes
      && p.generated == prev.generated + (if Produced(step.1) then [mdPath(reqs[n])] else [])
      && p.alreadyConverted == prev.alreadyConverted + (if IsReuse(step.1) then [mdPath(reqs[n])] else [])
      && p.skipped == prev.skipped + (if Skipped(step.1) then [PdfOf(reqs[n])] else [])
  {
    var n := |reqs| - 1;
    var prev := Fold(iter, mdPath, fs0, reqs[..n]);
    assert (prev.outcomes + [iter(prev.fs, n, reqs[n]).1])[..n] == prev.outcomes;
  }

  /** The three lists of the loop are the markdown paths of the produced
      requests, those of the reused ones, and the documents skipped, each in
      request order. */
  lemma {:induction false} FoldLists(iter: Iteration, mdPath: Request -> Path, fs0: Fs, reqs: seq<Request>)
    ensures var p := Fold(iter, mdPath, fs0, reqs);
      && p.generated == Collect(reqs, p.outcomes, Produced, mdPath)
      && p.alreadyConverted == Collect(reqs, p.outcomes, IsReuse, mdPath)
      && p.skipped == Collect(reqs, p.outcomes, Skipped, PdfOf)
    decreases |reqs|
  {
    if |reqs| > 0 {
      var n := |reqs| - 1;
      var outcomes := Fold(iter, mdPath, fs0, reqs).outcomes;
      FoldLists(iter, mdPath, fs0, reqs[..n]);
      FoldLast(iter, mdPath, fs0, reqs);
      CollectLast(reqs, outcomes, Produced, mdPath);
      CollectLast(reqs, outcomes, IsReuse, mdPath);
      CollectLast(reqs, outcomes, Skipped, PdfOf);
    }
  }

  /** An outcome no iteration can produce appears nowhere in the loop. */
  lemma {:induction false} FoldNever(iter: Iteration, mdPath: Request -> Path, fs0: Fs, reqs: seq<Request>, bad: Outcome -> bool)
    requires forall fs, index, req :: !bad(iter(fs, index, req).1)
    ensures forall i :: 0 <= i < |reqs| ==> !bad(Fold(iter, mdPath, fs0, reqs).outcomes[i])
    decreases |reqs|
  {
    if |reqs| > 0 {
      FoldNever(iter, mdPath, fs0, reqs[..|reqs| - 1], bad);
      FoldLast(iter, mdPath, fs0, reqs);
    }
  }

  /** The iteration of the orchestrator, as a value. */
  function StepOf(eng: Engine, st: Settings): Iteration {
    (fs: Fs, index: nat, req: Request) => Step(eng, st, fs, index, req)
  }

  /** The orchestrator's loop. */
  function Run(eng: Engine, st: Settings, fs0: Fs, reqs: seq<Request>): (p: Progress)
    ensures |p.outcomes| == |reqs|
  {
    Fold(StepOf(eng, st), MdPathIn(st.outDir), fs0, reqs)
  }

  /** The requests the two parallel argument lists describe. */
  function Requests(pdfs: seq<Path>, ids: seq<int>): (reqs: seq<Request>)
    requires |pdfs| == |ids|
    ensures |reqs| == |pdfs|
    ensures forall i :: 0 <= i < |reqs| ==> reqs[i] == Request(pdfs[i], ids[i])
  {
    seq(|pdfs|, i requires 0 <= i < |pdfs| => Request(pdfs[i], ids[i]))
  }

  const LengthMismatch := "Number of IDs must match number of PDF paths"

  /** `convert_multiple_pdfs_to_md`: the argument check, the optional removal
      of the output directory, and the loop. Creating the output directory
      fails for the empty path. The result holds the final filesystem and the
      loop's lists; the returned list of paths is `generated`. */
  function ConvertBatch(eng: Engine, fs: Fs, pdfs: seq<Path>, ids: seq<int>, outDir: Path,
                        pagesMax: Option<int>, forceRebuild: bool): (r: Result<Progress>)
    ensures |pdfs| != |ids| ==> r == Failure(LengthMismatch)
    ensures r.Success? <==> |pdfs| == |ids| && outDir != ""
    ensures r.Success? ==> |r.value.outcomes| == |pdfs|
    ensures r.Success? && forceRebuild ==> forall i :: 0 <= i < |pdfs| ==> !r.value.outcomes[i].AlreadyConverted?
    ensures |pdfs| == |ids| && outDir == "" ==> r == Failure(EmptyPathError)
    ensures r.Success? ==> r.value == Run(eng, Settings(outDir, pagesMax, forceRebuild),
      if forceRebuild then RemoveTree(fs, outDir) else fs, Requests(pdfs, ids))
  {
    if |pdfs| != |ids| then Failure(LengthMismatch)
    else if outDir == "" then Failure(EmptyPathError)
    else
      var fs0 := if forceRebuild then RemoveTree(fs, outDir) else fs;
      var st := Settings(outDir, pagesMax, forceRebuild);
      var reqs := Requests(pdfs, ids);
      if forceRebuild then
        RebuildNeverReuses(eng, st, fs0, reqs);
        Success(Run(eng, st, fs0, reqs))
      else Success(Run(eng, st, fs0, reqs))
  }

  /** With rebuilding on, no request is ever reused. */
  lemma RebuildNeverReuses(eng: Engine, st: Settings, fs0: Fs, reqs: seq<Request>)
    requires st.forceRebuild
    ensures forall i :: 0 <= i < |reqs| ==> !Run(eng, st, fs0, reqs).outcomes[i].AlreadyConverted?
  {
    forall fs, index, req
      ensures !IsReuse(StepOf(eng, st)(fs, index, req).1)
    {
      assert StepOf(eng, st)(fs, index, req) == Step(eng, st, fs, index, req);
    }
    FoldNever(StepOf(eng, st), MdPathIn(st.outDir), fs0, reqs, IsReuse);
  }

  /** The summary line "Successfully converted": returned paths minus reused
      ones. */
  function NewlyConverted(p: Progress): int {
    |p.generated| - |p.alreadyConverted|
  }
}
