/** Properties of the batch orchestrator: what one relocation loop, one
    iteration and the whole loop may change on disk, when a conversion
    succeeds, where the images end up, and what a second run does. */
module BatchProperties {
  import opened Wrappers
  import opened Strings
  import opened Numerals
  import opened Paths
  import opened FileSystem
  import opened Config
  import opened PdfConvert
  import opened BatchConvert

  /** Where the relocation loop moves image `n`. */
  function Destination(dstDir: Path, id: int, n: string): Path {
    JoinPath(dstDir, PrefixedImageName(id, n))
  }

  /** `k` is neither the source nor the destination of any listed name. */
  predicate Untouched(k: Path, names: seq<string>, srcDir: Path, dstDir: Path, id: int) {
    forall n :: n in names ==> k != JoinPath(srcDir, n) && k != Destination(dstDir, id, n)
  }

  /** The relocation loop removes only the sources of listed names. */
  lemma {:induction false} RelocateKeeps(fs: Fs, names: seq<string>, srcDir: Path, dstDir: Path, md: Path, id: int, k: Path)
    ensures var r := Relocate(fs, names, srcDir, dstDir, md, id).0;
      k in fs && (forall n :: n in names ==> k != JoinPath(srcDir, n)) ==> k in r
    decreases |names|
  {
    if |names| > 0 {
      var n := names[0];
      var rest := names[1..];
      assert forall m :: m in rest ==> m in names;
      if !IsImageName(n) {
        RelocateKeeps(fs, rest, srcDir, dstDir, md, id, k);
      } else {
        match MoveFile(fs, JoinPath(srcDir, n), Destination(dstDir, id, n))
        case Failure(_) =>
        case Success(fs1) =>
          if md in fs1 {
            var content := ReplaceAll(ReadText(fs1[md]), ImageRef(n), ImageRef(PrefixedImageName(id, n)));
            RelocateKeeps(fs1[md := content], rest, srcDir, dstDir, md, id, k);
          }
      }
    }
  }

  /** The relocation loop adds only destinations of listed names. */
  lemma {:induction false} RelocateAdds(fs: Fs, names: seq<string>, srcDir: Path, dstDir: Path, md: Path, id: int, k: Path)
    ensures var r := Relocate(fs, names, srcDir, dstDir, md, id).0;
      k in r && k !in fs ==> exists n :: n in names && k == Destination(dstDir, id, n)
    decreases |names|
  {
    if |names| > 0 {
      var n := names[0];
      var rest := names[1..];
      assert forall m :: m in rest ==> m in names;
      if !IsImageName(n) {
        RelocateAdds(fs, rest, srcDir, dstDir, md, id, k);
      } else {
        match MoveFile(fs, JoinPath(srcDir, n), Destination(dstDir, id, n))
        case Failure(_) =>
        case Success(fs1) =>
          if md in fs1 {
            var content := ReplaceAll(ReadText(fs1[md]), ImageRef(n), ImageRef(PrefixedImageName(id, n)));
            RelocateAdds(fs1[md := content], rest, srcDir, dstDir, md, id, k);
          }
      }
    }
  }

  /** The relocation loop changes only the markdown file and the files it
      moves. */
  lemma {:induction false} RelocateKeepsContent(fs: Fs, names: seq<string>, srcDir: Path, dstDir: Path, md: Path, id: int, k: Path)
    requires k in fs && k != md && Untouched(k, names, srcDir, dstDir, id)
    ensures var r := Relocate(fs, names, srcDir, dstDir, md, id).0;
      k in r && r[k] == fs[k]
    decreases |names|
  {
    if |names| > 0 {
      var n := names[0];
      var rest := names[1..];
      assert Untouched(k, rest, srcDir, dstDir, id) by {
        assert forall m :: m in rest ==> m in names;
      }
      if !IsImageName(n) {
        RelocateKeepsContent(fs, rest, srcDir, dstDir, md, id, k);
      } else {
        match MoveFile(fs, JoinPath(srcDir, n), Destination(dstDir, id, n))
        case Failure(_) =>
        case Success(fs1) =>
          if md in fs1 {
            var fs2 := fs1[md := ReplaceAll(ReadText(fs1[md]), ImageRef(n), ImageRef(PrefixedImageName(id, n)))];
            assert k in fs2 && fs2[k] == fs[k];
            RelocateKeepsContent(fs2, rest, srcDir, dstDir, md, id, k);
          }
      }
    }
  }

  /** The relocation loop only removes sources, only adds destinations, and
      leaves every other file except the markdown file as it was. */
  lemma RelocateFrame(fs: Fs, names: seq<string>, srcDir: Path, dstDir: Path, md: Path, id: int, k: Path)
    ensures var r := Relocate(fs, names, srcDir, dstDir, md, id).0;
      && (k in fs && (forall n :: n in names ==> k != JoinPath(srcDir, n)) ==> k in r)
      && (k in r && k !in fs ==> exists n :: n in names && k == Destination(dstDir, id, n))
      && (k in fs && k != md && Untouched(k, names, srcDir, dstDir, id) ==> r[k] == fs[k])
  {
    RelocateKeeps(fs, names, srcDir, dstDir, md, id, k);
    RelocateAdds(fs, names, srcDir, dstDir, md, id, k);
    if k in fs && k != md && Untouched(k, names, srcDir, dstDir, id) {
      RelocateKeepsContent(fs, names, srcDir, dstDir, md, id, k);
    }
  }

  /** Two different names of one directory never share a joined path. */
  lemma JoinDistinct(d: Path, a: string, b: string)
    requires PlainName(a) && PlainName(b) && a != b
    ensures JoinPath(d, a) != JoinPath(d, b)
  {
    if JoinPath(d, a) == JoinPath(d, b) {
      JoinInjective(d, a, b);
    }
  }

  /** Destinations of different names differ. */
  lemma DestinationDistinct(dstDir: Path, id: int, a: string, b: string)
    requires PlainName(a) && PlainName(b) && a != b
    ensures Destination(dstDir, id, a) != Destination(dstDir, id, b)
  {
    if Destination(dstDir, id, a) == Destination(dstDir, id, b) {
      JoinInjective(dstDir, PrefixedImageName(id, a), PrefixedImageName(id, b));
      PrefixedImageNameInjective(id, a, id, b);
    }
  }

  /** The conditions under which the relocation loop cannot fail: the listing
      is a duplicate-free list of files of `srcDir`, the markdown file exists
      outside both directories, and the two directories share no path. */
  ghost predicate RelocationReady(fs: Fs, names: seq<string>, srcDir: Path, dstDir: Path, md: Path) {
    NoDup(names) && SourcesPresent(fs, names, srcDir) && md in fs && Apart(srcDir, dstDir, md)
  }

  /** Every listed name is a plain name whose file exists in `srcDir`. */
  predicate SourcesPresent(fs: Fs, names: seq<string>, srcDir: Path) {
    forall n :: n in names ==> PlainName(n) && JoinPath(srcDir, n) in fs
  }

  /** The markdown file lies outside both directories, which share no path. */
  ghost predicate Apart(srcDir: Path, dstDir: Path, md: Path) {
    && !AtOrUnder(md, srcDir) && !AtOrUnder(md, dstDir)
    && (forall k :: AtOrUnder(k, dstDir) ==> !AtOrUnder(k, srcDir))
  }

  /** Destinations lie in `dstDir`, hence never in `srcDir` nor at `md`. */
  lemma DestinationPlacement(fs: Fs, names: seq<string>, srcDir: Path, dstDir: Path, md: Path, id: int, n: string)
    requires RelocationReady(fs, names, srcDir, dstDir, md)
    ensures AtOrUnder(Destination(dstDir, id, n), dstDir)
    ensures !AtOrUnder(Destination(dstDir, id, n), srcDir)
    ensures Destination(dstDir, id, n) != md
  {
    JoinRelativeIsUnder(dstDir, PrefixedImageName(id, n));
  }

  /** The state after the first iteration of the relocation loop for image
      `n`: the file moved and the markdown file's references rewritten. */
  function MovedOnce(fs: Fs, n: string, srcDir: Path, dstDir: Path, md: Path, id: int): Fs
    requires JoinPath(srcDir, n) in fs && md in fs && md != JoinPath(srcDir, n)
  {
    var fs1 := MoveFile(fs, JoinPath(srcDir, n), Destination(dstDir, id, n)).value;
    fs1[md := ReplaceAll(ReadText(fs1[md]), ImageRef(n), ImageRef(PrefixedImageName(id, n)))]
  }

  /** Ready to relocate a list starting with an image, the first iteration
      moves that image to its destination and rewrites the markdown file. */
  lemma FirstMove(fs: Fs, names: seq<string>, srcDir: Path, dstDir: Path, md: Path, id: int)
    requires RelocationReady(fs, names, srcDir, dstDir, md)
    requires |names| > 0 && IsImageName(names[0])
    ensures JoinPath(srcDir, names[0]) != md
    ensures var n := names[0];
      var dst := Destination(dstDir, id, n);
      var fs2 := MovedOnce(fs, n, srcDir, dstDir, md, id);
      && Relocate(fs, names, srcDir, dstDir, md, id) == Relocate(fs2, names[1..], srcDir, dstDir, md, id)
      && fs2[md] == ReplaceAll(ReadText(fs[md]), ImageRef(n), ImageRef(PrefixedImageName(id, n)))
      && dst in fs2 && fs2[dst] == fs[JoinPath(srcDir, n)]
  {
    JoinIsUnder(srcDir, names[0]);
    DestinationPlacement(fs, names, srcDir, dstDir, md, id, names[0]);
    FirstMoveUnfolds(fs, names, srcDir, dstDir, md, id);
    MovedOnceContent(fs, names[0], srcDir, dstDir, md, id);
  }

  /** With its source and the markdown file present, the first iteration of
      the relocation loop moves the first image and carries on. */
  lemma FirstMoveUnfolds(fs: Fs, names: seq<string>, srcDir: Path, dstDir: Path, md: Path, id: int)
    requires |names| > 0 && IsImageName(names[0])
    requires JoinPath(srcDir, names[0]) in fs && md in fs && md != JoinPath(srcDir, names[0])
    ensures Relocate(fs, names, srcDir, dstDir, md, id)
      == Relocate(MovedOnce(fs, names[0], srcDir, dstDir, md, id), names[1..], srcDir, dstDir, md, id)
  {
  }

  /** What the first iteration leaves at the markdown path and at the
      image's destination. */
  lemma MovedOnceContent(fs: Fs, n: string, srcDir: Path, dstDir: Path, md: Path, id: int)
    requires JoinPath(srcDir, n) in fs && md in fs && md != JoinPath(srcDir, n)
    requires Destination(dstDir, id, n) != md
    ensures var fs2 := MovedOnce(fs, n, srcDir, dstDir, md, id);
      && fs2[md] == ReplaceAll(ReadText(fs[md]), ImageRef(n), ImageRef(PrefixedImageName(id, n)))
      && Destination(dstDir, id, n) in fs2 && fs2[Destination(dstDir, id, n)] == fs[JoinPath(srcDir, n)]
  {
  }

  /** A later entry of the list keeps its source through the first
      iteration and has a destination of its own. */
  lemma RestEntry(fs: Fs, names: seq<string>, srcDir: Path, dstDir: Path, md: Path, id: int, j: nat)
    requires RelocationReady(fs, names, srcDir, dstDir, md)
    requires 0 < j < |names| && JoinPath(srcDir, names[0]) != md
    ensures var n := names[0];
      var x := names[j];
      var fs2 := MovedOnce(fs, n, srcDir, dstDir, md, id);
      && x != n && Destination(dstDir, id, n) != Destination(dstDir, id, x)
      && JoinPath(srcDir, x) in fs2 && fs2[JoinPath(srcDir, x)] == fs[JoinPath(srcDir, x)]
  {
    var n := names[0];
    var x := names[j];
    assert n in names && x in names;
    DestinationPlacement(fs, names, srcDir, dstDir, md, id, n);
    JoinDistinct(srcDir, n, x);
    JoinIsUnder(srcDir, x);
    DestinationDistinct(dstDir, id, n, x);
  }

  /** After the first iteration the rest of the loop is ready. */
  lemma RestReady(fs: Fs, names: seq<string>, srcDir: Path, dstDir: Path, md: Path, id: int)
    requires RelocationReady(fs, names, srcDir, dstDir, md)
    requires |names| > 0 && JoinPath(srcDir, names[0]) != md
    ensures RelocationReady(MovedOnce(fs, names[0], srcDir, dstDir, md, id), names[1..], srcDir, dstDir, md)
  {
    var rest := names[1..];
    var fs2 := MovedOnce(fs, names[0], srcDir, dstDir, md, id);
    assert NoDup(rest);
    forall x | x in rest
      ensures PlainName(x) && JoinPath(srcDir, x) in fs2
    {
      var j :| 0 <= j < |rest| && rest[j] == x;
      RestEntry(fs, names, srcDir, dstDir, md, id, j + 1);
    }
  }

  /** Ready to relocate, the loop succeeds and leaves the markdown file with
      every image reference rewritten. */
  lemma {:induction false} RelocateSucceeds(fs: Fs, names: seq<string>, srcDir: Path, dstDir: Path, md: Path, id: int)
    requires RelocationReady(fs, names, srcDir, dstDir, md)
    ensures var r := Relocate(fs, names, srcDir, dstDir, md, id);
      r.1.None? && md in r.0 && r.0[md] == RewriteRefs(fs[md], names, id)
    decreases |names|
  {
    if |names| > 0 {
      var rest := names[1..];
      if !IsImageName(names[0]) {
        assert forall m :: m in rest ==> m in names;
        assert NoDup(rest);
        RelocateSucceeds(fs, rest, srcDir, dstDir, md, id);
      } else {
        FirstMove(fs, names, srcDir, dstDir, md, id);
        RestReady(fs, names, srcDir, dstDir, md, id);
        RelocateSucceeds(MovedOnce(fs, names[0], srcDir, dstDir, md, id), rest, srcDir, dstDir, md, id);
      }
    }
  }

  /** With no image file among the names, the markdown file is never read
      back: its text stays exactly as the engine wrote it. */
  lemma {:induction false} RewriteRefsNoImages(content: string, names: seq<string>, id: int)
    requires forall i :: 0 <= i < |names| ==> !IsImageName(names[i])
    ensures RewriteRefs(content, names, id) == content
    decreases |names|
  {
    if |names| > 0 {
      assert forall i :: 0 <= i < |names| - 1 ==> names[1..][i] == names[i + 1];
      RewriteRefsNoImages(content, names[1..], id);
    }
  }

  /** Once an image has been relocated, the markdown file has been read in
      text mode: no carriage return is left in it (image names are assumed
      free of carriage returns). */
  lemma {:induction false} RewriteRefsLineEnds(content: string, names: seq<string>, id: int)
    requires exists i :: 0 <= i < |names| && IsImageName(names[i])
    requires forall i :: 0 <= i < |names| ==> Lacks(names[i], '\r')
    ensures Lacks(RewriteRefs(content, names, id), '\r')
    decreases |names|
  {
    var rest := names[1..];
    assert forall i :: 0 <= i < |rest| ==> rest[i] == names[i + 1];
    if !IsImageName(names[0]) {
      var i :| 0 <= i < |names| && IsImageName(names[i]);
      assert IsImageName(rest[i - 1]);
      RewriteRefsLineEnds(content, rest, id);
    } else {
      var n := names[0];
      var next := ReplaceAll(ReadText(content), ImageRef(n), ImageRef(PrefixedImageName(id, n)));
      PrefixedRefLacks(id, n);
      ReplaceAllLacks(ReadText(content), ImageRef(n), ImageRef(PrefixedImageName(id, n)), '\r');
      RewriteRefsKeepsLacks(next, rest, id);
    }
  }

  /** Rewriting references in a text free of carriage returns, for names
      free of them, leaves it free of them. */
  lemma {:induction false} RewriteRefsKeepsLacks(content: string, names: seq<string>, id: int)
    requires Lacks(content, '\r')
    requires forall i :: 0 <= i < |names| ==> Lacks(names[i], '\r')
    ensures Lacks(RewriteRefs(content, names, id), '\r')
    decreases |names|
  {
    if |names| > 0 {
      var rest := names[1..];
      assert forall i :: 0 <= i < |rest| ==> rest[i] == names[i + 1];
      var n := names[0];
      if IsImageName(n) {
        PrefixedRefLacks(id, n);
        ReplaceAllLacks(ReadText(content), ImageRef(n), ImageRef(PrefixedImageName(id, n)), '\r');
      }
      RewriteRefsKeepsLacks(if IsImageName(n) then ReplaceAll(ReadText(content), ImageRef(n), ImageRef(PrefixedImageName(id, n))) else content, rest, id);
    }
  }

  /** The reference to a relocated image carries no carriage return when
      the image name carries none. */
  lemma PrefixedRefLacks(id: int, n: string)
    requires Lacks(n, '\r')
    ensures Lacks(ImageRef(PrefixedImageName(id, n)), '\r')
  {
    IdTextLacks(id, '\r');
    LacksConcat(IntToString(id), "_", '\r');
    LacksConcat(IntToString(id) + "_", n, '\r');
    LacksConcat(ImagesDirName + "/", PrefixedImageName(id, n), '\r');
  }

  /** Ready to relocate a list starting with an image, that image ends up
      at its destination with its content unchanged. */
  lemma RelocatedFirstImage(fs: Fs, names: seq<string>, srcDir: Path, dstDir: Path, md: Path, id: int)
    requires RelocationReady(fs, names, srcDir, dstDir, md)
    requires |names| > 0 && IsImageName(names[0])
    ensures var r := Relocate(fs, names, srcDir, dstDir, md, id).0;
      Destination(dstDir, id, names[0]) in r && r[Destination(dstDir, id, names[0])] == fs[JoinPath(srcDir, names[0])]
  {
    var m := names[0];
    var rest := names[1..];
    var dst := Destination(dstDir, id, m);
    FirstMove(fs, names, srcDir, dstDir, md, id);
    var fs2 := MovedOnce(fs, m, srcDir, dstDir, md, id);
    DestinationPlacement(fs, names, srcDir, dstDir, md, id, m);
    forall x | x in rest
      ensures dst != JoinPath(srcDir, x) && dst != Destination(dstDir, id, x)
    {
      var j :| 0 <= j < |rest| && rest[j] == x;
      RestEntry(fs, names, srcDir, dstDir, md, id, j + 1);
      JoinIsUnder(srcDir, x);
    }
    assert Untouched(dst, rest, srcDir, dstDir, id);
    RelocateFrame(fs2, rest, srcDir, dstDir, md, id, dst);
  }

  /** Ready to relocate, every listed image file ends up in `dstDir` under
      its prefixed name with its content unchanged. */
  lemma {:induction false} RelocatedImage(fs: Fs, names: seq<string>, srcDir: Path, dstDir: Path, md: Path, id: int, n: string)
    requires RelocationReady(fs, names, srcDir, dstDir, md)
    requires n in names && IsImageName(n)
    ensures var r := Relocate(fs, names, srcDir, dstDir, md, id).0;
      Destination(dstDir, id, n) in r && r[Destination(dstDir, id, n)] == fs[JoinPath(srcDir, n)]
    decreases |names|
  {
    var m := names[0];
    var rest := names[1..];
    if m == n {
      RelocatedFirstImage(fs, names, srcDir, dstDir, md, id);
    } else {
      assert n in rest;
      if !IsImageName(m) {
        assert forall x :: x in rest ==> x in names;
        assert NoDup(rest);
        RelocatedImage(fs, rest, srcDir, dstDir, md, id, n);
      } else {
        FirstMove(fs, names, srcDir, dstDir, md, id);
        RestReady(fs, names, srcDir, dstDir, md, id);
        var fs2 := MovedOnce(fs, m, srcDir, dstDir, md, id);
        var j :| 0 <= j < |rest| && rest[j] == n;
        RestEntry(fs, names, srcDir, dstDir, md, id, j + 1);
        RelocatedImage(fs2, rest, srcDir, dstDir, md, id, n);
      }
    }
  }

  /** The engine names its images plainly and `os.listdir` lists faithfully:
      the two assumptions about foreign code the step lemmas rely on. */
  ghost predicate WellBehaved(eng: Engine) {
    FaithfulListing(eng) && PlainImages(eng)
  }

  /** Everything the single converter writes into a directory lies below it. */
  lemma ConvertSingleWritesBelow(eng: Engine, fs: Fs, pdf: Path, dir: Path, req: Request, k: Path)
    requires PlainImages(eng)
    requires ConvertSingle(eng, fs, pdf, dir, Some(RequestName(req.pdf, req.id))).Success?
    requires k in ConvertSingle(eng, fs, pdf, dir, Some(RequestName(req.pdf, req.id))).value.0 && k !in fs
    ensures AtOrUnder(k, dir)
  {
    var out := eng.analyze(pdf).value;
    var md := ConvertSingle(eng, fs, pdf, dir, Some(RequestName(req.pdf, req.id))).value.1;
    if k == md {
      assert md == JoinPath(dir, MarkdownName(req.pdf, req.id));
      JoinIsUnder(dir, MarkdownName(req.pdf, req.id));
    } else {
      var i :| 0 <= i < |out.images| && ImagePaths(ImagesDir(dir), out.images)[i] == k;
      ImagesDirNameIsPlain();
      JoinIsUnder(ImagesDir(dir), out.images[i].0);
      UnderJoinIsUnder(dir, ImagesDirName, k);
    }
  }

  /** A listed entry of the temporary images directory is a plain name of a
      file there, which lies in the temporary directory. */
  lemma ListedUnderTemp(eng: Engine, fs: Fs, temp: Path, n: string)
    requires FaithfulListing(eng)
    requires n in eng.listOrder(Entries(fs, ImagesDir(temp)))
    ensures PlainName(n) && JoinPath(ImagesDir(temp), n) in fs
    ensures AtOrUnder(JoinPath(ImagesDir(temp), n), temp)
  {
    EntriesMeaning(fs, ImagesDir(temp), n);
    JoinIsUnder(ImagesDir(temp), n);
    ImagesDirNameIsPlain();
    UnderJoinIsUnder(temp, ImagesDirName, JoinPath(ImagesDir(temp), n));
  }

  /** Up to the move of the markdown file, files outside the temporary
      directory stay as they were, except that the final path now holds the
      markdown; every new file lies in the temporary directory or is the final
      path. */
  lemma AfterMoveFrame(eng: Engine, fs: Fs, outDir: Path, index: nat, req: Request, k: Path)
    requires PlainImages(eng)
    requires eng.analyze(req.pdf).Success?
    ensures var fs2 := AfterMove(eng, fs, outDir, index, req);
      var temp := TempDir(outDir, index);
      var final := FinalMdPath(outDir, req.pdf, req.id);
      && (k in fs && !AtOrUnder(k, temp) && k != final ==> k in fs2 && fs2[k] == fs[k])
      && (k in fs2 && k !in fs ==> AtOrUnder(k, temp) || k == final)
  {
    var temp := TempDir(outDir, index);
    var final := FinalMdPath(outDir, req.pdf, req.id);
    var converted := ConvertSingle(eng, fs, req.pdf, temp, Some(RequestName(req.pdf, req.id))).value;
    var fs1 := converted.0;
    var mdTmp := converted.1;
    if k in fs1 && k !in fs {
      ConvertSingleWritesBelow(eng, fs, req.pdf, temp, req, k);
    }
    if k in fs && !AtOrUnder(k, temp) {
      assert k != mdTmp by {
        assert mdTmp == JoinPath(temp, MarkdownName(req.pdf, req.id));
        NotUnderJoin(temp, MarkdownName(req.pdf, req.id), k);
      }
      forall i | 0 <= i < |eng.analyze(req.pdf).value.images|
        ensures k != ImagePaths(ImagesDir(temp), eng.analyze(req.pdf).value.images)[i]
      {
        ImagesDirNameIsPlain();
        NotUnderJoin(temp, ImagesDirName, k);
        NotUnderJoin(ImagesDir(temp), eng.analyze(req.pdf).value.images[i].0, k);
      }
    }
  }

  /** After a successful engine run, the `try` block is the relocation step
      on the state right after the move, if the temporary images directory
      exists. */
  lemma TryConvertAfterMove(eng: Engine, fs: Fs, outDir: Path, index: nat, req: Request)
    requires eng.analyze(req.pdf).Success?
    ensures var srcDir := ImagesDir(TempDir(outDir, index));
      var fs2 := AfterMove(eng, fs, outDir, index, req);
      TryConvert(eng, fs, outDir, index, req)
        == if Exists(fs2, srcDir)
          then Relocate(fs2, eng.listOrder(Entries(fs2, srcDir)), srcDir, ImagesDir(outDir), FinalMdPath(outDir, req.pdf, req.id), req.id)
          else (fs2, None)
  {
  }

  /** Whatever the `try` block did, the attempt ends by removing the
      temporary directory and nothing else. */
  lemma AttemptCleans(eng: Engine, fs: Fs, outDir: Path, index: nat, req: Request)
    ensures AttemptConversion(eng, fs, outDir, index, req).0
      == RemoveTree(TryConvert(eng, fs, outDir, index, req).0, TempDir(outDir, index))
  {
  }

  /** The relocation step of a request keeps every file outside the
      temporary directory and adds files only in the images directory. */
  lemma RelocationStepFrame(eng: Engine, fs2: Fs, outDir: Path, index: nat, req: Request, k: Path)
    requires FaithfulListing(eng)
    ensures var srcDir := ImagesDir(TempDir(outDir, index));
      var dstDir := ImagesDir(outDir);
      var r := Relocate(fs2, eng.listOrder(Entries(fs2, srcDir)), srcDir, dstDir, FinalMdPath(outDir, req.pdf, req.id), req.id).0;
      && (k in fs2 && !AtOrUnder(k, TempDir(outDir, index)) ==> k in r)
      && (k in r && k !in fs2 ==> AtOrUnder(k, dstDir))
      && (k in fs2 && !AtOrUnder(k, TempDir(outDir, index)) && !AtOrUnder(k, dstDir) && k != FinalMdPath(outDir, req.pdf, req.id)
          ==> r[k] == fs2[k])
  {
    var temp := TempDir(outDir, index);
    var srcDir := ImagesDir(temp);
    var dstDir := ImagesDir(outDir);
    var final := FinalMdPath(outDir, req.pdf, req.id);
    var names := eng.listOrder(Entries(fs2, srcDir));
    RelocateFrame(fs2, names, srcDir, dstDir, final, req.id, k);
    var r := Relocate(fs2, names, srcDir, dstDir, final, req.id).0;
    if k in r && k !in fs2 {
      var n :| n in names && k == Destination(dstDir, req.id, n);
      JoinRelativeIsUnder(dstDir, PrefixedImageName(req.id, n));
    }
    forall n | n in names
      ensures AtOrUnder(JoinPath(srcDir, n), temp)
      ensures AtOrUnder(Destination(dstDir, req.id, n), dstDir)
    {
      ListedUnderTemp(eng, fs2, temp, n);
      JoinRelativeIsUnder(dstDir, PrefixedImageName(req.id, n));
    }
  }

  /** The `try` block keeps every file outside the temporary directory, and
      adds files only there, in the images directory, and at the request's
      markdown path; other files keep their content. */
  lemma TryConvertFrame(eng: Engine, fs: Fs, outDir: Path, index: nat, req: Request, k: Path)
    requires WellBehaved(eng)
    ensures var r := TryConvert(eng, fs, outDir, index, req).0;
      var temp := TempDir(outDir, index);
      var final := FinalMdPath(outDir, req.pdf, req.id);
      && (k in fs && !AtOrUnder(k, temp) ==> k in r)
      && (k in r && k !in fs ==> AtOrUnder(k, temp) || AtOrUnder(k, ImagesDir(outDir)) || k == final)
      && (k in fs && !AtOrUnder(k, temp) && !AtOrUnder(k, ImagesDir(outDir)) && k != final ==> r[k] == fs[k])
  {
    if eng.analyze(req.pdf).Success? {
      var fs2 := AfterMove(eng, fs, outDir, index, req);
      AfterMoveFrame(eng, fs, outDir, index, req, k);
      RelocationStepFrame(eng, fs2, outDir, index, req, k);
      TryConvertAfterMove(eng, fs, outDir, index, req);
    }
  }

  /** A request the decision sends to conversion is attempted. */
  lemma StepAttempts(eng: Engine, st: Settings, fs: Fs, index: nat, req: Request)
    requires Decide(st.forceRebuild, Exists(fs, FinalMdPath(st.outDir, req.pdf, req.id)), st.pagesMax, eng.pageCount(req.pdf)).Attempt?
    ensures Step(eng, st, fs, index, req) == AttemptConversion(eng, fs, st.outDir, index, req)
  {
  }

  /** One iteration keeps every file outside its temporary directory, adds
      files only in the images directory and at the request's markdown path,
      and leaves the content of every other file alone. */
  lemma StepFrame(eng: Engine, st: Settings, fs: Fs, index: nat, req: Request, k: Path)
    requires WellBehaved(eng)
    ensures var r := Step(eng, st, fs, index, req).0;
      var final := FinalMdPath(st.outDir, req.pdf, req.id);
      && (k in fs && !AtOrUnder(k, TempDir(st.outDir, index)) ==> k in r)
      && (k in r && k !in fs ==> AtOrUnder(k, ImagesDir(st.outDir)) || k == final)
      && (k in fs && !AtOrUnder(k, TempDir(st.outDir, index)) && !AtOrUnder(k, ImagesDir(st.outDir)) && k != final
          ==> r[k] == fs[k])
  {
    var final := FinalMdPath(st.outDir, req.pdf, req.id);
    var temp := TempDir(st.outDir, index);
    if Decide(st.forceRebuild, Exists(fs, final), st.pagesMax, eng.pageCount(req.pdf)).Attempt? {
      StepAttempts(eng, st, fs, index, req);
      AttemptCleans(eng, fs, st.outDir, index, req);
      TryConvertFrame(eng, fs, st.outDir, index, req, k);
    }
  }

  /** The relocation loop of request `index` always finds itself ready: the
      listing is faithful, the markdown file has just been moved into place,
      and the temporary and shared images directories are disjoint. */
  lemma ReadyAfterMove(eng: Engine, fs2: Fs, outDir: Path, index: nat, req: Request)
    requires FaithfulListing(eng)
    requires FinalMdPath(outDir, req.pdf, req.id) in fs2
    ensures var srcDir := ImagesDir(TempDir(outDir, index));
      RelocationReady(fs2, eng.listOrder(Entries(fs2, srcDir)), srcDir, ImagesDir(outDir), FinalMdPath(outDir, req.pdf, req.id))
  {
    var temp := TempDir(outDir, index);
    var srcDir := ImagesDir(temp);
    var final := FinalMdPath(outDir, req.pdf, req.id);
    var names := eng.listOrder(Entries(fs2, srcDir));
    ImagesDirNameIsPlain();
    forall n | n in names
      ensures PlainName(n) && JoinPath(srcDir, n) in fs2
    {
      ListedUnderTemp(eng, fs2, temp, n);
    }
    FinalMdOutsideTemp(outDir, req.pdf, req.id, index, final);
    NotUnderJoin(temp, ImagesDirName, final);
    FinalMdOutsideImages(outDir, req.pdf, req.id, final);
    forall k | AtOrUnder(k, ImagesDir(outDir))
      ensures !AtOrUnder(k, srcDir)
    {
      ImagesOutsideTemp(outDir, index, k);
      NotUnderJoin(temp, ImagesDirName, k);
    }
  }

  /** A conversion attempt succeeds exactly when the engine does, and a
      successful one leaves the markdown file at the request's final path. */
  lemma AttemptSucceedsIffEngine(eng: Engine, fs: Fs, outDir: Path, index: nat, req: Request)
    requires FaithfulListing(eng)
    ensures var r := AttemptConversion(eng, fs, outDir, index, req);
      && (r.1.Converted? <==> eng.analyze(req.pdf).Success?)
      && (r.1.Converted? ==> FinalMdPath(outDir, req.pdf, req.id) in r.0)
  {
    var temp := TempDir(outDir, index);
    var final := FinalMdPath(outDir, req.pdf, req.id);
    var converted := ConvertSingle(eng, fs, req.pdf, temp, Some(RequestName(req.pdf, req.id)));
    if converted.Success? {
      var fs2 := MoveFile(converted.value.0, converted.value.1, final).value;
      var srcDir := ImagesDir(temp);
      if Exists(fs2, srcDir) {
        ReadyAfterMove(eng, fs2, outDir, index, req);
        RelocateSucceeds(fs2, eng.listOrder(Entries(fs2, srcDir)), srcDir, ImagesDir(outDir), final, req.id);
      }
      FinalMdOutsideTemp(outDir, req.pdf, req.id, index, final);
    }
  }

  /** The file names of a rendering's images. */
  function ImageNames(imgs: seq<(string, string)>): (names: set<string>)
    ensures forall i :: 0 <= i < |imgs| ==> imgs[i].0 in names
    ensures forall n :: n in names ==> exists i :: 0 <= i < |imgs| && imgs[i].0 == n
  {
    set i | 0 <= i < |imgs| :: imgs[i].0
  }

  /** The filesystem right after the markdown file of an attempt has been
      moved to its final path. */
  function AfterMove(eng: Engine, fs: Fs, outDir: Path, index: nat, req: Request): (fs2: Fs)
    requires eng.analyze(req.pdf).Success?
    ensures FinalMdPath(outDir, req.pdf, req.id) in fs2
  {
    var converted := ConvertSingle(eng, fs, req.pdf, TempDir(outDir, index), Some(RequestName(req.pdf, req.id))).value;
    MoveFile(converted.0, converted.1, FinalMdPath(outDir, req.pdf, req.id)).value
  }

  /** A file of the temporary images directory exists right after the move
      exactly when the engine wrote it, provided the temporary directory was
      fresh. */
  lemma FreshPathIn(eng: Engine, fs: Fs, outDir: Path, index: nat, req: Request, n: string)
    requires eng.analyze(req.pdf).Success?
    requires !Exists(fs, TempDir(outDir, index))
    requires PlainName(n)
    ensures var p := JoinPath(ImagesDir(TempDir(outDir, index)), n);
      var imagePaths := ImagePaths(ImagesDir(TempDir(outDir, index)), eng.analyze(req.pdf).value.images);
      p in AfterMove(eng, fs, outDir, index, req) <==> p in imagePaths
  {
    var temp := TempDir(outDir, index);
    var srcDir := ImagesDir(temp);
    var out := eng.analyze(req.pdf).value;
    var p := JoinPath(srcDir, n);
    var mdTmp := JoinPath(temp, MarkdownName(req.pdf, req.id));
    TempImageElsewhere(outDir, index, req, n);
    assert p !in fs by {
      JoinIsUnder(srcDir, n);
      ImagesDirNameIsPlain();
      UnderJoinIsUnder(temp, ImagesDirName, p);
    }
    AfterMoveShape(eng, fs, outDir, index, req);
  }

  /** With plain names, a joined path is among the image paths exactly when
      its name is among the image names. */
  lemma NameInImagePaths(dir: Path, imgs: seq<(string, string)>, n: string)
    requires DistinctPlainNames(imgs) && PlainName(n)
    ensures JoinPath(dir, n) in ImagePaths(dir, imgs) <==> n in ImageNames(imgs)
  {
    if JoinPath(dir, n) in ImagePaths(dir, imgs) {
      var i :| 0 <= i < |imgs| && ImagePaths(dir, imgs)[i] == JoinPath(dir, n);
      JoinInjective(dir, n, imgs[i].0);
    }
    if n in ImageNames(imgs) {
      var i :| 0 <= i < |imgs| && imgs[i].0 == n;
      assert ImagePaths(dir, imgs)[i] == JoinPath(dir, n);
    }
  }

  /** In a fresh temporary directory, the images directory lists exactly the
      engine's images. */
  lemma FreshListing(eng: Engine, fs: Fs, outDir: Path, index: nat, req: Request)
    requires PlainImages(eng)
    requires eng.analyze(req.pdf).Success?
    requires !Exists(fs, TempDir(outDir, index))
    ensures Entries(AfterMove(eng, fs, outDir, index, req), ImagesDir(TempDir(outDir, index)))
      == ImageNames(eng.analyze(req.pdf).value.images)
  {
    var srcDir := ImagesDir(TempDir(outDir, index));
    var imgs := eng.analyze(req.pdf).value.images;
    var fs2 := AfterMove(eng, fs, outDir, index, req);
    assert DistinctPlainNames(imgs);
    forall n
      ensures n in Entries(fs2, srcDir) <==> n in ImageNames(imgs)
    {
      EntriesMeaning(fs2, srcDir, n);
      if PlainName(n) {
        FreshPathIn(eng, fs, outDir, index, req, n);
        NameInImagePaths(srcDir, imgs, n);
      }
    }
  }

  /** A non-empty listing means the directory exists. */
  lemma ListingMeansExists(eng: Engine, fs: Fs, dir: Path)
    requires FaithfulListing(eng)
    ensures |eng.listOrder(Entries(fs, dir))| > 0 ==> Exists(fs, dir)
  {
    var names := eng.listOrder(Entries(fs, dir));
    if |names| > 0 {
      EntriesMeaning(fs, dir, names[0]);
      JoinIsUnder(dir, names[0]);
    }
  }

  /** A move leaves every other file as it was. */
  lemma MovedKeeps(fs: Fs, src: Path, dst: Path, k: Path)
    requires src in fs && k in fs && k != src && k != dst
    ensures k in MoveFile(fs, src, dst).value && MoveFile(fs, src, dst).value[k] == fs[k]
  {
  }

  /** With pairwise distinct plain names, the image writer leaves image `i`
      with its own content. */
  lemma WrittenImage(fs: Fs, dir: Path, imgs: seq<(string, string)>, i: nat)
    requires i < |imgs|
    requires forall j :: 0 <= j < |imgs| ==> PlainName(imgs[j].0)
    requires forall j, l :: 0 <= j < l < |imgs| ==> imgs[j].0 != imgs[l].0
    ensures JoinPath(dir, imgs[i].0) in WriteImages(fs, dir, imgs)
    ensures WriteImages(fs, dir, imgs)[JoinPath(dir, imgs[i].0)] == imgs[i].1
  {
    forall j | i < j < |imgs|
      ensures JoinPath(dir, imgs[j].0) != JoinPath(dir, imgs[i].0)
    {
      JoinDistinct(dir, imgs[j].0, imgs[i].0);
    }
    WriteImagesContent(fs, dir, imgs, i);
  }

  /** A file of the temporary images directory is neither the temporary
      markdown file nor the final one. */
  lemma TempImageElsewhere(outDir: Path, index: nat, req: Request, n: string)
    requires PlainName(n)
    ensures var temp := TempDir(outDir, index);
      var p := JoinPath(ImagesDir(temp), n);
      p != JoinPath(temp, MarkdownName(req.pdf, req.id)) && p != FinalMdPath(outDir, req.pdf, req.id)
  {
    var temp := TempDir(outDir, index);
    var md := MarkdownName(req.pdf, req.id);
    var p := JoinPath(ImagesDir(temp), n);
    ImagesDirNameIsPlain();
    LacksDiffers(md, ImagesDirName, '.', |md| - 3);
    JoinIsUnder(ImagesDir(temp), n);
    UnderJoinIsUnder(temp, ImagesDirName, p);
    JoinedSiblingsDisjoint(temp, ImagesDirName, md, p);
    FinalMdOutsideTemp(outDir, req.pdf, req.id, index, FinalMdPath(outDir, req.pdf, req.id));
  }

  /** Right after the move, the state is the image writer's output with the
      markdown file written and then moved to its final path. */
  lemma AfterMoveShape(eng: Engine, fs: Fs, outDir: Path, index: nat, req: Request)
    requires eng.analyze(req.pdf).Success?
    ensures var temp := TempDir(outDir, index);
      var out := eng.analyze(req.pdf).value;
      var mdTmp := JoinPath(temp, MarkdownName(req.pdf, req.id));
      AfterMove(eng, fs, outDir, index, req)
        == MoveFile(WriteImages(fs, ImagesDir(temp), out.images)[mdTmp := out.markdown], mdTmp, FinalMdPath(outDir, req.pdf, req.id)).value
  {
    ConvertedInTemp(eng, fs, TempDir(outDir, index), req);
  }

  /** The single converter, asked for a request's name, writes the images and
      then the markdown file `<id>_<stem>.md`. */
  lemma ConvertedInTemp(eng: Engine, fs: Fs, temp: Path, req: Request)
    requires temp != "" && eng.analyze(req.pdf).Success?
    ensures var out := eng.analyze(req.pdf).value;
      var mdTmp := JoinPath(temp, MarkdownName(req.pdf, req.id));
      ConvertSingle(eng, fs, req.pdf, temp, Some(RequestName(req.pdf, req.id)))
        == Success((WriteImages(fs, ImagesDir(temp), out.images)[mdTmp := out.markdown], mdTmp))
  {
    assert OutputName(req.pdf, Some(RequestName(req.pdf, req.id))) + MarkdownExt == MarkdownName(req.pdf, req.id);
  }

  /** Writing one file and moving it elsewhere keeps every other file. */
  lemma WriteThenMoveKeeps(w: Fs, tmp: Path, content: string, final: Path, p: Path)
    requires p in w && p != tmp && p != final
    ensures var m := MoveFile(w[tmp := content], tmp, final).value;
      p in m && m[p] == w[p]
  {
  }

  /** The temporary copy of image `i`, right after the move of the markdown
      file, holds the engine's content for it. */
  lemma FreshImageWritten(eng: Engine, fs: Fs, outDir: Path, index: nat, req: Request, i: nat)
    requires PlainImages(eng)
    requires eng.analyze(req.pdf).Success?
    requires i < |eng.analyze(req.pdf).value.images|
    ensures var imgs := eng.analyze(req.pdf).value.images;
      var p := JoinPath(ImagesDir(TempDir(outDir, index)), imgs[i].0);
      p in AfterMove(eng, fs, outDir, index, req) && AfterMove(eng, fs, outDir, index, req)[p] == imgs[i].1
  {
    var temp := TempDir(outDir, index);
    var srcDir := ImagesDir(temp);
    var out := eng.analyze(req.pdf).value;
    var p := JoinPath(srcDir, out.images[i].0);
    var mdTmp := JoinPath(temp, MarkdownName(req.pdf, req.id));
    var written := WriteImages(fs, srcDir, out.images);
    WrittenImage(fs, srcDir, out.images, i);
    TempImageElsewhere(outDir, index, req, out.images[i].0);
    AfterMoveShape(eng, fs, outDir, index, req);
    WriteThenMoveKeeps(written, mdTmp, out.markdown, FinalMdPath(outDir, req.pdf, req.id), p);
  }

  /** A successful conversion in a fresh temporary directory leaves the
      engine's markdown, with every image reference rewritten, at the final
      path, and every image file in the shared images directory under its
      id-prefixed name with the engine's content. */
  lemma FreshConversion(eng: Engine, fs: Fs, outDir: Path, index: nat, req: Request)
    requires WellBehaved(eng)
    requires eng.analyze(req.pdf).Success?
    requires !Exists(fs, TempDir(outDir, index))
    ensures var out := eng.analyze(req.pdf).value;
      var r := AttemptConversion(eng, fs, outDir, index, req);
      var final := FinalMdPath(outDir, req.pdf, req.id);
      && r.1 == Converted
      && final in r.0
      && r.0[final] == RewriteRefs(out.markdown, eng.listOrder(ImageNames(out.images)), req.id)
      && (forall i :: 0 <= i < |out.images| && IsImageName(out.images[i].0) ==>
            var dst := Destination(ImagesDir(outDir), req.id, out.images[i].0);
            dst in r.0 && r.0[dst] == out.images[i].1)
  {
    var temp := TempDir(outDir, index);
    var srcDir := ImagesDir(temp);
    var dstDir := ImagesDir(outDir);
    var final := FinalMdPath(outDir, req.pdf, req.id);
    var out := eng.analyze(req.pdf).value;
    var fs2 := AfterMove(eng, fs, outDir, index, req);
    var names := eng.listOrder(Entries(fs2, srcDir));
    assert names == eng.listOrder(ImageNames(out.images)) by {
      FreshListing(eng, fs, outDir, index, req);
    }
    AttemptSucceedsIffEngine(eng, fs, outDir, index, req);
    var r := AttemptConversion(eng, fs, outDir, index, req).0;
    assert final in r && r[final] == RewriteRefs(out.markdown, names, req.id) by {
      ListingMeansExists(eng, fs2, srcDir);
      FinalMdOutsideTemp(outDir, req.pdf, req.id, index, final);
      if Exists(fs2, srcDir) {
        ReadyAfterMove(eng, fs2, outDir, index, req);
        RelocateSucceeds(fs2, names, srcDir, dstDir, final, req.id);
      }
    }
    forall i | 0 <= i < |out.images| && IsImageName(out.images[i].0)
      ensures var dst := Destination(dstDir, req.id, out.images[i].0);
        dst in r && r[dst] == out.images[i].1
    {
      FreshImageRelocated(eng, fs, outDir, index, req, i);
    }
  }

  /** Image `i` of a fresh conversion ends up relocated with its content. */
  lemma FreshImageRelocated(eng: Engine, fs: Fs, outDir: Path, index: nat, req: Request, i: nat)
    requires WellBehaved(eng)
    requires eng.analyze(req.pdf).Success?
    requires !Exists(fs, TempDir(outDir, index))
    requires i < |eng.analyze(req.pdf).value.images| && IsImageName(eng.analyze(req.pdf).value.images[i].0)
    ensures var img := eng.analyze(req.pdf).value.images[i];
      var dst := Destination(ImagesDir(outDir), req.id, img.0);
      var r := AttemptConversion(eng, fs, outDir, index, req).0;
      dst in r && r[dst] == img.1
  {
    var temp := TempDir(outDir, index);
    var srcDir := ImagesDir(temp);
    var dstDir := ImagesDir(outDir);
    var final := FinalMdPath(outDir, req.pdf, req.id);
    var img := eng.analyze(req.pdf).value.images[i];
    var fs2 := AfterMove(eng, fs, outDir, index, req);
    var names := eng.listOrder(Entries(fs2, srcDir));
    var dst := Destination(dstDir, req.id, img.0);
    assert img.0 in names by {
      FreshListing(eng, fs, outDir, index, req);
    }
    ListingMeansExists(eng, fs2, srcDir);
    var moved := Relocate(fs2, names, srcDir, dstDir, final, req.id).0;
    assert dst in moved && moved[dst] == img.1 by {
      FreshImageWritten(eng, fs, outDir, index, req, i);
      ReadyAfterMove(eng, fs2, outDir, index, req);
      RelocatedImage(fs2, names, srcDir, dstDir, final, req.id, img.0);
    }
    assert !AtOrUnder(dst, temp) by {
      JoinRelativeIsUnder(dstDir, PrefixedImageName(req.id, img.0));
      ImagesOutsideTemp(outDir, index, dst);
    }
    AttemptCleans(eng, fs, outDir, index, req);
    TryConvertAfterMove(eng, fs, outDir, index, req);
  }
}
