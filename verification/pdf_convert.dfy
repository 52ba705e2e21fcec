/** Conversion of one PDF to markdown, with the document-analysis engine and
    the PDF page counter as oracles, plus the naming rules the batch
    orchestrator builds on. */
module PdfConvert {
  import opened Wrappers
  import opened Strings
  import opened Numerals
  import opened Paths
  import opened FileSystem
  import opened Config

  /** What the analysis engine produces for one document: the markdown text
      (its image links have the form `images/<name>`) and the extracted
      images, by file name. */
  datatype Rendering = Rendering(markdown: string, images: seq<(string, string)>)

  /** The foreign calls the conversion code makes.
      - `pageCount`: the PDF reader's page count, already 0 when reading fails;
      - `analyze`: classification, inference and markdown generation, which
        may raise;
      - `listOrder`: the order in which `os.listdir` returns a directory's
        entries. */
  datatype Engine = Engine(
    pageCount: Path -> nat,
    analyze: Path -> Result<Rendering>,
    listOrder: set<string> -> seq<string>)

  predicate NoDup<T(==)>(s: seq<T>) {
    forall i, j :: 0 <= i < j < |s| ==> s[i] != s[j]
  }

  /** `os.listdir` lists each entry of the directory exactly once. */
  ghost predicate FaithfulListing(eng: Engine) {
    forall names: set<string> ::
      NoDup(eng.listOrder(names)) && (forall n :: n in eng.listOrder(names) <==> n in names)
  }

  /** The engine names its images with plain, pairwise distinct file names. */
  ghost predicate PlainImages(eng: Engine) {
    forall pdf: Path :: eng.analyze(pdf).Success? ==> DistinctPlainNames(eng.analyze(pdf).value.images)
  }

  /** Image file names that are plain and pairwise distinct. */
  predicate DistinctPlainNames(imgs: seq<(string, string)>) {
    && (forall i :: 0 <= i < |imgs| ==> PlainName(imgs[i].0))
    && (forall i, j :: 0 <= i < j < |imgs| ==> imgs[i].0 != imgs[j].0)
  }

  lemma ImagesDirNameIsPlain()
    ensures PlainName(ImagesDirName) && Lacks(ImagesDirName, '.')
  {
    assert ImagesDirName == ['i', 'm', 'a', 'g', 'e', 's'];
  }

  /** `create_images_dir(base)`: the `images` directory inside `base`. */
  function ImagesDir(base: Path): (d: Path)
    ensures d == DirPrefix(base) + ImagesDirName
  {
    JoinPath(base, ImagesDirName)
  }

  /** Name of the temporary directory of request `index`. */
  function TempDirName(index: nat): (n: string)
    ensures PlainName(n) && Lacks(n, '.')
    ensures StartsWith(n, TempDirPrefix)
  {
    var digits := NatToString(index);
    assert Lacks(digits, '/') && Lacks(digits, '.');
    LacksConcat(TempDirPrefix, digits, '/');
    LacksConcat(TempDirPrefix, digits, '.');
    PrefixOfConcat(TempDirPrefix, digits, TempDirPrefix + digits);
    TempDirPrefix + digits
  }

  /** Different requests get different temporary directories. */
  lemma TempDirNameInjective(a: nat, b: nat)
    requires TempDirName(a) == TempDirName(b)
    ensures a == b
  {
    assert NatToString(a) == TempDirName(a)[|TempDirPrefix|..];
    assert NatToString(b) == TempDirName(b)[|TempDirPrefix|..];
    NatToStringInjective(a, b);
  }

  /** `create_temp_dir(base, index)` and the temporary directory of the batch
      loop: `temp_<index>` inside `base`. */
  function TempDir(base: Path, index: nat): (d: Path)
    ensures d == DirPrefix(base) + TempDirName(index)
    ensures d != ""
  {
    JoinPath(base, TempDirName(index))
  }

  /** The directories the converter creates are entries of their base
      directory, named as the converter names them. */
  lemma CreatedDirShapes(base: Path, index: nat)
    ensures AtOrUnder(ImagesDir(base), base) && ImagesDir(base) != base
    ensures Basename(ImagesDir(base)) == ImagesDirName
    ensures AtOrUnder(TempDir(base, index), base) && TempDir(base, index) != base
    ensures Basename(TempDir(base, index)) == TempDirPrefix + NatToString(index)
  {
    ImagesDirNameIsPlain();
    JoinIsUnder(base, ImagesDirName);
    BasenameOfJoin(base, ImagesDirName);
    JoinIsUnder(base, TempDirName(index));
    BasenameOfJoin(base, TempDirName(index));
  }

  /** The file name (without `.md`) the single converter uses when the caller
      gives none: the PDF's base name without its last extension. */
  function OutputName(pdf: Path, given: Option<string>): (name: string)
    ensures given.Some? ==> name == given.value
    ensures given.None? ==> StartsWith(Basename(pdf), name) && Lacks(name, '/')
    ensures given.None? ==> name + SplitExt(Basename(pdf)).1 == Basename(pdf)
  {
    if given.None? then Stem(pdf) else given.value
  }

  /** Where the images of a rendering are written, in order. */
  function ImagePaths(dir: Path, imgs: seq<(string, string)>): (ps: seq<Path>)
    ensures |ps| == |imgs|
    ensures forall i :: 0 <= i < |imgs| ==> ps[i] == JoinPath(dir, imgs[i].0)
  {
    seq(|imgs|, i requires 0 <= i < |imgs| => JoinPath(dir, imgs[i].0))
  }

  /** No later image of `imgs` is written to the path of image `i`. */
  predicate LastWrite(dir: Path, imgs: seq<(string, string)>, i: nat)
    requires i < |imgs|
  {
    forall j :: i < j < |imgs| ==> JoinPath(dir, imgs[j].0) != JoinPath(dir, imgs[i].0)
  }

  /** The image writer: each image is written in turn, a later write to the
      same path replacing an earlier one. */
  function WriteImages(fs: Fs, dir: Path, imgs: seq<(string, string)>): (r: Fs)
    ensures forall k :: k in r <==> k in fs || k in ImagePaths(dir, imgs)
    ensures forall k :: k in fs && k !in ImagePaths(dir, imgs) ==> r[k] == fs[k]
    decreases |imgs|
  {
    if |imgs| == 0 then fs
    else
      var r := WriteImages(fs[JoinPath(dir, imgs[0].0) := imgs[0].1], dir, imgs[1..]);
      assert ImagePaths(dir, imgs) == [JoinPath(dir, imgs[0].0)] + ImagePaths(dir, imgs[1..]);
      r
  }

  /** Each image whose path no later image reuses ends up with its content. */
  lemma {:induction false} WriteImagesContent(fs: Fs, dir: Path, imgs: seq<(string, string)>, i: nat)
    requires i < |imgs| && LastWrite(dir, imgs, i)
    ensures JoinPath(dir, imgs[i].0) in WriteImages(fs, dir, imgs)
    ensures WriteImages(fs, dir, imgs)[JoinPath(dir, imgs[i].0)] == imgs[i].1
    decreases |imgs|
  {
    var p := JoinPath(dir, imgs[i].0);
    var fs1 := fs[JoinPath(dir, imgs[0].0) := imgs[0].1];
    var rest := imgs[1..];
    if i == 0 {
      assert p !in ImagePaths(dir, rest) by {
        forall j | 0 <= j < |rest|
          ensures ImagePaths(dir, rest)[j] != p
        {
          assert rest[j] == imgs[j + 1];
        }
      }
    } else {
      assert rest[i - 1] == imgs[i];
      assert LastWrite(dir, rest, i - 1) by {
        forall j | i - 1 < j < |rest|
          ensures JoinPath(dir, rest[j].0) != p
        {
          assert rest[j] == imgs[j + 1];
        }
      }
      WriteImagesContent(fs1, dir, rest, i - 1);
    }
  }

  /** `convert_single_pdf_to_md`: the engine's markdown goes to
      `output_dir/<name>.md` and its images into `output_dir/images`; the
      path of the markdown file is returned. Creating the empty output
      directory raises before the engine runs; an engine failure propagates. */
  function ConvertSingle(eng: Engine, fs: Fs, pdf: Path, outDir: Path, given: Option<string>): (r: Result<(Fs, Path)>)
    ensures r.Success? <==> outDir != "" && eng.analyze(pdf).Success?
    ensures outDir == "" ==> r == Failure(EmptyPathError)
    ensures outDir != "" && eng.analyze(pdf).Failure? ==> r == Failure(eng.analyze(pdf).error)
    ensures r.Success? ==> r.value.1 == JoinPath(outDir, OutputName(pdf, given) + MarkdownExt)
    ensures r.Success? ==> r.value.1 in r.value.0 && r.value.0[r.value.1] == eng.analyze(pdf).value.markdown
    ensures r.Success? ==> forall k :: k in r.value.0 <==>
      k in fs || k == r.value.1 || k in ImagePaths(ImagesDir(outDir), eng.analyze(pdf).value.images)
    ensures r.Success? ==>
      forall k :: k in fs && k != r.value.1 && k !in ImagePaths(ImagesDir(outDir), eng.analyze(pdf).value.images)
        ==> r.value.0[k] == fs[k]
  {
    if outDir == "" then Failure(EmptyPathError)
    else
      match eng.analyze(pdf)
      case Failure(e) => Failure(e)
      case Success(out) =>
        var mdPath := JoinPath(outDir, OutputName(pdf, given) + MarkdownExt);
        var fs1 := WriteImages(fs, ImagesDir(outDir), out.images);
        Success((fs1[mdPath := out.markdown], mdPath))
  }

  /** The decimal text of an id holds only digits and a sign. */
  lemma IdTextLacks(id: int, c: char)
    requires c != '-' && !IsDigit(c)
    ensures Lacks(IntToString(id), c)
  {
    var t := IntToString(id);
    assert forall k :: 0 <= k < |t| ==> t[k] != c;
  }

  /** The name a batch request's outputs are keyed by: `<id>_<stem>`. */
  function RequestName(pdf: Path, id: int): (name: string)
    ensures PlainName(name) && name[0] != '/'
    ensures StartsWith(name, IntToString(id) + "_")
  {
    var head := IntToString(id) + "_";
    IdTextLacks(id, '/');
    PlainConcat(IntToString(id), "_");
    PlainConcat(head, Stem(pdf));
    head + Stem(pdf)
  }

  /** The markdown extension is a dot and two letters. */
  lemma MarkdownExtShape()
    ensures |MarkdownExt| == 3 && MarkdownExt[0] == '.' && Lacks(MarkdownExt, '/')
  {
  }

  /** The markdown file name of a request: `<id>_<stem>.md`. */
  function MarkdownName(pdf: Path, id: int): (name: string)
    ensures PlainName(name) && name[0] != '/'
    ensures EndsWith(name, MarkdownExt) && name[|name| - 3] == '.'
  {
    var base := RequestName(pdf, id);
    MarkdownExtShape();
    PlainConcat(base, MarkdownExt);
    SuffixOfConcat(base, MarkdownExt);
    base + MarkdownExt
  }

  /** Text followed by a suffix ends with that suffix. */
  lemma SuffixOfConcat(a: string, b: string)
    ensures EndsWith(a + b, b)
    ensures forall k :: 0 <= k < |b| ==> (a + b)[|a| + k] == b[k]
  {
    assert (a + b)[|a|..] == b;
  }

  /** The final markdown path of a request: `out_dir/<id>_<stem>.md`. */
  function FinalMdPath(outDir: Path, pdf: Path, id: int): (p: Path)
    ensures p == DirPrefix(outDir) + MarkdownName(pdf, id)
  {
    JoinPath(outDir, MarkdownName(pdf, id))
  }

  /** A request's markdown file is an entry of the output directory named
      `<id>_<stem>.md`. */
  lemma FinalMdPathShape(outDir: Path, pdf: Path, id: int)
    ensures AtOrUnder(FinalMdPath(outDir, pdf, id), outDir) && FinalMdPath(outDir, pdf, id) != outDir
    ensures Basename(FinalMdPath(outDir, pdf, id)) == IntToString(id) + "_" + Stem(pdf) + ".md"
  {
    JoinIsUnder(outDir, MarkdownName(pdf, id));
    BasenameOfJoin(outDir, MarkdownName(pdf, id));
  }

  /** The markdown files of two requests are told apart by their names. */
  lemma FinalMdPathInjective(outDir: Path, pdf1: Path, id1: int, pdf2: Path, id2: int)
    requires FinalMdPath(outDir, pdf1, id1) == FinalMdPath(outDir, pdf2, id2)
    ensures MarkdownName(pdf1, id1) == MarkdownName(pdf2, id2)
  {
    JoinInjective(outDir, MarkdownName(pdf1, id1), MarkdownName(pdf2, id2));
  }

  /** A request's markdown file is never inside (or equal to) a temporary
      directory. */
  lemma FinalMdOutsideTemp(outDir: Path, pdf: Path, id: int, index: nat, k: Path)
    requires AtOrUnder(k, FinalMdPath(outDir, pdf, id))
    ensures !AtOrUnder(k, TempDir(outDir, index))
  {
    var md := MarkdownName(pdf, id);
    LacksDiffers(md, TempDirName(index), '.', |md| - 3);
    JoinedSiblingsDisjoint(outDir, md, TempDirName(index), k);
  }

  /** A request's markdown file is never inside the images directory. */
  lemma FinalMdOutsideImages(outDir: Path, pdf: Path, id: int, k: Path)
    requires AtOrUnder(k, FinalMdPath(outDir, pdf, id))
    ensures !AtOrUnder(k, ImagesDir(outDir))
  {
    var md := MarkdownName(pdf, id);
    ImagesDirNameIsPlain();
    LacksDiffers(md, ImagesDirName, '.', |md| - 3);
    JoinedSiblingsDisjoint(outDir, md, ImagesDirName, k);
  }

  /** The images directory and a temporary directory share no path. */
  lemma ImagesOutsideTemp(outDir: Path, index: nat, k: Path)
    requires AtOrUnder(k, ImagesDir(outDir))
    ensures !AtOrUnder(k, TempDir(outDir, index))
  {
    var t := TempDirName(index);
    assert ImagesDirName[0] != t[0];
    JoinedSiblingsDisjoint(outDir, ImagesDirName, t, k);
  }

  /** Two temporary directories of different requests share no path. */
  lemma TempDirsDisjoint(outDir: Path, i: nat, j: nat, k: Path)
    requires i != j
    requires AtOrUnder(k, TempDir(outDir, i))
    ensures !AtOrUnder(k, TempDir(outDir, j))
  {
    if TempDirName(i) == TempDirName(j) {
      TempDirNameInjective(i, j);
    }
    JoinedSiblingsDisjoint(outDir, TempDirName(i), TempDirName(j), k);
  }

  /** Relocated image names are `<id>_<name>`; distinct (id, name) pairs never
      collide in the shared images directory. */
  function PrefixedImageName(id: int, name: string): (r: string)
    ensures StartsWith(r, IntToString(id) + "_")
    ensures EndsWith(r, name)
    ensures |r| == |IntToString(id)| + 1 + |name|
    ensures r != "" && r[0] != '/'
    ensures PlainName(name) ==> PlainName(r)
  {
    var head := IntToString(id) + "_";
    IdTextLacks(id, '/');
    LacksConcat(IntToString(id), "_", '/');
    LacksConcat(head, name, '/');
    PrefixOfConcat(head, name, head + name);
    assert (head + name)[|head|..] == name;
    assert (head + name)[0] == IntToString(id)[0];
    head + name
  }

  /** The prefixed name determines both the id and the original name. */
  lemma PrefixedImageNameInjective(id1: int, n1: string, id2: int, n2: string)
    requires PrefixedImageName(id1, n1) == PrefixedImageName(id2, n2)
    ensures id1 == id2 && n1 == n2
  {
    var a := IntToString(id1);
    var b := IntToString(id2);
    var r := PrefixedImageName(id1, n1);
    assert r == a + ['_'] + n1 == b + ['_'] + n2;
    IdTextLacks(id1, '_');
    IdTextLacks(id2, '_');
    FirstIndexAfter(a, n1, '_');
    FirstIndexAfter(b, n2, '_');
    assert a == r[..|a|] == b;
    IntToStringInjective(id1, id2);
    assert n1 == r[|a| + 1..] == n2;
  }
}
