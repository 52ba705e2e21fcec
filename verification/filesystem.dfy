/** An abstract filesystem: a map from file path to file content.
    Directories are implicit: a directory exists when some file lies below it,
    and creating an empty directory changes nothing that the modelled code can
    observe. */
module FileSystem {
  import opened Wrappers
  import opened Strings
  import opened Paths

  type Fs = map<Path, string>

  /** The error `os.makedirs("")` raises: the empty path names no directory. */
  const EmptyPathError := "[Errno 2] No such file or directory: ''"

  /** The text a file holding `s` reads as when opened in text mode
      (`open(p, 'r')` with universal newlines): each "\r\n" and each other
      "\r" becomes "\n". */
  function ReadText(s: string): (r: string)
    ensures Lacks(r, '\r')
    ensures |r| <= |s|
    decreases |s|
  {
    if |s| == 0 then ""
    else
      var rest := if s[0] == '\r' && |s| > 1 && s[1] == '\n' then s[2..] else s[1..];
      var head := if s[0] == '\r' then "\n" else [s[0]];
      LacksConcat(head, ReadText(rest), '\r');
      head + ReadText(rest)
  }

  /** Text without carriage returns reads back unchanged. */
  lemma {:induction false} ReadTextKeepsPlain(s: string)
    requires Lacks(s, '\r')
    ensures ReadText(s) == s
    decreases |s|
  {
    if |s| > 0 {
      ReadTextKeepsPlain(s[1..]);
      assert s == [s[0]] + s[1..];
    }
  }

  /** Reading never turns a line feed into something else, and every line
      ending read back is a single "\n": reading what was read changes
      nothing. */
  lemma ReadTextIdempotent(s: string)
    ensures ReadText(ReadText(s)) == ReadText(s)
  {
    ReadTextKeepsPlain(ReadText(s));
  }

  /** `os.path.exists(p)`: a file at `p` or a file below the directory `p`. */
  predicate Exists(fs: Fs, p: Path) {
    exists k :: k in fs && AtOrUnder(k, p)
  }

  /** `shutil.rmtree(d)` (and removal of a single file at `d`). */
  function RemoveTree(fs: Fs, d: Path): (r: Fs)
    ensures forall k :: k in r <==> k in fs && !AtOrUnder(k, d)
    ensures forall k :: k in r ==> r[k] == fs[k]
    ensures !Exists(r, d)
  {
    map k | k in fs && !AtOrUnder(k, d) :: fs[k]
  }

  /** `shutil.move(src, dst)` of a file: the content moves to `dst`, replacing
      any file there, and `src` disappears. A missing source raises. */
  function MoveFile(fs: Fs, src: Path, dst: Path): (r: Result<Fs>)
    ensures r.Success? <==> src in fs
    ensures r.Success? ==> dst in r.value && r.value[dst] == fs[src]
    ensures r.Success? && src != dst ==> src !in r.value
    ensures r.Success? ==> forall k :: k != src && k != dst ==>
      (k in r.value <==> k in fs) && (k in fs ==> r.value[k] == fs[k])
  {
    if src !in fs then Failure("[Errno 2] No such file or directory: '" + src + "'")
    else Success((fs - {src})[dst := fs[src]])
  }

  /** The files directly inside directory `d`, by name (`os.listdir` without
      sub-directories). */
  function Entries(fs: Fs, d: Path): set<string> {
    var p := DirPrefix(d);
    set k | k in fs && StartsWith(k, p) && PlainName(k[|p|..]) :: k[|p|..]
  }

  /** A name is listed exactly when it is a plain name whose path is a file. */
  lemma EntriesMeaning(fs: Fs, d: Path, n: string)
    ensures n in Entries(fs, d) <==> PlainName(n) && JoinPath(d, n) in fs
  {
    var p := DirPrefix(d);
    if PlainName(n) && JoinPath(d, n) in fs {
      var k := JoinPath(d, n);
      assert k == p + n;
      assert k[..|p|] == p && k[|p|..] == n;
    }
    if n in Entries(fs, d) {
      var k :| k in fs && StartsWith(k, p) && PlainName(k[|p|..]) && k[|p|..] == n;
      assert k == k[..|p|] + k[|p|..];
    }
  }
}
