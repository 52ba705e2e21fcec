/** Value logic of the annotation extractor: the type-id mapping, the
    cleaning of annotation text, comment and paper title, and the truncation
    used when the extractor displays titles and sample texts. */
module AnnotationFields {
  import opened Wrappers
  import opened Strings
  import opened Whitespace

  /** Annotation type id to name; ids outside the table become "unknown"
      (`.map(...)` yields NaN there and `.fillna('unknown')` replaces it). */
  function TypeName(typeId: int): (name: string)
    ensures name in {"highlight", "note", "image", "ink", "unknown"}
    ensures name == "unknown" <==> !(1 <= typeId <= 4)
  {
    match typeId
    case 1 => "highlight"
    case 2 => "note"
    case 3 => "image"
    case 4 => "ink"
    case _ => "unknown"
  }

  /** The id a type name stands for, if any. */
  function TypeId(name: string): (id: Option<int>)
    ensures id.Some? ==> 1 <= id.value <= 4
  {
    if name == "highlight" then Some(1)
    else if name == "note" then Some(2)
    else if name == "image" then Some(3)
    else if name == "ink" then Some(4)
    else None
  }

  /** The mapping is one-to-one on the known ids and sends every other id to
      a name no known id has. */
  lemma TypeNameRoundTrip(typeId: int)
    ensures TypeId(TypeName(typeId)) == (if 1 <= typeId <= 4 then Some(typeId) else None)
  {
  }

  /** Cleaning of `annotation_text` and `annotation_comment`: a missing value
      becomes "", line breaks and tabs become spaces, every whitespace run
      becomes one space, and the ends are stripped. */
  function CleanText(value: Option<string>): (r: string)
    ensures value.None? ==> r == ""
    ensures OnlyPlainSpaces(r) && NoDoubleSpace(r) && Trimmed(r)
    ensures Lacks(r, '\n') && Lacks(r, '\r') && Lacks(r, '\t')
  {
    var s := if value.None? then "" else value.value;
    var noBreaks := ReplaceAll(ReplaceAll(ReplaceAll(s, "\n", " "), "\r", " "), "\t", " ");
    var collapsed := Collapse(noBreaks);
    var r := Strip(collapsed);
    var i, j :| 0 <= i <= j <= |collapsed| && r == collapsed[i..j]
      && AllSpace(collapsed[..i]) && AllSpace(collapsed[j..]);
    SliceKeepsSpacing(collapsed, i, j);
    r
  }

  /** Replacing a whitespace character by a space only touches whitespace. */
  lemma ReplaceSpaceKeepsNonSpace(s: string, c: char)
    requires IsSpace(c)
    ensures RemoveSpaces(ReplaceAll(s, [c], " ")) == RemoveSpaces(s)
  {
    ReplaceCharIsMap(s, c, ' ');
    MapSpaceKeepsNonSpace(s, c);
  }

  lemma {:induction false} MapSpaceKeepsNonSpace(s: string, c: char)
    requires IsSpace(c)
    ensures RemoveSpaces(MapChar(s, c, ' ')) == RemoveSpaces(s)
    decreases |s|
  {
    if |s| > 0 {
      MapSpaceKeepsNonSpace(s[1..], c);
      assert MapChar(s, c, ' ')[1..] == MapChar(s[1..], c, ' ');
    }
  }

  /** Cleaning only touches whitespace: the non-whitespace characters of the
      cleaned value are exactly those of the raw value, in order. */
  lemma CleanTextKeepsNonSpace(s: string)
    ensures RemoveSpaces(CleanText(Some(s))) == RemoveSpaces(s)
  {
    var a := ReplaceAll(s, "\n", " ");
    var b := ReplaceAll(a, "\r", " ");
    var c := ReplaceAll(b, "\t", " ");
    ReplaceSpaceKeepsNonSpace(s, '\n');
    ReplaceSpaceKeepsNonSpace(a, '\r');
    ReplaceSpaceKeepsNonSpace(b, '\t');
    CollapseKeepsNonSpace(c);
    StripKeepsNonSpace(Collapse(c));
  }

  /** Cleaning is Python's `" ".join(s.split())`: the words of the raw value,
      separated by single spaces, whatever whitespace stood between them. */
  lemma CleanTextIsJoinWords(s: string)
    ensures CleanText(Some(s)) == Join(Words(s), " ")
  {
    var a := ReplaceAll(s, "\n", " ");
    var b := ReplaceAll(a, "\r", " ");
    var c := ReplaceAll(b, "\t", " ");
    MapSpaceKeepsWords(s, '\n');
    MapSpaceKeepsWords(a, '\r');
    MapSpaceKeepsWords(b, '\t');
    StripCollapseIsJoinWords(c);
  }

  /** Replacing a whitespace character by a space keeps the words. */
  lemma MapSpaceKeepsWords(s: string, c: char)
    requires IsSpace(c)
    ensures Words(ReplaceAll(s, [c], " ")) == Words(s)
  {
    ReplaceCharIsMap(s, c, ' ');
    SameWords(s, MapChar(s, c, ' '));
  }

  /** Cleaning a cleaned value changes nothing. */
  lemma CleanTextIdempotent(s: string)
    ensures CleanText(Some(CleanText(Some(s)))) == CleanText(Some(s))
  {
    var t := CleanText(Some(s));
    LacksHasNoOccurrence(t, '\n');
    LacksHasNoOccurrence(t, '\r');
    LacksHasNoOccurrence(t, '\t');
    assert ReplaceAll(ReplaceAll(ReplaceAll(t, "\n", " "), "\r", " "), "\t", " ") == t;
    CollapseFixesCollapsed(t);
    StripFixesTrimmed(t);
  }

  /** Cleaning of `paper_title` in the annotation extractor: line feeds and
      carriage returns become spaces and the ends are stripped; interior
      whitespace runs are kept as they are. */
  function CleanTitle(title: string): (r: string)
    ensures Lacks(r, '\n') && Lacks(r, '\r') && Trimmed(r)
    ensures var spaced := MapChar(MapChar(title, '\n', ' '), '\r', ' ');
      exists i, j :: 0 <= i <= j <= |spaced| && r == spaced[i..j]
        && AllSpace(spaced[..i]) && AllSpace(spaced[j..])
  {
    var spaced := ReplaceAll(ReplaceAll(title, "\n", " "), "\r", " ");
    BreaksBecomeSpaces(title);
    StripLacks(spaced, '\n');
    StripLacks(spaced, '\r');
    Strip(spaced)
  }

  /** Replacing line feeds and then carriage returns by spaces maps those two
      characters to spaces and leaves neither behind. */
  lemma BreaksBecomeSpaces(title: string)
    ensures var spaced := MapChar(MapChar(title, '\n', ' '), '\r', ' ');
      && ReplaceAll(ReplaceAll(title, "\n", " "), "\r", " ") == spaced
      && Lacks(spaced, '\n') && Lacks(spaced, '\r')
  {
    ReplaceCharIsMap(title, '\n', ' ');
    ReplaceCharIsMap(ReplaceAll(title, "\n", " "), '\r', ' ');
  }

  /** Stripping cannot introduce a character. */
  lemma StripLacks(s: string, c: char)
    requires Lacks(s, c)
    ensures Lacks(Strip(s), c)
  {
    var r := Strip(s);
    var i, j :| 0 <= i <= j <= |s| && r == s[i..j] && AllSpace(s[..i]) && AllSpace(s[j..]);
    assert forall k :: 0 <= k < |r| ==> r[k] == s[i + k];
  }

  /** Display truncation: a string longer than `limit` is cut to its first
      `limit` characters followed by "...", any other string is shown whole. */
  function Truncate(s: string, limit: nat): (r: string)
    ensures |s| <= limit ==> r == s
    ensures |s| > limit ==> |r| == limit + 3 && r[..limit] == s[..limit] && EndsWith(r, "...")
  {
    if |s| > limit then s[..limit] + "..." else s
  }

  /** Truncation leaves a string alone exactly when it fits, or when it is
      already its own truncation: `limit` characters followed by "...". */
  lemma TruncateUnchanged(s: string, limit: nat)
    ensures Truncate(s, limit) == s <==> |s| <= limit || (|s| == limit + 3 && EndsWith(s, "..."))
  {
    if |s| == limit + 3 && EndsWith(s, "...") {
      assert s == s[..limit] + s[limit..];
    }
  }

  /** Limit used for titles in the extractor's top-papers listing. */
  const TitleDisplayLimit: nat := 60

  /** Limit used for sample annotation texts in the extractor's analysis. */
  const SampleDisplayLimit: nat := 100
}
