/** The value logic of the metadata extractor's query and clean-up: how a
    creator is named, how authors and collections are listed, the link-mode
    names, the title clean-up and the defaults for missing values, and the
    collection tally of its summary. */
module MetadataFields {
  import opened Wrappers
  import opened Strings
  import opened Whitespace
  import opened Config
  import opened AnnotationFields
  import opened AttachmentPaths

  /** One creator of a paper; either name may be NULL. */
  datatype Creator = Creator(firstName: Option<string>, lastName: Option<string>)

  /** Separator of the author and collection lists (`GROUP_CONCAT(..., '; ')`). */
  const ListSep: string := "; "

  /** Separator between a creator's last and first name. */
  const NameSep: string := ", "

  const NoTitle: string := "No Title"
  const UnknownAuthor: string := "Unknown Author"
  const Uncategorized: string := "Uncategorized"

  /** The CASE expression naming a creator: "last, first" when both are
      present, the last name alone when only it is, otherwise the first name,
      which may be NULL too. */
  function CreatorName(c: Creator): (r: Option<string>)
    ensures r.None? <==> c.firstName.None? && c.lastName.None?
    ensures c.lastName.Some? ==> r.Some? && StartsWith(r.value, c.lastName.value)
    ensures c.lastName.None? ==> r == c.firstName
  {
    match c.lastName
    case Some(last) =>
      var r := if c.firstName.Some? then last + NameSep + c.firstName.value else last;
      assert r[..|last|] == last;
      Some(r)
    case None => c.firstName
  }

  /** Reads a creator name back: the text before the first ", " is the last
      name and the rest the first name; without ", " it is a last name
      alone. */
  function ParseCreatorName(name: string): (r: (string, Option<string>))
    ensures StartsWith(name, r.0)
  {
    match Find(name, NameSep)
    case None => (name, None)
    case Some(i) => (name[..i], Some(name[i + |NameSep|..]))
  }

  /** A creator with a last name free of ", " is named so that both names
      can be read back. */
  lemma CreatorNameRoundTrip(c: Creator)
    requires c.lastName.Some? && !Occurs(c.lastName.value, NameSep)
    ensures ParseCreatorName(CreatorName(c).value) == (c.lastName.value, c.firstName)
  {
    var last := c.lastName.value;
    if c.firstName.Some? {
      assert NoBorder(NameSep) by {
        assert NameSep[..1][0] != NameSep[1..][0];
      }
      FindAfterFree(last, NameSep, c.firstName.value);
      var name := last + NameSep + c.firstName.value;
      assert name[..|last|] == last;
      assert name[|last| + |NameSep|..] == c.firstName.value;
    }
  }

  /** The named creators' names, in creator order; `GROUP_CONCAT` skips
      NULLs. */
  function PresentNames(cs: seq<Creator>): (r: seq<string>)
    ensures |r| <= |cs|
    ensures r == [] <==> forall k :: 0 <= k < |cs| ==> CreatorName(cs[k]).None?
    decreases |cs|
  {
    if cs == [] then []
    else
      var rest := PresentNames(cs[1..]);
      assert forall k :: 0 < k < |cs| ==> cs[k] == cs[1..][k - 1];
      match CreatorName(cs[0])
      case Some(n) => [n] + rest
      case None => rest
  }

  /** Every listed name is the name of one of the creators. */
  lemma {:induction false} PresentNamesFrom(cs: seq<Creator>, k: nat)
    requires k < |PresentNames(cs)|
    ensures exists j :: 0 <= j < |cs| && CreatorName(cs[j]) == Some(PresentNames(cs)[k])
    decreases |cs|
  {
    var rest := PresentNames(cs[1..]);
    if CreatorName(cs[0]).Some? && k == 0 {
      assert CreatorName(cs[0]) == Some(PresentNames(cs)[0]);
    } else {
      var k' := if CreatorName(cs[0]).Some? then k - 1 else k;
      assert PresentNames(cs)[k] == rest[k'];
      PresentNamesFrom(cs[1..], k');
      var j :| 0 <= j < |cs[1..]| && CreatorName(cs[1..][j]) == Some(rest[k']);
      assert cs[1..][j] == cs[j + 1];
    }
  }

  /** The `authors` column: the creators' names joined with "; ", or
      "Unknown Author" when no creator has a name (`GROUP_CONCAT` gives NULL
      and `fillna` replaces it). */
  function AuthorsCell(cs: seq<Creator>): (r: string)
    ensures (forall k :: 0 <= k < |cs| ==> CreatorName(cs[k]).None?) ==> r == UnknownAuthor
  {
    var names := PresentNames(cs);
    if names == [] then UnknownAuthor else Join(names, ListSep)
  }

  lemma ListSepNoBorder()
    ensures NoBorder(ListSep)
  {
    assert ListSep[..1][0] != ListSep[1..][0];
  }

  /** When some creator has a name and no name holds "; ", splitting the
      column on "; " gives the names back, one per named creator, in
      order. */
  lemma AuthorsSplitBack(cs: seq<Creator>)
    requires exists k :: 0 <= k < |cs| && CreatorName(cs[k]).Some?
    requires forall k :: 0 <= k < |cs| && CreatorName(cs[k]).Some? ==> !Occurs(CreatorName(cs[k]).value, ListSep)
    ensures Split(AuthorsCell(cs), ListSep) == PresentNames(cs)
  {
    var names := PresentNames(cs);
    forall k | 0 <= k < |names|
      ensures !Occurs(names[k], ListSep)
    {
      PresentNamesFrom(cs, k);
    }
    ListSepNoBorder();
    SplitJoin(names, ListSep);
  }

  /** The `collection_names` column: the paper's distinct collection names
      joined with "; ", or "Uncategorized" when it is in none. */
  function CollectionsCell(names: seq<string>): (r: string)
    ensures names == [] <==> r == Uncategorized && |names| != 1
    ensures |names| == 1 ==> r == names[0]
  {
    if names == [] then Uncategorized
    else
      assert |names| > 1 ==> Join(names, ListSep)[|names[0]|] == ';';
      Join(names, ListSep)
  }

  /** `[c.strip() for c in s.split(';')]`: the parts of a collections value
      as the summary counts them. */
  function CollectionParts(s: string): (r: seq<string>)
    ensures |r| >= 1
    ensures forall k :: 0 <= k < |r| ==> Trimmed(r[k]) && Lacks(r[k], ';')
  {
    var parts := Split(s, ";");
    forall k | 0 <= k < |parts|
      ensures Lacks(parts[k], ';')
    {
      FreeOfCharLacks(parts[k], ';');
    }
    StripAll(parts)
  }

  /** Strips every string of a list. */
  function StripAll(parts: seq<string>): (r: seq<string>)
    requires forall k :: 0 <= k < |parts| ==> Lacks(parts[k], ';')
    ensures |r| == |parts|
    ensures forall k :: 0 <= k < |r| ==> r[k] == Strip(parts[k])
    ensures forall k :: 0 <= k < |r| ==> Trimmed(r[k]) && Lacks(r[k], ';')
  {
    forall k | 0 <= k < |parts|
      ensures Lacks(Strip(parts[k]), ';')
    {
      StripLacks(parts[k], ';');
    }
    seq(|parts|, k requires 0 <= k < |parts| => Strip(parts[k]))
  }

  /** The pieces `split(';')` finds in names joined with "; ": the first
      name, then every other name behind the space of the separator. */
  function Spaced(names: seq<string>): (r: seq<string>)
    requires names != []
    ensures |r| == |names| && r[0] == names[0]
    ensures forall k :: 0 < k < |r| ==> r[k] == " " + names[k]
  {
    [names[0]] + seq(|names| - 1, k requires 0 <= k < |names| - 1 => " " + names[k + 1])
  }

  /** Names joined with "; " split on ";" into the spaced names. */
  lemma {:induction false} SplitJoinedCollections(names: seq<string>)
    requires names != []
    requires forall k :: 0 <= k < |names| ==> Lacks(names[k], ';')
    ensures Split(Join(names, ListSep), ";") == Spaced(names)
    decreases |names|
  {
    LacksHasNoOccurrence(names[0], ';');
    if |names| > 1 {
      var rest := names[1..];
      SplitJoinedCollections(rest);
      var tail := Join(rest, ListSep);
      assert Join(names, ListSep) == names[0] + ";" + (" " + tail);
      SplitAfterFree(names[0], " " + tail, ';');
      SplitCharPrefix(" ", tail, ';');
      SpacedCons(names);
    }
  }

  /** Splitting on `c` after a first piece lacking `c`. */
  lemma SplitAfterFree(p: string, t: string, c: char)
    requires !Occurs(p, [c])
    ensures Split(p + [c] + t, [c]) == [p] + Split(t, [c])
  {
    assert NoBorder([c]);
    FindAfterFree(p, [c], t);
    var s := p + [c] + t;
    assert s[..|p|] == p;
    assert s[|p| + 1..] == t;
  }

  /** The spaced names of a list: its first name, then the spaced names of
      the rest with a space before the first of them. */
  lemma SpacedCons(names: seq<string>)
    requires |names| > 1
    ensures Spaced(names) == [names[0]] + ([" " + Spaced(names[1..])[0]] + Spaced(names[1..])[1..])
  {
  }

  /** A trimmed string behind one space strips back to itself. */
  lemma StripSpaced(n: string)
    requires Trimmed(n)
    ensures Strip(" " + n) == n
  {
    var s := " " + n;
    assert s[1..] == n;
    if n == [] {
      assert LeadingSpace(s) == 1;
    } else {
      assert LeadingSpace(s[1..]) == 0;
      assert LeadingSpace(s) == 1;
      assert TrailingSpace(n) == 0;
    }
  }

  /** The summary counts exactly the collections the query listed, when the
      names are trimmed and hold no ';'. */
  lemma CollectionsRoundTrip(names: seq<string>)
    requires names != []
    requires forall k :: 0 <= k < |names| ==> Lacks(names[k], ';') && Trimmed(names[k])
    ensures CollectionParts(CollectionsCell(names)) == names
  {
    SplitJoinedCollections(names);
    var parts := Spaced(names);
    var r := CollectionParts(CollectionsCell(names));
    forall k | 0 <= k < |names|
      ensures r[k] == names[k]
    {
      if k == 0 {
        StripFixesTrimmed(names[0]);
      } else {
        StripSpaced(names[k]);
      }
    }
  }

  /** What one record adds to the tally: nothing for "Uncategorized", else
      its collection parts. */
  function RecordParts(cell: string): (t: multiset<string>)
    ensures cell != Uncategorized ==> t == multiset(CollectionParts(cell))
    ensures cell == Uncategorized ==> t == multiset{}
  {
    if cell == Uncategorized then multiset{} else multiset(CollectionParts(cell))
  }

  /** Collection names as the clean-up keeps them apart: trimmed and
      without ';'. */
  predicate CleanNames(names: seq<string>) {
    forall k :: 0 <= k < |names| ==> Lacks(names[k], ';') && Trimmed(names[k])
  }

  /** The sum of a list of multisets. */
  function Sum(ms: seq<multiset<string>>): multiset<string>
    decreases |ms|
  {
    if ms == [] then multiset{} else Sum(ms[..|ms| - 1]) + ms[|ms| - 1]
  }

  /** Summing a concatenation adds the two sums. */
  lemma {:induction false} SumAppend(a: seq<multiset<string>>, b: seq<multiset<string>>)
    ensures Sum(a + b) == Sum(a) + Sum(b)
    decreases |b|
  {
    if b == [] {
      assert a + b == a;
    } else {
      var n := |b| - 1;
      SumAppend(a, b[..n]);
      var c := a + b;
      assert c[..|c| - 1] == a + b[..n];
      assert c[|c| - 1] == b[n];
    }
  }

  /** Everything in a sum is in one of the summed multisets. */
  lemma {:induction false} SumMember(ms: seq<multiset<string>>, x: string)
    requires x in Sum(ms)
    ensures exists i :: 0 <= i < |ms| && x in ms[i]
    decreases |ms|
  {
    var n := |ms| - 1;
    if x !in ms[n] {
      SumMember(ms[..n], x);
      var i :| 0 <= i < n && x in ms[..n][i];
      assert ms[i] == ms[..n][i];
    }
  }

  /** What each record adds to the tally. */
  function Contributions(cells: seq<string>): (ms: seq<multiset<string>>)
    ensures |ms| == |cells|
    ensures forall i :: 0 <= i < |cells| ==> ms[i] == RecordParts(cells[i])
  {
    seq(|cells|, i requires 0 <= i < |cells| => RecordParts(cells[i]))
  }

  /** `Counter` of the collection parts over the records whose collections
      value is not "Uncategorized". */
  function CollectionTally(cells: seq<string>): (t: multiset<string>)
  {
    Sum(Contributions(cells))
  }

  /** Every counted collection is a stripped name without ';'. */
  lemma TallyShape(cells: seq<string>)
    ensures forall c :: c in CollectionTally(cells) ==> Trimmed(c) && Lacks(c, ';')
  {
    forall c | c in CollectionTally(cells)
      ensures Trimmed(c) && Lacks(c, ';')
    {
      SumMember(Contributions(cells), c);
      var i :| 0 <= i < |cells| && c in RecordParts(cells[i]);
      var parts := CollectionParts(cells[i]);
      assert c in parts;
    }
  }

  /** The tally of several records is the sum of their tallies. */
  lemma TallyAppend(a: seq<string>, b: seq<string>)
    ensures CollectionTally(a + b) == CollectionTally(a) + CollectionTally(b)
  {
    assert Contributions(a + b) == Contributions(a) + Contributions(b);
    SumAppend(Contributions(a), Contributions(b));
  }

  /** One paper's record adds each of its collections once; a paper in no
      collection adds nothing, and so does one whose only collection is
      itself called "Uncategorized". */
  lemma RecordTally(names: seq<string>)
    requires CleanNames(names)
    ensures CollectionTally([CollectionsCell(names)])
      == if names == [] || names == [Uncategorized] then multiset{} else multiset(names)
  {
    var cell := CollectionsCell(names);
    SingleTally(cell);
    if names != [] && names != [Uncategorized] {
      CollectionsRoundTrip(names);
      assert cell != Uncategorized;
    }
  }

  /** The tally of one record is what that record adds. */
  lemma SingleTally(cell: string)
    ensures CollectionTally([cell]) == RecordParts(cell)
  {
    assert Contributions([cell]) == [RecordParts(cell)];
    SumSingle(RecordParts(cell));
  }

  /** The sum of one multiset is that multiset. */
  lemma SumSingle(m: multiset<string>)
    ensures Sum([m]) == m
  {
    assert [m][..0] == [];
  }

  /** The collections the query listed for a run of records: each record's
      names, except a record in no collection or only in one called
      "Uncategorized". */
  function ListedCollections(recs: seq<seq<string>>): multiset<string>
    decreases |recs|
  {
    if recs == [] then multiset{}
    else
      var n := |recs| - 1;
      var names := recs[n];
      ListedCollections(recs[..n]) + (if names == [] || names == [Uncategorized] then multiset{} else multiset(names))
  }

  /** The `collection_names` column of a run of records. */
  function CollectionsColumn(recs: seq<seq<string>>): (cells: seq<string>)
    ensures |cells| == |recs|
    ensures forall i :: 0 <= i < |recs| ==> cells[i] == CollectionsCell(recs[i])
  {
    seq(|recs|, i requires 0 <= i < |recs| => CollectionsCell(recs[i]))
  }

  /** The summary's tally counts every listed collection once per record
      it is listed for, and nothing else, when the names are trimmed and
      hold no ';'. */
  lemma {:induction false} TallyCountsListed(recs: seq<seq<string>>)
    requires forall i :: 0 <= i < |recs| ==> CleanNames(recs[i])
    ensures CollectionTally(CollectionsColumn(recs)) == ListedCollections(recs)
    decreases |recs|
  {
    if recs != [] {
      var n := |recs| - 1;
      TallyCountsListed(recs[..n]);
      ColumnSnoc(recs);
      RecordTally(recs[n]);
    }
  }

  /** The tally of a column is the tally of all but its last record plus
      that record's. */
  lemma ColumnSnoc(recs: seq<seq<string>>)
    requires recs != []
    ensures var n := |recs| - 1;
      CollectionTally(CollectionsColumn(recs))
        == CollectionTally(CollectionsColumn(recs[..n])) + CollectionTally([CollectionsCell(recs[n])])
  {
    var n := |recs| - 1;
    var cells := CollectionsColumn(recs);
    assert cells[..n] == CollectionsColumn(recs[..n]);
    assert cells == cells[..n] + [cells[n]];
    TallyAppend(cells[..n], [cells[n]]);
  }

  /** The `link_mode` column. A NULL link mode matches no WHEN and is
      "unknown". */
  function LinkModeName(mode: Option<int>): (name: string)
    ensures name in {"imported_file", "imported_url", "linked_file", "linked_url", "unknown"}
    ensures name == "unknown" <==> !(mode.Some? && 0 <= mode.value <= 3)
  {
    match mode
    case Some(0) => "imported_file"
    case Some(1) => "imported_url"
    case Some(2) => "linked_file"
    case Some(3) => "linked_url"
    case _ => "unknown"
  }

  /** The link mode a name stands for, if any. */
  function LinkModeCode(name: string): (mode: Option<int>)
    ensures mode.Some? ==> 0 <= mode.value <= 3
  {
    if name == "imported_file" then Some(0)
    else if name == "imported_url" then Some(1)
    else if name == "linked_file" then Some(2)
    else if name == "linked_url" then Some(3)
    else None
  }

  /** The four link modes get four different names, and every other value
      gets one none of them has. */
  lemma LinkModeRoundTrip(mode: Option<int>)
    ensures LinkModeCode(LinkModeName(mode)) == (if mode.Some? && 0 <= mode.value <= 3 then mode else None)
  {
  }

  /** A name that stands for a link mode is that mode's name. */
  lemma LinkModeCodeInverse(name: string)
    requires LinkModeCode(name).Some?
    ensures LinkModeName(LinkModeCode(name)) == name
  {
  }

  /** The `paper_title` column: `COALESCE(title, 'No Title')`, then every
      line feed replaced by a space and the ends stripped: the cell is a slice
      of the title with its line feeds turned into spaces, cut only in
      whitespace. Carriage returns and inner whitespace runs stay. */
  function TitleCell(title: Option<string>): (r: string)
    ensures title.None? ==> r == NoTitle
    ensures Lacks(r, '\n') && Trimmed(r)
    ensures var spaced := MapChar(if title.Some? then title.value else NoTitle, '\n', ' ');
      exists i, j :: 0 <= i <= j <= |spaced| && r == spaced[i..j]
        && AllSpace(spaced[..i]) && AllSpace(spaced[j..])
  {
    var t := if title.Some? then title.value else NoTitle;
    var spaced := ReplaceAll(t, "\n", " ");
    ReplaceCharIsMap(t, '\n', ' ');
    ReplaceCharRemovesIt(t, '\n', " ");
    StripLacks(spaced, '\n');
    NoTitleIsClean();
    Strip(spaced)
  }

  /** The default title is left as it is by the clean-up. */
  lemma NoTitleIsClean()
    ensures Strip(ReplaceAll(NoTitle, "\n", " ")) == NoTitle
  {
    assert Lacks(NoTitle, '\n');
    LacksHasNoOccurrence(NoTitle, '\n');
    StripFixesTrimmed(NoTitle);
  }

  /** The clean-up only touches whitespace: the title's other characters
      all stay, in order. */
  lemma TitleKeepsText(t: string)
    ensures RemoveSpaces(TitleCell(Some(t))) == RemoveSpaces(t)
  {
    ReplaceSpaceKeepsNonSpace(t, '\n');
    StripKeepsNonSpace(ReplaceAll(t, "\n", " "));
  }

  /** A title without line feeds or whitespace at its ends is kept exactly,
      carriage returns included; so the clean-up is idempotent. */
  lemma TitleCellFixes(t: string)
    requires Lacks(t, '\n') && Trimmed(t)
    ensures TitleCell(Some(t)) == t
  {
    LacksHasNoOccurrence(t, '\n');
    StripFixesTrimmed(t);
  }

  /** Cleaning a cleaned title changes nothing. */
  lemma TitleCellIdempotent(title: Option<string>)
    ensures TitleCell(Some(TitleCell(title))) == TitleCell(title)
  {
    TitleCellFixes(TitleCell(title));
  }

  /** One row of the query, before the clean-up. */
  datatype QueryRow = QueryRow(
    title: Option<string>,
    creators: seq<Creator>,
    collections: seq<string>,
    attachmentKey: string,
    attachmentPath: Option<string>,
    linkMode: Option<int>)

  /** The cleaned columns of one row of the metadata CSV file. */
  datatype MetadataRow = MetadataRow(
    paperTitle: string,
    authors: string,
    collectionNames: string,
    attachmentPath: string,
    linkMode: string,
    attachmentFullpath: string)

  /** `str(value)` of the path column: Python prints a NULL as "None". */
  function PathText(path: Option<string>): (r: string)
    ensures path.Some? ==> r == path.value
    ensures path.None? ==> r == "None"
  {
    if path.Some? then path.value else "None"
  }

  /** The text of a NULL path is too short to hold the storage marker. */
  lemma NoneHasNoMarker()
    ensures !Occurs("None", StorageMarker)
  {
    forall j: nat
      ensures !OccursAt("None", StorageMarker, j)
    {
    }
  }

  /** The clean-up of one row and the full path added to it. */
  function CleanRow(q: QueryRow): (m: MetadataRow)
    ensures m.attachmentFullpath == GetFullpath(m.attachmentPath, DataDir, q.attachmentKey)
    ensures q.attachmentPath.None? ==> m.attachmentPath == "None" && m.attachmentFullpath == "None"
    ensures m.paperTitle == TitleCell(q.title)
    ensures m.authors == AuthorsCell(q.creators)
    ensures m.collectionNames == CollectionsCell(q.collections)
    ensures m.linkMode == LinkModeName(q.linkMode)
  {
    var path := PathText(q.attachmentPath);
    NoneHasNoMarker();
    MetadataRow(TitleCell(q.title), AuthorsCell(q.creators), CollectionsCell(q.collections),
      path, LinkModeName(q.linkMode), GetFullpath(path, DataDir, q.attachmentKey))
  }
}
