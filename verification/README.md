# zotero-kbase core, modelled in Dafny

zotero-kbase turns a Zotero library into a plain-text knowledge base. This
project models the four deterministic pieces of it, each as pure functions
over immutable data:

- **The batch PDF-to-markdown orchestrator** (`convert_multiple_pdfs_to_md`).
  - For each `(pdf, id)` request it decides one of three things: reuse an existing `{id}_{stem}.md`, skip the document (too many pages, or an unreadable page count), or convert it.
  - A conversion runs in `out_dir/temp_{i}`. The markdown is moved to `out_dir`, the image files are moved to `out_dir/images` under `{id}_{name}`, and the image references in the markdown are rewritten.
  - The temporary directory is removed afterwards.
  - The loop is a fold over the request list that threads a filesystem, modelled as a map from file path to content.
  - The PDF engine, the page counter and the directory listing order are parameters: the `Engine` datatype of module PdfConvert.
- **The annotation renderer** (`annotations_to_markdown`, `process_all_attachments`, `convert_all_annotations`).
  - It selects the rows of one attachment and sorts them by page label, with missing labels last.
  - It writes a header taken from the first selected row, then a `## Page` heading whenever the page changes, then one block per annotation.
  - The batch function does the same for every attachment id, in ascending id order.
  - Cells read back from the CSV can be missing (NaN), and the model keeps pandas' behaviour for them: a missing page never equals the previous page, a missing colour is truthy and prints as `nan`, and a missing type name raises when `.title()` is called on it.
- **Annotation field cleaning** in the annotation extractor:
  - type id to type name;
  - text and comment cleaning: line breaks and tabs become spaces, whitespace runs collapse to one space, and the ends are stripped;
  - title cleaning;
  - display truncation.
- **Metadata cleaning** in the metadata extractor:
  - resolution of `storage:` attachment paths to Windows paths under the Zotero data directory;
  - the author-name and link-mode `CASE` expressions of the SQL query;
  - the title, author and collection fill-ins;
  - the collection tally of the summary.

Python's string operations are written out explicitly:
- `os.path.join`, `basename` and `splitext`, with POSIX semantics;
- `str.replace`, `str.split`, `str.strip` and `str.title`;
- the regular expression `\s+`, over an explicit list of whitespace characters;
- `f"{int}"`.

Modules, one per file:
- Wrappers, Config, Strings, Numerals, Whitespace, Paths and FileSystem are the vocabulary.
- PdfConvert covers the single conversion and the naming.
- BatchConvert is the orchestrator. BatchProperties and BatchRun hold its properties.
- AnnotationRows, PageOrder, AnnotationRender and AnnotationBatch make up the renderer.
- AnnotationFields covers annotation cleaning.
- AttachmentPaths and MetadataFields cover the metadata extractor.

## Model

| member | source | states |
|---|---|---|
| PdfConvert.CreatedDirShapes | convert_pdf_files.py:26-36 | the images directory and `temp_{i}` lie strictly inside the base directory, with basenames `images` and `temp_` followed by the decimal index |
| PdfConvert.TempDirNameInjective | convert_pdf_files.py:32-36 | different indices give different temporary directory names |
| PdfConvert.TempDirsDisjoint | convert_pdf_files.py:169 | no path lies under the temporary directories of two different requests |
| PdfConvert.OutputName | convert_pdf_files.py:59-61 | a given output name is used as is; the default is `splitext(basename(pdf))[0]`: followed by the basename's extension it gives the basename back, and it holds no `/` |
| PdfConvert.ConvertSingle | convert_pdf_files.py:46-92 | fails with `os.makedirs`' error for the empty output directory, before the engine runs; otherwise succeeds exactly when the engine does and passes its error on; returns `output_dir/{name}.md`, holding the engine's markdown; adds only that file and the engine's images under `output_dir/images`; every other file keeps its content |
| PdfConvert.WriteImagesContent | convert_pdf_files.py:63-70 | an image written last under its name holds the engine's bytes for it |
| PdfConvert.RequestName | convert_pdf_files.py:138-139 | the request's output name is a plain file name starting with `{id}_` |
| PdfConvert.FinalMdPathShape | convert_pdf_files.py:143 | the final markdown lies directly in `out_dir`, with basename `{id}_{stem}.md` |
| PdfConvert.FinalMdPathInjective | convert_pdf_files.py:143 | two requests share a final markdown path only if they share the markdown name |
| PdfConvert.FinalMdOutsideTemp | convert_pdf_files.py:169-175 | nothing at or under a final markdown path is under any temporary directory, so cleanup never removes it |
| PdfConvert.FinalMdOutsideImages | convert_pdf_files.py:119-143 | the final markdown and the images directory never overlap |
| PdfConvert.ImagesOutsideTemp | convert_pdf_files.py:119-205 | nothing under `out_dir/images` is under a temporary directory, so cleanup never removes a relocated image |
| PdfConvert.PrefixedImageName | convert_pdf_files.py:184 | the new image name is exactly `{id}_{name}`: it starts with the decimal id and `_`, ends with the old name, and is one character longer than the two together; it stays a plain name |
| PdfConvert.PrefixedImageNameInjective | convert_pdf_files.py:184 | different (id, name) pairs give different relocated names |
| BatchConvert.Decide | convert_pdf_files.py:143-166 | reuse exactly when the output exists and rebuilding is off. Otherwise, with a limit: skip when the page count is above it, skip when the count is 0, convert when the count is 1..limit. Without a limit, convert |
| BatchConvert.ImageRef | convert_pdf_files.py:192 | a reference is exactly `images/{name}`: it starts with `images/`, ends with the name, and is as long as the two together |
| BatchConvert.TryConvert | convert_pdf_files.py:171-200 | an engine failure changes no file and reports the engine's error |
| BatchConvert.AttemptConversion | convert_pdf_files.py:168-205 | a conversion attempt ends as converted or failed; afterwards `temp_{i}` does not exist; an engine failure only removes the temporary directory |
| BatchConvert.Step | convert_pdf_files.py:136-205 | one iteration's outcome is reuse, skip or attempt exactly as `Decide` says; reuses and skips change no file |
| BatchConvert.NotAttempted | convert_pdf_files.py:144-160 | the outcome of a request that is not converted matches its decision |
| BatchConvert.CollectMembers | convert_pdf_files.py:146-196 | a path is in a result list exactly when some request had an outcome of that list's kind and maps to the path |
| BatchConvert.FoldLists | convert_pdf_files.py:123-196 | the returned, already-converted and skipped lists are the requests with those outcomes, in input order |
| BatchConvert.ConvertBatch | convert_pdf_files.py:95-121 | mismatched list lengths fail with the ValueError message; an empty output directory fails; otherwise the result is the loop run over the paired requests, on the filesystem with the output directory removed when rebuilding; there is one outcome per request; with rebuilding on, no request is reused |
| BatchConvert.RebuildNeverReuses | convert_pdf_files.py:144 | with rebuilding on, no request is reported as already converted |
| BatchProperties.RelocateFrame | convert_pdf_files.py:180-194 | relocation removes only listed source images, adds only their prefixed destinations, and leaves every other file's content alone |
| BatchProperties.DestinationDistinct | convert_pdf_files.py:184-186 | different image names move to different destinations |
| BatchProperties.RelocateSucceeds | convert_pdf_files.py:180-194 | relocation over a faithful listing raises nothing; the markdown then holds its text with every reference to each moved image rewritten, each rewrite applied to the file as text-mode reading gives it |
| BatchProperties.RewriteRefsNoImages | convert_pdf_files.py:182-194 | when no listed name is an image file, the markdown is never read back and keeps the engine's text exactly, carriage returns included |
| BatchProperties.RewriteRefsLineEnds | convert_pdf_files.py:190-194 | once an image has been relocated, the markdown has gone through text-mode reading and holds no carriage return (for image names without one) |
| FileSystem.ReadText | convert_pdf_files.py:190-191 | text-mode reading with universal newlines leaves no carriage return and never lengthens the text |
| FileSystem.ReadTextKeepsPlain | convert_pdf_files.py:190-191 | text without carriage returns reads back unchanged |
| FileSystem.ReadTextIdempotent | convert_pdf_files.py:190-194 | reading back what was read and written changes nothing |
| Strings.ReplaceAllLacks | convert_pdf_files.py:192 | replacing by text lacking a character, in text lacking it, introduces no such character |
| BatchProperties.RelocatedImage | convert_pdf_files.py:181-187 | each listed file with an image extension ends up at `images/{id}_{name}` with its bytes |
| BatchProperties.ListedUnderTemp | convert_pdf_files.py:179-181 | a listed name is a plain name of a file in the temporary images directory |
| BatchProperties.TryConvertFrame | convert_pdf_files.py:171-194 | a conversion removes nothing outside its temporary directory; adds files only there, in `out_dir/images` or at its final markdown; changes no other file |
| BatchProperties.StepFrame | convert_pdf_files.py:136-205 | one iteration keeps every file outside its temporary directory; new files are relocated images or its final markdown; other files keep their content |
| BatchProperties.AttemptSucceedsIffEngine | convert_pdf_files.py:171-200 | an attempt reports success exactly when the engine succeeds, and then the final markdown exists |
| BatchProperties.FreshListing | convert_pdf_files.py:179-181 | in a fresh temporary directory, the images directory lists exactly the engine's image names |
| BatchProperties.ConvertSingleWritesBelow | convert_pdf_files.py:63-92 | every file the single conversion adds lies under its output directory |
| BatchProperties.FreshConversion | convert_pdf_files.py:168-205 | a successful conversion in a fresh temporary directory writes the final markdown as the engine's text with the image references rewritten (each rewrite on the text-mode reading of the file), and places every image-named image at its prefixed destination |
| BatchProperties.FreshImageRelocated | convert_pdf_files.py:181-187 | each image-named engine image ends up in `out_dir/images` under its prefixed name with its bytes |
| BatchRun.FoldOutcome | convert_pdf_files.py:136 | request i's outcome is that of its iteration on the filesystem left by requests 0..i-1 |
| BatchRun.FoldPreserves | convert_pdf_files.py:136-205 | a property every iteration preserves holds after the whole loop |
| BatchRun.RunOutcome | convert_pdf_files.py:136-205 | the orchestrator's request i is decided on the filesystem the earlier requests left |
| BatchRun.FinalSurvivesRun | convert_pdf_files.py:136-205 | a final markdown that exists before the loop still exists after it: a failure in one request does not undo another |
| BatchRun.ProducedStepHasFinal | convert_pdf_files.py:143-196 | a request that is reused or converted leaves its final markdown in place |
| BatchRun.GeneratedExist | convert_pdf_files.py:196-215 | the final markdown of every reused or converted request exists when the loop ends |
| BatchRun.GeneratedListExists | convert_pdf_files.py:215 | every returned path exists when the function returns |
| BatchRun.ProducedCountSplit | convert_pdf_files.py:146-196 | returned entries = reused ones + converted ones |
| BatchRun.NewlyConvertedCounts | convert_pdf_files.py:208 | "Successfully converted" (returned minus already converted) is the number of conversions that succeeded |
| BatchRun.RerunReuses | convert_pdf_files.py:143-148 | without rebuilding, a request whose final markdown already exists is reused |
| BatchRun.SecondRunReusesProduced | convert_pdf_files.py:143-148 | a rerun without rebuilding reuses every request the first run produced |
| BatchRun.AllReusedKeepsFs | convert_pdf_files.py:143-148 | a run that reuses every request changes no file |
| BatchRun.SecondRunIsNoOp | convert_pdf_files.py:143-215 | after a run in which every request was produced, a rerun changes nothing and returns the same list |
| FileSystem.RemoveTree | convert_pdf_files.py:117 | `rmtree` removes exactly the files at or under the directory and keeps the rest |
| FileSystem.MoveFile | convert_pdf_files.py:176 | `shutil.move` fails exactly when the source is missing; the destination gets the source's content, the source is gone, and nothing else changes |
| FileSystem.EntriesMeaning | convert_pdf_files.py:181 | `listdir` lists exactly the plain names whose joined path is a file |
| Paths.JoinPath | convert_pdf_files.py:34 | `os.path.join`: an absolute name replaces the directory; otherwise the name follows the directory and one `/` |
| Paths.Basename | convert_pdf_files.py:61 | the basename is the suffix of the path after its last `/` |
| Paths.SplitExt | convert_pdf_files.py:61 | root + extension is the name; the extension starts at the last dot, unless the root would be all dots |
| Paths.StemOfJoin | convert_pdf_files.py:60-61 | a PDF `<dir>/<name>.<ext>`, with no dot in the name or the extension, gets the default output name `<name>` |
| Paths.BasenameOfJoin | convert_pdf_files.py:184-186 | joining a plain name and taking the basename gives the name back |
| Paths.JoinInjective | convert_pdf_files.py:184-186 | joining different plain names to one directory gives different paths |
| Paths.JoinedSiblingsDisjoint | convert_pdf_files.py:119-169 | nothing lies under two different children of one directory |
| Numerals.ParseNatToString | convert_pdf_files.py:34 | the decimal text of a number reads back as the number |
| Numerals.IntToStringInjective | convert_pdf_files.py:139-140 | different ids print differently |
| Whitespace.Strip | extract_zotero_annotations.py:106 | `str.strip` keeps a contiguous slice with whitespace-only ends cut off, and the result is trimmed |
| Whitespace.Collapse | extract_zotero_annotations.py:106 | replacing each whitespace run by one space leaves only plain spaces and no two in a row; it is empty exactly when the input is, and starts with a space exactly when the input starts with whitespace |
| Whitespace.Words | extract_zotero_annotations.py:106 | the reference definition of the words of a text (`str.split()`): non-empty runs free of whitespace |
| Whitespace.CollapseShape | extract_zotero_annotations.py:106 | `re.sub(r'\s+', ' ', s)` is the words of `s` separated by exactly one space, with one space in front when `s` starts with whitespace and one behind when whitespace follows the last word |
| Whitespace.StripCollapseIsJoinWords | extract_zotero_annotations.py:106 | collapsing and then stripping is `" ".join(s.split())` |
| Whitespace.SameWords | extract_zotero_annotations.py:105-106 | texts differing only in which whitespace character stands at each whitespace position have the same words |
| Whitespace.CollapseKeepsNonSpace | extract_zotero_annotations.py:106 | collapsing keeps every non-whitespace character, in order |
| Whitespace.StripKeepsNonSpace | extract_zotero_annotations.py:106 | stripping keeps every non-whitespace character, in order |
| Whitespace.CollapseFixesCollapsed | extract_zotero_annotations.py:106 | collapsing already collapsed text changes nothing |
| Whitespace.StripFixesTrimmed | extract_zotero_annotations.py:106 | stripping trimmed text changes nothing |
| Strings.ReplaceAllMeaning | convert_pdf_files.py:192 | `str.replace` replaces every occurrence: splitting on the target and joining with the replacement |
| Strings.SplitJoin | extract_zotero_metadata.py:204 | splitting a join on a separator that does not overlap itself gives the parts back |
| Strings.JoinSplit | extract_zotero_metadata.py:204 | joining a split gives the string back |
| AnnotationFields.TypeName | extract_zotero_annotations.py:25-30 | ids 1..4 name one of highlight, note, image and ink; any other id gives `unknown` |
| AnnotationFields.TypeNameRoundTrip | extract_zotero_annotations.py:114 | a type name reads back as its id for ids 1..4, and as no id for `unknown` |
| AnnotationFields.CleanText | extract_zotero_annotations.py:104-110 | a missing value becomes ""; cleaned text (see CleanTextIsJoinWords for its exact content) has no `\n`, `\r` or tab, no whitespace other than single spaces, and no whitespace at either end |
| AnnotationFields.CleanTextIsJoinWords | extract_zotero_annotations.py:104-110 | the cleaned value is the words of the raw value joined by single spaces, whatever whitespace separated them |
| AnnotationFields.CleanTextKeepsNonSpace | extract_zotero_annotations.py:105-110 | cleaning only touches whitespace: the non-whitespace characters are kept, in order |
| AnnotationFields.CleanTextIdempotent | extract_zotero_annotations.py:105-110 | cleaning cleaned text changes nothing |
| AnnotationFields.CleanTitle | extract_zotero_annotations.py:101 | a cleaned title is the title with `\n` and `\r` turned to spaces and whitespace cut from the ends only; no interior run is collapsed |
| AnnotationFields.BreaksBecomeSpaces | extract_zotero_annotations.py:101 | the two replacements map each line break to one space and leave no line break |
| AnnotationFields.Truncate | extract_zotero_annotations.py:144 | a string within the limit is shown whole; a longer one is cut to its first `limit` characters followed by `...` |
| AnnotationFields.TruncateUnchanged | extract_zotero_annotations.py:207 | truncation leaves a string alone exactly when it fits, or when it already is `limit` characters followed by `...` |
| AnnotationRows.Select | convert_annotations.py:34 | `query` keeps rows of the attachment only, never more rows than the table |
| AnnotationRows.SelectCounts | convert_annotations.py:34 | the selection holds each row of the attachment as often as the table does, and no other row |
| AnnotationRows.SelectEmpty | convert_annotations.py:36 | the selection is empty exactly when no row has the id |
| AnnotationRows.SelectFirst | convert_annotations.py:41 | the header row `iloc[0]` is the first row of the table with the id |
| AnnotationRows.SelectMissing | convert_annotations.py:138 | a selected row lacks its type exactly when a table row with the id does |
| PageOrder.PageLeqTotal | convert_annotations.py:45 | any two page labels are ordered one way or the other |
| PageOrder.PageLeqTrans | convert_annotations.py:45 | the label order is transitive |
| PageOrder.SortByPageSorted | convert_annotations.py:45 | the sorted rows are a permutation of the selection, ordered by label, with every missing label after every present one |
| PageOrder.SameLabelBetween | convert_annotations.py:45 | in sorted order, rows with one present label are contiguous |
| AnnotationRender.TitleCase | convert_annotations.py:72 | `str.title` upper-cases a letter that starts a word, lower-cases one inside a word, and keeps everything else |
| AnnotationRender.TitleCaseKeepsLetters | convert_annotations.py:72 | title-casing changes only letter case |
| AnnotationRender.TitleCaseIdempotent | convert_annotations.py:72 | title-casing a title-cased type changes nothing |
| AnnotationRender.Block | convert_annotations.py:72-83 | a block starts with `### `, the title-cased type and the colour (shown when truthy, so also for NaN), and ends with `---`; a missing type raises the `.title()` error |
| AnnotationRender.BlockLines | convert_annotations.py:72-83 | after the `###` line comes a `**Text:** ` line exactly when the text is a non-empty string, then a `**Comment:** ` line exactly when the comment is one, then the `---` rule and nothing else; with neither, the block is the `###` line and the rule |
| AnnotationRender.Header | convert_annotations.py:49-53 | the header is the `# ` line with the first row's title, then the Attachment ID, Paper ID and File Path lines, each ending in two spaces and a newline (the path line followed by a blank line), then the `---` rule |
| AnnotationRender.HeaderDeterminesId | convert_annotations.py:49-53 | two headers of the same paper row are equal only for the same attachment id, since the id is printed in decimal between fixed text |
| AnnotationRender.LayoutIsPositional | convert_annotations.py:56-69 | the loop puts a `## Page` heading before row i exactly when i is 0 or its page differs from row i-1's (NaN always differs), with a spacer before every heading but the first |
| AnnotationRender.LayoutEntries | convert_annotations.py:57-83 | the loop emits one block per row, in row order |
| AnnotationRender.SortedHeadingOnce | convert_annotations.py:65 | after sorting, a present page label gets one heading; only its first row is headed |
| AnnotationRender.JoinTextsFails | convert_annotations.py:92 | building the text fails exactly when some piece raises, with that piece's error |
| AnnotationRender.EmitFails | convert_annotations.py:72 | emitting the pieces fails exactly when some emitted row lacks its type |
| AnnotationRender.EmitConcat | convert_annotations.py:92 | the text of concatenated pieces is the concatenation of their texts |
| AnnotationRender.Render | convert_annotations.py:41-83 | rendering fails exactly when some selected row lacks its type; on success the text starts with the header of the first selected row |
| AnnotationRender.SortedSameRows | convert_annotations.py:45 | sorting neither adds nor drops a row with a missing type |
| AnnotationRender.RenderShape | convert_annotations.py:41-92 | a rendered file is the first row's header followed by one block per row of the sorted selection, which is a page-ordered permutation of it |
| AnnotationBatch.OutputFileInjective | convert_annotations.py:89 | different attachments are written to different files |
| AnnotationBatch.AnnotationsToMarkdown | convert_annotations.py:15-97 | returns None exactly when no row has the id; otherwise it either raises the `.title()` error or writes `{output}/{id}.md` and changes no other file |
| AnnotationBatch.WrittenContent | convert_annotations.py:41-92 | the written file is the header of the first row with the id, followed by the blocks of the page-sorted selection |
| AnnotationBatch.RaisedExactly | convert_annotations.py:72 | for an attachment with rows, the function raises exactly when one of its rows lacks a type |
| AnnotationBatch.AttachmentIds | convert_annotations.py:118-133 | the visited ids are strictly ascending and are exactly the ids in the table |
| AnnotationBatch.IdHasRows | convert_annotations.py:138-144 | every visited id has rows, so "No annotations found" cannot happen in the batch |
| AnnotationBatch.ProcessOneMatchesSingle | convert_annotations.py:133-208 | one batch iteration writes the same file with the same text as the single function, or fails with the same error, and counts the attachment's rows |
| AnnotationBatch.CountSucceededMeaning | convert_annotations.py:197-208 | the success count is zero exactly when no attachment succeeded, and the number of results exactly when all did |
| AnnotationBatch.ProcessIds | convert_annotations.py:129-208 | one result per id, in visiting order, with successful + failed = number of ids |
| AnnotationBatch.ProcessAll | convert_annotations.py:100-222 | one result per distinct id, with successful + failed = total |
| AnnotationBatch.AscendingCount | convert_annotations.py:118-119 | the number of visited ids is the number of distinct ids |
| AnnotationBatch.ProcessIdsFrame | convert_annotations.py:191-194 | the batch touches no file other than the `{id}.md` of a visited id |
| AnnotationBatch.ProcessIdsWritten | convert_annotations.py:191-194 | the file an iteration writes is still there, unchanged, when the batch ends |
| AnnotationBatch.BatchMatchesSingle | convert_annotations.py:48-83 | for every visited id, the batch's result and final file are what the single-attachment function gives |
| AnnotationBatch.BatchFrame | convert_annotations.py:100-222 | files other than the attachments' `{id}.md` are untouched |
| AnnotationBatch.ConvertAll | convert_annotations.py:310-312 | a table without ids gives an empty result and writes nothing |
| AnnotationBatch.ConvertAllIsProcessAll | convert_annotations.py:291-317 | `convert_all_annotations` always agrees with `process_all_attachments` |
| AttachmentPaths.StorageRoot | extract_zotero_metadata.py:40 | the storage directory starts with the data directory and ends with `\{key}\` |
| AttachmentPaths.FullpathFromZoteroPath | extract_zotero_metadata.py:28-42 | a path without `storage:` is kept. Otherwise the result is the key's storage directory followed by the text after the first marker, up to the next marker if any |
| AttachmentPaths.GetFullpathIgnoresPrefix | extract_zotero_metadata.py:44-56 | any two `prefix` arguments give the same full path; a linked file comes back as it is; `storage:<name>` lands under the configured storage directory of the key whatever prefix was passed |
| AttachmentPaths.StoredRoundTrip | extract_zotero_metadata.py:39-40 | `storage:{name}` resolves to the storage directory plus `name`, and that full path gives `storage:{name}` back |
| AttachmentPaths.FullpathIdempotent | extract_zotero_metadata.py:39-42 | resolving a resolved path changes nothing |
| MetadataFields.CreatorName | extract_zotero_metadata.py:90-97 | gives `last, first` when both are present, `last` alone, `first` alone, or NULL when neither is present |
| MetadataFields.CreatorNameRoundTrip | extract_zotero_metadata.py:92-93 | splitting a creator name at the first `, ` gives the last and first names back when the last name has no `, ` |
| MetadataFields.PresentNames | extract_zotero_metadata.py:90-97 | `GROUP_CONCAT` drops NULL names; the list is empty exactly when every creator is nameless |
| MetadataFields.AuthorsCell | extract_zotero_metadata.py:171 | a paper whose creators are all nameless gets `Unknown Author` |
| MetadataFields.AuthorsSplitBack | extract_zotero_metadata.py:90-97 | splitting the authors cell on `; ` gives the present names back, in order, when no name contains `; ` |
| MetadataFields.CollectionsCell | extract_zotero_metadata.py:99-103 | a paper in no collection gets `Uncategorized`; a single collection is its name |
| MetadataFields.CollectionParts | extract_zotero_metadata.py:204 | every part is stripped and free of `;` |
| MetadataFields.SplitJoinedCollections | extract_zotero_metadata.py:204 | splitting `; `-joined names on `;` gives the first name and then each other name preceded by a space |
| MetadataFields.CollectionsRoundTrip | extract_zotero_metadata.py:99-103 | the summary's split-and-strip of a collections cell gives the paper's collection names back |
| MetadataFields.SumAppend | extract_zotero_metadata.py:206 | counting over two runs of records adds the counts |
| MetadataFields.TallyShape | extract_zotero_metadata.py:204 | every counted collection is stripped and free of `;` |
| MetadataFields.TallyAppend | extract_zotero_metadata.py:198-206 | the tally of two runs of records is the sum of their tallies |
| MetadataFields.RecordTally | extract_zotero_metadata.py:198-204 | a record adds each of its collections once. A paper in no collection adds nothing. So does a paper whose only collection is called `Uncategorized` |
| MetadataFields.TallyCountsListed | extract_zotero_metadata.py:198-206 | the `Counter` counts each listed collection once per record it is listed for, and nothing else |
| MetadataFields.LinkModeName | extract_zotero_metadata.py:113-119 | modes 0..3 name one of imported_file, imported_url, linked_file and linked_url; anything else, NULL included, is `unknown` |
| MetadataFields.LinkModeRoundTrip | extract_zotero_metadata.py:113-119 | a link-mode name reads back as its mode for 0..3, and as no mode for `unknown` |
| MetadataFields.LinkModeCodeInverse | extract_zotero_metadata.py:113-119 | every name that reads as a mode is that mode's name |
| MetadataFields.TitleCell | extract_zotero_metadata.py:89-170 | a missing title becomes `No Title`; the cell is the (coalesced) title with each `\n` turned into a space, cut only in whitespace at both ends; it has no `\n` and no whitespace at either end |
| MetadataFields.TitleKeepsText | extract_zotero_metadata.py:170 | title cleaning only touches whitespace |
| MetadataFields.TitleCellFixes | extract_zotero_metadata.py:170 | a title without `\n` and without surrounding whitespace is kept as is |
| MetadataFields.TitleCellIdempotent | extract_zotero_metadata.py:170 | cleaning a cleaned title changes nothing |
| MetadataFields.PathText | extract_zotero_metadata.py:173 | `astype(str)` turns a missing path into `None` |
| MetadataFields.CleanRow | extract_zotero_metadata.py:170-183 | each output column is its cleaning of the query row, and the full path is `get_fullpath` of the stringified path; a missing path gives `None` in both path columns |

## Left out

- SQLite: the connection, query execution, joins, `GROUP BY`, `DISTINCT` and `ORDER BY`. The query's rows are inputs. `GROUP_CONCAT` order is taken to be the order of the given creators and collection names.
- pandas CSV writing and reading, and dtype inference.
  - A page label is a string or missing. Labels are compared as strings.
  - PageOrder.PageLeq: when every label of the CSV is numeric, pandas reads the column as numbers and sorts numerically (`9` before `10`), while the model sorts those labels as strings (`10` before `9`). The section order of such files differs. Only the string column is modelled.
  - pandas' numeric rendering of a label read back as a float (`3.0`) is not modelled.
- The sort on page labels: pandas' default sort is not stable. The model uses one admissible order (an insertion sort) and proves only that the result is a page-ordered permutation with missing labels last, never the order of ties.
- The MinerU engine, pypdf page counting and the environment variable set at import. They are the `Engine` parameter: analysis result, page count and directory listing order. The page probe's `except` branch is its returning 0.
- Text-mode writing on Windows, which turns each `\n` into `\r\n`. Writing is verbatim, as on POSIX. Reading in text mode is modelled (`ReadText`).
- Directories as such. A directory exists when some file lies at or under its path. `os.makedirs` is therefore a no-op, apart from failing on the empty path.
- Path normalisation. Paths are strings with POSIX `os.path` semantics.
- Windows path semantics. The program runs on Windows (config.py:13 names a `D:\\` data directory), where `os.path.basename` also splits on `\`. There a PDF path such as `D:\...\storage\KEY\paper.pdf` gives the output name `{id}_paper`. The model's POSIX `Basename` splits on `/` only, so such a path keeps its whole backslash-separated text in the stem.
- The engine does not read the filesystem. `Engine.analyze` and `Engine.pageCount` depend on the PDF path only. A PDF stored under the output directory that the rebuild's `rmtree` deletes is still probed and converted in the model, while the program would then see 0 pages and skip it when a page limit is set, and otherwise fail to read it.
- Python's Unicode case mapping. `lower()` (image extensions) and `title()` (annotation types) are modelled on ASCII letters; other characters are kept.
- Console output, emoji summaries, `list_available_attachments`, `analyze_annotations` beyond its truncation, and the float average of annotations per paper.
- download_models_hf.py, which is network downloads and copies, and test_config.py, which checks that paths exist. config.py only provides constants, which are the constants of module Config.
- Failures other than the missing type name are not modelled: I/O errors while writing, and errors inside pandas. The `except` branches of `process_all_attachments` are modelled for the `AttributeError` of `.title()` on NaN only.
- The summary's `pd.notna` test on collection strings (extract_zotero_metadata.py:203): after `fillna('Uncategorized')` no collection string is missing.
- Collection tally order: `most_common(5)` and its ties are not modelled. The tally is a multiset.
- AttachmentPaths.FullpathIdempotent: proved only for keys without `:`. A key containing `storage:` could make the resolved path contain the marker again. Zotero's keys are eight letters and digits.
- MetadataFields.AuthorsSplitBack: proved only when no author name contains `; `, the separator `GROUP_CONCAT` uses. Names that do contain it cannot be told apart from two names.
- MetadataFields.CollectionsRoundTrip: proved only for collection names that are trimmed and contain no `;`. The summary's split-and-strip is not injective otherwise.
- MetadataFields.CreatorNameRoundTrip: proved only when the last name contains no `, `.
