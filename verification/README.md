# Prospectus PDF to Markdown: table repair, chapter splitting and assembly

This project models the pure core of a converter that turns a prospectus PDF into Markdown. Extraction, which is left out, produces a map from page numbers to page Markdown and an outline (the PDF's table of contents). The modelled core then does four things:

- **Table repair.** It repairs each page's pipe tables. Maximal runs of table lines are found, and a header separator row `| --- | ... |` is inserted into each run of two or more lines that has no separator row and whose first row has at least one column. A blank line is emitted after every run that ends before the page does.
- **Full document.** It assembles the full document: one block per page in ascending page order, each block opened by a `<!-- Page n -->` comment, with the blocks joined by a horizontal rule.
- **Outline split.** When the outline has entries, it splits by the outline. Only the entries at the shallowest level become chapters. Each chapter runs from its start page to the page before the next chapter, and the last one runs to the largest page number. A chapter file holds a heading, then each present page's repaired text followed by a page marker.
- **Fallback split.** When the outline is empty, it splits the full document at the title matches found in it. Each section runs from its match to the next one, and the last one to the end.

File names are `NN_title.md`:
- `NN` is the one-based position, zero-padded to two digits.
- The title has the characters `\ / : * ? " < > | newline #` deleted and surrounding whitespace stripped.
- The outline splitter also cuts the title to 50 characters.

Every splitter is a function that returns the files it would write, as (name, content) pairs.

Modules:
- `Text` (`text.dfy`): the Python string operations used: `strip`, `split('\n')`, `join`, `count`, `str(int)` and `zfill`.
- `Tables` (`tables.dfy`): `process_table_block` and `enhance_table_markdown`.
  - The scan is modelled as a run partition of the lines (`Chunks`) and its rendering (`Render`).
  - A loop method (`ScanRuns`) follows the single pass of `enhance_table_markdown` and is proved to return `Render(Chunks(lines))`.
- `Naming` (`naming.dfy`): title sanitising, file names and the result type of a splitter.
- `Pages` (`pages.dfy`): the page map, its largest page number, its sorted keys and the pages present in a range.
- `Outline` (`outline.dfy`): `split_by_toc` without the printing and the writes.
- `Fallback` (`fallback.dfy`): `split_by_regex_fallback` after the matching, without the printing and the writes.
- `Assembly` (`assembly.dfy`): the full document, and the choice between the two splitters.

## Model

| member | source | states |
|---|---|---|
| Text.LeadingSpace | 1.py:78 | the count of leading whitespace: everything before it is whitespace and the character at it is not |
| Text.ContentEnd | 1.py:78 | where the stripped text ends: everything from it on is whitespace and the character before it, if any after the start, is not |
| Text.Strip | 1.py:78 | the result is the contiguous piece of the input that starts right after its leading whitespace, only whitespace follows it, and it has no whitespace at either end; a string with non-space ends is kept; an all-whitespace string becomes empty |
| Text.Split | 1.py:72 | splitting on newlines gives at least one piece, and no piece holds a newline |
| Text.JoinSplit | 1.py:72 | joining the pieces of a split on newlines gives back the text |
| Text.SplitJoin | 1.py:99 | splitting a newline join of newline-free pieces gives back the pieces |
| Text.SplitSingle | 1.py:72 | a text with no newline splits into itself alone |
| Text.SplitPrefix | 1.py:72 | a newline-free line followed by a newline splits off as the first piece |
| Text.JoinStartsWithFirst | 1.py:188 | a join starts with its first part |
| Text.CountCharAppend | 1.py:115 | counting a character is additive over concatenation |
| Text.NatToString | 1.py:184 | `str(n)` of a natural number is a digit string that denotes n, with no leading zero |
| Text.IntToString | 1.py:179 | `str(n)` is canonical digits (at least one, no leading zero) denoting n, with a minus sign in front when n is negative |
| Text.CanonicalUnique | 1.py:179 | two canonical digit strings with the same value are equal, so the contract of `IntToString` determines its result |
| Text.ZFill | 1.py:184 | `zfill(w)` has length `max(len, w)`, returns a string already that long unchanged, and pads a digit string with zeros only in front, keeping its value |
| Text.LeadingZeros | 1.py:184 | zeros in front of a digit string do not change its value |
| Tables.SeparatorRowFacts | 1.py:117 | the synthesised separator row itself matches the separator pattern, is a table line, and has the requested column count |
| Tables.ProcessTableBlock | 1.py:102-120 | a block comes back unchanged exactly when it has fewer than two lines, already holds a separator row, or its first row has no positive column count; otherwise it grows by one line, keeping its first line in front and the others after the inserted one |
| Tables.RepairInsertsSeparator | 1.py:113-118 | a changed block keeps its first row, gets a separator row with the first row's column count at index 1, and keeps every other row in order |
| Tables.ProcessTableBlockIdempotent | 1.py:102-120 | repairing a repaired block changes nothing |
| Tables.RepairKeepsTableLines | 1.py:117-118 | a block of table lines is still all table lines after the repair |
| Tables.RepairExample | 1.py:102-120 | a two-column table without a separator gets `\| --- \| --- \|` as its second line |
| Tables.ChunksArePartition | 1.py:77-93 | the runs found cover the lines in order; every run is non-empty and all table lines; every single line is not a table line; no two runs are adjacent |
| Tables.RunPartitionUnique | 1.py:77-93 | there is only one such partition of a page's lines, so the runs are determined by the lines |
| Tables.ScanRuns | 1.py:72-99 | the single pass with an in-table flag and a pending run produces the rendering of the run partition |
| Tables.EnhanceLines | 1.py:72-99 | the loop over a page's lines yields the normalised lines |
| Tables.EnhanceTableMarkdown | 1.py:68-99 | the page text returned is the newline join of the normalised lines of its split |
| Tables.LastChunkKind | 1.py:95-97 | the last piece is a run exactly when the last line is a table line |
| Tables.ProseAfterProse | 1.py:86-93 | a non-table line after a non-table line is copied with nothing in between |
| Tables.BlankAfterRun | 1.py:87-93 | a non-table line right after a table run is preceded by one inserted blank line |
| Tables.TrailingRunNoBlank | 1.py:95-97 | a run at the end of the page is repaired and emitted with no blank line after it, so the output ends with a table line |
| Tables.RenderKeepsProse | 1.py:77-97 | rendering keeps every non-blank non-table line, in order |
| Tables.NormalizeKeepsProse | 1.py:68-99 | normalising a page neither loses, reorders nor adds non-blank non-table lines |
| Tables.NoRunsAllProse | 1.py:86-93 | lines with no table line are rendered unchanged |
| Tables.NormalizeText | 1.py:68-99 | a page without a table line is returned exactly as it was |
| Tables.TableLineByEnds | 1.py:78-79 | for a line with non-space ends, being a table line means starting and ending with a pipe |
| Tables.NormalizeNotIdempotent | 1.py:87-93 | normalising `\|a\|`, newline, `x` inserts a blank line; normalising that output inserts another, so normalisation is not idempotent |
| Naming.RemoveReserved | 1.py:182 | the result is no longer than the title, holds no reserved character, and is the title itself when it had none |
| Naming.RemoveReservedKeepsOthers | 1.py:182 | a character survives deletion exactly when it was in the title and is not reserved |
| Naming.RemoveReservedAppend | 1.py:182 | deletion works piece by piece |
| Naming.SafeTitle | 1.py:244 | the sanitised title is the contiguous piece of the title with reserved characters deleted that starts after its leading whitespace, with only whitespace after it; it holds no reserved character and has no whitespace at either end |
| Naming.SafeTitleIdempotent | 1.py:244 | sanitising a sanitised title changes nothing |
| Naming.CleanTitleKept | 1.py:244 | a clean title with non-space ends is used as it is |
| Naming.ControlCharacterSurvives | 1.py:182 | a tab inside a title survives sanitising |
| Naming.OutlineTitle | 1.py:182-183 | the outline title is a prefix of the sanitised title of at most 50 characters: the whole of it when short, exactly 50 when long |
| Naming.LongTitleCutOnlyByOutline | 1.py:183 | a long clean title is kept whole for a fallback file and cut to 50 characters for an outline file |
| Naming.IndexPrefix | 1.py:184 | the number in front is a digit string of at least two characters denoting the one-based index, exactly two below 100, and without a leading zero when longer |
| Naming.FileName | 1.py:184 | a file name is exactly as long as the number prefix, an underscore, the title and `.md` together, and it ends with `.md` |
| Naming.FileNameReadsBack | 1.py:184 | the digits a file name starts with denote its one-based position whatever the title, an underscore follows them, and the title can be read back from between it and the extension |
| Naming.FileNamesDistinct | 1.py:184 | two files at different positions never share a name |
| Naming.NumberedFiles | 1.py:184 | file i is named after position i and title i and holds content i; no two files share a name |
| Naming.FileNameExample | 1.py:182-184 | the first chapter titled `A/B:C*D` is written to `01_ABCD.md` |
| Pages.LargestPage | 1.py:160 | the largest page number of a non-empty map is one of its keys and bounds all of them; an empty map gives 0 |
| Pages.SortedKeys | 1.py:289 | the sorted keys are strictly ascending and hold each key exactly once |
| Pages.PagesInRange | 1.py:173-174 | the visited pages are ascending, and a number is among them exactly when it is a key within the range |
| Pages.IncreasingUnique | 1.py:289 | an ascending sequence is determined by its elements |
| Pages.AllPagesInRange | 1.py:173-174 | a range holding every key visits the sorted keys |
| Pages.AdjacentRanges | 1.py:173-174 | visiting two adjacent ranges visits their union |
| Pages.RangeBeyondLargest | 1.py:160-174 | extending a range beyond the largest page visits nothing more |
| Outline.MinLevel | 1.py:140-141 | the minimum level is the level of some entry and bounds every entry's level |
| Outline.AtLevel | 1.py:144 | filtering by level keeps only entries of that level and never grows |
| Outline.AtLevelMembers | 1.py:144 | an entry is kept exactly when it is in the outline at that level |
| Outline.AtLevelAppend | 1.py:144 | filtering distributes over concatenation |
| Outline.TopLevel | 1.py:140-144 | a non-empty outline has at least one main chapter; the main chapters are the outline's entries at the minimum level, all of them and in outline order |
| Outline.ChapterSpans | 1.py:162-167 | chapter i takes its title and first page from main entry i; it ends one page before the next main entry starts; the last chapter ends at the largest page |
| Outline.SpanAt | 1.py:164-167 | one chapter's span, with both end-page cases written out |
| Outline.PageParts | 1.py:173-179 | every present page contributes its text, then its marker |
| Outline.ChapterContent | 1.py:170-188 | a chapter file starts with its heading |
| Outline.ChapterWithoutPages | 1.py:170-188 | a chapter with no page in its range is the heading alone |
| Outline.ChapterFiles | 1.py:162-188 | one file per chapter: named after its position and capped title, holding the chapter's content; the names are distinct |
| Outline.TocFiles | 1.py:132-192 | fails exactly when the outline is empty; otherwise writes one file per main chapter, with distinct names |
| Outline.TocFileContents | 1.py:162-188 | file i holds the heading and the normalised pages of main entry i's span, named after the capped title |
| Outline.NestedEntryIgnored | 1.py:140-144 | inserting a deeper entry anywhere in the outline does not change the files |
| Outline.SpansExample | 1.py:140-167 | main entries A at page 1 and B at page 5, a nested entry, and 10 pages give A on pages 1 to 4 and B on pages 5 to 10 |
| Outline.ChaptersTile | 1.py:162-174 | with non-decreasing start pages, the chapters' pages put together are the pages of the whole covered range, each once and in order |
| Outline.ChaptersCoverPages | 1.py:160-174 | every page from the first chapter's start to the largest page lands in the chapter files exactly once, in order |
| Outline.FindChapter | 1.py:162-167 | a page at or after the first start lies at or after some start and before the next |
| Outline.PageInOneSpan | 1.py:162-167 | a page within the covered range lies in exactly one chapter's span |
| Outline.SpansDisjoint | 1.py:162-167 | no page lies in two chapters' spans |
| Outline.PageInExactlyOneChapter | 1.py:160-179 | a present page at or after the first start is visited by exactly one chapter |
| Fallback.Sections | 1.py:234-242 | section i is the text from match i up to the next match, or to the end for the last match |
| Fallback.SectionsCoverTail | 1.py:234-242 | the sections put together are the text from the first match on |
| Fallback.TextIsPreambleAndSections | 1.py:234-242 | the text is whatever precedes the first match followed by the sections, so no section file holds the part before the first match |
| Fallback.FallbackFiles | 1.py:226-253 | fails exactly when nothing matched; otherwise one file per match, named after its position and its sanitised, uncapped title, holding its section; the names are distinct |
| Fallback.FallbackFilesCoverTail | 1.py:234-249 | the files' contents put together are the text from the first match on |
| Assembly.Document | 1.py:288-293 | the blocks of no pages join to nothing; otherwise the document opens with the first listed page's block |
| Assembly.FullDocument | 1.py:288-293 | no pages give an empty document |
| Assembly.FullDocumentFirst | 1.py:288-293 | the document is the lowest page's block; when more pages exist, it is followed by the rule and the document of the remaining pages |
| Assembly.SinglePageDocument | 1.py:288-293 | a one-page document is that page's comment followed by its repaired text |
| Assembly.TableFreePageKept | 1.py:288-293 | a page without table lines appears in the document exactly as extracted |
| Assembly.DocumentOpensWithLowestPage | 1.py:288-293 | a non-empty document opens with the comment of the lowest page |
| Assembly.Convert | 1.py:282-305 | nothing is produced when no page was extracted; the split fails exactly when the outline is empty and nothing matched; it writes one file per main chapter or per match, with distinct names |
| Assembly.ConvertChoosesSplitter | 1.py:302-305 | with an outline the outline splitter runs on the pages; without one the fallback splitter runs on the full document |

## Left out

- PDF extraction (1.py:25-65): the outline and the page map are inputs. Opening the PDF, page rendering and the PDF library are not part of this model.
- The title matching (1.py:202-224): the regular expressions, the title vocabulary, case-insensitive matching and the looser second attempt are not modelled. The matches are an input: their offsets and captured titles, in increasing order.
- File system writes and directory layout (1.py:19-22, 185-188, 246-249, 295-296): each splitter returns its files instead. A repeated title cannot make names collide, because the position prefix differs. What an actual write does to such a name is not modelled.
- Console output (every `print` call): it does not affect the files.
- Assembly.Convert: it starts after extraction. Page extraction that fails catches its exception and returns nothing (1.py:63-65), and the driver treats that like a document without pages (1.py:281-283); both are `NoPages`. Only a failure to open the PDF while reading its outline (1.py:30), which nothing catches, is outside the model.
- Whitespace: `\s` and `strip()` are both modelled by the set of characters for which `str.isspace()` holds. A regular-expression engine's own reading of `\s` is not modelled separately.
- Outline.ChaptersTile, Outline.ChaptersCoverPages, Outline.PageInExactlyOneChapter: they assume main-chapter start pages that never decrease. An outline whose start pages go backwards gives chapters with empty or overlapping ranges; TocFiles still models that case faithfully.
- Outline entries whose page lies beyond the largest page, or an empty page map: TocFiles models these as the code does (an empty or reversed range gives a heading-only chapter). The driver never reaches them with an empty map.
- Page-number and integer formatting is exact: integers are unbounded, as in Python.
- Lone surrogates: a Python string may hold surrogate code points, a Dafny `char` cannot, so titles and page texts holding them are not modelled.

One might expect normalising a page to be idempotent and sanitised names to be free of control characters. Neither holds in the code, and the model follows the code:
- Normalising an already-normalised page is not always a no-op. Each pass inserts one more blank line after a table run that other lines follow (Tables.NormalizeNotIdempotent). Only the block repair itself is idempotent (Tables.ProcessTableBlockIdempotent).
- Sanitised titles can keep control characters such as a tab (Naming.ControlCharacterSurvives). Only the listed characters are deleted, and whitespace is stripped only at the ends.
