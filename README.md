# PDF book structuring, modelled in Dafny

This project models the two algorithms of a small Python tool that turns a
PDF book into a nested chapter → section → subsection tree.

- **Structure extraction** (`structure_extractor.py`).
  - `extract_structure` folds over the table of contents, a sequence of
    `(level, title, page)` entries. It parses numbering prefixes and builds
    the tree.
  - `extract_content` gives every node the text of its page range. The range
    ends where the numerically next sibling starts; `_get_next_section_start`
    finds that sibling.
- **Text segmentation** (`Bookprocessor.py`, class `PDFBookProcessor`).
  - `_organize_structure` walks the tree in insertion order and searches the
    book's text for each node's heading. It gives the text between one found
    heading and the next to the node of the earlier heading, as its `text` and
    `length` entries, and gives the text after the last heading to the last
    node reached.

Python dicts become insertion-ordered association lists (`Dicts`). Binding a
key that is present replaces its value in place; a new key is appended.
The modules follow the program's structure:

- `Wrappers`: Option, Result and the Python exceptions that matter: KeyError,
  ValueError, IndexError.
- `Dicts`: dict lookup, assignment and mapping over values.
- `PyStrings`: `str.isspace`, `strip`, `split`, `join`, `int()` and `str()`
  on natural numbers, and case folding.
- `Headings`: `_clean_text`, `_parse_chapter`, `_parse_section`,
  `_is_section`, `_is_subsection`.
- `BookTree`: the node datatypes, the `level_info` datatype, the `text` and
  `length` entries, and the skeleton of a tree (keys, titles, start pages).
- `Extractor`: `extract_structure`, a spec function `Run` plus the loop method
  `ExtractStructure`.
- `SectionOrder`: `_get_next_section_start`. This covers the sort by dotted
  integer groups, `index` and the successor.
- `PageContent`: `_get_content` (a loop method) and `extract_content` (one loop
  method per nested loop, each proved against a fold).
- `Patterns`: `_format_regex` (`re.escape` followed by `replace`), then a
  small regex compiler and a backtracking matcher covering the syntax the
  heading patterns use, and `re.search` as the leftmost match.
- `Segmenter`: class `PdfBookProcessor`, with fields `structure`, `text` and
  `startPage`, and methods for `_store_section_content`,
  `_process_previous_level`, `_organize_structure`, `_extract_pdf_text` and
  `process_pdf`. Each method is proved against a spec function over values:
  `Annotate`, `ProcessPrevious`, `Organized`.

I/O is replaced by inputs:

- The PDF's table of contents is a `seq<(int, string, int)>`.
- The page texts are a `seq<string>`; the page count is their length.
- The book's text is the newline join of a suffix of the pages.

## Behaviour of the code worth knowing

- A new chapter does not reset `current_section`
  (structure_extractor.py:33-39). A subsection entry that follows a chapter
  before any of that chapter's sections is therefore looked up under the old
  section's number in the new chapter, and raises KeyError
  (`Extractor.StaleSection`).
- A level-1 entry without a number is dropped without a message
  (`Extractor.StepUnnumberedChapter`).
- Several exceptions escape to the caller:
  - KeyError from `extract_structure`.
  - ValueError from `int()` or from the sort. The sort (line 116) sits
    outside the `try` block.
  - IndexError for a page outside the document.
- Section and subsection patterns use `\s*` between the number and the title
  (Bookprocessor.py:79,87), so no whitespace is required there.
- A chapter's sections are searched only when the chapter's heading was
  found, and a section's subsections only when the section's heading was
  found (Bookprocessor.py:72-97).
- Every search starts at index 0 (Bookprocessor.py:72,80,88), so
  `previous_end` can move backwards. A heading found at or before
  `previous_end` then gives its predecessor an empty span, which is not
  stored (`Segmenter.ProcessPreviousSpec`).
- For the same reason a section whose heading stands before its chapter's
  heading can receive text that lies before the chapter's heading
  (`Segmenter.SectionBeforeChapter`, with the instance
  `Segmenter.SectionBeforeChapterExample`).
- The final flush stores the tail without the whitespace check used for
  inner spans, so a node can get `length` 0 (`Segmenter.OrganizedTail`).

## Model

| member | source | states |
|---|---|---|
| Dicts.Put | structure_extractor.py:35-39 | `d[k] = v` binds `k` to `v`, keeps the key order when `k` is present, appends `k` otherwise, and leaves every other key's value alone |
| Dicts.FindFirst | structure_extractor.py:35-39 | a key is found at its first position, and not found only when no position holds it |
| Dicts.GetSpec | structure_extractor.py:86 | `d.get(k)` finds a value exactly when `k` is a key, and that value is bound to `k` |
| Dicts.PutIsDict | structure_extractor.py:43 | assignment keeps the keys of a dict distinct |
| PyStrings.Strip | Bookprocessor.py:36 | `strip()` leaves no whitespace at either end |
| PyStrings.StripEmpty | Bookprocessor.py:112 | `content.strip()` is empty exactly when `content` is all whitespace |
| PyStrings.TrimLeftRemovesSpace | structure_extractor.py:59 | what `lstrip` removes is whitespace |
| PyStrings.TrimRightRemovesSpace | structure_extractor.py:59 | what `rstrip` removes is whitespace |
| PyStrings.DigitRunDigits | structure_extractor.py:62 | the leading digit run is all digits |
| PyStrings.ParseNatToString | structure_extractor.py:86 | `int(str(n)) == n` |
| PyStrings.SplitParts | structure_extractor.py:116 | no part produced by `split('.')` contains a period |
| PyStrings.SplitJoin | structure_extractor.py:116 | splitting loses nothing: `'.'.join(s.split('.')) == s` |
| PyStrings.SplitTrailing | structure_extractor.py:116 | a string ending in '.' splits with an empty last part |
| PyStrings.JoinConcat | structure_extractor.py:129 | joining two non-empty lists puts one separator between the two joins |
| Headings.CleanTextNormalized | structure_extractor.py:57-59 | `_clean_text` leaves no leading or trailing whitespace and only single plain spaces |
| Headings.CleanTextIsJoinedWords | structure_extractor.py:59 | `re.sub(r'\s+', ' ', s).strip()` equals the words of `s` joined by single spaces |
| Headings.CleanTextOfNormalized | structure_extractor.py:59 | a normalized text is its own cleaned form |
| Headings.CleanTextIdempotent | structure_extractor.py:59 | cleaning twice equals cleaning once |
| Headings.Collapse | structure_extractor.py:59 | `re.sub(r'\s+', ' ', s)` is empty exactly when `s` is, and starts with a plain space when `s` starts with whitespace and with `s`'s first character otherwise |
| Headings.ChapterNumberStart | structure_extractor.py:62 | where the chapter pattern places group 2, a digit stands |
| Headings.ParseChapterShape | structure_extractor.py:61-65 | the chapter number is all digits and the title is cleaned |
| Headings.ParseChapterSpec | structure_extractor.py:62-64 | `_parse_chapter` returns a number exactly when the title starts with an optional case-insensitive "Глава", optional whitespace, then a digit |
| Headings.ParseChapterMaximal | structure_extractor.py:62-64 | the number returned is the non-empty maximal digit run where the pattern places it |
| Headings.ParseChapterFallback | structure_extractor.py:65 | on failure the result is ("", cleaned title) |
| Headings.ParseSectionShape | structure_extractor.py:67-71 | a returned section number is dotted digit groups with an optional final period, and the title is cleaned |
| Headings.ParseSectionSpec | structure_extractor.py:68-70 | `_parse_section` returns a number exactly when the title opens with `digits(.digits)*` and an optional period, followed at once by whitespace |
| Headings.ParseSectionNumber | structure_extractor.py:68-70 | the accepted prefix is the number returned |
| Headings.ParseSectionFallback | structure_extractor.py:71 | on failure the result is ("", cleaned title) |
| Headings.SectionNumberUnique | structure_extractor.py:68 | the pattern can only accept the maximal run of digits and periods |
| Headings.GroupCount | structure_extractor.py:75-79 | a counted number starts with a digit and has at least one group |
| Headings.SectionShapeGroups | structure_extractor.py:73-75 | `^\d+(\.\d+)?\.?$` accepts exactly the numbers of one or two groups |
| Headings.SubsectionShapeGroups | structure_extractor.py:77-79 | `^\d+\.\d+\.\d+\.?$` accepts exactly the numbers of three groups |
| Headings.IsSectionGroups | structure_extractor.py:73-79 | on a dotted number `_is_section` and `_is_subsection` only count its groups |
| Headings.SectionSubsectionDisjoint | structure_extractor.py:73-79 | no string satisfies both `_is_section` and `_is_subsection` |
| BookTree.NoteOfLength | Bookprocessor.py:36-45 | `text` is the content, `length` is at most its length and is 0 exactly when the content is all whitespace |
| BookTree.Skeleton | structure_extractor.py:35-52 | the skeleton keeps the keys of the tree |
| BookTree.AnnotateSkeleton | Bookprocessor.py:41-55 | storing text changes no key, title or start page anywhere |
| BookTree.PathExistsSkeleton | Bookprocessor.py:42-52 | whether the keys of a level exist depends only on the skeleton |
| BookTree.AnnotateHere | Bookprocessor.py:41-55 | the node named by an existing level gets exactly `{'text': content, 'length': len(content.strip())}` |
| BookTree.AnnotateElsewhere | Bookprocessor.py:41-55 | every other node keeps its `text` and `length` entries |
| BookTree.AnnotateOnlyNotes | Bookprocessor.py:41-55 | storing text changes only `text` and `length` entries: every key, title, start page and `content` entry is kept |
| BookTree.AnnotateMissing | Bookprocessor.py:42-52 | a level that names a missing key leaves the tree as it was |
| Extractor.ExtractStructure | structure_extractor.py:21-55 | the loop returns exactly what the spec fold `Built` gives, tree or KeyError |
| Extractor.ApplyEntry | structure_extractor.py:30-52 | one loop body computes one `Step` |
| Extractor.ApplyBranch | structure_extractor.py:33-52 | the branches of the loop body compute `Branch` |
| Extractor.RunOk | structure_extractor.py:29 | a successful entry hands its state to the rest of the loop |
| Extractor.RunErr | structure_extractor.py:29 | the first error ends the loop with that error |
| Extractor.StepChapter | structure_extractor.py:30-39 | a numbered level-1 entry rebinds its number, in place or at the end, to a fresh chapter with page − 1 and no sections, makes it current, keeps `current_section`, and touches no other key |
| Extractor.StepUnnumberedChapter | structure_extractor.py:30-33 | a level-1 entry without a number changes nothing |
| Extractor.StepBeforeChapter | structure_extractor.py:31 | entries of other levels are ignored until a chapter exists |
| Extractor.StepLevelsAlike | structure_extractor.py:31 | levels 2 and 3 are treated alike |
| Extractor.StepSection | structure_extractor.py:40-47 | a section-shaped number binds a fresh section under the current chapter and makes it current |
| Extractor.StepSubsection | structure_extractor.py:48-52 | a subsection-shaped number binds under the current section of the current chapter, or raises KeyError when that section is missing |
| Extractor.StepOtherShape | structure_extractor.py:40-52 | any other shape, or a subsection without a current section, is dropped |
| Extractor.StepNoSection | structure_extractor.py:31-52 | an entry that is neither a chapter nor a section-level entry under a current chapter is ignored |
| Extractor.StepNotAChapter | structure_extractor.py:29-33 | from the initial state an entry that is not a numbered chapter changes nothing |
| Extractor.StepManyGroups | structure_extractor.py:41-48 | numbers of four or more groups are dropped |
| Extractor.StaleSection | structure_extractor.py:33-49 | a subsection right after a new chapter, with a section current from before, raises KeyError |
| Extractor.StepInv | structure_extractor.py:29-52 | every step keeps the tree well formed and the current pointers valid |
| Extractor.RunInv | structure_extractor.py:29-52 | the whole loop keeps that invariant |
| Extractor.BuiltWellFormed | structure_extractor.py:21-55 | the returned tree has distinct keys at every level, digit chapter numbers, one- or two-group section numbers, three-group subsection numbers and cleaned titles |
| Extractor.StepErr | structure_extractor.py:43-49 | a step raises exactly on an orphan subsection, and then raises KeyError |
| Extractor.RunErrIsKeyError | structure_extractor.py:21-55 | every error `extract_structure` raises is a KeyError |
| Extractor.RunWithoutChapters | structure_extractor.py:29-39 | a table of contents without a numbered level-1 entry gives an empty tree |
| SectionOrder.IntPartsNone | structure_extractor.py:116 | `list(map(int, parts))` fails exactly when some part is not a digit string |
| SectionOrder.TrailingPeriod | structure_extractor.py:116 | a key with a trailing period has no sort key |
| SectionOrder.LexLessIrreflexive | structure_extractor.py:116 | list comparison is irreflexive |
| SectionOrder.LexLessTransitive | structure_extractor.py:116 | list comparison is transitive |
| SectionOrder.LexLessAsymmetric | structure_extractor.py:116 | list comparison is asymmetric |
| SectionOrder.LexLessTotal | structure_extractor.py:116 | any two distinct key lists compare |
| SectionOrder.InsertPermutes | structure_extractor.py:116 | insertion adds exactly the one element |
| SectionOrder.InsertSorted | structure_extractor.py:116 | insertion keeps a list sorted |
| SectionOrder.SortByKeySpec | structure_extractor.py:116 | `sorted(..., key=...)` is a permutation of its input with keys that never decrease |
| SectionOrder.IndexOf | structure_extractor.py:118 | `index` returns the first position holding the key, and fails only when the key is absent |
| SectionOrder.NextStartValueError | structure_extractor.py:116-122 | the lookup raises exactly when some key does not convert, and then raises ValueError |
| SectionOrder.NextStartTrailingPeriod | structure_extractor.py:116-117 | a key such as "1.2." makes the lookup raise ValueError |
| SectionOrder.OrderFacts | structure_extractor.py:116 | the sorted keys are a permutation of the keys in key order |
| SectionOrder.NextStartIsSuccessor | structure_extractor.py:117-122 | the lookup returns the successor's start page, or the default without a successor |
| SectionOrder.SuccessorIsKey | structure_extractor.py:119 | the successor is a key of the dict |
| SectionOrder.SuccessorIsNext | structure_extractor.py:116-119 | the successor does not sort before the current key, and no key sorts strictly between the two |
| SectionOrder.NoSuccessorIsLast | structure_extractor.py:119-122 | without a successor no key sorts after the current key |
| SectionOrder.NextStartMissing | structure_extractor.py:118-122 | a current key that is not in the dict gives the default |
| PageContent.PageTextsSpec | structure_extractor.py:126-128 | the page loop yields nothing for an empty range, the slice inside the document, and IndexError otherwise |
| PageContent.PagesTextSpec | structure_extractor.py:124-129 | `_get_content` is "" for an empty range, the newline join of the pages inside the document, and IndexError otherwise |
| PageContent.PagesTextSplit | structure_extractor.py:124-129 | the text of a range is the texts of two adjacent ranges joined by a newline |
| PageContent.GetContent | structure_extractor.py:124-129 | the loop computes `PagesText` |
| PageContent.Bounded | structure_extractor.py:96-104 | `min(next, end)` is at most `end` and is one of the two |
| PageContent.ChapterEndSkeleton | structure_extractor.py:86 | a chapter's end depends only on the skeleton |
| PageContent.FillSubsectionsFilled | structure_extractor.py:101-107 | once it succeeds, the subsection loop fills every subsection with its range and keeps the skeleton |
| PageContent.FillSectionsFilled | structure_extractor.py:93-107 | once it succeeds, the section loop fills every section and subsection and keeps the skeleton |
| PageContent.FillChaptersFilled | structure_extractor.py:84-107 | once it succeeds, the chapter loop fills every node and keeps the skeleton |
| PageContent.ExtractedFilled | structure_extractor.py:81-110 | a successful extraction keeps every key, title and start page, and gives each node the text of its pages from its start to its end; each end is bounded by the enclosing one |
| PageContent.ExtractNeedsNumericChapters | structure_extractor.py:86 | a chapter key that `int()` rejects makes the extraction fail |
| PageContent.ExtractContent | structure_extractor.py:81-110 | the chapter loop returns exactly what `Extracted` gives |
| PageContent.SectionContents | structure_extractor.py:93-99 | the section loop computes its fold |
| PageContent.SubsectionContents | structure_extractor.py:101-107 | the subsection loop computes its fold |
| Patterns.FormatRegexCons | Bookprocessor.py:29-32 | `_format_regex` works character by character: no replacement straddles two title characters |
| Patterns.EscapeHead | Bookprocessor.py:32 | an escaped string never starts with a bare space |
| Patterns.TitleItems | Bookprocessor.py:32 | a title yields one pattern item per character |
| Patterns.IdItems | Bookprocessor.py:79-87 | an id yields one pattern item per character |
| Patterns.CompileUnit | Bookprocessor.py:32 | the regex text for one title character compiles to exactly that character's one item, whatever follows it |
| Patterns.CompileFormatRegex | Bookprocessor.py:32 | `_format_regex(t)` is matched by exactly the title's characters, with `\s*` in place of each space |
| Patterns.FormatRegexItems | Bookprocessor.py:29-32 | `_format_regex(title)` compiles to the title's items |
| Patterns.ChapterPatternItems | Bookprocessor.py:71 | the chapter pattern of a numeric id is the word, `\s*`, the id, `\s*` and the title's items |
| Patterns.SectionPatternItems | Bookprocessor.py:79-87 | the section and subsection patterns are the id, `\s*` and the title's items |
| Patterns.SpaceRunSpaces | Bookprocessor.py:32 | a slice is all whitespace exactly when it lies within the whitespace run |
| Patterns.MatchAt | Bookprocessor.py:72 | a match from `i` ends between `i` and the end of the text |
| Patterns.MatchAtSound | Bookprocessor.py:72 | what the matcher returns is a match |
| Patterns.MatchAtComplete | Bookprocessor.py:72 | whenever the items can match from `i`, the matcher finds a match there |
| Patterns.Search | Bookprocessor.py:72-88 | `re.search` returns None or `(start, end)` with `0 <= start <= end <= len(text)` |
| Patterns.SearchLeftmost | Bookprocessor.py:72-88 | the search returns the leftmost match, and None only when nothing matches anywhere |
| Patterns.ChapterHeadingFound | Bookprocessor.py:71-72 | a chapter heading spelt out in the text is found there or earlier |
| Patterns.SectionHeadingFound | Bookprocessor.py:79-88 | a section or subsection heading spelt out in the text is found there or earlier |
| Segmenter.Slice | Bookprocessor.py:111 | `text[a:b]` is the slice for bounds in order, and empty when `b <= a` or `a` is past the end |
| Segmenter.PagesFrom | Bookprocessor.py:61 | `document[k:]` is a suffix of the pages, counted from the end for negative `k` |
| Segmenter.ProcessPrevious | Bookprocessor.py:109-113 | processing a span changes no key, title or start page |
| Segmenter.ProcessPreviousSpec | Bookprocessor.py:109-113 | a span is stored exactly when it has a non-whitespace character, then with a positive `length`; a heading at or before `previous_end` stores nothing |
| Segmenter.ProcessPreviousElsewhere | Bookprocessor.py:109-113 | only the previous node can change |
| Segmenter.WalkSubsections | Bookprocessor.py:86-97 | the subsection loop keeps the skeleton and keeps `previous_end` within the text |
| Segmenter.WalkSections | Bookprocessor.py:78-97 | the section loop keeps the skeleton and keeps `previous_end` within the text |
| Segmenter.WalkChapters | Bookprocessor.py:70-101 | the chapter loop keeps the skeleton and keeps `previous_end` within the text |
| Segmenter.SubsectionStep | Bookprocessor.py:87-99 | one iteration of the subsection loop keeps the skeleton and keeps `previous_end` within the text |
| Segmenter.SectionStep | Bookprocessor.py:79-99 | one iteration of the section loop, its subsection loop included, keeps the skeleton and keeps `previous_end` within the text |
| Segmenter.ChapterStep | Bookprocessor.py:71-101 | one iteration of the chapter loop, its section loop included, keeps the skeleton and keeps `previous_end` within the text |
| Segmenter.Organized | Bookprocessor.py:65-107 | `_organize_structure` never adds or removes a key and never changes a title or start page |
| Segmenter.SubsectionsReach | Bookprocessor.py:86-97 | after the subsection loop the current level names a node whose heading, and those of the nodes above it, were found; a node not found keeps its entries |
| Segmenter.SectionsReach | Bookprocessor.py:78-97 | the same for the section loop and the subsection loops inside it |
| Segmenter.ChaptersReach | Bookprocessor.py:70-101 | the current level always names a node whose heading, and those of the nodes above it, were found |
| Segmenter.OrganizedOnlyFound | Bookprocessor.py:65-101 | a node whose heading, or that of its chapter or section, is not found keeps its entries |
| Segmenter.OrganizedTail | Bookprocessor.py:104-105 | the last node reached gets the whole tail after `previous_end`, with `length` 0 exactly when the tail is all whitespace |
| Segmenter.ChaptersNotFound | Bookprocessor.py:70-101 | chapters whose headings are not found leave the walk as it was |
| Segmenter.OrganizedNoChapter | Bookprocessor.py:68-105 | with no chapter heading found the tree is returned unchanged |
| Segmenter.SectionBeforeChapter | Bookprocessor.py:70-105 | a chapter with one section whose heading ends before the chapter's heading starts: the section receives all text from the end of its own heading, including text before the chapter's heading |
| Segmenter.ExampleSectionSearch | Bookprocessor.py:79-80 | the pattern of untitled section "1.1" matches "1.1 xГлава1" at 0-4 |
| Segmenter.ExampleChapterSearch | Bookprocessor.py:71-72 | the pattern of untitled chapter "1" matches "1.1 xГлава1" at 5-11 |
| Segmenter.SectionBeforeChapterExample | Bookprocessor.py:70-105 | for chapter "1" with section "1.1" and the text "1.1 xГлава1", the chapter heading is found at 5 and section 1.1 receives "xГлава1" |
| Segmenter.ProcessPreviousOwnSpan | Bookprocessor.py:109-113 | a span stored for the previous node starts where that node's own heading match ends |
| Segmenter.SubsectionsOwnSpan | Bookprocessor.py:86-97 | the subsection loop keeps `previous_end` at the end of the current node's own heading match, and every span it stores starts there |
| Segmenter.SectionsOwnSpan | Bookprocessor.py:78-97 | the same for the section loop |
| Segmenter.ChaptersOwnSpan | Bookprocessor.py:70-101 | throughout the loops `previous_end` is the end of the current node's own heading match, and every stored span starts there |
| Segmenter.SubsectionStepOwnSpan | Bookprocessor.py:87-99 | one found subsection heading moves `previous_end` to the end of that subsection's own match, and the span it stores starts at the end of the previous node's own match |
| Segmenter.SectionStepOwnSpan | Bookprocessor.py:79-99 | the same for one iteration of the section loop |
| Segmenter.ChapterStepOwnSpan | Bookprocessor.py:71-101 | the same for one iteration of the chapter loop |
| Segmenter.TailOwnSpan | Bookprocessor.py:104-105 | the flush gives the current node the text from the end of its own heading match to the end |
| Segmenter.OrganizedFromText | Bookprocessor.py:65-113 | every node ends with its old entries, or with `text[e:b]` and its stripped length, where `e` is the end of that node's own heading match |
| Segmenter.PdfBookProcessor.constructor | Bookprocessor.py:21-27 | a processor starts with the extracted tree, no text and the given start page |
| Segmenter.PdfBookProcessor.ExtractPdfText | Bookprocessor.py:57-63 | the text is the newline join of the pages from `start_page` on |
| Segmenter.PdfBookProcessor.StoreSectionContent | Bookprocessor.py:34-55 | the store succeeds exactly when the level's keys exist, raises only KeyError, and leaves the tree as `Annotate` says |
| Segmenter.PdfBookProcessor.StoreChapter | Bookprocessor.py:51-55 | `structure[chapter].update(...)`, or KeyError |
| Segmenter.PdfBookProcessor.StoreSection | Bookprocessor.py:46-50 | `structure[chapter]['sections'][section].update(...)`, or KeyError |
| Segmenter.PdfBookProcessor.StoreSubsection | Bookprocessor.py:41-45 | the subsection update, or KeyError |
| Segmenter.PdfBookProcessor.ProcessPreviousLevel | Bookprocessor.py:109-113 | the method leaves the tree as `ProcessPrevious` says, and fails only on a non-blank span for a missing level |
| Segmenter.PdfBookProcessor.OrganizeSubsections | Bookprocessor.py:86-97 | the subsection loop computes `WalkSubsections` and raises nothing |
| Segmenter.PdfBookProcessor.OrganizeSections | Bookprocessor.py:78-97 | the section loop computes `WalkSections` and raises nothing |
| Segmenter.PdfBookProcessor.OrganizeStructure | Bookprocessor.py:65-107 | on a tree with distinct keys the method leaves the tree as `Organized` says and never raises KeyError |
| Segmenter.PdfBookProcessor.ProcessPdf | Bookprocessor.py:115-119 | reads the text, organizes the tree and returns it |

## Left out

- PyMuPDF calls (`fitz.open`, `get_toc`, `doc[i]`, `get_text`, `page_count`, `close`): they are document I/O. The table of contents and the page texts are inputs. `document[k:]` in `_extract_pdf_text` is a PyMuPDF slice; `Segmenter.PagesFrom` gives it Python list slicing, and what PyMuPDF does for a `k` outside the document is not modelled.
- `save_json`, `save_to_json`, the `__main__` blocks and all `logging` calls: file output and logging side effects only.
- `PDFBookProcessor.__init__`: the constructor takes the tree produced by the structure extractor and the start page. Reading the PDF, `pdf_path` and `output_dir` are left out, and so is the default `start_page=13`: the constructor always takes a start page.
- Python `re` in general: only the pattern syntax the heading patterns use is compiled. That is `\s*`, escaped characters, `.` and plain characters. Any other pattern compiles to None.
- Patterns.IdItems: regex metacharacters in an id other than '.' are read literally. `extract_structure` only produces ids of digits and periods.
- IGNORECASE folding and `\d`: case folding covers ASCII and basic Cyrillic letters only, and digits are ASCII only.
- PyStrings.ParseInt: `int()` accepts only ASCII digit strings. Signs, underscores, surrounding whitespace and other Unicode digits are not accepted; the keys that reach it come from `_parse_section`.
- PageContent.PagesTextSpec: a negative page index is IndexError. PyMuPDF counts negative indices from the end.
- PageContent.ExtractContent: when a lookup raises, the Python caller's dict already holds the contents stored so far. The model returns only the error.
- SectionOrder.SortByKeySpec: states sorted and a permutation, not stability. The definition is stable, as Python's sort is.
- `chapter_content.get('title', '')`: every node carries a title in the model, as `extract_structure` always stores one.
- Segmenter.PdfBookProcessor.OrganizeStructure: the chapter loop walks a snapshot of the tree rather than the live dict. Annotating never changes keys or titles (`Segmenter.Organized`), so both give the same walk. The three nested loops are one method per loop.
