/** `StructureExtractor.extract_content` and `_get_content`: every chapter,
    section and subsection of the tree receives the text of its page range.
    The document is the list of the texts its pages yield; a chapter ends
    where the chapter numbered one higher starts (or at the page count), a
    section where the next section in numeric order starts (bounded by the
    chapter's end), a subsection likewise within its section. */
module PageContent {
  import opened Wrappers
  import opened Dicts
  import opened PyStrings
  import opened BookTree
  import opened SectionOrder

  // ---------------------------------------------------------------------------
  // _get_content
  // ---------------------------------------------------------------------------

  /** The texts of pages `start .. end - 1`, or IndexError for a page outside the document. */
  function PageTexts(pages: seq<string>, start: int, end: int): Result<seq<string>>
    decreases end - start
  {
    if end <= start then Ok([])
    else
      match PageTexts(pages, start, end - 1)
      case Err(e) => Err(e)
      case Ok(ts) => if 0 <= end - 1 < |pages| then Ok(ts + [pages[end - 1]]) else Err(IndexError)
  }

  /** `_get_content(doc, start, end)`: the page texts joined by newlines. */
  function PagesText(pages: seq<string>, start: int, end: int): Result<string>
  {
    match PageTexts(pages, start, end)
    case Err(e) => Err(e)
    case Ok(ts) => Ok(Join(ts, "\n"))
  }

  /** An empty range yields no pages, a range inside the document its slice, any other range IndexError. */
  lemma {:induction false} PageTextsSpec(pages: seq<string>, start: int, end: int)
    ensures PageTexts(pages, start, end) ==
      if end <= start then Ok([])
      else if 0 <= start && end <= |pages| then Ok(pages[start..end])
      else Err(IndexError)
    decreases end - start
  {
    if start < end {
      PageTextsSpec(pages, start, end - 1);
      if 0 <= start && end <= |pages| {
        assert pages[start..end] == pages[start..end - 1] + [pages[end - 1]];
      }
    }
  }

  /** The text of a range is empty for an empty range, the joined slice inside the document, IndexError otherwise. */
  lemma PagesTextSpec(pages: seq<string>, start: int, end: int)
    ensures PagesText(pages, start, end) ==
      if end <= start then Ok("")
      else if 0 <= start && end <= |pages| then Ok(Join(pages[start..end], "\n"))
      else Err(IndexError)
  {
    PageTextsSpec(pages, start, end);
  }

  /** The text of a range is the texts of two adjacent sub-ranges joined by a newline. */
  lemma PagesTextSplit(pages: seq<string>, a: int, b: int, c: int)
    requires 0 <= a < b < c <= |pages|
    ensures PagesText(pages, a, c).Ok? && PagesText(pages, a, b).Ok? && PagesText(pages, b, c).Ok?
    ensures PagesText(pages, a, c).value == PagesText(pages, a, b).value + "\n" + PagesText(pages, b, c).value
  {
    PagesTextSpec(pages, a, c);
    PagesTextSpec(pages, a, b);
    PagesTextSpec(pages, b, c);
    assert pages[a..c] == pages[a..b] + pages[b..c];
    JoinConcat(pages[a..b], pages[b..c], "\n");
  }

  /** The page loop of `_get_content`. */
  method GetContent(pages: seq<string>, start: int, end: int) returns (r: Result<string>)
    ensures r == PagesText(pages, start, end)
  {
    var content: seq<string> := [];
    var p := start;
    while p < end
      invariant start <= p && (p <= end || p == start)
      invariant PageTexts(pages, start, p) == Ok(content)
      decreases end - p
    {
      if !(0 <= p < |pages|) {
        PageTextsSpec(pages, start, end);
        return Err(IndexError);
      }
      content := content + [pages[p]];
      p := p + 1;
    }
    r := Ok(Join(content, "\n"));
  }

  // ---------------------------------------------------------------------------
  // Where each node's page range ends
  // ---------------------------------------------------------------------------

  function ChapterStart(ch: Chapter): int { ch.startPage }
  function SectionStart(se: Section): int { se.startPage }
  function SubsectionStart(su: Subsection): int { su.startPage }

  /** `structure.get(str(int(c) + 1), {}).get('start_page', page_count)`; `int(c)` raises ValueError on a non-number. */
  function ChapterEnd(st: Structure, c: string, pageCount: int): Result<int>
  {
    match ParseInt(c)
    case None => Err(ValueError)
    case Some(n) =>
      match Get(st, NatToString(n + 1))
      case None => Ok(pageCount)
      case Some(next) => Ok(next.startPage)
  }

  /** `min(next_start, end)`, with the lookup's error passed on. */
  function Bounded(next: Result<int>, end: int): (r: Result<int>)
    ensures r.Ok? <==> next.Ok?
    ensures r.Ok? ==> r.value <= end && (r.value == next.value || r.value == end)
  {
    match next
    case Err(e) => Err(e)
    case Ok(p) => Ok(if p < end then p else end)
  }

  function SectionEnd(secs: Dict<Section>, s: string, chapterEnd: int): Result<int>
  {
    Bounded(NextStart(MapValues(secs, SectionStart), s, chapterEnd), chapterEnd)
  }

  function SubsectionEnd(subs: Dict<Subsection>, u: string, sectionEnd: int): Result<int>
  {
    Bounded(NextStart(MapValues(subs, SubsectionStart), u, sectionEnd), sectionEnd)
  }

  /** Equal start pages under equal keys give equal lookups. */
  lemma SubsectionStartsErased(a: Dict<Subsection>, b: Dict<Subsection>)
    requires MapValues(a, EraseSubsection) == MapValues(b, EraseSubsection)
    ensures MapValues(a, SubsectionStart) == MapValues(b, SubsectionStart)
  {
    forall i | 0 <= i < |a| ensures MapValues(a, SubsectionStart)[i] == MapValues(b, SubsectionStart)[i] {
      assert MapValues(a, EraseSubsection)[i] == MapValues(b, EraseSubsection)[i];
    }
  }

  lemma SectionStartsErased(a: Dict<Section>, b: Dict<Section>)
    requires MapValues(a, EraseSection) == MapValues(b, EraseSection)
    ensures MapValues(a, SectionStart) == MapValues(b, SectionStart)
  {
    forall i | 0 <= i < |a| ensures MapValues(a, SectionStart)[i] == MapValues(b, SectionStart)[i] {
      assert MapValues(a, EraseSection)[i] == MapValues(b, EraseSection)[i];
    }
  }

  lemma ChapterEndSkeleton(a: Structure, b: Structure, c: string, pageCount: int)
    requires Skeleton(a) == Skeleton(b)
    ensures ChapterEnd(a, c, pageCount) == ChapterEnd(b, c, pageCount)
  {
    match ParseInt(c)
    case None =>
    case Some(n) =>
      var k := NatToString(n + 1);
      MapGet(a, EraseChapter, k);
      MapGet(b, EraseChapter, k);
  }

  // ---------------------------------------------------------------------------
  // The three loops of extract_content, as folds over the entries
  // ---------------------------------------------------------------------------

  /** The subsection loop over `rest`, writing into the live dict `subs`. */
  function FillSubsections(subs: Dict<Subsection>, rest: Dict<Subsection>, sectionEnd: int, pages: seq<string>): Result<Dict<Subsection>>
    decreases |rest|
  {
    if rest == [] then Ok(subs)
    else
      var (u, su) := rest[0];
      match SubsectionEnd(subs, u, sectionEnd)
      case Err(e) => Err(e)
      case Ok(end) =>
        match PagesText(pages, su.startPage, end)
        case Err(e) => Err(e)
        case Ok(text) => FillSubsections(Put(subs, u, su.(content := Some(text))), rest[1..], sectionEnd, pages)
  }

  /** The section loop over `rest`, writing into the live dict `secs`; each
      section's content is stored before its subsections are filled. */
  function FillSections(secs: Dict<Section>, rest: Dict<Section>, chapterEnd: int, pages: seq<string>): Result<Dict<Section>>
    decreases |rest|
  {
    if rest == [] then Ok(secs)
    else
      var (s, se) := rest[0];
      match SectionEnd(secs, s, chapterEnd)
      case Err(e) => Err(e)
      case Ok(end) =>
        match PagesText(pages, se.startPage, end)
        case Err(e) => Err(e)
        case Ok(text) =>
          match FillSubsections(se.subsections, se.subsections, end, pages)
          case Err(e) => Err(e)
          case Ok(subs) =>
            FillSections(Put(secs, s, se.(content := Some(text), subsections := subs)), rest[1..], chapterEnd, pages)
  }

  /** The chapter loop over `rest`, writing into the live structure `st`. */
  function FillChapters(st: Structure, rest: Structure, pages: seq<string>): Result<Structure>
    decreases |rest|
  {
    if rest == [] then Ok(st)
    else
      var (c, ch) := rest[0];
      match ChapterEnd(st, c, |pages|)
      case Err(e) => Err(e)
      case Ok(end) =>
        match PagesText(pages, ch.startPage, end)
        case Err(e) => Err(e)
        case Ok(text) =>
          match FillSections(ch.sections, ch.sections, end, pages)
          case Err(e) => Err(e)
          case Ok(secs) =>
            FillChapters(Put(st, c, ch.(content := Some(text), sections := secs)), rest[1..], pages)
  }

  /** `extract_content(structure)`. */
  function Extracted(st: Structure, pages: seq<string>): Result<Structure>
  {
    FillChapters(st, st, pages)
  }

  // ---------------------------------------------------------------------------
  // What extract_content produces
  // ---------------------------------------------------------------------------

  /** Subsection `i` holds the text of the pages from its start up to its end,
      the end computed from the dict it belongs to. */
  predicate SubsectionFilled(subs: Dict<Subsection>, i: nat, sectionEnd: int, pages: seq<string>)
    requires i < |subs|
  {
    match SubsectionEnd(subs, subs[i].0, sectionEnd)
    case Err(_) => false
    case Ok(end) => subs[i].1.content.Some? && PagesText(pages, subs[i].1.startPage, end) == Ok(subs[i].1.content.value)
  }

  predicate SubsectionsFilled(subs: Dict<Subsection>, sectionEnd: int, pages: seq<string>)
  {
    forall i :: 0 <= i < |subs| ==> SubsectionFilled(subs, i, sectionEnd, pages)
  }

  /** Section `i` holds the text of its page range, and so does each of its subsections within that range. */
  predicate SectionFilled(secs: Dict<Section>, i: nat, chapterEnd: int, pages: seq<string>)
    requires i < |secs|
  {
    match SectionEnd(secs, secs[i].0, chapterEnd)
    case Err(_) => false
    case Ok(end) =>
      && secs[i].1.content.Some? && PagesText(pages, secs[i].1.startPage, end) == Ok(secs[i].1.content.value)
      && SubsectionsFilled(secs[i].1.subsections, end, pages)
  }

  predicate SectionsFilled(secs: Dict<Section>, chapterEnd: int, pages: seq<string>)
  {
    forall i :: 0 <= i < |secs| ==> SectionFilled(secs, i, chapterEnd, pages)
  }

  /** Chapter `i` holds the text of its page range, and so does each of its sections within that range. */
  predicate ChapterFilled(st: Structure, i: nat, pages: seq<string>)
    requires i < |st|
  {
    match ChapterEnd(st, st[i].0, |pages|)
    case Err(_) => false
    case Ok(end) =>
      && st[i].1.content.Some? && PagesText(pages, st[i].1.startPage, end) == Ok(st[i].1.content.value)
      && SectionsFilled(st[i].1.sections, end, pages)
  }

  predicate ChaptersFilled(st: Structure, pages: seq<string>)
  {
    forall i :: 0 <= i < |st| ==> ChapterFilled(st, i, pages)
  }

  /** One pass of the subsection loop fills entry `j` and keeps the earlier ones filled. */
  lemma SubsectionStep(subs0: Dict<Subsection>, j: nat, subs: Dict<Subsection>, sectionEnd: int, pages: seq<string>, end: int, text: string)
    requires IsDict(subs0) && j < |subs0|
    requires MapValues(subs, EraseSubsection) == MapValues(subs0, EraseSubsection)
    requires forall i :: 0 <= i < j ==> SubsectionFilled(subs, i, sectionEnd, pages)
    requires SubsectionEnd(subs, subs0[j].0, sectionEnd) == Ok(end)
    requires PagesText(pages, subs0[j].1.startPage, end) == Ok(text)
    ensures var subs' := Put(subs, subs0[j].0, subs0[j].1.(content := Some(text)));
      && MapValues(subs', EraseSubsection) == MapValues(subs0, EraseSubsection)
      && forall i :: 0 <= i <= j ==> SubsectionFilled(subs', i, sectionEnd, pages)
  {
    var (u, su) := subs0[j];
    var su' := su.(content := Some(text));
    GetAt(subs0, j);
    FindDependsOnKeys(subs, subs0, u);
    PutAt(subs, u, su', j);
    var subs' := subs[j := (u, su')];
    assert MapValues(subs, EraseSubsection)[j] == MapValues(subs0, EraseSubsection)[j];
    assert MapValues(subs', EraseSubsection) == MapValues(subs, EraseSubsection);
    SubsectionStartsErased(subs', subs);
    forall i | 0 <= i <= j ensures SubsectionFilled(subs', i, sectionEnd, pages) {
      if i < j {
        assert subs'[i] == subs[i];
        assert SubsectionFilled(subs, i, sectionEnd, pages);
      }
    }
  }

  /** The subsection loop, once it succeeds, leaves every subsection filled and the skeleton as it was. */
  lemma {:induction false} FillSubsectionsFilled(subs0: Dict<Subsection>, j: nat, subs: Dict<Subsection>, sectionEnd: int, pages: seq<string>)
    requires IsDict(subs0) && j <= |subs0|
    requires MapValues(subs, EraseSubsection) == MapValues(subs0, EraseSubsection)
    requires forall i :: 0 <= i < j ==> SubsectionFilled(subs, i, sectionEnd, pages)
    ensures var r := FillSubsections(subs, subs0[j..], sectionEnd, pages);
      r.Ok? ==> MapValues(r.value, EraseSubsection) == MapValues(subs0, EraseSubsection) && SubsectionsFilled(r.value, sectionEnd, pages)
    decreases |subs0| - j
  {
    if j < |subs0| {
      var (u, su) := subs0[j];
      assert subs0[j..][0] == (u, su) && subs0[j..][1..] == subs0[j + 1..];
      match SubsectionEnd(subs, u, sectionEnd)
      case Err(_) =>
      case Ok(end) =>
        match PagesText(pages, su.startPage, end)
        case Err(_) =>
        case Ok(text) =>
          SubsectionStep(subs0, j, subs, sectionEnd, pages, end, text);
          FillSubsectionsFilled(subs0, j + 1, Put(subs, u, su.(content := Some(text))), sectionEnd, pages);
    } else {
      assert subs0[j..] == [];
    }
  }

  /** One pass of the section loop fills entry `j` and keeps the earlier ones filled. */
  lemma SectionStep(secs0: Dict<Section>, j: nat, secs: Dict<Section>, chapterEnd: int, pages: seq<string>,
                    end: int, text: string, subs: Dict<Subsection>)
    requires SectionsAreTrees(secs0) && j < |secs0|
    requires MapValues(secs, EraseSection) == MapValues(secs0, EraseSection)
    requires forall i :: 0 <= i < j ==> SectionFilled(secs, i, chapterEnd, pages)
    requires SectionEnd(secs, secs0[j].0, chapterEnd) == Ok(end)
    requires PagesText(pages, secs0[j].1.startPage, end) == Ok(text)
    requires MapValues(subs, EraseSubsection) == MapValues(secs0[j].1.subsections, EraseSubsection)
    requires SubsectionsFilled(subs, end, pages)
    ensures var secs' := Put(secs, secs0[j].0, secs0[j].1.(content := Some(text), subsections := subs));
      && MapValues(secs', EraseSection) == MapValues(secs0, EraseSection)
      && forall i :: 0 <= i <= j ==> SectionFilled(secs', i, chapterEnd, pages)
  {
    var (s, se) := secs0[j];
    var se' := se.(content := Some(text), subsections := subs);
    assert EraseSection(se') == EraseSection(se);
    GetAt(secs0, j);
    FindDependsOnKeys(secs, secs0, s);
    PutAt(secs, s, se', j);
    var secs' := secs[j := (s, se')];
    assert MapValues(secs, EraseSection)[j] == MapValues(secs0, EraseSection)[j];
    assert MapValues(secs', EraseSection) == MapValues(secs, EraseSection);
    SectionStartsErased(secs', secs);
    forall i | 0 <= i <= j ensures SectionFilled(secs', i, chapterEnd, pages) {
      if i < j {
        assert secs'[i] == secs[i];
        assert SectionFilled(secs, i, chapterEnd, pages);
      }
    }
  }

  /** The section loop, once it succeeds, leaves every section and subsection filled and the skeleton as it was. */
  lemma {:induction false} FillSectionsFilled(secs0: Dict<Section>, j: nat, secs: Dict<Section>, chapterEnd: int, pages: seq<string>)
    requires SectionsAreTrees(secs0) && j <= |secs0|
    requires MapValues(secs, EraseSection) == MapValues(secs0, EraseSection)
    requires forall i :: 0 <= i < j ==> SectionFilled(secs, i, chapterEnd, pages)
    ensures var r := FillSections(secs, secs0[j..], chapterEnd, pages);
      r.Ok? ==> MapValues(r.value, EraseSection) == MapValues(secs0, EraseSection) && SectionsFilled(r.value, chapterEnd, pages)
    decreases |secs0| - j
  {
    if j < |secs0| {
      var (s, se) := secs0[j];
      assert secs0[j..][0] == (s, se) && secs0[j..][1..] == secs0[j + 1..];
      match SectionEnd(secs, s, chapterEnd)
      case Err(_) =>
      case Ok(end) =>
        match PagesText(pages, se.startPage, end)
        case Err(_) =>
        case Ok(text) =>
          assert IsDict(se.subsections);
          FillSubsectionsFilled(se.subsections, 0, se.subsections, end, pages);
          assert se.subsections[0..] == se.subsections;
          match FillSubsections(se.subsections, se.subsections, end, pages)
          case Err(_) =>
          case Ok(subs) =>
            SectionStep(secs0, j, secs, chapterEnd, pages, end, text, subs);
            FillSectionsFilled(secs0, j + 1, Put(secs, s, se.(content := Some(text), subsections := subs)), chapterEnd, pages);
    } else {
      assert secs0[j..] == [];
    }
  }

  /** One pass of the chapter loop fills entry `j` and keeps the earlier ones filled. */
  lemma ChapterStep(st0: Structure, j: nat, st: Structure, pages: seq<string>, end: int, text: string, secs: Dict<Section>)
    requires IsTree(st0) && j < |st0|
    requires Skeleton(st) == Skeleton(st0)
    requires forall i :: 0 <= i < j ==> ChapterFilled(st, i, pages)
    requires ChapterEnd(st, st0[j].0, |pages|) == Ok(end)
    requires PagesText(pages, st0[j].1.startPage, end) == Ok(text)
    requires MapValues(secs, EraseSection) == MapValues(st0[j].1.sections, EraseSection)
    requires SectionsFilled(secs, end, pages)
    ensures var st' := Put(st, st0[j].0, st0[j].1.(content := Some(text), sections := secs));
      && Skeleton(st') == Skeleton(st0)
      && forall i :: 0 <= i <= j ==> ChapterFilled(st', i, pages)
  {
    var (c, ch) := st0[j];
    var ch' := ch.(content := Some(text), sections := secs);
    assert EraseChapter(ch') == EraseChapter(ch);
    GetAt(st0, j);
    FindDependsOnKeys(st, st0, c);
    PutAt(st, c, ch', j);
    var st' := st[j := (c, ch')];
    assert Skeleton(st)[j] == Skeleton(st0)[j];
    assert Skeleton(st') == Skeleton(st);
    forall i | 0 <= i <= j ensures ChapterFilled(st', i, pages) {
      ChapterEndSkeleton(st', st, st'[i].0, |pages|);
      if i < j {
        assert st'[i] == st[i];
        assert ChapterFilled(st, i, pages);
      }
    }
  }

  lemma {:induction false} FillChaptersFilled(st0: Structure, j: nat, st: Structure, pages: seq<string>)
    requires IsTree(st0) && j <= |st0|
    requires Skeleton(st) == Skeleton(st0)
    requires forall i :: 0 <= i < j ==> ChapterFilled(st, i, pages)
    ensures var r := FillChapters(st, st0[j..], pages);
      r.Ok? ==> Skeleton(r.value) == Skeleton(st0) && ChaptersFilled(r.value, pages)
    decreases |st0| - j
  {
    if j < |st0| {
      var (c, ch) := st0[j];
      assert st0[j..][0] == (c, ch) && st0[j..][1..] == st0[j + 1..];
      match ChapterEnd(st, c, |pages|)
      case Err(_) =>
      case Ok(end) =>
        match PagesText(pages, ch.startPage, end)
        case Err(_) =>
        case Ok(text) =>
          assert ChapterIsTree(ch);
          FillSectionsFilled(ch.sections, 0, ch.sections, end, pages);
          assert ch.sections[0..] == ch.sections;
          match FillSections(ch.sections, ch.sections, end, pages)
          case Err(_) =>
          case Ok(secs) =>
            ChapterStep(st0, j, st, pages, end, text, secs);
            FillChaptersFilled(st0, j + 1, Put(st, c, ch.(content := Some(text), sections := secs)), pages);
    } else {
      assert st0[j..] == [];
    }
  }

  /** A successful extraction keeps every key, title and start page, and gives
      every chapter, section and subsection the text of its page range. */
  lemma ExtractedFilled(st: Structure, pages: seq<string>)
    requires IsTree(st)
    ensures Extracted(st, pages).Ok? ==> Skeleton(Extracted(st, pages).value) == Skeleton(st)
    ensures Extracted(st, pages).Ok? ==> ChaptersFilled(Extracted(st, pages).value, pages)
  {
    FillChaptersFilled(st, 0, st, pages);
    assert st[0..] == st;
  }

  /** A chapter key that `int()` rejects makes the extraction fail. */
  lemma ExtractNeedsNumericChapters(st: Structure, pages: seq<string>, i: nat)
    requires IsTree(st) && i < |st| && ParseInt(st[i].0).None?
    ensures Extracted(st, pages).Err?
  {
    ExtractedFilled(st, pages);
    if Extracted(st, pages).Ok? {
      var r := Extracted(st, pages).value;
      assert Keys(Skeleton(r)) == Keys(Skeleton(st));
      assert r[i].0 == st[i].0;
      assert ChapterFilled(r, i, pages);
    }
  }

  // ---------------------------------------------------------------------------
  // The methods
  // ---------------------------------------------------------------------------

  method ExtractContent(st0: Structure, pages: seq<string>) returns (r: Result<Structure>)
    ensures r == Extracted(st0, pages)
  {
    var st := st0;
    var i := 0;
    while i < |st0|
      invariant i <= |st0|
      invariant FillChapters(st, st0[i..], pages) == Extracted(st0, pages)
    {
      var (c, ch) := st0[i];
      assert st0[i..][0] == (c, ch) && st0[i..][1..] == st0[i + 1..];
      var end := ChapterEnd(st, c, |pages|);
      if end.Err? {
        return Err(end.error);
      }
      var text := GetContent(pages, ch.startPage, end.value);
      if text.Err? {
        return Err(text.error);
      }
      var secs := SectionContents(ch.sections, end.value, pages);
      if secs.Err? {
        return Err(secs.error);
      }
      st := Put(st, c, ch.(content := Some(text.value), sections := secs.value));
      i := i + 1;
    }
    r := Ok(st);
  }

  method SectionContents(secs0: Dict<Section>, chapterEnd: int, pages: seq<string>) returns (r: Result<Dict<Section>>)
    ensures r == FillSections(secs0, secs0, chapterEnd, pages)
  {
    var secs := secs0;
    var i := 0;
    while i < |secs0|
      invariant i <= |secs0|
      invariant FillSections(secs, secs0[i..], chapterEnd, pages) == FillSections(secs0, secs0, chapterEnd, pages)
    {
      var (s, se) := secs0[i];
      assert secs0[i..][0] == (s, se) && secs0[i..][1..] == secs0[i + 1..];
      var end := SectionEnd(secs, s, chapterEnd);
      if end.Err? {
        return Err(end.error);
      }
      var text := GetContent(pages, se.startPage, end.value);
      if text.Err? {
        return Err(text.error);
      }
      var subs := SubsectionContents(se.subsections, end.value, pages);
      if subs.Err? {
        return Err(subs.error);
      }
      secs := Put(secs, s, se.(content := Some(text.value), subsections := subs.value));
      i := i + 1;
    }
    r := Ok(secs);
  }

  method SubsectionContents(subs0: Dict<Subsection>, sectionEnd: int, pages: seq<string>) returns (r: Result<Dict<Subsection>>)
    ensures r == FillSubsections(subs0, subs0, sectionEnd, pages)
  {
    var subs := subs0;
    var i := 0;
    while i < |subs0|
      invariant i <= |subs0|
      invariant FillSubsections(subs, subs0[i..], sectionEnd, pages) == FillSubsections(subs0, subs0, sectionEnd, pages)
    {
      var (u, su) := subs0[i];
      assert subs0[i..][0] == (u, su) && subs0[i..][1..] == subs0[i + 1..];
      var end := SubsectionEnd(subs, u, sectionEnd);
      if end.Err? {
        return Err(end.error);
      }
      var text := GetContent(pages, su.startPage, end.value);
      if text.Err? {
        return Err(text.error);
      }
      subs := Put(subs, u, su.(content := Some(text.value)));
      i := i + 1;
    }
    r := Ok(subs);
  }
}
