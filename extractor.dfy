/** `StructureExtractor.extract_structure`: a single pass over the table of
    contents that builds the chapter / section / subsection tree. The node
    kind of a level-2 or level-3 entry is decided by the shape of its number,
    not by its level. */
module Extractor {
  import opened Wrappers
  import opened Dicts
  import opened PyStrings
  import opened Headings
  import opened BookTree

  /** One `(level, title, page)` entry of the table of contents; pages count from 1. */
  type TocEntry = (int, string, int)

  /** The loop variables `structure`, `current_chapter` and `current_section`. */
  datatype BuildState = BuildState(structure: Structure, currentChapter: Option<string>, currentSection: Option<string>)

  const Initial: BuildState := BuildState([], None, None)

  /** The chapter number and title computed for an entry: parsed only at level 1. */
  function ChapterPart(e: TocEntry): (string, string)
  {
    if e.0 == 1 then ParseChapter(e.1) else ("", "")
  }

  /** The section number and title computed for an entry: parsed only at levels
      2 and 3, and only once some chapter has been seen. */
  function SectionPart(currentChapter: Option<string>, e: TocEntry): (string, string)
  {
    if (e.0 == 2 || e.0 == 3) && currentChapter.Some? then ParseSection(e.1) else ("", "")
  }

  /** The nodes the loop creates; `page - 1` turns the 1-based TOC page into a 0-based index. */
  function NewChapter(title: string, page: int): Chapter
  {
    Chapter(title, page - 1, [], None, None)
  }

  function NewSection(title: string, page: int): Section
  {
    Section(title, page - 1, [], None, None)
  }

  function NewSubsection(title: string, page: int): Subsection
  {
    Subsection(title, page - 1, None, None)
  }

  /** `structure[current_chapter]["sections"][num] = section`; `current_section = num`.
      Indexing with a chapter that is not a key raises KeyError. */
  function AddSection(st: BuildState, num: string, section: Section): Result<BuildState>
  {
    match st.currentChapter
    case None => Err(KeyError)
    case Some(c) =>
      match Get(st.structure, c)
      case None => Err(KeyError)
      case Some(ch) =>
        Ok(BuildState(Put(st.structure, c, ch.(sections := Put(ch.sections, num, section))), st.currentChapter, Some(num)))
  }

  /** `structure[current_chapter]["sections"][current_section]["subsections"][num] = subsection`. */
  function AddSubsection(st: BuildState, num: string, subsection: Subsection): Result<BuildState>
  {
    match (st.currentChapter, st.currentSection)
    case (Some(c), Some(s)) =>
      (match Get(st.structure, c)
       case None => Err(KeyError)
       case Some(ch) =>
         match Get(ch.sections, s)
         case None => Err(KeyError)
         case Some(se) =>
           var se' := se.(subsections := Put(se.subsections, num, subsection));
           Ok(BuildState(Put(st.structure, c, ch.(sections := Put(ch.sections, s, se'))), st.currentChapter, st.currentSection)))
    case _ => Err(KeyError)
  }

  /** The branches of the loop body, once the chapter and section parts are computed. */
  function Branch(st: BuildState, page: int, chapterNum: string, chapterTitle: string,
                  sectionNum: string, sectionTitle: string): Result<BuildState>
  {
    if chapterNum != "" then
      Ok(BuildState(Put(st.structure, chapterNum, NewChapter(chapterTitle, page)), Some(chapterNum), st.currentSection))
    else if sectionNum != "" then
      if IsSection(sectionNum) then
        AddSection(st, sectionNum, NewSection(sectionTitle, page))
      else if IsSubsection(sectionNum) && st.currentSection.Some? then
        AddSubsection(st, sectionNum, NewSubsection(sectionTitle, page))
      else Ok(st)
    else Ok(st)
  }

  /** One iteration of the loop over the table of contents. */
  function Step(st: BuildState, e: TocEntry): Result<BuildState>
  {
    var chapter := ChapterPart(e);
    var section := SectionPart(st.currentChapter, e);
    Branch(st, e.2, chapter.0, chapter.1, section.0, section.1)
  }

  /** The loop from state `st` over the remaining entries; the first KeyError ends it. */
  function Run(st: BuildState, toc: seq<TocEntry>): Result<BuildState>
    decreases |toc|
  {
    if toc == [] then Ok(st)
    else
      match Step(st, toc[0])
      case Err(e) => Err(e)
      case Ok(st') => Run(st', toc[1..])
  }

  /** What `extract_structure` returns or raises for a table of contents. */
  function Built(toc: seq<TocEntry>): Result<Structure>
  {
    match Run(Initial, toc)
    case Err(e) => Err(e)
    case Ok(b) => Ok(b.structure)
  }

  lemma RunOk(st: BuildState, toc: seq<TocEntry>, i: nat, st': BuildState)
    requires i < |toc| && Step(st, toc[i]) == Ok(st')
    ensures Run(st, toc[i..]) == Run(st', toc[i + 1..])
  {
    assert toc[i..][0] == toc[i] && toc[i..][1..] == toc[i + 1..];
  }

  lemma RunErr(st: BuildState, toc: seq<TocEntry>, i: nat)
    requires i < |toc| && Step(st, toc[i]).Err?
    ensures Run(st, toc[i..]) == Err(Step(st, toc[i]).error)
  {
    assert toc[i..][0] == toc[i];
  }

  // ---------------------------------------------------------------------------
  // The loop, as the source writes it
  // ---------------------------------------------------------------------------

  /** `extract_structure`, with the table of contents given instead of read from the document. */
  method ExtractStructure(toc: seq<TocEntry>) returns (r: Result<Structure>)
    ensures r == Built(toc)
  {
    var st := Initial;
    var i := 0;
    assert toc[0..] == toc;
    while i < |toc|
      invariant 0 <= i <= |toc|
      invariant Run(st, toc[i..]) == Run(Initial, toc)
    {
      var next := ApplyEntry(st, toc[i]);
      if next.Err? {
        RunErr(st, toc, i);
        return Err(next.error);
      }
      RunOk(st, toc, i, next.value);
      st := next.value;
      i := i + 1;
    }
    assert toc[i..] == [];
    return Ok(st.structure);
  }

  /** The body of the loop of `extract_structure` for one entry. */
  method ApplyEntry(st: BuildState, e: TocEntry) returns (r: Result<BuildState>)
    ensures r == Step(st, e)
  {
    var chapter := ChapterPart(e);
    var section := SectionPart(st.currentChapter, e);
    r := ApplyBranch(st, e.2, chapter.0, chapter.1, section.0, section.1);
  }

  /** The branches of the loop body, updating the loop variables. */
  method ApplyBranch(st: BuildState, page: int, chapterNum: string, chapterTitle: string,
                     sectionNum: string, sectionTitle: string) returns (r: Result<BuildState>)
    ensures r == Branch(st, page, chapterNum, chapterTitle, sectionNum, sectionTitle)
  {
    var structure, currentChapter, currentSection := st.structure, st.currentChapter, st.currentSection;
    if chapterNum != "" {
      currentChapter := Some(chapterNum);
      structure := Put(structure, chapterNum, NewChapter(chapterTitle, page));
    } else if sectionNum != "" {
      if IsSection(sectionNum) {
        currentSection := Some(sectionNum);
        if currentChapter.None? {
          return Err(KeyError);
        }
        var found := Get(structure, currentChapter.value);
        if found.None? {
          return Err(KeyError);
        }
        var ch := found.value;
        structure := Put(structure, currentChapter.value, ch.(sections := Put(ch.sections, sectionNum, NewSection(sectionTitle, page))));
      } else if IsSubsection(sectionNum) && currentSection.Some? {
        if currentChapter.None? {
          return Err(KeyError);
        }
        var found := Get(structure, currentChapter.value);
        if found.None? {
          return Err(KeyError);
        }
        var ch := found.value;
        var inChapter := Get(ch.sections, currentSection.value);
        if inChapter.None? {
          return Err(KeyError);
        }
        var se := inChapter.value;
        var se' := se.(subsections := Put(se.subsections, sectionNum, NewSubsection(sectionTitle, page)));
        structure := Put(structure, currentChapter.value, ch.(sections := Put(ch.sections, currentSection.value, se')));
      }
    }
    return Ok(BuildState(structure, currentChapter, currentSection));
  }

  // ---------------------------------------------------------------------------
  // What one entry does
  // ---------------------------------------------------------------------------

  /** A level-1 entry with a chapter number binds that number to a fresh
      chapter with no sections (replacing an earlier chapter of the same
      number in place) and makes it current; every other chapter and the
      current section are left as they were. */
  lemma StepChapter(st: BuildState, e: TocEntry)
    requires e.0 == 1 && ParseChapter(e.1).0 != ""
    ensures var num := ParseChapter(e.1).0;
      && Step(st, e).Ok?
      && Get(Step(st, e).value.structure, num) == Some(NewChapter(ParseChapter(e.1).1, e.2))
      && Keys(Step(st, e).value.structure) == (if HasKey(st.structure, num) then Keys(st.structure) else Keys(st.structure) + [num])
      && (forall k :: k != num ==> Get(Step(st, e).value.structure, k) == Get(st.structure, k))
      && Step(st, e).value.currentChapter == Some(num)
      && Step(st, e).value.currentSection == st.currentSection
  {
    var p := ParseChapter(e.1);
    assert Step(st, e) == Branch(st, e.2, p.0, p.1, "", "");
  }

  /** A level-1 entry without a chapter number changes nothing: no fallback
      number is invented for it. */
  lemma StepUnnumberedChapter(st: BuildState, e: TocEntry)
    requires e.0 == 1 && ParseChapter(e.1).0 == ""
    ensures Step(st, e) == Ok(st)
  {
    var p := ParseChapter(e.1);
    assert Step(st, e) == Branch(st, e.2, p.0, p.1, "", "");
  }

  /** Entries of any level other than 1 are ignored until a chapter has been seen. */
  lemma StepBeforeChapter(st: BuildState, e: TocEntry)
    requires st.currentChapter.None? && e.0 != 1
    ensures Step(st, e) == Ok(st)
  {
    assert Step(st, e) == Branch(st, e.2, "", "", "", "");
  }

  /** Levels 2 and 3 are treated alike. */
  lemma StepLevelsAlike(st: BuildState, title: string, page: int)
    ensures Step(st, (2, title, page)) == Step(st, (3, title, page))
  {
    assert ChapterPart((2, title, page)) == ChapterPart((3, title, page)) == ("", "");
    assert SectionPart(st.currentChapter, (2, title, page)) == SectionPart(st.currentChapter, (3, title, page));
  }

  /** The facts about an entry at level 2 or 3 under a current chapter. */
  predicate SectionEntry(st: BuildState, e: TocEntry)
  {
    (e.0 == 2 || e.0 == 3) && st.currentChapter.Some? && ParseSection(e.1).0 != ""
  }

  lemma SectionEntryStep(st: BuildState, e: TocEntry)
    requires SectionEntry(st, e)
    ensures Step(st, e) == Branch(st, e.2, "", "", ParseSection(e.1).0, ParseSection(e.1).1)
  {
  }

  /** A section-shaped number makes a fresh section under the current chapter
      (replacing one of the same number in place) and makes it the current section. */
  lemma StepSection(st: BuildState, e: TocEntry)
    requires SectionEntry(st, e) && IsSection(ParseSection(e.1).0)
    ensures var (num, title) := ParseSection(e.1);
      match Get(st.structure, st.currentChapter.value)
      case None => Step(st, e) == Err(KeyError)
      case Some(ch) =>
        Step(st, e) == Ok(BuildState(
          Put(st.structure, st.currentChapter.value, ch.(sections := Put(ch.sections, num, NewSection(title, e.2)))),
          st.currentChapter, Some(num)))
  {
    SectionEntryStep(st, e);
  }

  /** A subsection-shaped number goes under the current section of the current
      chapter, and raises KeyError when the current chapter has no such section. */
  lemma StepSubsection(st: BuildState, e: TocEntry)
    requires SectionEntry(st, e) && !IsSection(ParseSection(e.1).0) && IsSubsection(ParseSection(e.1).0)
    requires st.currentSection.Some?
    ensures var (num, title) := ParseSection(e.1);
      var (c, s) := (st.currentChapter.value, st.currentSection.value);
      match Get(st.structure, c)
      case None => Step(st, e) == Err(KeyError)
      case Some(ch) =>
        match Get(ch.sections, s)
        case None => Step(st, e) == Err(KeyError)
        case Some(se) =>
          Step(st, e) == Ok(BuildState(
            Put(st.structure, c, ch.(sections := Put(ch.sections, s, se.(subsections := Put(se.subsections, num, NewSubsection(title, e.2)))))),
            st.currentChapter, st.currentSection))
  {
    SectionEntryStep(st, e);
  }

  /** A number of any other shape, or a subsection number with no current section, is dropped. */
  lemma StepOtherShape(st: BuildState, e: TocEntry)
    requires SectionEntry(st, e) && !IsSection(ParseSection(e.1).0)
    requires !(IsSubsection(ParseSection(e.1).0) && st.currentSection.Some?)
    ensures Step(st, e) == Ok(st)
  {
    SectionEntryStep(st, e);
  }

  /** In particular a number of four or more groups is dropped. */
  lemma StepManyGroups(st: BuildState, e: TocEntry, n: nat)
    requires (e.0 == 2 || e.0 == 3) && GroupCount(ParseSection(e.1).0) == Some(n) && n >= 4
    ensures Step(st, e) == Ok(st)
  {
    var num := ParseSection(e.1).0;
    IsSectionGroups(num);
    if st.currentChapter.Some? {
      SectionEntryStep(st, e);
    } else {
      StepBeforeChapter(st, e);
    }
  }

  /** `current_section` survives a new chapter, so a subsection that follows a
      chapter entry before any section of that chapter raises KeyError. */
  lemma StaleSection(st: BuildState, chapterEntry: TocEntry, subsectionEntry: TocEntry)
    requires chapterEntry.0 == 1 && ParseChapter(chapterEntry.1).0 != ""
    requires subsectionEntry.0 == 2 || subsectionEntry.0 == 3
    requires var n := ParseSection(subsectionEntry.1).0; n != "" && !IsSection(n) && IsSubsection(n)
    requires st.currentSection.Some?
    ensures Run(st, [chapterEntry, subsectionEntry]) == Err(KeyError)
  {
    StepChapter(st, chapterEntry);
    var st1 := Step(st, chapterEntry).value;
    var c := ParseChapter(chapterEntry.1).0;
    assert SectionEntry(st1, subsectionEntry);
    StepSubsection(st1, subsectionEntry);
    assert Get(st1.structure, c) == Some(NewChapter(ParseChapter(chapterEntry.1).1, chapterEntry.2));
    assert Get<Section>([], st.currentSection.value).None?;
    assert [chapterEntry, subsectionEntry][1..] == [subsectionEntry];
  }

  // ---------------------------------------------------------------------------
  // What the loop keeps true
  // ---------------------------------------------------------------------------

  /** A chapter as the loop builds it: a non-empty number of digits, a cleaned
      title, no content yet, and well-formed sections. */
  predicate ChapterShaped(k: string, ch: Chapter)
  {
    && k != "" && AllDigits(k) && Normalized(ch.title) && ch.content.None? && ch.note.None?
    && forall j :: 0 <= j < |ch.sections| ==> SectionShaped(ch.sections[j].0, ch.sections[j].1)
  }

  /** A section: one or two digit groups, a cleaned title, well-formed subsections. */
  predicate SectionShaped(k: string, se: Section)
  {
    && (GroupCount(k) == Some(1) || GroupCount(k) == Some(2)) && Normalized(se.title)
    && se.content.None? && se.note.None?
    && forall j :: 0 <= j < |se.subsections| ==> SubsectionShaped(se.subsections[j].0, se.subsections[j].1)
  }

  /** A subsection: three digit groups and a cleaned title. */
  predicate SubsectionShaped(k: string, su: Subsection)
  {
    GroupCount(k) == Some(3) && Normalized(su.title) && su.content.None? && su.note.None?
  }

  predicate Shaped(st: Structure)
  {
    forall i :: 0 <= i < |st| ==> ChapterShaped(st[i].0, st[i].1)
  }

  /** The current chapter is a key of the tree, and a current section implies a current chapter. */
  predicate Pointers(b: BuildState)
  {
    && (b.currentChapter.Some? ==> HasKey(b.structure, b.currentChapter.value))
    && (b.currentSection.Some? ==> b.currentChapter.Some?)
  }

  predicate Inv(b: BuildState)
  {
    IsTree(b.structure) && Shaped(b.structure) && Pointers(b)
  }

  /** What the parsers guarantee about the parts of an entry. */
  predicate PartsOk(chapterNum: string, chapterTitle: string, sectionNum: string, sectionTitle: string)
  {
    && (chapterNum != "" ==> AllDigits(chapterNum) && Normalized(chapterTitle))
    && (sectionNum != "" ==> GroupCount(sectionNum).Some? && Normalized(sectionTitle))
  }

  lemma StepParts(st: BuildState, e: TocEntry)
    ensures var (c, s) := (ChapterPart(e), SectionPart(st.currentChapter, e)); PartsOk(c.0, c.1, s.0, s.1)
  {
    ParseChapterShape(e.1);
    ParseSectionShape(e.1);
  }

  /** Every state the loop reaches satisfies Inv. */
  lemma StepInv(st: BuildState, e: TocEntry)
    requires Inv(st) && Step(st, e).Ok?
    ensures Inv(Step(st, e).value)
  {
    var c, s := ChapterPart(e), SectionPart(st.currentChapter, e);
    StepParts(st, e);
    BranchInv(st, e.2, c.0, c.1, s.0, s.1);
  }

  lemma BranchInv(st: BuildState, page: int, chapterNum: string, chapterTitle: string, sectionNum: string, sectionTitle: string)
    requires Inv(st) && PartsOk(chapterNum, chapterTitle, sectionNum, sectionTitle)
    requires Branch(st, page, chapterNum, chapterTitle, sectionNum, sectionTitle).Ok?
    ensures Inv(Branch(st, page, chapterNum, chapterTitle, sectionNum, sectionTitle).value)
  {
    if chapterNum != "" {
      ChapterInv(st, chapterNum, NewChapter(chapterTitle, page));
    } else if sectionNum != "" {
      IsSectionGroups(sectionNum);
      if IsSection(sectionNum) {
        SectionInv(st, sectionNum, NewSection(sectionTitle, page));
      } else if IsSubsection(sectionNum) && st.currentSection.Some? {
        SubsectionInv(st, sectionNum, NewSubsection(sectionTitle, page));
      }
    }
  }

  lemma ChapterInv(st: BuildState, num: string, ch: Chapter)
    requires Inv(st) && ChapterShaped(num, ch) && ch.sections == []
    ensures Inv(BuildState(Put(st.structure, num, ch), Some(num), st.currentSection))
  {
    PutIsDict(st.structure, num, ch);
    PutAll(st.structure, num, ch, (x: (string, Chapter)) => ChapterIsTree(x.1));
    PutAll(st.structure, num, ch, (x: (string, Chapter)) => ChapterShaped(x.0, x.1));
  }

  /** An element of a dict satisfies what every binding satisfies. */
  lemma GetHolds<V>(d: Dict<V>, k: string, P: ((string, V)) -> bool)
    requires forall i :: 0 <= i < |d| ==> P(d[i])
    requires Get(d, k).Some?
    ensures P((k, Get(d, k).value))
  {
    var i := Find(d, k).value;
    assert d[i] == (k, Get(d, k).value);
  }

  lemma SectionInv(st: BuildState, num: string, se: Section)
    requires Inv(st) && SectionShaped(num, se) && se.subsections == []
    requires AddSection(st, num, se).Ok?
    ensures Inv(AddSection(st, num, se).value)
  {
    var c := st.currentChapter.value;
    var ch := Get(st.structure, c).value;
    GetHolds(st.structure, c, (x: (string, Chapter)) => ChapterIsTree(x.1));
    GetHolds(st.structure, c, (x: (string, Chapter)) => ChapterShaped(x.0, x.1));
    var ch' := ch.(sections := Put(ch.sections, num, se));
    PutIsDict(ch.sections, num, se);
    PutAll(ch.sections, num, se, (x: (string, Section)) => IsDict(x.1.subsections));
    PutAll(ch.sections, num, se, (x: (string, Section)) => SectionShaped(x.0, x.1));
    assert ChapterIsTree(ch') && ChapterShaped(c, ch');
    ChapterReplaced(st, c, ch', Some(num));
    assert AddSection(st, num, se).value == BuildState(Put(st.structure, c, ch'), st.currentChapter, Some(num));
  }

  lemma SubsectionInv(st: BuildState, num: string, su: Subsection)
    requires Inv(st) && SubsectionShaped(num, su)
    requires AddSubsection(st, num, su).Ok?
    ensures Inv(AddSubsection(st, num, su).value)
  {
    var c, s := st.currentChapter.value, st.currentSection.value;
    var ch := Get(st.structure, c).value;
    GetHolds(st.structure, c, (x: (string, Chapter)) => ChapterIsTree(x.1));
    GetHolds(st.structure, c, (x: (string, Chapter)) => ChapterShaped(x.0, x.1));
    var se := Get(ch.sections, s).value;
    GetHolds(ch.sections, s, (x: (string, Section)) => IsDict(x.1.subsections));
    GetHolds(ch.sections, s, (x: (string, Section)) => SectionShaped(x.0, x.1));
    var se' := se.(subsections := Put(se.subsections, num, su));
    PutIsDict(se.subsections, num, su);
    PutAll(se.subsections, num, su, (x: (string, Subsection)) => SubsectionShaped(x.0, x.1));
    assert SectionShaped(s, se');
    var ch' := ch.(sections := Put(ch.sections, s, se'));
    PutIsDict(ch.sections, s, se');
    PutAll(ch.sections, s, se', (x: (string, Section)) => IsDict(x.1.subsections));
    PutAll(ch.sections, s, se', (x: (string, Section)) => SectionShaped(x.0, x.1));
    assert ChapterIsTree(ch') && ChapterShaped(c, ch');
    ChapterReplaced(st, c, ch', st.currentSection);
    assert AddSubsection(st, num, su).value == BuildState(Put(st.structure, c, ch'), st.currentChapter, st.currentSection);
  }

  /** Rebinding the current chapter to a well-formed node keeps Inv. */
  lemma ChapterReplaced(st: BuildState, c: string, ch': Chapter, s: Option<string>)
    requires Inv(st) && st.currentChapter == Some(c) && ChapterIsTree(ch') && ChapterShaped(c, ch')
    ensures Inv(BuildState(Put(st.structure, c, ch'), st.currentChapter, s))
  {
    PutIsDict(st.structure, c, ch');
    PutAll(st.structure, c, ch', (x: (string, Chapter)) => ChapterIsTree(x.1));
    PutAll(st.structure, c, ch', (x: (string, Chapter)) => ChapterShaped(x.0, x.1));
  }

  lemma {:induction false} RunInv(st: BuildState, toc: seq<TocEntry>)
    requires Inv(st)
    ensures Run(st, toc).Ok? ==> Inv(Run(st, toc).value)
    decreases |toc|
  {
    if toc != [] && Step(st, toc[0]).Ok? {
      StepInv(st, toc[0]);
      RunInv(Step(st, toc[0]).value, toc[1..]);
    }
  }

  /** The tree `extract_structure` returns has distinct keys at every level,
      chapter numbers of digits, section numbers of one or two groups,
      subsection numbers of three groups, and cleaned titles. */
  lemma BuiltWellFormed(toc: seq<TocEntry>)
    ensures Built(toc).Ok? ==> IsTree(Built(toc).value) && Shaped(Built(toc).value)
  {
    RunInv(Initial, toc);
  }

  /** An orphan subsection: a subsection-shaped entry whose current section is
      not a section of the current chapter. */
  predicate OrphanSubsection(st: BuildState, e: TocEntry)
  {
    SectionEntry(st, e) && Orphan(st, ParseSection(e.1).0)
  }

  /** `num` is a subsection number and the current section is not a section of the current chapter. */
  predicate Orphan(st: BuildState, num: string)
    requires st.currentChapter.Some?
  {
    && !IsSection(num) && IsSubsection(num) && st.currentSection.Some?
    && match Get(st.structure, st.currentChapter.value)
       case None => true
       case Some(ch) => Get(ch.sections, st.currentSection.value).None?
  }

  /** Under Inv an entry raises exactly when it is an orphan subsection, and then it is a KeyError. */
  lemma StepErr(st: BuildState, e: TocEntry)
    requires Pointers(st)
    ensures Step(st, e).Err? <==> OrphanSubsection(st, e)
    ensures Step(st, e).Err? ==> Step(st, e).error == KeyError
  {
    if e.0 == 1 {
      if ParseChapter(e.1).0 != "" {
        StepChapter(st, e);
      } else {
        StepUnnumberedChapter(st, e);
      }
    } else if SectionEntry(st, e) {
      SectionEntryErr(st, e);
    } else {
      StepNoSection(st, e);
    }
  }

  lemma SectionEntryErr(st: BuildState, e: TocEntry)
    requires Pointers(st) && SectionEntry(st, e)
    ensures Step(st, e).Err? <==> OrphanSubsection(st, e)
    ensures Step(st, e).Err? ==> Step(st, e).error == KeyError
  {
    SectionEntryStep(st, e);
    BranchSectionErr(st, e.2, ParseSection(e.1).0, ParseSection(e.1).1);
  }

  lemma BranchSectionErr(st: BuildState, page: int, num: string, title: string)
    requires Pointers(st) && st.currentChapter.Some? && num != ""
    ensures Branch(st, page, "", "", num, title).Err? <==> Orphan(st, num)
    ensures Branch(st, page, "", "", num, title).Err? ==> Branch(st, page, "", "", num, title).error == KeyError
  {
    var c := st.currentChapter.value;
    assert Get(st.structure, c).Some?;
  }

  /** An entry that is neither a chapter nor a parsed section changes nothing. */
  lemma StepNoSection(st: BuildState, e: TocEntry)
    requires e.0 != 1 && !SectionEntry(st, e)
    ensures Step(st, e) == Ok(st)
  {
    var s := SectionPart(st.currentChapter, e);
    assert s.0 == "";
    assert Step(st, e) == Branch(st, e.2, "", "", "", s.1);
  }

  /** Every error `extract_structure` raises is a KeyError. */
  lemma {:induction false} RunErrIsKeyError(st: BuildState, toc: seq<TocEntry>)
    requires Inv(st)
    ensures Run(st, toc).Err? ==> Run(st, toc).error == KeyError
    decreases |toc|
  {
    if toc != [] {
      StepErr(st, toc[0]);
      if Step(st, toc[0]).Ok? {
        StepInv(st, toc[0]);
        RunErrIsKeyError(Step(st, toc[0]).value, toc[1..]);
      }
    }
  }

  /** A table of contents without a numbered level-1 entry yields an empty tree. */
  lemma {:induction false} RunWithoutChapters(toc: seq<TocEntry>)
    requires forall i :: 0 <= i < |toc| ==> NotAChapter(toc[i])
    ensures Run(Initial, toc) == Ok(Initial)
    decreases |toc|
  {
    if toc != [] {
      StepNotAChapter(toc[0]);
      assert forall i :: 0 <= i < |toc[1..]| ==> toc[1..][i] == toc[i + 1];
      RunWithoutChapters(toc[1..]);
    }
  }

  /** An entry that does not give a chapter: another level, or no chapter number. */
  predicate NotAChapter(e: TocEntry)
  {
    e.0 != 1 || ParseChapter(e.1).0 == ""
  }

  lemma StepNotAChapter(e: TocEntry)
    requires NotAChapter(e)
    ensures Step(Initial, e) == Ok(Initial)
  {
    if e.0 == 1 {
      StepUnnumberedChapter(Initial, e);
    } else {
      StepBeforeChapter(Initial, e);
    }
  }
}
