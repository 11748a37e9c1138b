/** The text segmenter: walks the book tree in insertion order, searches the
    book's text for each chapter, section and subsection heading, and gives
    the text between one found heading and the next to the node of the
    earlier heading as its `text` and `length` entries. */
module Segmenter {
  import opened Wrappers
  import opened Dicts
  import opened PyStrings
  import opened BookTree
  import opened Patterns

  /** `s[a:b]` for non-negative bounds: both are clamped to the length of `s`,
      and the slice is empty when the start is not below the end. */
  function Slice(s: string, a: nat, b: nat): (r: string)
    ensures a <= b <= |s| ==> r == s[a..b]
    ensures b <= a || |s| <= a ==> r == []
    ensures |r| <= |s|
  {
    var lo := if a < |s| then a else |s|;
    var hi := if b < |s| then b else |s|;
    if lo < hi then s[lo..hi] else []
  }

  /** `pages[k:]`: a suffix of the pages, counted from the end when `k` is negative. */
  function PagesFrom(pages: seq<string>, k: int): (r: seq<string>)
    ensures |r| <= |pages| && r == pages[|pages| - |r|..]
    ensures 0 <= k ==> |r| == if k < |pages| then |pages| - k else 0
    ensures k < 0 ==> |r| == if -k < |pages| then -k else |pages|
  {
    if 0 <= k then (if k < |pages| then pages[k..] else [])
    else if -k < |pages| then pages[|pages| + k..]
    else pages
  }

  /** `re.search` of a chapter's pattern: the word, the number and the title. */
  function ChapterMatch(c: string, title: string, text: string): Option<(nat, nat)>
  {
    Search(ChapterItems(c, title), text)
  }

  /** `re.search` of a section's or subsection's pattern: the number and the title. */
  function SectionMatch(s: string, title: string, text: string): Option<(nat, nat)>
  {
    Search(SectionItems(s, title), text)
  }

  /** The tree after `_process_previous_level`: the text between the end of the
      previous heading and the start of the new one goes to the node of the
      previous heading, unless it is only whitespace. */
  function ProcessPrevious(st: Structure, level: Level, text: string, start: nat, prevEnd: nat): (r: Structure)
    ensures Skeleton(r) == Skeleton(st)
  {
    var content := Slice(text, prevEnd, start);
    if Strip(content) != [] then
      AnnotateSkeleton(st, level, content);
      Annotate(st, level, content)
    else st
  }

  /** The span is stored exactly when it holds a non-whitespace character; a
      heading found at or before the previous end stores nothing. */
  lemma ProcessPreviousSpec(st: Structure, level: Level, text: string, start: nat, prevEnd: nat)
    ensures start <= prevEnd ==> ProcessPrevious(st, level, text, start, prevEnd) == st
    ensures AllSpace(Slice(text, prevEnd, start)) ==> ProcessPrevious(st, level, text, start, prevEnd) == st
    ensures !AllSpace(Slice(text, prevEnd, start)) ==>
      ProcessPrevious(st, level, text, start, prevEnd) == Annotate(st, level, Slice(text, prevEnd, start))
    ensures !AllSpace(Slice(text, prevEnd, start)) && level != Start && PathExists(st, level) ==>
      && NoteAt(ProcessPrevious(st, level, text, start, prevEnd), level) == Some(NoteOf(Slice(text, prevEnd, start)))
      && NoteOf(Slice(text, prevEnd, start)).length > 0
  {
    var content := Slice(text, prevEnd, start);
    StripEmpty(content);
    NoteOfLength(content);
    if !AllSpace(content) && level != Start && PathExists(st, level) {
      AnnotateHere(st, level, content);
    }
  }

  /** Processing the previous span touches no node other than the previous one. */
  lemma ProcessPreviousElsewhere(st: Structure, level: Level, text: string, start: nat, prevEnd: nat, other: Level)
    requires other != level
    ensures NoteAt(ProcessPrevious(st, level, text, start, prevEnd), other) == NoteAt(st, other)
  {
    AnnotateElsewhere(st, level, other, Slice(text, prevEnd, start));
  }

  /** The locals `previous_end` and `current_level` of the walk, with the tree. */
  datatype Walk = Walk(st: Structure, prevEnd: nat, level: Level)

  /** A heading found at `m`: the previous span is processed, and the walk goes on
      from the end of the match at the node of the heading. */
  function Found(w: Walk, m: (nat, nat), level: Level, text: string): Walk
  {
    Walk(ProcessPrevious(w.st, w.level, text, m.0, w.prevEnd), m.1, level)
  }

  /** The subsection loop over the remaining entries `rest` of section `s` of chapter `c`. */
  function WalkSubsections(w: Walk, c: string, s: string, rest: Dict<Subsection>, text: string): (r: Walk)
    ensures Skeleton(r.st) == Skeleton(w.st)
    ensures w.prevEnd <= |text| ==> r.prevEnd <= |text|
    decreases |rest|
  {
    if rest == [] then w
    else WalkSubsections(SubsectionStep(w, c, s, rest[0].0, rest[0].1, text), c, s, rest[1..], text)
  }

  /** One iteration of the subsection loop, for subsection `u` of section `s`. */
  function SubsectionStep(w: Walk, c: string, s: string, u: string, su: Subsection, text: string): (r: Walk)
    ensures Skeleton(r.st) == Skeleton(w.st)
    ensures w.prevEnd <= |text| ==> r.prevEnd <= |text|
  {
    match SectionMatch(u, su.title, text)
    case None => w
    case Some(m) => Found(w, m, AtSubsection(c, s, u), text)
  }

  /** The section loop over the remaining entries `rest` of chapter `c`; the
      subsections of a section are walked only when its heading is found. */
  function WalkSections(w: Walk, c: string, rest: Dict<Section>, text: string): (r: Walk)
    ensures Skeleton(r.st) == Skeleton(w.st)
    ensures w.prevEnd <= |text| ==> r.prevEnd <= |text|
    decreases |rest|
  {
    if rest == [] then w
    else WalkSections(SectionStep(w, c, rest[0].0, rest[0].1, text), c, rest[1..], text)
  }

  /** One iteration of the section loop, for section `s` of chapter `c`. */
  function SectionStep(w: Walk, c: string, s: string, se: Section, text: string): (r: Walk)
    ensures Skeleton(r.st) == Skeleton(w.st)
    ensures w.prevEnd <= |text| ==> r.prevEnd <= |text|
  {
    match SectionMatch(s, se.title, text)
    case None => w
    case Some(m) => WalkSubsections(Found(w, m, AtSection(c, s), text), c, s, se.subsections, text)
  }

  /** The chapter loop over the remaining chapters `rest`; the sections of a
      chapter are walked only when its heading is found. */
  function WalkChapters(w: Walk, rest: Structure, text: string): (r: Walk)
    ensures Skeleton(r.st) == Skeleton(w.st)
    ensures w.prevEnd <= |text| ==> r.prevEnd <= |text|
    decreases |rest|
  {
    if rest == [] then w
    else WalkChapters(ChapterStep(w, rest[0].0, rest[0].1, text), rest[1..], text)
  }

  /** One iteration of the chapter loop, for chapter `c`. */
  function ChapterStep(w: Walk, c: string, ch: Chapter, text: string): (r: Walk)
    ensures Skeleton(r.st) == Skeleton(w.st)
    ensures w.prevEnd <= |text| ==> r.prevEnd <= |text|
  {
    match ChapterMatch(c, ch.title, text)
    case None => w
    case Some(m) => WalkSections(Found(w, m, AtChapter(c), text), c, ch.sections, text)
  }

  /** The state after the three nested loops, starting at offset 0 and level 'start'. */
  function FinalWalk(st: Structure, text: string): Walk
  {
    WalkChapters(Walk(st, 0, Start), st, text)
  }

  /** The tree after `_organize_structure`: the walk, then the rest of the text
      after the last found heading goes to the last node reached. */
  function Organized(st: Structure, text: string): (r: Structure)
    ensures Skeleton(r) == Skeleton(st)
  {
    var w := FinalWalk(st, text);
    if w.prevEnd < |text| then
      AnnotateSkeleton(w.st, w.level, text[w.prevEnd..]);
      Annotate(w.st, w.level, text[w.prevEnd..])
    else w.st
  }

  predicate ChapterFound(st: Structure, c: string, text: string)
  {
    Get(st, c).Some? && ChapterMatch(c, Get(st, c).value.title, text).Some?
  }

  predicate SectionFound(secs: Dict<Section>, s: string, text: string)
  {
    Get(secs, s).Some? && SectionMatch(s, Get(secs, s).value.title, text).Some?
  }

  predicate SubsectionFound(subs: Dict<Subsection>, u: string, text: string)
  {
    Get(subs, u).Some? && SectionMatch(u, Get(subs, u).value.title, text).Some?
  }

  /** The node named by `level` exists, and its heading and the headings of the
      chapter and section above it are all found in the text. */
  predicate HeadingFound(st: Structure, level: Level, text: string)
  {
    match level
    case Start => true
    case AtChapter(c) => ChapterFound(st, c, text)
    case AtSection(c, s) => ChapterFound(st, c, text) && SectionFound(Get(st, c).value.sections, s, text)
    case AtSubsection(c, s, u) =>
      && ChapterFound(st, c, text) && SectionFound(Get(st, c).value.sections, s, text)
      && SubsectionFound(Get(Get(st, c).value.sections, s).value.subsections, u, text)
  }

  /** The nested dicts reached through a tree's keys are dicts as well. */
  lemma TreeNodes(st: Structure, c: string, s: string)
    requires IsTree(st)
    ensures Get(st, c).Some? ==> SectionsAreTrees(Get(st, c).value.sections)
    ensures Get(st, c).Some? && Get(Get(st, c).value.sections, s).Some? ==>
      IsDict(Get(Get(st, c).value.sections, s).value.subsections)
  {
    match Find(st, c)
    case None =>
    case Some(i) =>
      var secs := st[i].1.sections;
      assert ChapterIsTree(st[i].1);
      match Find(secs, s)
      case None =>
      case Some(j) =>
        assert IsDict(secs[j].1.subsections);
  }

  lemma {:induction false} SubsectionsReach(
    st0: Structure, c: string, s: string, subs: Dict<Subsection>, j: nat, w: Walk, text: string, l: Level)
    requires IsTree(st0) && ChapterFound(st0, c, text) && SectionFound(Get(st0, c).value.sections, s, text)
    requires subs == Get(Get(st0, c).value.sections, s).value.subsections && j <= |subs|
    requires HeadingFound(st0, w.level, text)
    ensures HeadingFound(st0, WalkSubsections(w, c, s, subs[j..], text).level, text)
    ensures !HeadingFound(st0, l, text) ==> NoteAt(WalkSubsections(w, c, s, subs[j..], text).st, l) == NoteAt(w.st, l)
    decreases |subs| - j
  {
    if j < |subs| {
      assert subs[j..][1..] == subs[j + 1..];
      var u := subs[j].0;
      var su := subs[j].1;
      match SectionMatch(u, su.title, text)
      case None =>
        SubsectionsReach(st0, c, s, subs, j + 1, w, text, l);
      case Some(m) =>
        TreeNodes(st0, c, s);
        GetAt(subs, j);
        assert HeadingFound(st0, AtSubsection(c, s, u), text);
        var w' := Found(w, m, AtSubsection(c, s, u), text);
        if !HeadingFound(st0, l, text) {
          ProcessPreviousElsewhere(w.st, w.level, text, m.0, w.prevEnd, l);
        }
        SubsectionsReach(st0, c, s, subs, j + 1, w', text, l);
    } else {
      assert subs[j..] == [];
    }
  }

  lemma {:induction false} SectionsReach(
    st0: Structure, c: string, secs: Dict<Section>, j: nat, w: Walk, text: string, l: Level)
    requires IsTree(st0) && ChapterFound(st0, c, text)
    requires secs == Get(st0, c).value.sections && j <= |secs|
    requires HeadingFound(st0, w.level, text)
    ensures HeadingFound(st0, WalkSections(w, c, secs[j..], text).level, text)
    ensures !HeadingFound(st0, l, text) ==> NoteAt(WalkSections(w, c, secs[j..], text).st, l) == NoteAt(w.st, l)
    decreases |secs| - j
  {
    if j < |secs| {
      assert secs[j..][1..] == secs[j + 1..];
      var s := secs[j].0;
      var se := secs[j].1;
      match SectionMatch(s, se.title, text)
      case None =>
        SectionsReach(st0, c, secs, j + 1, w, text, l);
      case Some(m) =>
        TreeNodes(st0, c, s);
        GetAt(secs, j);
        assert HeadingFound(st0, AtSection(c, s), text);
        var w1 := Found(w, m, AtSection(c, s), text);
        if !HeadingFound(st0, l, text) {
          ProcessPreviousElsewhere(w.st, w.level, text, m.0, w.prevEnd, l);
        }
        assert se.subsections[0..] == se.subsections;
        SubsectionsReach(st0, c, s, se.subsections, 0, w1, text, l);
        SectionsReach(st0, c, secs, j + 1, WalkSubsections(w1, c, s, se.subsections, text), text, l);
    } else {
      assert secs[j..] == [];
    }
  }

  lemma {:induction false} ChaptersReach(st0: Structure, i: nat, w: Walk, text: string, l: Level)
    requires IsTree(st0) && i <= |st0|
    requires HeadingFound(st0, w.level, text)
    ensures HeadingFound(st0, WalkChapters(w, st0[i..], text).level, text)
    ensures !HeadingFound(st0, l, text) ==> NoteAt(WalkChapters(w, st0[i..], text).st, l) == NoteAt(w.st, l)
    decreases |st0| - i
  {
    if i < |st0| {
      assert st0[i..][1..] == st0[i + 1..];
      var c := st0[i].0;
      var ch := st0[i].1;
      match ChapterMatch(c, ch.title, text)
      case None =>
        ChaptersReach(st0, i + 1, w, text, l);
      case Some(m) =>
        GetAt(st0, i);
        assert HeadingFound(st0, AtChapter(c), text);
        var w1 := Found(w, m, AtChapter(c), text);
        if !HeadingFound(st0, l, text) {
          ProcessPreviousElsewhere(w.st, w.level, text, m.0, w.prevEnd, l);
        }
        assert ch.sections[0..] == ch.sections;
        SectionsReach(st0, c, ch.sections, 0, w1, text, l);
        ChaptersReach(st0, i + 1, WalkSections(w1, c, ch.sections, text), text, l);
    } else {
      assert st0[i..] == [];
    }
  }

  /** Only a node whose heading was found, below a chapter and section whose
      headings were found too, can receive `text` and `length` entries. */
  lemma OrganizedOnlyFound(st: Structure, text: string, l: Level)
    requires IsTree(st) && !HeadingFound(st, l, text)
    ensures NoteAt(Organized(st, text), l) == NoteAt(st, l)
  {
    assert st[0..] == st;
    ChaptersReach(st, 0, Walk(st, 0, Start), text, l);
    var w := FinalWalk(st, text);
    if w.prevEnd < |text| {
      AnnotateElsewhere(w.st, w.level, l, text[w.prevEnd..]);
    }
  }

  /** The final flush gives the last node reached the whole rest of the text,
      with no whitespace check: its `length` is 0 when that rest is all whitespace. */
  lemma OrganizedTail(st: Structure, text: string)
    requires IsTree(st)
    ensures var w := FinalWalk(st, text);
      w.prevEnd < |text| && w.level != Start ==>
        && NoteAt(Organized(st, text), w.level) == Some(NoteOf(text[w.prevEnd..]))
        && (NoteOf(text[w.prevEnd..]).length == 0 <==> AllSpace(text[w.prevEnd..]))
  {
    assert st[0..] == st;
    ChaptersReach(st, 0, Walk(st, 0, Start), text, Start);
    var w := FinalWalk(st, text);
    if w.prevEnd < |text| && w.level != Start {
      PathExistsSkeleton(st, w.st, w.level);
      AnnotateHere(w.st, w.level, text[w.prevEnd..]);
      NoteOfLength(text[w.prevEnd..]);
    }
  }

  lemma {:induction false} ChaptersNotFound(st: Structure, i: nat, w: Walk, text: string)
    requires i <= |st|
    requires forall k :: i <= k < |st| ==> ChapterMatch(st[k].0, st[k].1.title, text).None?
    ensures WalkChapters(w, st[i..], text) == w
    decreases |st| - i
  {
    if i < |st| {
      assert st[i..][1..] == st[i + 1..];
      ChaptersNotFound(st, i + 1, w, text);
    } else {
      assert st[i..] == [];
    }
  }

  /** When no chapter heading is found the tree is returned unchanged: all of
      the text belongs to 'start', which stores nothing. */
  lemma OrganizedNoChapter(st: Structure, text: string)
    requires forall k :: 0 <= k < |st| ==> ChapterMatch(st[k].0, st[k].1.title, text).None?
    ensures Organized(st, text) == st
  {
    assert st[0..] == st;
    ChaptersNotFound(st, 0, Walk(st, 0, Start), text);
  }

  /** Every search starts at offset 0, so a section whose heading stands before
      its chapter's heading moves `previous_end` back: the final flush then gives
      the section text that lies before the chapter's heading. */
  lemma SectionBeforeChapter(c: string, ch: Chapter, s: string, se: Section, text: string)
    requires ch.sections == [(s, se)] && se.subsections == []
    requires ChapterMatch(c, ch.title, text).Some? && SectionMatch(s, se.title, text).Some?
    requires SectionMatch(s, se.title, text).value.1 < ChapterMatch(c, ch.title, text).value.0
    ensures var e := SectionMatch(s, se.title, text).value.1;
      NoteAt(Organized([(c, ch)], text), AtSection(c, s)) == Some(NoteOf(text[e..]))
  {
    var st := [(c, ch)];
    var e := SectionMatch(s, se.title, text).value.1;
    SectionBeforeChapterWalk(c, ch, s, se, text);
    assert Organized(st, text) == Annotate(st, AtSection(c, s), text[e..]);
    assert Get(st, c) == Some(ch);
    assert Get(ch.sections, s) == Some(se);
    AnnotateHere(st, AtSection(c, s), text[e..]);
  }

  /** The walk of that tree ends at the section, at the end of the section's match. */
  lemma SectionBeforeChapterWalk(c: string, ch: Chapter, s: string, se: Section, text: string)
    requires ch.sections == [(s, se)] && se.subsections == []
    requires ChapterMatch(c, ch.title, text).Some? && SectionMatch(s, se.title, text).Some?
    requires SectionMatch(s, se.title, text).value.1 < ChapterMatch(c, ch.title, text).value.0
    ensures FinalWalk([(c, ch)], text) == Walk([(c, ch)], SectionMatch(s, se.title, text).value.1, AtSection(c, s))
  {
    var st := [(c, ch)];
    var w0 := Walk(st, 0, Start);
    OneChapterWalk(w0, c, ch, text);
    var m := ChapterMatch(c, ch.title, text).value;
    var w1 := Found(w0, m, AtChapter(c), text);
    ProcessPreviousSpec(st, Start, text, m.0, 0);
    assert w1 == Walk(st, m.1, AtChapter(c));
    SingleSectionWalk(w1, c, s, se, text);
  }

  lemma OneChapterWalk(w: Walk, c: string, ch: Chapter, text: string)
    requires ChapterMatch(c, ch.title, text).Some?
    ensures WalkChapters(w, [(c, ch)], text)
      == WalkSections(Found(w, ChapterMatch(c, ch.title, text).value, AtChapter(c), text), c, ch.sections, text)
  {
    assert [(c, ch)][1..] == [];
  }

  lemma SingleSectionWalk(w: Walk, c: string, s: string, se: Section, text: string)
    requires se.subsections == [] && SectionMatch(s, se.title, text).Some?
    requires SectionMatch(s, se.title, text).value.1 < w.prevEnd
    ensures WalkSections(w, c, [(s, se)], text) == Walk(w.st, SectionMatch(s, se.title, text).value.1, AtSection(c, s))
  {
    var m2 := SectionMatch(s, se.title, text).value;
    var w2 := Found(w, m2, AtSection(c, s), text);
    ProcessPreviousSpec(w.st, w.level, text, m2.0, w.prevEnd);
    assert w2 == Walk(w.st, m2.1, AtSection(c, s));
    assert WalkSubsections(w2, c, s, se.subsections, text) == w2;
    assert [(s, se)][1..] == [];
  }

  /** The text "1.1 xГлава1" for chapter "1" with section "1.1", both untitled:
      the section matches at 0-4 and the chapter at 5-11, and section 1.1
      receives "xГлава1", whose "x" stands before the chapter's heading. */
  lemma SectionBeforeChapterExample()
    ensures var ch := Chapter("", 0, [("1.1", Section("", 0, [], None, None))], None, None);
      && ChapterMatch("1", "", "1.1 xГлава1") == Some((5, 11))
      && NoteAt(Organized([("1", ch)], "1.1 xГлава1"), AtSection("1", "1.1")) == Some(NoteOf("xГлава1"))
  {
    var text := "1.1 xГлава1";
    ExampleChapterSearch();
    ExampleSectionSearch();
    var ch := Chapter("", 0, [("1.1", Section("", 0, [], None, None))], None, None);
    SectionBeforeChapter("1", ch, "1.1", Section("", 0, [], None, None), text);
    ExampleTail();
  }

  lemma ExampleTail()
    ensures "1.1 xГлава1"[4..] == "xГлава1"
  {
  }

  lemma ExampleSectionSearch()
    ensures SectionMatch("1.1", "", "1.1 xГлава1") == Some((0, 4))
  {
    assert SectionItems("1.1", "") == [Lit('1'), AnyChar, Lit('1'), Spaces];
  }

  lemma ExampleChapterSearch()
    ensures ChapterMatch("1", "", "1.1 xГлава1") == Some((5, 11))
  {
    var items := [Lit('Г'), Lit('л'), Lit('а'), Lit('в'), Lit('а'), Spaces, Lit('1'), Spaces];
    assert ChapterItems("1", "") == items;
    ExampleChapterFrom(items, "1.1 xГлава1");
  }

  lemma ExampleChapterFrom(items: seq<Item>, text: string)
    requires items == [Lit('Г'), Lit('л'), Lit('а'), Lit('в'), Lit('а'), Spaces, Lit('1'), Spaces]
    requires text == "1.1 xГлава1"
    ensures SearchFrom(items, text, 0) == Some((5, 11))
  {
    ExampleChapterMisses(items, text);
    ExampleChapterHit();
    assert SearchFrom(items, text, 5) == Some((5, 11));
    assert SearchFrom(items, text, 4) == Some((5, 11));
    assert SearchFrom(items, text, 3) == Some((5, 11));
    assert SearchFrom(items, text, 2) == Some((5, 11));
    assert SearchFrom(items, text, 1) == Some((5, 11));
  }

  lemma ExampleChapterHit()
    ensures MatchAt([Lit('Г'), Lit('л'), Lit('а'), Lit('в'), Lit('а'), Spaces, Lit('1'), Spaces], "1.1 xГлава1", 5) == Some(11)
  {
  }

  lemma ExampleChapterMisses(items: seq<Item>, text: string)
    requires items == [Lit('Г'), Lit('л'), Lit('а'), Lit('в'), Lit('а'), Spaces, Lit('1'), Spaces]
    requires text == "1.1 xГлава1"
    ensures forall i :: 0 <= i < 5 ==> MatchAt(items, text, i) == None
  {
    forall i | 0 <= i < 5 ensures MatchAt(items, text, i) == None {
      assert !CharMatches('Г', text[i]);
    }
  }

  /** Where the heading of the node named by `level` matches in the text, if
      the node exists and its pattern is found. */
  function HeadingMatch(st: Structure, level: Level, text: string): (r: Option<(nat, nat)>)
    ensures r.Some? ==> r.value.0 <= r.value.1 <= |text|
  {
    match level
    case Start => None
    case AtChapter(c) =>
      (match Get(st, c) case None => None case Some(ch) => ChapterMatch(c, ch.title, text))
    case AtSection(c, s) =>
      (match Get(st, c)
       case None => None
       case Some(ch) => match Get(ch.sections, s) case None => None case Some(se) => SectionMatch(s, se.title, text))
    case AtSubsection(c, s, u) =>
      (match Get(st, c)
       case None => None
       case Some(ch) =>
         match Get(ch.sections, s)
         case None => None
         case Some(se) => match Get(se.subsections, u) case None => None case Some(su) => SectionMatch(u, su.title, text))
  }

  /** An entry made from the node's own span: `text` is `text[e:b]` where `e` is
      the end of the node's heading match, and `length` its stripped length. */
  ghost predicate OwnSpan(n: Option<Annotation>, st: Structure, level: Level, text: string)
  {
    && n.Some? && HeadingMatch(st, level, text).Some?
    && var e := HeadingMatch(st, level, text).value.1;
       exists b :: e <= b <= |text| && n.value == NoteOf(text[e..b])
  }

  /** The entries of node `l` in `st` are those of `st0`, or its own span. */
  ghost predicate SpanKept(st0: Structure, st: Structure, l: Level, text: string)
  {
    NoteAt(st, l) == NoteAt(st0, l) || OwnSpan(NoteAt(st, l), st0, l, text)
  }

  /** `previous_end` is the end of the current node's own heading match. */
  predicate AtOwnEnd(st0: Structure, w: Walk, text: string)
  {
    && w.prevEnd <= |text|
    && (w.level != Start ==> HeadingMatch(st0, w.level, text).Some? && HeadingMatch(st0, w.level, text).value.1 == w.prevEnd)
  }

  lemma OwnSpanAt(st0: Structure, level: Level, text: string, e: nat, b: nat)
    requires HeadingMatch(st0, level, text).Some? && HeadingMatch(st0, level, text).value.1 == e && e <= b <= |text|
    ensures OwnSpan(Some(NoteOf(text[e..b])), st0, level, text)
  {
  }

  /** One found heading: the span stored for the previous node starts at the
      end of that node's own heading. */
  lemma ProcessPreviousOwnSpan(st0: Structure, w: Walk, m: (nat, nat), text: string, l: Level)
    requires AtOwnEnd(st0, w, text) && m.0 <= |text| && SpanKept(st0, w.st, l, text)
    ensures SpanKept(st0, ProcessPrevious(w.st, w.level, text, m.0, w.prevEnd), l, text)
  {
    var content := Slice(text, w.prevEnd, m.0);
    if l != w.level {
      ProcessPreviousElsewhere(w.st, w.level, text, m.0, w.prevEnd, l);
    } else if Strip(content) != [] && l != Start {
      if PathExists(w.st, l) {
        AnnotateHere(w.st, l, content);
        NoteOfLength(content);
        assert w.prevEnd < m.0;
        assert content == text[w.prevEnd..m.0];
        OwnSpanAt(st0, l, text, w.prevEnd, m.0);
      } else {
        AnnotateMissing(w.st, l, content);
      }
    }
  }

  /** A heading found at its node's own match keeps the invariant. */
  lemma FoundOwnSpan(st0: Structure, w: Walk, m: (nat, nat), level: Level, text: string, l: Level)
    requires AtOwnEnd(st0, w, text) && SpanKept(st0, w.st, l, text)
    requires level != Start && HeadingMatch(st0, level, text) == Some(m)
    ensures AtOwnEnd(st0, Found(w, m, level, text), text) && SpanKept(st0, Found(w, m, level, text).st, l, text)
  {
    ProcessPreviousOwnSpan(st0, w, m, text, l);
  }

  lemma SubsectionMatch(st0: Structure, c: string, s: string, subs: Dict<Subsection>, j: nat, text: string)
    requires IsTree(st0) && Get(st0, c).Some? && Get(Get(st0, c).value.sections, s).Some?
    requires subs == Get(Get(st0, c).value.sections, s).value.subsections && j < |subs|
    ensures HeadingMatch(st0, AtSubsection(c, s, subs[j].0), text) == SectionMatch(subs[j].0, subs[j].1.title, text)
  {
    TreeNodes(st0, c, s);
    GetAt(subs, j);
  }

  lemma SectionMatchOf(st0: Structure, c: string, secs: Dict<Section>, j: nat, text: string)
    requires IsTree(st0) && Get(st0, c).Some?
    requires secs == Get(st0, c).value.sections && j < |secs|
    ensures HeadingMatch(st0, AtSection(c, secs[j].0), text) == SectionMatch(secs[j].0, secs[j].1.title, text)
  {
    TreeNodes(st0, c, secs[j].0);
    GetAt(secs, j);
  }

  lemma ChapterMatchOf(st0: Structure, i: nat, text: string)
    requires IsTree(st0) && i < |st0|
    ensures HeadingMatch(st0, AtChapter(st0[i].0), text) == ChapterMatch(st0[i].0, st0[i].1.title, text)
  {
    GetAt(st0, i);
  }

  lemma {:induction false} SubsectionsOwnSpan(
    st0: Structure, c: string, s: string, subs: Dict<Subsection>, j: nat, w: Walk, text: string, l: Level)
    requires IsTree(st0) && Get(st0, c).Some? && Get(Get(st0, c).value.sections, s).Some?
    requires subs == Get(Get(st0, c).value.sections, s).value.subsections && j <= |subs|
    requires AtOwnEnd(st0, w, text) && SpanKept(st0, w.st, l, text)
    ensures var r := WalkSubsections(w, c, s, subs[j..], text);
      AtOwnEnd(st0, r, text) && SpanKept(st0, r.st, l, text)
    decreases |subs| - j
  {
    if j < |subs| {
      assert subs[j..][1..] == subs[j + 1..];
      SubsectionStepOwnSpan(st0, c, s, subs, j, w, text, l);
      SubsectionsOwnSpan(st0, c, s, subs, j + 1, SubsectionStep(w, c, s, subs[j].0, subs[j].1, text), text, l);
    } else {
      assert subs[j..] == [];
    }
  }

  lemma SubsectionStepOwnSpan(
    st0: Structure, c: string, s: string, subs: Dict<Subsection>, j: nat, w: Walk, text: string, l: Level)
    requires IsTree(st0) && Get(st0, c).Some? && Get(Get(st0, c).value.sections, s).Some?
    requires subs == Get(Get(st0, c).value.sections, s).value.subsections && j < |subs|
    requires AtOwnEnd(st0, w, text) && SpanKept(st0, w.st, l, text)
    ensures var r := SubsectionStep(w, c, s, subs[j].0, subs[j].1, text);
      AtOwnEnd(st0, r, text) && SpanKept(st0, r.st, l, text)
  {
    var u := subs[j].0;
    match SectionMatch(u, subs[j].1.title, text)
    case None =>
    case Some(m) =>
      SubsectionMatch(st0, c, s, subs, j, text);
      FoundOwnSpan(st0, w, m, AtSubsection(c, s, u), text, l);
  }

  lemma {:induction false} SectionsOwnSpan(
    st0: Structure, c: string, secs: Dict<Section>, j: nat, w: Walk, text: string, l: Level)
    requires IsTree(st0) && Get(st0, c).Some?
    requires secs == Get(st0, c).value.sections && j <= |secs|
    requires AtOwnEnd(st0, w, text) && SpanKept(st0, w.st, l, text)
    ensures var r := WalkSections(w, c, secs[j..], text);
      AtOwnEnd(st0, r, text) && SpanKept(st0, r.st, l, text)
    decreases |secs| - j
  {
    if j < |secs| {
      assert secs[j..][1..] == secs[j + 1..];
      SectionStepOwnSpan(st0, c, secs, j, w, text, l);
      SectionsOwnSpan(st0, c, secs, j + 1, SectionStep(w, c, secs[j].0, secs[j].1, text), text, l);
    } else {
      assert secs[j..] == [];
    }
  }

  lemma SectionStepOwnSpan(
    st0: Structure, c: string, secs: Dict<Section>, j: nat, w: Walk, text: string, l: Level)
    requires IsTree(st0) && Get(st0, c).Some?
    requires secs == Get(st0, c).value.sections && j < |secs|
    requires AtOwnEnd(st0, w, text) && SpanKept(st0, w.st, l, text)
    ensures var r := SectionStep(w, c, secs[j].0, secs[j].1, text);
      AtOwnEnd(st0, r, text) && SpanKept(st0, r.st, l, text)
  {
    var s := secs[j].0;
    var se := secs[j].1;
    match SectionMatch(s, se.title, text)
    case None =>
    case Some(m) =>
      SectionMatchOf(st0, c, secs, j, text);
      FoundOwnSpan(st0, w, m, AtSection(c, s), text, l);
      TreeNodes(st0, c, s);
      GetAt(secs, j);
      assert se.subsections[0..] == se.subsections;
      SubsectionsOwnSpan(st0, c, s, se.subsections, 0, Found(w, m, AtSection(c, s), text), text, l);
  }

  lemma {:induction false} ChaptersOwnSpan(st0: Structure, i: nat, w: Walk, text: string, l: Level)
    requires IsTree(st0) && i <= |st0|
    requires AtOwnEnd(st0, w, text) && SpanKept(st0, w.st, l, text)
    ensures var r := WalkChapters(w, st0[i..], text);
      AtOwnEnd(st0, r, text) && SpanKept(st0, r.st, l, text)
    decreases |st0| - i
  {
    if i < |st0| {
      assert st0[i..][1..] == st0[i + 1..];
      ChapterStepOwnSpan(st0, i, w, text, l);
      ChaptersOwnSpan(st0, i + 1, ChapterStep(w, st0[i].0, st0[i].1, text), text, l);
    } else {
      assert st0[i..] == [];
    }
  }

  lemma ChapterStepOwnSpan(st0: Structure, i: nat, w: Walk, text: string, l: Level)
    requires IsTree(st0) && i < |st0|
    requires AtOwnEnd(st0, w, text) && SpanKept(st0, w.st, l, text)
    ensures var r := ChapterStep(w, st0[i].0, st0[i].1, text);
      AtOwnEnd(st0, r, text) && SpanKept(st0, r.st, l, text)
  {
    var c := st0[i].0;
    var ch := st0[i].1;
    match ChapterMatch(c, ch.title, text)
    case None =>
    case Some(m) =>
      ChapterMatchOf(st0, i, text);
      FoundOwnSpan(st0, w, m, AtChapter(c), text, l);
      GetAt(st0, i);
      assert ch.sections[0..] == ch.sections;
      SectionsOwnSpan(st0, c, ch.sections, 0, Found(w, m, AtChapter(c), text), text, l);
  }

  /** The final flush: the rest of the text goes to the current node, whose
      own heading ends where that rest begins. */
  lemma TailOwnSpan(st0: Structure, w: Walk, text: string, l: Level)
    requires AtOwnEnd(st0, w, text) && SpanKept(st0, w.st, l, text) && w.prevEnd < |text|
    ensures SpanKept(st0, Annotate(w.st, w.level, text[w.prevEnd..]), l, text)
  {
    var rest := text[w.prevEnd..];
    if l != w.level {
      AnnotateElsewhere(w.st, w.level, l, rest);
    } else if l != Start {
      if PathExists(w.st, l) {
        TailHere(st0, w.st, l, text, w.prevEnd);
      } else {
        AnnotateMissing(w.st, l, rest);
      }
    }
  }

  lemma TailHere(st0: Structure, st: Structure, l: Level, text: string, e: nat)
    requires l != Start && PathExists(st, l) && e <= |text|
    requires HeadingMatch(st0, l, text).Some? && HeadingMatch(st0, l, text).value.1 == e
    ensures OwnSpan(NoteAt(Annotate(st, l, text[e..]), l), st0, l, text)
  {
    AnnotateHere(st, l, text[e..]);
    SliceToEnd(text, e);
    OwnSpanAt(st0, l, text, e, |text|);
  }

  lemma SliceToEnd(text: string, e: nat)
    requires e <= |text|
    ensures text[e..] == text[e..|text|]
  {
  }

  /** Every node ends up with the entries it had, or with the text from the end
      of its own heading match up to some later point, and the stripped length
      of that text. */
  lemma OrganizedFromText(st: Structure, text: string, l: Level)
    requires IsTree(st)
    ensures NoteAt(Organized(st, text), l) == NoteAt(st, l) || OwnSpan(NoteAt(Organized(st, text), l), st, l, text)
  {
    assert st[0..] == st;
    ChaptersOwnSpan(st, 0, Walk(st, 0, Start), text, l);
    var w := FinalWalk(st, text);
    if w.prevEnd < |text| {
      TailOwnSpan(st, w, text, l);
    }
  }

  /** Every subsection of `subs` exists in `st` below section `s` of chapter `c`. */
  predicate SubsectionPathsExist(st: Structure, c: string, s: string, subs: Dict<Subsection>)
  {
    forall k :: 0 <= k < |subs| ==> PathExists(st, AtSubsection(c, s, subs[k].0))
  }

  /** Every section of `secs`, and every subsection of it, exists in `st` below chapter `c`. */
  predicate SectionPathsExist(st: Structure, c: string, secs: Dict<Section>)
  {
    forall j :: 0 <= j < |secs| ==>
      PathExists(st, AtSection(c, secs[j].0)) && SubsectionPathsExist(st, c, secs[j].0, secs[j].1.subsections)
  }

  lemma SubsectionPathsSkeleton(a: Structure, b: Structure, c: string, s: string, subs: Dict<Subsection>)
    requires Skeleton(a) == Skeleton(b) && SubsectionPathsExist(a, c, s, subs)
    ensures SubsectionPathsExist(b, c, s, subs)
  {
    forall k | 0 <= k < |subs| ensures PathExists(b, AtSubsection(c, s, subs[k].0)) {
      PathExistsSkeleton(a, b, AtSubsection(c, s, subs[k].0));
    }
  }

  lemma SectionPathsSkeleton(a: Structure, b: Structure, c: string, secs: Dict<Section>)
    requires Skeleton(a) == Skeleton(b) && SectionPathsExist(a, c, secs)
    ensures SectionPathsExist(b, c, secs)
  {
    forall j | 0 <= j < |secs|
      ensures PathExists(b, AtSection(c, secs[j].0)) && SubsectionPathsExist(b, c, secs[j].0, secs[j].1.subsections)
    {
      PathExistsSkeleton(a, b, AtSection(c, secs[j].0));
      SubsectionPathsSkeleton(a, b, c, secs[j].0, secs[j].1.subsections);
    }
  }

  /** Every node below chapter `i` of a tree exists in any tree with the same skeleton. */
  lemma ChapterPaths(st0: Structure, st: Structure, i: nat)
    requires IsTree(st0) && i < |st0| && Skeleton(st) == Skeleton(st0)
    ensures PathExists(st, AtChapter(st0[i].0)) && SectionPathsExist(st, st0[i].0, st0[i].1.sections)
  {
    var c := st0[i].0;
    var secs := st0[i].1.sections;
    GetAt(st0, i);
    PathExistsSkeleton(st0, st, AtChapter(c));
    assert ChapterIsTree(st0[i].1);
    forall j | 0 <= j < |secs| ensures PathExists(st0, AtSection(c, secs[j].0)) {
      GetAt(secs, j);
    }
    forall j, k | 0 <= j < |secs| && 0 <= k < |secs[j].1.subsections|
      ensures PathExists(st0, AtSubsection(c, secs[j].0, secs[j].1.subsections[k].0))
    {
      GetAt(secs, j);
      GetAt(secs[j].1.subsections, k);
    }
    SectionPathsSkeleton(st0, st, c, secs);
  }

  /** `PDFBookProcessor`: the book tree being annotated and the book's text. */
  class PdfBookProcessor {
    var structure: Structure
    var text: string
    const startPage: int

    /** The tree comes from the structure extractor; the text starts empty. */
    constructor(structure: Structure, startPage: int)
      ensures this.structure == structure && this.text == [] && this.startPage == startPage
    {
      this.structure := structure;
      this.text := [];
      this.startPage := startPage;
    }

    /** `_extract_pdf_text`: the texts of the pages from `start_page` on (1-based), one per line. */
    method ExtractPdfText(pages: seq<string>)
      modifies this
      ensures text == Join(PagesFrom(pages, startPage - 1), "\n") && structure == old(structure)
    {
      text := Join(PagesFrom(pages, startPage - 1), "\n");
    }

    /** `_store_section_content`: the node named by `level` gets `content` and the
        length of its stripped form; level 'start' changes nothing, and a missing
        key raises KeyError before anything changes. */
    method StoreSectionContent(level: Level, content: string) returns (o: Outcome)
      modifies this
      ensures o == Pass <==> PathExists(old(structure), level)
      ensures o.Fail? ==> o.error == KeyError
      ensures structure == Annotate(old(structure), level, content) && text == old(text)
    {
      var note := NoteOf(content);
      match level {
        case Start =>
          o := Pass;
        case AtChapter(c) =>
          o := StoreChapter(c, note);
        case AtSection(c, s) =>
          o := StoreSection(c, s, note);
        case AtSubsection(c, s, u) =>
          o := StoreSubsection(c, s, u, note);
      }
    }

    /** `self.structure[chapter].update(...)`. */
    method StoreChapter(c: string, note: Annotation) returns (o: Outcome)
      modifies this
      ensures o == Pass <==> PathExists(old(structure), AtChapter(c))
      ensures o.Fail? ==> o.error == KeyError
      ensures structure == NoteChapter(old(structure), c, note) && text == old(text)
    {
      match Get(structure, c) {
        case None =>
          o := Fail(KeyError);
        case Some(ch) =>
          structure := Put(structure, c, ch.(note := Some(note)));
          o := Pass;
      }
    }

    /** `self.structure[chapter]['sections'][section].update(...)`. */
    method StoreSection(c: string, s: string, note: Annotation) returns (o: Outcome)
      modifies this
      ensures o == Pass <==> PathExists(old(structure), AtSection(c, s))
      ensures o.Fail? ==> o.error == KeyError
      ensures structure == NoteSection(old(structure), c, s, note) && text == old(text)
    {
      match Get(structure, c) {
        case None =>
          o := Fail(KeyError);
        case Some(ch) =>
          match Get(ch.sections, s) {
            case None =>
              o := Fail(KeyError);
            case Some(se) =>
              structure := Put(structure, c, ch.(sections := Put(ch.sections, s, se.(note := Some(note)))));
              o := Pass;
          }
      }
    }

    /** `self.structure[chapter]['sections'][section]['subsections'][subsection].update(...)`. */
    method StoreSubsection(c: string, s: string, u: string, note: Annotation) returns (o: Outcome)
      modifies this
      ensures o == Pass <==> PathExists(old(structure), AtSubsection(c, s, u))
      ensures o.Fail? ==> o.error == KeyError
      ensures structure == NoteSubsection(old(structure), c, s, u, note) && text == old(text)
    {
      match Get(structure, c) {
        case None =>
          o := Fail(KeyError);
        case Some(ch) =>
          match Get(ch.sections, s) {
            case None =>
              o := Fail(KeyError);
            case Some(se) =>
              match Get(se.subsections, u) {
                case None =>
                  o := Fail(KeyError);
                case Some(su) =>
                  var se' := se.(subsections := Put(se.subsections, u, su.(note := Some(note))));
                  structure := Put(structure, c, ch.(sections := Put(ch.sections, s, se')));
                  o := Pass;
              }
          }
      }
    }

    /** `_process_previous_level` for a match at `m` = (start, end). */
    method ProcessPreviousLevel(level: Level, m: (nat, nat), prevEnd: nat) returns (o: Outcome)
      modifies this
      ensures structure == ProcessPrevious(old(structure), level, text, m.0, prevEnd) && text == old(text)
      ensures o == Pass <==> AllSpace(Slice(text, prevEnd, m.0)) || PathExists(old(structure), level)
    {
      var content := Slice(text, prevEnd, m.0);
      StripEmpty(content);
      if Strip(content) != [] {
        o := StoreSectionContent(level, content);
      } else {
        o := Pass;
      }
    }

    /** The innermost loop of `_organize_structure`, over the subsections `subs`
        of section `s` of chapter `c`. */
    method OrganizeSubsections(c: string, s: string, subs: Dict<Subsection>, prevEnd0: nat, level0: Level)
      returns (prevEnd: nat, level: Level, o: Outcome)
      modifies this
      requires prevEnd0 <= |text| && PathExists(structure, level0)
      requires SubsectionPathsExist(structure, c, s, subs)
      ensures Walk(structure, prevEnd, level) == WalkSubsections(Walk(old(structure), prevEnd0, level0), c, s, subs, text)
      ensures text == old(text) && prevEnd <= |text| && PathExists(structure, level) && o == Pass
    {
      prevEnd, level, o := prevEnd0, level0, Pass;
      var k := 0;
      while k < |subs|
        invariant k <= |subs| && text == old(text) && prevEnd <= |text| && o == Pass
        invariant Skeleton(structure) == Skeleton(old(structure))
        invariant PathExists(structure, level)
        invariant WalkSubsections(Walk(structure, prevEnd, level), c, s, subs[k..], text)
               == WalkSubsections(Walk(old(structure), prevEnd0, level0), c, s, subs, text)
      {
        assert subs[k..][1..] == subs[k + 1..];
        var u := subs[k].0;
        var found := SectionMatch(u, subs[k].1.title, text);
        if found.Some? {
          o := ProcessPreviousLevel(level, found.value, prevEnd);
          prevEnd, level := found.value.1, AtSubsection(c, s, u);
          PathExistsSkeleton(old(structure), structure, level);
        }
        k := k + 1;
      }
      assert subs[k..] == [];
    }

    /** The middle loop of `_organize_structure`, over the sections `secs` of chapter `c`. */
    method OrganizeSections(c: string, secs: Dict<Section>, prevEnd0: nat, level0: Level)
      returns (prevEnd: nat, level: Level, o: Outcome)
      modifies this
      requires prevEnd0 <= |text| && PathExists(structure, level0)
      requires SectionPathsExist(structure, c, secs)
      ensures Walk(structure, prevEnd, level) == WalkSections(Walk(old(structure), prevEnd0, level0), c, secs, text)
      ensures text == old(text) && prevEnd <= |text| && PathExists(structure, level) && o == Pass
    {
      prevEnd, level, o := prevEnd0, level0, Pass;
      var j := 0;
      while j < |secs|
        invariant j <= |secs| && text == old(text) && prevEnd <= |text| && o == Pass
        invariant Skeleton(structure) == Skeleton(old(structure))
        invariant PathExists(structure, level)
        invariant WalkSections(Walk(structure, prevEnd, level), c, secs[j..], text)
               == WalkSections(Walk(old(structure), prevEnd0, level0), c, secs, text)
      {
        assert secs[j..][1..] == secs[j + 1..];
        var s := secs[j].0;
        var se := secs[j].1;
        var found := SectionMatch(s, se.title, text);
        if found.Some? {
          o := ProcessPreviousLevel(level, found.value, prevEnd);
          prevEnd, level := found.value.1, AtSection(c, s);
          SectionPathsSkeleton(old(structure), structure, c, secs);
          prevEnd, level, o := OrganizeSubsections(c, s, se.subsections, prevEnd, level);
        }
        j := j + 1;
      }
      assert secs[j..] == [];
    }

    /** `_organize_structure`: the walk over every chapter heading, then the
        flush of the rest of the text. With distinct keys throughout, every
        level it stores to exists, so it never raises KeyError. */
    method OrganizeStructure() returns (o: Outcome)
      modifies this
      requires IsTree(structure)
      ensures structure == Organized(old(structure), text) && text == old(text) && o == Pass
    {
      var chapters := structure;
      var prevEnd: nat, level: Level := 0, Start;
      o := Pass;
      var i := 0;
      while i < |chapters|
        invariant i <= |chapters| && text == old(text) && prevEnd <= |text| && o == Pass
        invariant chapters == old(structure)
        invariant Skeleton(structure) == Skeleton(chapters)
        invariant PathExists(structure, level)
        invariant WalkChapters(Walk(structure, prevEnd, level), chapters[i..], text) == FinalWalk(chapters, text)
      {
        assert chapters[i..][1..] == chapters[i + 1..];
        var c := chapters[i].0;
        var ch := chapters[i].1;
        var found := ChapterMatch(c, ch.title, text);
        if found.Some? {
          o := ProcessPreviousLevel(level, found.value, prevEnd);
          prevEnd, level := found.value.1, AtChapter(c);
          ChapterPaths(chapters, structure, i);
          prevEnd, level, o := OrganizeSections(c, ch.sections, prevEnd, level);
        }
        i := i + 1;
      }
      assert chapters[i..] == [];
      if prevEnd < |text| {
        o := StoreSectionContent(level, text[prevEnd..]);
      }
    }

    /** `process_pdf`: read the text of the pages, organize it into the tree,
        and return the tree. */
    method ProcessPdf(pages: seq<string>) returns (r: Structure)
      modifies this
      requires IsTree(structure)
      ensures text == Join(PagesFrom(pages, startPage - 1), "\n")
      ensures r == structure && structure == Organized(old(structure), text)
    {
      ExtractPdfText(pages);
      var _ := OrganizeStructure();
      r := structure;
    }
  }
}
