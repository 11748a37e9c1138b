/** The book tree both programs work on: chapters keyed by their number, each
    holding sections keyed by their dotted number, each holding subsections.
    Every node records its cleaned title and its 0-based start page; content
    extraction adds a `content` entry and the text segmenter adds `text` and
    `length` entries. The dicts of the source become insertion-ordered
    association lists. */
module BookTree {
  import opened Wrappers
  import opened Dicts
  import opened PyStrings

  /** The `text` and `length` entries written into a node by `_store_section_content`. */
  datatype Annotation = Annotation(text: string, length: nat)

  datatype Subsection = Subsection(title: string, startPage: int, content: Option<string>, note: Option<Annotation>)

  datatype Section = Section(
    title: string, startPage: int, subsections: Dict<Subsection>,
    content: Option<string>, note: Option<Annotation>)

  datatype Chapter = Chapter(
    title: string, startPage: int, sections: Dict<Section>,
    content: Option<string>, note: Option<Annotation>)

  type Structure = Dict<Chapter>

  /** The `level_info` dict: which node, if any, the text being read belongs to. */
  datatype Level =
    | Start
    | AtChapter(chapter: string)
    | AtSection(chapter: string, section: string)
    | AtSubsection(chapter: string, section: string, subsection: string)

  /** Every dict of the tree has distinct keys, as Python dicts do. */
  predicate IsTree(st: Structure)
  {
    IsDict(st) && forall i :: 0 <= i < |st| ==> ChapterIsTree(st[i].1)
  }

  predicate ChapterIsTree(ch: Chapter)
  {
    SectionsAreTrees(ch.sections)
  }

  predicate SectionsAreTrees(secs: Dict<Section>)
  {
    IsDict(secs) && forall j :: 0 <= j < |secs| ==> IsDict(secs[j].1.subsections)
  }

  /** Every key named by `level` is present. */
  predicate PathExists(st: Structure, level: Level)
  {
    match level
    case Start => true
    case AtChapter(c) => Get(st, c).Some?
    case AtSection(c, s) => Get(st, c).Some? && Get(Get(st, c).value.sections, s).Some?
    case AtSubsection(c, s, u) =>
      && Get(st, c).Some? && Get(Get(st, c).value.sections, s).Some?
      && Get(Get(Get(st, c).value.sections, s).value.subsections, u).Some?
  }

  /** The `text`/`length` entries of the node named by `level`, if it has them. */
  function NoteAt(st: Structure, level: Level): Option<Annotation>
  {
    match level
    case Start => None
    case AtChapter(c) =>
      (match Get(st, c) case None => None case Some(ch) => ch.note)
    case AtSection(c, s) =>
      (match Get(st, c)
       case None => None
       case Some(ch) => match Get(ch.sections, s) case None => None case Some(se) => se.note)
    case AtSubsection(c, s, u) =>
      (match Get(st, c)
       case None => None
       case Some(ch) =>
         match Get(ch.sections, s)
         case None => None
         case Some(se) => match Get(se.subsections, u) case None => None case Some(su) => su.note)
  }

  /** The entries `{'text': content, 'length': len(content.strip())}`. */
  function NoteOf(content: string): Annotation
  {
    Annotation(content, |Strip(content)|)
  }

  /** The recorded length is at most the length of the text, and is 0 exactly
      when the text is all whitespace. */
  lemma NoteOfLength(content: string)
    ensures NoteOf(content).text == content && NoteOf(content).length <= |content|
    ensures NoteOf(content).length == 0 <==> AllSpace(content)
  {
    StripEmpty(content);
    var t := TrimLeft(content);
    assert |Strip(content)| <= |t| <= |content|;
  }

  /** The tree after giving the node named by `level` the entries of `content`;
      the tree is returned as it is when `level` is Start or names a missing key. */
  function Annotate(st: Structure, level: Level, content: string): Structure
  {
    match level
    case Start => st
    case AtChapter(c) => NoteChapter(st, c, NoteOf(content))
    case AtSection(c, s) => NoteSection(st, c, s, NoteOf(content))
    case AtSubsection(c, s, u) => NoteSubsection(st, c, s, u, NoteOf(content))
  }

  function NoteChapter(st: Structure, c: string, a: Annotation): Structure
  {
    match Get(st, c)
    case None => st
    case Some(ch) => Put(st, c, ch.(note := Some(a)))
  }

  function NoteSection(st: Structure, c: string, s: string, a: Annotation): Structure
  {
    match Get(st, c)
    case None => st
    case Some(ch) =>
      match Get(ch.sections, s)
      case None => st
      case Some(se) => Put(st, c, ch.(sections := Put(ch.sections, s, se.(note := Some(a)))))
  }

  function NoteSubsection(st: Structure, c: string, s: string, u: string, a: Annotation): Structure
  {
    match Get(st, c)
    case None => st
    case Some(ch) =>
      match Get(ch.sections, s)
      case None => st
      case Some(se) =>
        match Get(se.subsections, u)
        case None => st
        case Some(su) =>
          var se' := se.(subsections := Put(se.subsections, u, su.(note := Some(a))));
          Put(st, c, ch.(sections := Put(ch.sections, s, se')))
  }

  function EraseSubsection(su: Subsection): Subsection
  {
    su.(content := None, note := None)
  }

  function EraseSection(se: Section): Section
  {
    se.(subsections := MapValues(se.subsections, EraseSubsection), content := None, note := None)
  }

  function EraseChapter(ch: Chapter): Chapter
  {
    ch.(sections := MapValues(ch.sections, EraseSection), content := None, note := None)
  }

  /** The tree as the table of contents gave it: keys, order, titles and start
      pages, without the entries added by content extraction or segmentation. */
  function Skeleton(st: Structure): (r: Structure)
    ensures Keys(r) == Keys(st)
  {
    MapValues(st, EraseChapter)
  }

  /** Annotating changes no key, title or start page anywhere in the tree. */
  lemma AnnotateSkeleton(st: Structure, level: Level, content: string)
    ensures Skeleton(Annotate(st, level, content)) == Skeleton(st)
  {
    match level
    case Start =>
    case AtChapter(c) => NoteChapterSkeleton(st, c, NoteOf(content));
    case AtSection(c, s) => NoteSectionSkeleton(st, c, s, NoteOf(content));
    case AtSubsection(c, s, u) => NoteSubsectionSkeleton(st, c, s, u, NoteOf(content));
  }

  lemma NoteChapterSkeleton(st: Structure, c: string, a: Annotation)
    ensures Skeleton(NoteChapter(st, c, a)) == Skeleton(st)
  {
    if Get(st, c).Some? {
      var ch := Get(st, c).value;
      PutInvisible(st, EraseChapter, c, ch, ch.(note := Some(a)));
    }
  }

  lemma NoteSectionSkeleton(st: Structure, c: string, s: string, a: Annotation)
    ensures Skeleton(NoteSection(st, c, s, a)) == Skeleton(st)
  {
    if Get(st, c).Some? && Get(Get(st, c).value.sections, s).Some? {
      var ch := Get(st, c).value;
      var se := Get(ch.sections, s).value;
      PutInvisible(ch.sections, EraseSection, s, se, se.(note := Some(a)));
      PutInvisible(st, EraseChapter, c, ch, ch.(sections := Put(ch.sections, s, se.(note := Some(a)))));
    }
  }

  lemma NoteSubsectionSkeleton(st: Structure, c: string, s: string, u: string, a: Annotation)
    ensures Skeleton(NoteSubsection(st, c, s, u, a)) == Skeleton(st)
  {
    match Get(st, c)
    case None =>
    case Some(ch) =>
      match Get(ch.sections, s)
      case None =>
      case Some(se) =>
        match Get(se.subsections, u)
        case None =>
        case Some(su) =>
          var se' := se.(subsections := Put(se.subsections, u, su.(note := Some(a))));
          var ch' := ch.(sections := Put(ch.sections, s, se'));
          assert NoteSubsection(st, c, s, u, a) == Put(st, c, ch');
          PutInvisible(se.subsections, EraseSubsection, u, su, su.(note := Some(a)));
          assert EraseSection(se') == EraseSection(se);
          PutInvisible(ch.sections, EraseSection, s, se, se');
          assert EraseChapter(ch') == EraseChapter(ch);
          PutInvisible(st, EraseChapter, c, ch, ch');
  }

  function UnnoteSubsection(su: Subsection): Subsection
  {
    su.(note := None)
  }

  function UnnoteSection(se: Section): Section
  {
    se.(subsections := MapValues(se.subsections, UnnoteSubsection), note := None)
  }

  function UnnoteChapter(ch: Chapter): Chapter
  {
    ch.(sections := MapValues(ch.sections, UnnoteSection), note := None)
  }

  /** The tree without the `text` and `length` entries: it keeps the
      `content` entries as well as the skeleton. */
  function Unnoted(st: Structure): (r: Structure)
    ensures Keys(r) == Keys(st)
  {
    MapValues(st, UnnoteChapter)
  }

  /** Annotating changes only `text` and `length` entries: every key, title,
      start page and `content` entry stays as it was. */
  lemma AnnotateOnlyNotes(st: Structure, level: Level, content: string)
    ensures Unnoted(Annotate(st, level, content)) == Unnoted(st)
  {
    match level
    case Start =>
    case AtChapter(c) => NoteChapterUnnoted(st, c, NoteOf(content));
    case AtSection(c, s) => NoteSectionUnnoted(st, c, s, NoteOf(content));
    case AtSubsection(c, s, u) => NoteSubsectionUnnoted(st, c, s, u, NoteOf(content));
  }

  lemma NoteChapterUnnoted(st: Structure, c: string, a: Annotation)
    ensures Unnoted(NoteChapter(st, c, a)) == Unnoted(st)
  {
    if Get(st, c).Some? {
      var ch := Get(st, c).value;
      PutInvisible(st, UnnoteChapter, c, ch, ch.(note := Some(a)));
    }
  }

  lemma NoteSectionUnnoted(st: Structure, c: string, s: string, a: Annotation)
    ensures Unnoted(NoteSection(st, c, s, a)) == Unnoted(st)
  {
    if Get(st, c).Some? && Get(Get(st, c).value.sections, s).Some? {
      var ch := Get(st, c).value;
      var se := Get(ch.sections, s).value;
      PutInvisible(ch.sections, UnnoteSection, s, se, se.(note := Some(a)));
      PutInvisible(st, UnnoteChapter, c, ch, ch.(sections := Put(ch.sections, s, se.(note := Some(a)))));
    }
  }

  lemma NoteSubsectionUnnoted(st: Structure, c: string, s: string, u: string, a: Annotation)
    ensures Unnoted(NoteSubsection(st, c, s, u, a)) == Unnoted(st)
  {
    match Get(st, c)
    case None =>
    case Some(ch) =>
      match Get(ch.sections, s)
      case None =>
      case Some(se) =>
        match Get(se.subsections, u)
        case None =>
        case Some(su) =>
          var se' := se.(subsections := Put(se.subsections, u, su.(note := Some(a))));
          var ch' := ch.(sections := Put(ch.sections, s, se'));
          assert NoteSubsection(st, c, s, u, a) == Put(st, c, ch');
          PutInvisible(se.subsections, UnnoteSubsection, u, su, su.(note := Some(a)));
          assert UnnoteSection(se') == UnnoteSection(se);
          PutInvisible(ch.sections, UnnoteSection, s, se, se');
          assert UnnoteChapter(ch') == UnnoteChapter(ch);
          PutInvisible(st, UnnoteChapter, c, ch, ch');
  }

  /** Whether a path exists depends only on the skeleton. */
  lemma PathExistsSkeleton(a: Structure, b: Structure, level: Level)
    requires Skeleton(a) == Skeleton(b)
    ensures PathExists(a, level) == PathExists(b, level)
  {
    match level
    case Start =>
    case AtChapter(c) =>
      MapGet(a, EraseChapter, c);
      MapGet(b, EraseChapter, c);
    case AtSection(c, s) =>
      MapGet(a, EraseChapter, c);
      MapGet(b, EraseChapter, c);
      if Get(a, c).Some? {
        MapGet(Get(a, c).value.sections, EraseSection, s);
        MapGet(Get(b, c).value.sections, EraseSection, s);
      }
    case AtSubsection(c, s, u) =>
      MapGet(a, EraseChapter, c);
      MapGet(b, EraseChapter, c);
      if Get(a, c).Some? {
        var ca, cb := Get(a, c).value, Get(b, c).value;
        MapGet(ca.sections, EraseSection, s);
        MapGet(cb.sections, EraseSection, s);
        if Get(ca.sections, s).Some? {
          MapGet(Get(ca.sections, s).value.subsections, EraseSubsection, u);
          MapGet(Get(cb.sections, s).value.subsections, EraseSubsection, u);
        }
      }
  }

  /** The node named by an existing path carries the new entries afterwards. */
  lemma AnnotateHere(st: Structure, level: Level, content: string)
    requires level != Start && PathExists(st, level)
    ensures NoteAt(Annotate(st, level, content), level) == Some(NoteOf(content))
  {
    match level
    case AtChapter(c) => NoteChapterHere(st, c, NoteOf(content));
    case AtSection(c, s) => NoteSectionHere(st, c, s, NoteOf(content));
    case AtSubsection(c, s, u) => NoteSubsectionHere(st, c, s, u, NoteOf(content));
  }

  lemma NoteChapterHere(st: Structure, c: string, a: Annotation)
    requires PathExists(st, AtChapter(c))
    ensures NoteAt(NoteChapter(st, c, a), AtChapter(c)) == Some(a)
  {
    var ch := Get(st, c).value;
    assert Get(NoteChapter(st, c, a), c) == Some(ch.(note := Some(a)));
  }

  lemma NoteSectionHere(st: Structure, c: string, s: string, a: Annotation)
    requires PathExists(st, AtSection(c, s))
    ensures NoteAt(NoteSection(st, c, s, a), AtSection(c, s)) == Some(a)
  {
    var ch := Get(st, c).value;
    var se := Get(ch.sections, s).value;
    var ch' := ch.(sections := Put(ch.sections, s, se.(note := Some(a))));
    var st' := Put(st, c, ch');
    assert NoteSection(st, c, s, a) == st';
    assert Get(st', c) == Some(ch');
    assert Get(ch'.sections, s) == Some(se.(note := Some(a)));
  }

  lemma NoteSubsectionHere(st: Structure, c: string, s: string, u: string, a: Annotation)
    requires PathExists(st, AtSubsection(c, s, u))
    ensures NoteAt(NoteSubsection(st, c, s, u, a), AtSubsection(c, s, u)) == Some(a)
  {
    var ch := Get(st, c).value;
    var se := Get(ch.sections, s).value;
    var su := Get(se.subsections, u).value;
    var se' := se.(subsections := Put(se.subsections, u, su.(note := Some(a))));
    var ch' := ch.(sections := Put(ch.sections, s, se'));
    var st' := Put(st, c, ch');
    assert NoteSubsection(st, c, s, u, a) == st';
    assert Get(st', c) == Some(ch');
    assert Get(ch'.sections, s) == Some(se');
    assert Get(se'.subsections, u) == Some(su.(note := Some(a)));
  }

  /** Every other node keeps the entries it had. */
  lemma AnnotateElsewhere(st: Structure, level: Level, other: Level, content: string)
    requires other != level
    ensures NoteAt(Annotate(st, level, content), other) == NoteAt(st, other)
  {
    match level
    case Start =>
    case AtChapter(c) => NoteChapterElsewhere(st, c, other, NoteOf(content));
    case AtSection(c, s) => NoteSectionElsewhere(st, c, s, other, NoteOf(content));
    case AtSubsection(c, s, u) => NoteSubsectionElsewhere(st, c, s, u, other, NoteOf(content));
  }

  lemma NoteChapterElsewhere(st: Structure, c: string, other: Level, a: Annotation)
    requires other != AtChapter(c)
    ensures NoteAt(NoteChapter(st, c, a), other) == NoteAt(st, other)
  {
    match Get(st, c)
    case None =>
    case Some(ch) =>
      var st' := Put(st, c, ch.(note := Some(a)));
      assert NoteChapter(st, c, a) == st';
      match other
      case Start =>
      case AtChapter(c2) =>
        assert Get(st', c2) == Get(st, c2);
      case AtSection(c2, _) =>
        assert Get(st', c2) == if c2 == c then Some(ch.(note := Some(a))) else Get(st, c2);
      case AtSubsection(c2, _, _) =>
        assert Get(st', c2) == if c2 == c then Some(ch.(note := Some(a))) else Get(st, c2);
  }

  lemma NoteSectionElsewhere(st: Structure, c: string, s: string, other: Level, a: Annotation)
    requires other != AtSection(c, s)
    ensures NoteAt(NoteSection(st, c, s, a), other) == NoteAt(st, other)
  {
    match Get(st, c)
    case None =>
    case Some(ch) =>
      match Get(ch.sections, s)
      case None =>
      case Some(se) =>
        var ch' := ch.(sections := Put(ch.sections, s, se.(note := Some(a))));
        var st' := Put(st, c, ch');
        assert NoteSection(st, c, s, a) == st';
        match other
        case Start =>
        case AtChapter(c2) =>
          assert Get(st', c2) == if c2 == c then Some(ch') else Get(st, c2);
        case AtSection(c2, s2) =>
          assert Get(st', c2) == if c2 == c then Some(ch') else Get(st, c2);
          if c2 == c {
            assert Get(ch'.sections, s2) == Get(ch.sections, s2);
          }
        case AtSubsection(c2, s2, _) =>
          assert Get(st', c2) == if c2 == c then Some(ch') else Get(st, c2);
          if c2 == c {
            assert Get(ch'.sections, s2) == if s2 == s then Some(se.(note := Some(a))) else Get(ch.sections, s2);
          }
  }

  lemma NoteSubsectionElsewhere(st: Structure, c: string, s: string, u: string, other: Level, a: Annotation)
    requires other != AtSubsection(c, s, u)
    ensures NoteAt(NoteSubsection(st, c, s, u, a), other) == NoteAt(st, other)
  {
    match Get(st, c)
    case None =>
    case Some(ch) =>
      match Get(ch.sections, s)
      case None =>
      case Some(se) =>
        match Get(se.subsections, u)
        case None =>
        case Some(su) =>
          var se' := se.(subsections := Put(se.subsections, u, su.(note := Some(a))));
          var ch' := ch.(sections := Put(ch.sections, s, se'));
          var st' := Put(st, c, ch');
          assert NoteSubsection(st, c, s, u, a) == st';
          assert Get(st', c) == Some(ch');
          assert Get(ch'.sections, s) == Some(se');
          NoteSubsectionOther(st, c, s, u, other, ch, se, st', ch', se');
  }

  lemma NoteSubsectionOther(st: Structure, c: string, s: string, u: string, other: Level,
                            ch: Chapter, se: Section, st': Structure, ch': Chapter, se': Section)
    requires other != AtSubsection(c, s, u)
    requires Get(st, c) == Some(ch) && Get(ch.sections, s) == Some(se)
    requires se'.note == se.note && ch'.note == ch.note
    requires forall u' :: u' != u ==> Get(se'.subsections, u') == Get(se.subsections, u')
    requires st' == Put(st, c, ch') && ch'.sections == Put(ch.sections, s, se')
    ensures NoteAt(st', other) == NoteAt(st, other)
  {
    match other
    case Start =>
    case AtChapter(c2) =>
      assert Get(st', c2) == if c2 == c then Some(ch') else Get(st, c2);
    case AtSection(c2, s2) =>
      assert Get(st', c2) == if c2 == c then Some(ch') else Get(st, c2);
      if c2 == c {
        assert Get(ch'.sections, s2) == if s2 == s then Some(se') else Get(ch.sections, s2);
      }
    case AtSubsection(c2, s2, u2) =>
      assert Get(st', c2) == if c2 == c then Some(ch') else Get(st, c2);
      if c2 == c {
        assert Get(ch'.sections, s2) == if s2 == s then Some(se') else Get(ch.sections, s2);
        if s2 == s {
          assert u2 != u;
          assert Get(se'.subsections, u2) == Get(se.subsections, u2);
        }
      }
  }

  /** A path that names a missing key leaves the tree as it is. */
  lemma AnnotateMissing(st: Structure, level: Level, content: string)
    requires !PathExists(st, level)
    ensures Annotate(st, level, content) == st
  {
  }
}
