/** The static helpers of StructureExtractor that read numbering and titles out
    of table-of-contents entries: `_clean_text`, `_parse_chapter`,
    `_parse_section`, `_is_section` and `_is_subsection`. Each regular
    expression of the source is replaced by explicit string functions. */
module Headings {
  import opened Wrappers
  import opened PyStrings

  // ---------------------------------------------------------------------------
  // _clean_text: re.sub(r'\s+', ' ', text).strip()
  // ---------------------------------------------------------------------------

  /** Every whitespace character is a plain space and no two spaces are adjacent. */
  predicate SingleSpaced(s: string)
  {
    && (forall i :: 0 <= i < |s| && IsSpace(s[i]) ==> s[i] == ' ')
    && (forall i :: 0 <= i < |s| - 1 ==> !(s[i] == ' ' && s[i + 1] == ' '))
  }

  /** The form of a cleaned title: single spaces only, nothing to strip. */
  predicate Normalized(s: string)
  {
    SingleSpaced(s) && (s == [] || (!IsSpace(s[0]) && !IsSpace(s[|s| - 1])))
  }

  /** `re.sub(r'\s+', ' ', s)`: every maximal whitespace run becomes one space. */
  function Collapse(s: string): (r: string)
    ensures s == [] <==> r == []
    ensures s != [] ==> r[0] == (if IsSpace(s[0]) then ' ' else s[0])
    decreases |s|
  {
    if s == [] then []
    else if IsSpace(s[0]) then " " + Collapse(TrimLeft(s))
    else [s[0]] + Collapse(s[1..])
  }

  /** `_clean_text`. */
  function CleanText(s: string): string
  {
    Strip(Collapse(s))
  }

  /** A cleaned title has single spaces only and nothing to strip. */
  lemma CleanTextNormalized(s: string)
    ensures Normalized(CleanText(s))
  {
    CleanTextIsJoinedWords(s);
    WordsAreWords(s);
    JoinWordsNormalized(Words(s));
  }

  /** Cleaning a title is `" ".join(title.split())`. */
  lemma {:induction false} CleanTextIsJoinedWords(s: string)
    ensures Strip(Collapse(s)) == Join(Words(s), " ")
  {
    CollapseAsWords(s);
    StripJoinedWords(s, Lead(s), Trail(TrimLeft(s)));
  }

  lemma StripJoinedWords(s: string, a: string, b: string)
    requires a == "" || a == " "
    requires b == "" || b == " "
    ensures Strip(a + Join(Words(s), " ") + b) == Join(Words(s), " ")
  {
    WordsAreWords(s);
    JoinWordsEnds(Words(s));
    Blank(a);
    Blank(b);
    StripAround(a, Join(Words(s), " "), b);
  }

  /** One space when `s` starts with whitespace, else nothing. */
  function Lead(s: string): string
  {
    if s != [] && IsSpace(s[0]) then " " else ""
  }

  lemma CollapseAsWords(s: string)
    ensures Collapse(s) == Lead(s) + Join(Words(s), " ") + Trail(TrimLeft(s))
  {
    var t := TrimLeft(s);
    CollapseLead(s);
    WordsLead(s);
    CollapseWords(t);
    Concat3(Collapse(s), Lead(s), Collapse(t), Join(Words(t), " "), Trail(t));
  }

  lemma CollapseLead(s: string)
    ensures Collapse(s) == Lead(s) + Collapse(TrimLeft(s))
  {
    if s != [] && !IsSpace(s[0]) {
      assert TrimLeft(s) == s;
    }
  }

  lemma WordsLead(s: string)
    ensures Words(s) == Words(TrimLeft(s))
  {
    TrimLeftIdempotent(s);
  }

  lemma Blank(b: string)
    requires b == "" || b == " "
    ensures AllSpace(b)
  {
  }

  lemma Concat3(cs: string, a: string, ct: string, j: string, t: string)
    requires cs == a + ct && ct == j + t
    ensures cs == a + j + t
  {
  }

  lemma {:induction false} TrimLeftIdempotent(s: string)
    ensures TrimLeft(TrimLeft(s)) == TrimLeft(s)
  {
  }

  /** One space when `s` ends in whitespace, else nothing. */
  function Trail(s: string): string
  {
    if s != [] && IsSpace(s[|s| - 1]) then " " else ""
  }

  /** For a text without leading whitespace, collapsing yields the words joined
      by single spaces, plus one space when the text ends in whitespace. */
  lemma {:induction false} CollapseWords(s: string)
    requires s == [] || !IsSpace(s[0])
    ensures Collapse(s) == Join(Words(s), " ") + Trail(s)
    decreases |s|
  {
    if s != [] {
      var k := WordRun(s);
      if k == |s| {
        CollapseOneWord(s);
      } else {
        var u := TrimLeft(s[k..]);
        if u == [] {
          CollapseWordThenSpace(s, k);
        } else {
          CollapseWords(u);
          CollapseWordsCons(s, k, u);
        }
      }
    }
  }

  lemma CollapseOneWord(s: string)
    requires s != [] && !IsSpace(s[0]) && WordRun(s) == |s|
    ensures Collapse(s) == Join(Words(s), " ") + Trail(s)
  {
    WordsFirst(s);
    WordRunNoSpace(s);
    assert s[..|s|] == s;
    CollapseNoSpacePrefix(s, []);
    assert s + [] == s;
    assert s[|s|..] == [];
    assert Words(s) == [s];
  }

  lemma CollapseWordThenSpace(s: string, k: nat)
    requires s != [] && !IsSpace(s[0]) && k == WordRun(s) && k < |s| && TrimLeft(s[k..]) == []
    ensures Collapse(s) == Join(Words(s), " ") + Trail(s)
  {
    var w := s[..k];
    WordsFirst(s);
    SpaceTail(s, k);
    assert Words(s) == [w] + [] == [w];
    assert Trail(s) == " ";
    WordsAfterSpace(s[k..]);
    assert Collapse(s[k..]) == " " + Collapse([]) == " ";
    CollapseAfterWord(s, k);
  }

  lemma CollapseWordsCons(s: string, k: nat, u: string)
    requires s != [] && !IsSpace(s[0]) && k == WordRun(s) && k < |s|
    requires u == TrimLeft(s[k..]) && u != []
    requires Collapse(u) == Join(Words(u), " ") + Trail(u)
    ensures Collapse(s) == Join(Words(s), " ") + Trail(s)
  {
    var w := s[..k];
    WordsFirst(s);
    WordsAfterSpace(s[k..]);
    CollapseAfterWord(s, k);
    WordsFirst(u);
    SameTrail(s, k, u);
    JoinCons(w, Words(u));
    ConcatChain(Collapse(s), w, Collapse(s[k..]), Collapse(u), Join(Words(u), " "), Trail(u));
  }

  lemma SameTrail(s: string, k: nat, u: string)
    requires k < |s| && u == TrimLeft(s[k..]) && u != []
    ensures Trail(s) == Trail(u)
  {
    assert s[|s| - 1] == u[|u| - 1];
  }

  lemma ConcatChain(cs: string, w: string, cr: string, cu: string, j: string, t: string)
    requires cs == w + cr && cr == " " + cu && cu == j + t
    ensures cs == w + " " + j + t
  {
  }

  lemma CollapseAfterWord(s: string, k: nat)
    requires k == WordRun(s)
    ensures Collapse(s) == s[..k] + Collapse(s[k..])
  {
    var w, r := s[..k], s[k..];
    WordRunNoSpace(s);
    assert s == w + r;
    CollapseNoSpacePrefix(w, r);
  }

  /** The first word of a text without leading whitespace is its leading non-space run. */
  lemma WordsFirst(s: string)
    requires s != [] && !IsSpace(s[0])
    ensures Words(s) == [s[..WordRun(s)]] + Words(s[WordRun(s)..])
  {
    assert TrimLeft(s) == s;
  }

  /** A whitespace run at the front collapses to one space and contributes no word. */
  lemma WordsAfterSpace(rest: string)
    requires rest != [] && IsSpace(rest[0])
    ensures Collapse(rest) == " " + Collapse(TrimLeft(rest))
    ensures Words(rest) == Words(TrimLeft(rest))
  {
    TrimLeftIdempotent(rest);
  }

  /** A text whose tail after the first word is only whitespace ends in whitespace. */
  lemma SpaceTail(s: string, k: nat)
    requires k < |s| && TrimLeft(s[k..]) == []
    ensures AllSpace(s[k..]) && IsSpace(s[|s| - 1]) && Words(s[k..]) == []
  {
    var rest := s[k..];
    TrimLeftRemovesSpace(rest);
    assert rest == rest[..|rest|];
    assert s[|s| - 1] == rest[|rest| - 1];
  }

  lemma ConcatAssoc(a: string, b: string, c: string, d: string)
    ensures a + (b + (c + d)) == a + b + c + d
  {
  }

  lemma JoinCons(w: string, ws: seq<string>)
    requires ws != []
    ensures Join([w] + ws, " ") == w + " " + Join(ws, " ")
  {
    assert ([w] + ws)[1..] == ws;
  }

  /** Collapsing passes a run of non-whitespace characters through unchanged. */
  lemma {:induction false} CollapseNoSpacePrefix(w: string, rest: string)
    requires NoSpace(w)
    ensures Collapse(w + rest) == w + Collapse(rest)
  {
    if w != [] {
      assert (w + rest)[1..] == w[1..] + rest;
      CollapseNoSpacePrefix(w[1..], rest);
    } else {
      assert w + rest == rest;
    }
  }

  /** Words joined by single spaces are Normalized. */
  lemma {:induction false} JoinWordsNormalized(ws: seq<string>)
    requires AreWords(ws)
    ensures Normalized(Join(ws, " "))
  {
    JoinWordsEnds(ws);
    if |ws| == 1 {
      assert SingleSpaced(ws[0]);
    } else if |ws| > 1 {
      JoinWordsNormalized(ws[1..]);
      JoinWordsEnds(ws[1..]);
      SingleSpacedJoin(ws[0], Join(ws[1..], " "));
    }
  }

  lemma SingleSpacedJoin(w: string, b: string)
    requires w != [] && NoSpace(w) && SingleSpaced(b) && b != [] && !IsSpace(b[0])
    ensures SingleSpaced(w + " " + b)
  {
    var s := w + " " + b;
    forall i | 0 <= i < |s| && IsSpace(s[i]) ensures s[i] == ' ' {
      if i > |w| {
        assert s[i] == b[i - |w| - 1];
      }
    }
    forall i | 0 <= i < |s| - 1 ensures !(s[i] == ' ' && s[i + 1] == ' ') {
      if i < |w| {
        assert s[i] == w[i];
      } else if i == |w| {
        assert s[i + 1] == b[0];
      } else {
        assert s[i] == b[i - |w| - 1] && s[i + 1] == b[i - |w|];
      }
    }
  }

  /** A Normalized text is left as it is by `_clean_text`. */
  lemma {:induction false} CleanTextOfNormalized(s: string)
    requires Normalized(s)
    ensures CleanText(s) == s
  {
    CollapseSingleSpaced(s);
    StripAround([], s, []);
    assert [] + s + [] == s;
  }

  lemma {:induction false} CollapseSingleSpaced(s: string)
    requires SingleSpaced(s)
    ensures Collapse(s) == s
  {
    if s != [] {
      assert SingleSpaced(s[1..]) by {
        forall i | 0 <= i < |s[1..]| - 1 ensures !(s[1..][i] == ' ' && s[1..][i + 1] == ' ') {
          assert s[1..][i] == s[i + 1] && s[1..][i + 1] == s[i + 2];
        }
      }
      CollapseSingleSpaced(s[1..]);
      if IsSpace(s[0]) {
        assert TrimLeft(s) == s[1..] by {
          if |s| > 1 {
            assert !(s[0] == ' ' && s[1] == ' ');
          }
        }
      }
    }
  }

  /** `_clean_text` is idempotent. */
  lemma CleanTextIdempotent(s: string)
    ensures CleanText(CleanText(s)) == CleanText(s)
  {
    CleanTextNormalized(s);
    CleanTextOfNormalized(CleanText(s));
  }

  // ---------------------------------------------------------------------------
  // _parse_chapter: re.match(r'(Глава\s*)?(\d+)\.?\s*(.*)', title, re.IGNORECASE)
  // ---------------------------------------------------------------------------

  /** The word "Глава" (chapter). */
  const ChapterWord: string := "\U{413}\U{43b}\U{430}\U{432}\U{430}"

  /** The position where the group `(\d+)` of the chapter pattern starts, when it matches. */
  function ChapterNumberStart(title: string): (r: Option<nat>)
    ensures r.Some? ==> r.value < |title| && IsDigit(title[r.value])
  {
    if title != [] && IsDigit(title[0]) then Some(0)
    else if CaselessPrefix(title, ChapterWord) then
      var p := |title| - |TrimLeft(title[5..])|;
      if p < |title| && IsDigit(title[p]) then Some(p) else None
    else None
  }

  /** Group 2 of the chapter pattern: the digits of the chapter number, or ""
      when the pattern does not match. */
  function ChapterNumber(title: string): string
  {
    match ChapterNumberStart(title)
    case None => ""
    case Some(p) =>
      var k := DigitRun(title[p..]);
      title[p..][..k]
  }

  /** Group 3 of the chapter pattern after cleaning, or the whole cleaned title
      when the pattern does not match. */
  function ChapterTitle(title: string): string
  {
    CleanText(ChapterRest(title))
  }

  /** Group 3 of the chapter pattern (the rest of the line after the number, an
      optional period and whitespace), or the whole title when the pattern does not match. */
  function ChapterRest(title: string): string
  {
    match ChapterNumberStart(title)
    case None => title
    case Some(p) =>
      var q := p + DigitRun(title[p..]);
      var q' := if q < |title| && title[q] == '.' then q + 1 else q;
      TakeLine(TrimLeft(title[q'..]))
  }

  /** `_parse_chapter`: the chapter number and the cleaned rest of the line, or
      an empty number and the cleaned title when the pattern does not match. */
  function ParseChapter(title: string): (string, string)
  {
    (ChapterNumber(title), ChapterTitle(title))
  }

  /** The number `_parse_chapter` returns is all digits and the title is cleaned. */
  lemma ParseChapterShape(title: string)
    ensures AllDigits(ParseChapter(title).0)
    ensures Normalized(ParseChapter(title).1)
  {
    ChapterNumberDigits(title);
    ChapterTitleNormalized(title);
  }

  lemma ChapterNumberDigits(title: string)
    ensures AllDigits(ChapterNumber(title))
  {
    if ChapterNumberStart(title).Some? {
      DigitRunDigits(title[ChapterNumberStart(title).value..]);
    }
  }

  lemma ChapterTitleNormalized(title: string)
    ensures Normalized(ChapterTitle(title))
  {
    CleanTextNormalized(ChapterRest(title));
  }

  /** The chapter pattern accepts `title` with its number starting at `p`: the
      title opens with a digit, or with "Глава" in any case, whitespace, then a digit. */
  predicate ChapterNumberAt(title: string, p: nat)
  {
    && p < |title| && IsDigit(title[p])
    && (p == 0 || (CaselessPrefix(title, ChapterWord) && 5 <= p && AllSpace(title[5..p])))
  }

  /** `_parse_chapter` returns a number exactly when the chapter pattern accepts the title. */
  lemma ParseChapterSpec(title: string)
    ensures ParseChapter(title).0 != "" <==> exists p: nat :: ChapterNumberAt(title, p)
  {
    ParseChapterNumber(title);
    ChapterMatchIff(title);
  }

  /** Wherever the pattern places the number, it is the maximal digit run there. */
  lemma ParseChapterMaximal(title: string, p: nat)
    requires ChapterNumberAt(title, p)
    ensures DigitRun(title[p..]) > 0 && ParseChapter(title).0 == title[p..p + DigitRun(title[p..])]
  {
    ParseChapterNumber(title);
    ChapterStartComplete(title, p);
    ParseChapterFound(title, p);
  }

  /** On failure `_parse_chapter` returns ("", cleaned title). */
  lemma ParseChapterFallback(title: string)
    ensures ParseChapter(title).0 == "" ==> ParseChapter(title) == ("", CleanText(title))
  {
    ParseChapterNumber(title);
    ChapterNoMatch(title);
  }

  lemma ParseChapterNumber(title: string)
    ensures ParseChapter(title).0 == ChapterNumber(title)
  {
  }

  lemma ChapterMatchIff(title: string)
    ensures ChapterNumber(title) != "" <==> exists p: nat :: ChapterNumberAt(title, p)
  {
    match ChapterNumberStart(title)
    case None =>
      forall p: nat | ChapterNumberAt(title, p) ensures false {
        ChapterStartComplete(title, p);
      }
    case Some(p) =>
      ChapterStartSound(title);
      ParseChapterFound(title, p);
  }

  lemma ChapterNoMatch(title: string)
    ensures ChapterNumber(title) == "" ==> ParseChapter(title) == ("", CleanText(title))
  {
    match ChapterNumberStart(title)
    case None =>
      ParseChapterNotFound(title);
    case Some(p) =>
      ParseChapterFound(title, p);
  }

  lemma ParseChapterFound(title: string, p: nat)
    requires ChapterNumberStart(title) == Some(p)
    ensures DigitRun(title[p..]) > 0
    ensures ChapterNumber(title) == title[p..p + DigitRun(title[p..])]
  {
    DigitAt(title, p);
    NumberAt(title, p);
    SliceOfSlice(title, p, DigitRun(title[p..]));
  }

  lemma SliceOfSlice(s: string, p: nat, k: nat)
    requires p + k <= |s|
    ensures s[p..][..k] == s[p..p + k]
  {
  }

  lemma DigitAt(title: string, p: nat)
    requires p < |title| && IsDigit(title[p])
    ensures DigitRun(title[p..]) > 0
  {
    assert title[p..][0] == title[p];
  }

  lemma NumberAt(title: string, p: nat)
    requires ChapterNumberStart(title) == Some(p)
    ensures ChapterNumber(title) == title[p..][..DigitRun(title[p..])]
  {
  }

  lemma ParseChapterNotFound(title: string)
    requires ChapterNumberStart(title).None?
    ensures ParseChapter(title) == ("", CleanText(title))
  {
  }

  lemma ChapterStartSound(title: string)
    requires ChapterNumberStart(title).Some?
    ensures ChapterNumberAt(title, ChapterNumberStart(title).value)
  {
    var p := ChapterNumberStart(title).value;
    if p != 0 {
      assert CaselessPrefix(title, ChapterWord) && p == |title| - |TrimLeft(title[5..])|;
      SpaceGap(title, p);
    }
  }

  lemma SpaceGap(title: string, p: nat)
    requires 5 <= |title| && p == |title| - |TrimLeft(title[5..])|
    ensures 5 <= p <= |title| && AllSpace(title[5..p])
  {
    var t := title[5..];
    var q := |t| - |TrimLeft(t)|;
    TrimLeftRemovesSpace(t);
    assert p == 5 + q;
    forall i | 0 <= i < q ensures IsSpace(title[5..p][i]) {
      assert title[5..p][i] == t[..q][i];
    }
  }

  lemma ChapterStartComplete(title: string, p: nat)
    requires ChapterNumberAt(title, p)
    ensures ChapterNumberStart(title) == Some(p)
  {
    if p != 0 {
      assert !IsDigit(title[0]) by {
        assert FoldCase(title[0]) == FoldCase(ChapterWord[0]);
      }
      assert title[5..][..p - 5] == title[5..p];
      FirstNonSpace(title[5..], p - 5);
    }
  }

  /** A digit after a whitespace run sits where that run ends. */
  lemma FirstNonSpace(s: string, k: nat)
    requires k < |s| && AllSpace(s[..k]) && !IsSpace(s[k])
    ensures |s| - |TrimLeft(s)| == k
  {
    var t := TrimLeft(s);
    var a := |s| - |t|;
    TrimLeftRemovesSpace(s);
    assert forall i :: 0 <= i < k ==> s[..k][i] == s[i];
    assert forall i :: 0 <= i < a ==> s[..a][i] == s[i];
    assert a < |s| ==> s[a] == t[0];
  }

  // ---------------------------------------------------------------------------
  // _parse_section: re.match(r'^(\d+(\.\d+)*\.?)\s+(.*)', title)
  // ---------------------------------------------------------------------------

  predicate IsNumberChar(c: char)
  {
    IsDigit(c) || c == '.'
  }

  /** The number of digit groups when all of `s` matches `\d+(\.\d+)*\.?`. */
  function GroupCount(s: string): (r: Option<nat>)
    ensures r.Some? ==> r.value >= 1 && s != [] && IsDigit(s[0])
    decreases |s|
  {
    var k := DigitRun(s);
    if k == 0 then None
    else if k == |s| then Some(1)
    else if s[k] != '.' then None
    else if k + 1 == |s| then Some(1)
    else
      match GroupCount(s[k + 1..])
      case None => None
      case Some(g) => Some(g + 1)
  }

  /** A string with a group count consists of digits and periods only. */
  lemma {:induction false} GroupCountChars(s: string)
    requires GroupCount(s).Some?
    ensures forall i :: 0 <= i < |s| ==> IsNumberChar(s[i])
    decreases |s|
  {
    var k := DigitRun(s);
    DigitRunDigits(s);
    assert forall i :: 0 <= i < k ==> s[i] == s[..k][i];
    if k + 1 < |s| {
      GroupCountChars(s[k + 1..]);
      assert forall i :: k + 1 <= i < |s| ==> s[i] == s[k + 1..][i - k - 1];
    }
  }

  /** The length of the leading run of digits and periods. */
  function NumberRun(s: string): (k: nat)
    ensures k <= |s|
    ensures k == |s| || !IsNumberChar(s[k])
  {
    if s != [] && IsNumberChar(s[0]) then 1 + NumberRun(s[1..]) else 0
  }

  /** `_parse_section`: the dotted number and the cleaned rest of the line, or
      an empty number and the cleaned title when the pattern does not match. */
  function ParseSection(title: string): (string, string)
  {
    var n := NumberRun(title);
    if SectionMatch(title, n) then
      (title[..n], CleanText(SectionRest(title, n)))
    else ("", CleanText(title))
  }

  /** The section pattern matches with the number run `title[..n]`. */
  predicate SectionMatch(title: string, n: nat)
    requires n <= |title|
  {
    GroupCount(title[..n]).Some? && n < |title| && IsSpace(title[n])
  }

  /** Group 3 of the section pattern: the rest of the line after the number and whitespace. */
  function SectionRest(title: string, n: nat): string
    requires n <= |title|
  {
    TakeLine(TrimLeft(title[n..]))
  }

  /** A number `_parse_section` returns is dotted digit groups, and the title is cleaned. */
  lemma ParseSectionShape(title: string)
    ensures ParseSection(title).0 != "" ==> GroupCount(ParseSection(title).0).Some?
    ensures Normalized(ParseSection(title).1)
  {
    var n := NumberRun(title);
    if SectionMatch(title, n) {
      CleanTextNormalized(SectionRest(title, n));
    } else {
      CleanTextNormalized(title);
    }
  }

  /** The section pattern accepts `title` with a number of length `k`: the title
      opens with `digits(.digits)*` and an optional period, followed at once by whitespace. */
  predicate SectionNumberAt(title: string, k: nat)
  {
    0 < k < |title| && GroupCount(title[..k]).Some? && IsSpace(title[k])
  }

  /** `_parse_section` returns a number exactly when the section pattern
      accepts the title. */
  lemma ParseSectionSpec(title: string)
    ensures ParseSection(title).0 != "" <==> exists k: nat :: SectionNumberAt(title, k)
  {
    var n := NumberRun(title);
    if ParseSection(title).0 != "" {
      assert SectionNumberAt(title, n);
    }
    SectionNumberUnique(title);
  }

  /** The accepted number is the one `_parse_section` returns. */
  lemma ParseSectionNumber(title: string)
    ensures forall k: nat :: SectionNumberAt(title, k) ==> ParseSection(title).0 == title[..k]
  {
    SectionNumberUnique(title);
  }

  /** On failure `_parse_section` returns ("", cleaned title). */
  lemma ParseSectionFallback(title: string)
    ensures ParseSection(title).0 == "" ==> ParseSection(title) == ("", CleanText(title))
  {
  }

  /** The pattern can only accept the maximal run of digits and periods. */
  lemma SectionNumberUnique(title: string)
    ensures forall k: nat :: SectionNumberAt(title, k) ==> k == NumberRun(title)
  {
    forall k: nat | SectionNumberAt(title, k) ensures k == NumberRun(title) {
      SectionNumberRun(title, k);
    }
  }

  lemma SectionNumberRun(title: string, k: nat)
    requires SectionNumberAt(title, k)
    ensures k == NumberRun(title)
  {
    GroupCountChars(title[..k]);
    assert forall i :: 0 <= i < k ==> title[i] == title[..k][i];
    NumberRunOf(title, k);
  }

  /** A run of digits and periods ended by another character is the number run. */
  lemma {:induction false} NumberRunOf(s: string, k: nat)
    requires k < |s| && !IsNumberChar(s[k])
    requires forall i :: 0 <= i < k ==> IsNumberChar(s[i])
    ensures NumberRun(s) == k
  {
    if k > 0 {
      NumberRunOf(s[1..], k - 1);
    }
  }

  // ---------------------------------------------------------------------------
  // _is_section: ^\d+(\.\d+)?\.?$     _is_subsection: ^\d+\.\d+\.\d+\.?$
  // ---------------------------------------------------------------------------

  /** `\d+\.?$`: one digit group with an optional trailing period, and nothing else. */
  predicate OneGroup(u: string)
  {
    var c := DigitRun(u);
    c > 0 && (c == |u| || (u[c] == '.' && c + 1 == |u|))
  }

  /** `\d+\.` followed by `rest` on the remainder of `s`. */
  predicate GroupThen(s: string, rest: string -> bool)
  {
    var a := DigitRun(s);
    a > 0 && a < |s| && s[a] == '.' && rest(s[a + 1..])
  }

  /** `^\d+(\.\d+)?\.?$`. */
  predicate SectionShape(s: string)
  {
    OneGroup(s) || GroupThen(s, OneGroup)
  }

  /** `^\d+\.\d+\.\d+\.?$`. */
  predicate SubsectionShape(s: string)
  {
    GroupThen(s, t => GroupThen(t, OneGroup))
  }

  /** `_is_section`; `$` also matches just before a final newline. */
  predicate IsSection(s: string)
  {
    SectionShape(s) || (s != [] && s[|s| - 1] == '\n' && SectionShape(s[..|s| - 1]))
  }

  /** `_is_subsection`; `$` also matches just before a final newline. */
  predicate IsSubsection(s: string)
  {
    SubsectionShape(s) || (s != [] && s[|s| - 1] == '\n' && SubsectionShape(s[..|s| - 1]))
  }

  lemma OneGroupCount(u: string)
    ensures OneGroup(u) <==> GroupCount(u) == Some(1)
  {
    var c := DigitRun(u);
    if c > 0 && c + 1 < |u| && u[c] == '.' {
      var g := GroupCount(u[c + 1..]);
      assert g.Some? ==> GroupCount(u) == Some(g.value + 1);
    }
  }

  /** A leading group and period add one to the group count of the remainder. */
  lemma GroupThenCount(s: string, k: nat, n: nat)
    requires k == DigitRun(s) && n >= 1
    ensures (k > 0 && k < |s| && s[k] == '.' && GroupCount(s[k + 1..]) == Some(n)) <==> GroupCount(s) == Some(n + 1)
  {
    if !(k > 0 && k < |s| && s[k] == '.') {
      GroupCountNoPeriod(s, k, n);
    } else if k + 1 == |s| {
      GroupCountFinalPeriod(s, k, n);
    } else {
      GroupCountStep(s, k, n);
    }
  }

  lemma GroupCountNoPeriod(s: string, k: nat, n: nat)
    requires k == DigitRun(s) && n >= 1 && !(k > 0 && k < |s| && s[k] == '.')
    ensures GroupCount(s) != Some(n + 1)
  {
  }

  lemma GroupCountFinalPeriod(s: string, k: nat, n: nat)
    requires k == DigitRun(s) && n >= 1 && k > 0 && k + 1 == |s| && s[k] == '.'
    ensures GroupCount(s[k + 1..]) != Some(n) && GroupCount(s) != Some(n + 1)
  {
    assert s[k + 1..] == [];
  }

  lemma GroupCountStep(s: string, k: nat, n: nat)
    requires k == DigitRun(s) && n >= 1 && k > 0 && k + 1 < |s| && s[k] == '.'
    ensures GroupCount(s[k + 1..]) == Some(n) <==> GroupCount(s) == Some(n + 1)
  {
    GroupCountUnfold(s, k);
    var g := GroupCount(s[k + 1..]);
    if g.Some? {
      assert GroupCount(s) == Some(g.value + 1);
    } else {
      assert GroupCount(s) == None;
    }
  }

  lemma GroupCountUnfold(s: string, k: nat)
    requires k == DigitRun(s) && k > 0 && k + 1 < |s| && s[k] == '.'
    ensures GroupCount(s) == match GroupCount(s[k + 1..]) case None => None case Some(g) => Some(g + 1)
  {
  }

  /** `_is_section` accepts exactly the numbers of one or two digit groups. */
  lemma SectionShapeGroups(s: string)
    ensures SectionShape(s) <==> GroupCount(s) == Some(1) || GroupCount(s) == Some(2)
  {
    OneGroupCount(s);
    var a := DigitRun(s);
    GroupThenCount(s, a, 1);
    if a > 0 && a < |s| && s[a] == '.' {
      OneGroupCount(s[a + 1..]);
    }
  }

  /** `_is_subsection` accepts exactly the numbers of three digit groups. */
  lemma SubsectionShapeGroups(s: string)
    ensures SubsectionShape(s) <==> GroupCount(s) == Some(3)
  {
    var a := DigitRun(s);
    GroupThenCount(s, a, 2);
    if a > 0 && a < |s| && s[a] == '.' {
      var t := s[a + 1..];
      var b := DigitRun(t);
      GroupThenCount(t, b, 1);
      if b > 0 && b < |t| && t[b] == '.' {
        OneGroupCount(t[b + 1..]);
      }
    }
  }

  /** On a dotted number `_is_section` and `_is_subsection` only count its groups. */
  lemma IsSectionGroups(s: string)
    requires GroupCount(s).Some?
    ensures IsSection(s) <==> GroupCount(s) == Some(1) || GroupCount(s) == Some(2)
    ensures IsSubsection(s) <==> GroupCount(s) == Some(3)
  {
    SectionShapeGroups(s);
    SubsectionShapeGroups(s);
    GroupCountChars(s);
    assert IsNumberChar(s[|s| - 1]);
  }

  /** No string is both a section number and a subsection number. */
  lemma SectionSubsectionDisjoint(s: string)
    ensures !(IsSection(s) && IsSubsection(s))
  {
    SectionShapeGroups(s);
    SubsectionShapeGroups(s);
    if s != [] {
      SectionShapeGroups(s[..|s| - 1]);
      SubsectionShapeGroups(s[..|s| - 1]);
      if GroupCount(s).Some? {
        GroupCountChars(s);
      }
    }
  }
}
