/** The heading patterns of `PDFBookProcessor._organize_structure` and the
    matcher they are searched with. `_format_regex` (`re.escape` followed by
    replacing each escaped space with `\s*`) is modelled on strings; the
    pattern language it produces (literal characters, `.`, `\s*`) is given a
    meaning by a greedy backtracking matcher, and `re.search` is the leftmost
    position where that matcher succeeds. Matching is case-insensitive, as
    every heading pattern starts with `(?i)`. */
module Patterns {
  import opened Wrappers
  import opened PyStrings
  import opened Headings

  // ---------------------------------------------------------------------------
  // _format_regex on strings
  // ---------------------------------------------------------------------------

  /** The characters `re.escape` prefixes with a backslash (Python 3.7 and later). */
  predicate IsEscaped(c: char)
  {
    c in "()[]{}?*+-|^$\\.&~# \t\n\r\U{b}\U{c}"
  }

  function EscapeChar(c: char): string
  {
    if IsEscaped(c) then ['\\', c] else [c]
  }

  /** `re.escape(s)`. */
  function Escape(s: string): string
  {
    if s == [] then [] else EscapeChar(s[0]) + Escape(s[1..])
  }

  /** `s.replace(pat, rep)`: every occurrence of `pat`, scanning left to right without overlap. */
  function Replace(s: string, pat: string, rep: string): string
    requires pat != []
    decreases |s|
  {
    if |s| < |pat| then s
    else if s[..|pat|] == pat then rep + Replace(s[|pat|..], pat, rep)
    else [s[0]] + Replace(s[1..], pat, rep)
  }

  const EscapedSpace: string := "\\ "
  const SpaceStar: string := "\\s*"

  /** `_format_regex(title)`. */
  function FormatRegex(title: string): string
  {
    Replace(Escape(title), EscapedSpace, SpaceStar)
  }

  /** What `_format_regex` turns one character of the title into. */
  function Unit(c: char): string
  {
    if c == ' ' then SpaceStar else EscapeChar(c)
  }

  /** An escaped string never starts with a bare space. */
  lemma EscapeHead(t: string)
    ensures Escape(t) == [] || Escape(t)[0] != ' '
  {
  }

  lemma ReplaceNoMatchHead(c: char, e: string)
    requires c != '\\' || e == [] || e[0] != ' '
    ensures Replace([c] + e, EscapedSpace, SpaceStar) == [c] + Replace(e, EscapedSpace, SpaceStar)
  {
    var s := [c] + e;
    assert s[1..] == e;
    if |s| >= 2 {
      assert s[..2] == [c, e[0]];
    }
  }

  /** `_format_regex` works character by character: no replacement straddles two characters of the title. */
  lemma FormatRegexCons(c: char, t: string)
    ensures FormatRegex([c] + t) == Unit(c) + FormatRegex(t)
  {
    var e := Escape(t);
    assert ([c] + t)[1..] == t;
    assert Escape([c] + t) == EscapeChar(c) + e;
    EscapeHead(t);
    if c == ' ' {
      var s := EscapedSpace + e;
      assert s[..2] == EscapedSpace && s[2..] == e;
    } else if IsEscaped(c) {
      var s := ['\\', c] + e;
      assert s[..2] == ['\\', c] && s[..2] != EscapedSpace;
      assert s[1..] == [c] + e;
      ReplaceNoMatchHead(c, e);
    } else {
      ReplaceNoMatchHead(c, e);
    }
  }

  // ---------------------------------------------------------------------------
  // The pattern language of the heading patterns
  // ---------------------------------------------------------------------------

  datatype Item = Lit(c: char) | AnyChar | Spaces

  predicate IsAsciiAlnum(c: char)
  {
    '0' <= c <= '9' || 'a' <= c <= 'z' || 'A' <= c <= 'Z'
  }

  /** A character that means itself when it stands unescaped in a pattern. */
  predicate IsPlain(c: char)
  {
    c !in "()[]{}?*+|^$\\."
  }

  function Prepend(xs: seq<Item>, o: Option<seq<Item>>): Option<seq<Item>>
  {
    match o
    case None => None
    case Some(ys) => Some(xs + ys)
  }

  /** The items of a pattern written in the subset the heading patterns use:
      `\s*`, a backslash before a non-alphanumeric character (that character
      literally), `.` (any character but a newline) and plain characters.
      Anything else is outside the subset. */
  function Compile(p: string): Option<seq<Item>>
    decreases |p|
  {
    if p == [] then Some([])
    else if |p| >= 3 && p[..3] == SpaceStar then Prepend([Spaces], Compile(p[3..]))
    else if p[0] == '\\' then
      if |p| >= 2 && !IsAsciiAlnum(p[1]) then Prepend([Lit(p[1])], Compile(p[2..])) else None
    else if p[0] == '.' then Prepend([AnyChar], Compile(p[1..]))
    else if IsPlain(p[0]) then Prepend([Lit(p[0])], Compile(p[1..]))
    else None
  }

  /** The item `_format_regex` makes of one title character: `\s*` for a space, the character itself otherwise. */
  function TitleItem(c: char): Item
  {
    if c == ' ' then Spaces else Lit(c)
  }

  function TitleItems(t: string): (r: seq<Item>)
    ensures |r| == |t|
  {
    if t == [] then [] else [TitleItem(t[0])] + TitleItems(t[1..])
  }

  /** A heading number inserted unescaped: each `.` matches any character. */
  function IdItems(id: string): (r: seq<Item>)
    ensures |r| == |id|
  {
    if id == [] then [] else [if id[0] == '.' then AnyChar else Lit(id[0])] + IdItems(id[1..])
  }

  function Lits(w: string): (r: seq<Item>)
    ensures |r| == |w|
  {
    if w == [] then [] else [Lit(w[0])] + Lits(w[1..])
  }

  lemma PrependAssoc(a: seq<Item>, b: seq<Item>, o: Option<seq<Item>>)
    ensures Prepend(a, Prepend(b, o)) == Prepend(a + b, o)
  {
    match o
    case None =>
    case Some(ys) => assert a + (b + ys) == (a + b) + ys;
  }

  lemma CompileUnit(c: char, rest: string)
    ensures Compile(Unit(c) + rest) == Prepend([TitleItem(c)], Compile(rest))
  {
    if c == ' ' {
      CompileSpaceStar(rest);
    } else if IsEscaped(c) {
      CompileEscaped(c, rest);
    } else {
      CompilePlain(c, rest);
    }
  }

  lemma CompileSpaceStar(rest: string)
    ensures Compile(SpaceStar + rest) == Prepend([Spaces], Compile(rest))
  {
    var p := SpaceStar + rest;
    assert p[..3] == SpaceStar && p[3..] == rest;
  }

  lemma CompileEscaped(c: char, rest: string)
    requires IsEscaped(c) && c != ' '
    ensures Compile(['\\', c] + rest) == Prepend([Lit(c)], Compile(rest))
  {
    var p := ['\\', c] + rest;
    assert !IsAsciiAlnum(c);
    assert p[0] == '\\' && p[1] == c && p[2..] == rest;
    assert |p| >= 3 ==> p[..3] != SpaceStar by {
      if |p| >= 3 {
        assert p[..3][1] == c;
      }
    }
  }

  lemma CompilePlain(c: char, rest: string)
    requires IsPlain(c)
    ensures Compile([c] + rest) == Prepend([Lit(c)], Compile(rest))
  {
    var p := [c] + rest;
    assert p[0] == c && p[1..] == rest;
    assert c != '\\' && c != '.';
    assert |p| >= 3 ==> p[..3] != SpaceStar by {
      if |p| >= 3 {
        assert p[..3][0] == c;
      }
    }
  }

  /** The pattern `_format_regex(t)` consists of exactly the items of `t`: its
      characters literally, with `\s*` in place of each space. */
  lemma {:induction false} CompileFormatRegex(t: string, rest: string)
    ensures Compile(FormatRegex(t) + rest) == Prepend(TitleItems(t), Compile(rest))
  {
    if t == [] {
      assert Replace([], EscapedSpace, SpaceStar) == [];
      assert FormatRegex(t) + rest == rest;
      match Compile(rest)
      case None =>
      case Some(ys) => assert [] + ys == ys;
    } else {
      var c, t' := t[0], t[1..];
      assert t == [c] + t';
      FormatRegexCons(c, t');
      var f' := FormatRegex(t');
      assert FormatRegex(t) + rest == Unit(c) + (f' + rest);
      CompileUnit(c, f' + rest);
      CompileFormatRegex(t', rest);
      PrependAssoc([TitleItem(c)], TitleItems(t'), Compile(rest));
    }
  }

  lemma {:induction false} CompileLits(w: string, rest: string)
    requires forall i :: 0 <= i < |w| ==> IsPlain(w[i])
    ensures Compile(w + rest) == Prepend(Lits(w), Compile(rest))
  {
    if w == [] {
      assert w + rest == rest;
      match Compile(rest)
      case None =>
      case Some(ys) => assert [] + ys == ys;
    } else {
      assert w + rest == [w[0]] + (w[1..] + rest);
      CompilePlain(w[0], w[1..] + rest);
      CompileLits(w[1..], rest);
      PrependAssoc([Lit(w[0])], Lits(w[1..]), Compile(rest));
    }
  }

  /** A heading number: digits and periods, as `extract_structure` produces. */
  predicate IsNumbering(id: string)
  {
    forall i :: 0 <= i < |id| ==> IsDigit(id[i]) || id[i] == '.'
  }

  lemma {:induction false} CompileId(id: string, rest: string)
    requires IsNumbering(id)
    ensures Compile(id + rest) == Prepend(IdItems(id), Compile(rest))
  {
    if id == [] {
      assert id + rest == rest;
      match Compile(rest)
      case None =>
      case Some(ys) => assert [] + ys == ys;
    } else {
      assert id + rest == [id[0]] + (id[1..] + rest);
      if id[0] == '.' {
        var p := id + rest;
        assert p[0] == '.' && p[1..] == id[1..] + rest;
        assert |p| >= 3 ==> p[..3] != SpaceStar by {
          if |p| >= 3 {
            assert p[..3][0] == '.';
          }
        }
      } else {
        CompilePlain(id[0], id[1..] + rest);
      }
      assert IsNumbering(id[1..]) by {
        forall i | 0 <= i < |id[1..]| ensures IsDigit(id[1..][i]) || id[1..][i] == '.' {
          assert id[1..][i] == id[i + 1];
        }
      }
      CompileId(id[1..], rest);
      PrependAssoc([if id[0] == '.' then AnyChar else Lit(id[0])], IdItems(id[1..]), Compile(rest));
    }
  }

  // ---------------------------------------------------------------------------
  // The heading patterns of _organize_structure
  // ---------------------------------------------------------------------------

  const IgnoreCase: string := "(?i)"

  /** `rf"(?i)Глава\s*{chapter_id}\s*{_format_regex(title)}"` without its flag prefix. */
  function ChapterBody(id: string, title: string): string
  {
    ChapterWord + (SpaceStar + SectionBody(id, title))
  }

  function ChapterPattern(id: string, title: string): string
  {
    IgnoreCase + ChapterBody(id, title)
  }

  /** `rf"(?i){section_id}\s*{_format_regex(title)}"` without its flag prefix, for sections and subsections alike. */
  function SectionBody(id: string, title: string): string
  {
    id + (SpaceStar + FormatRegex(title))
  }

  function SectionPattern(id: string, title: string): string
  {
    IgnoreCase + SectionBody(id, title)
  }

  function ChapterItems(id: string, title: string): seq<Item>
  {
    Lits(ChapterWord) + ([Spaces] + SectionItems(id, title))
  }

  function SectionItems(id: string, title: string): seq<Item>
  {
    IdItems(id) + ([Spaces] + TitleItems(title))
  }

  /** `_format_regex(title)` compiles to the title's items. */
  lemma FormatRegexItems(title: string)
    ensures Compile(FormatRegex(title)) == Some(TitleItems(title))
  {
    CompileFormatRegex(title, []);
    assert FormatRegex(title) + [] == FormatRegex(title);
    assert TitleItems(title) + [] == TitleItems(title);
  }

  lemma ChapterWordPlain()
    ensures forall i :: 0 <= i < |ChapterWord| ==> IsPlain(ChapterWord[i])
  {
  }

  /** A plain word, `\s*` and a section pattern compile to the word's letters, `\s*` and the section's items. */
  lemma WordPatternItems(w: string, id: string, title: string)
    requires forall i :: 0 <= i < |w| ==> IsPlain(w[i])
    requires IsNumbering(id)
    ensures Compile(w + (SpaceStar + SectionBody(id, title))) == Some(Lits(w) + ([Spaces] + SectionItems(id, title)))
  {
    var body := SectionBody(id, title);
    SectionPatternItems(id, title);
    CompileSpaceStar(body);
    CompileLits(w, SpaceStar + body);
  }

  /** The chapter pattern of a numeric chapter id is the word, `\s*`, the id, `\s*` and the title's items. */
  lemma ChapterPatternItems(id: string, title: string)
    requires IsNumbering(id)
    ensures Compile(ChapterBody(id, title)) == Some(ChapterItems(id, title))
  {
    ChapterWordPlain();
    WordPatternItems(ChapterWord, id, title);
  }

  /** Likewise for section and subsection patterns. */
  lemma SectionPatternItems(id: string, title: string)
    requires IsNumbering(id)
    ensures Compile(SectionBody(id, title)) == Some(SectionItems(id, title))
  {
    var f := FormatRegex(title);
    FormatRegexItems(title);
    CompileSpaceStar(f);
    CompileId(id, SpaceStar + f);
  }

  // ---------------------------------------------------------------------------
  // Matching and re.search
  // ---------------------------------------------------------------------------

  /** One pattern character against one text character under IGNORECASE. */
  predicate CharMatches(c: char, x: char)
  {
    FoldCase(c) == FoldCase(x)
  }

  /** The length of the run of whitespace starting at `i`. */
  function SpaceRun(text: string, i: nat): (k: nat)
    requires i <= |text|
    ensures i + k <= |text|
    ensures i + k == |text| || !IsSpace(text[i + k])
    decreases |text| - i
  {
    if i < |text| && IsSpace(text[i]) then 1 + SpaceRun(text, i + 1) else 0
  }

  lemma {:induction false} SpaceRunSpaces(text: string, i: nat, j: nat)
    requires i <= j <= |text|
    ensures AllSpace(text[i..j]) <==> j - i <= SpaceRun(text, i)
    decreases j - i
  {
    if i < j {
      SpaceRunSpaces(text, i + 1, j);
      assert text[i..j] == [text[i]] + text[i + 1..j];
    }
  }

  /** Where the items match from position `i`: `\s*` tries the longest run
      first and gives back one character at a time, as Python's engine does. */
  function MatchAt(items: seq<Item>, text: string, i: nat): (r: Option<nat>)
    requires i <= |text|
    ensures r.Some? ==> i <= r.value <= |text|
    decreases |items|, 0
  {
    if items == [] then Some(i)
    else
      match items[0]
      case Lit(c) => if i < |text| && CharMatches(c, text[i]) then MatchAt(items[1..], text, i + 1) else None
      case AnyChar => if i < |text| && text[i] != '\n' then MatchAt(items[1..], text, i + 1) else None
      case Spaces => TrySpaces(items[1..], text, i, SpaceRun(text, i))
  }

  /** `\s*` followed by `rest`, taking `k` whitespace characters first, then fewer. */
  function TrySpaces(rest: seq<Item>, text: string, i: nat, k: nat): (r: Option<nat>)
    requires i + k <= |text|
    ensures r.Some? ==> i <= r.value <= |text|
    decreases |rest|, k + 1
  {
    match MatchAt(rest, text, i + k)
    case Some(e) => Some(e)
    case None => if k == 0 then None else TrySpaces(rest, text, i, k - 1)
  }

  /** The items match exactly `text[i..e]`. */
  ghost predicate Matches(items: seq<Item>, text: string, i: nat, e: nat)
    decreases |items|
  {
    if items == [] then i == e <= |text|
    else
      match items[0]
      case Lit(c) => i < |text| && CharMatches(c, text[i]) && Matches(items[1..], text, i + 1, e)
      case AnyChar => i < |text| && text[i] != '\n' && Matches(items[1..], text, i + 1, e)
      case Spaces => exists j :: i <= j <= |text| && AllSpace(text[i..j]) && Matches(items[1..], text, j, e)
  }

  /** Whatever the matcher returns is a match. */
  lemma {:induction false} MatchAtSound(items: seq<Item>, text: string, i: nat)
    requires i <= |text|
    ensures MatchAt(items, text, i).Some? ==> Matches(items, text, i, MatchAt(items, text, i).value)
    decreases |items|, 0
  {
    if items != [] {
      match items[0]
      case Lit(c) =>
        if i < |text| && CharMatches(c, text[i]) {
          MatchAtSound(items[1..], text, i + 1);
        }
      case AnyChar =>
        if i < |text| && text[i] != '\n' {
          MatchAtSound(items[1..], text, i + 1);
        }
      case Spaces =>
        TrySpacesSound(items[1..], text, i, SpaceRun(text, i));
    }
  }

  lemma {:induction false} TrySpacesSound(rest: seq<Item>, text: string, i: nat, k: nat)
    requires i + k <= |text| && k <= SpaceRun(text, i)
    ensures TrySpaces(rest, text, i, k).Some? ==>
      exists j :: i <= j <= |text| && AllSpace(text[i..j]) && Matches(rest, text, j, TrySpaces(rest, text, i, k).value)
    decreases |rest|, k + 1
  {
    match MatchAt(rest, text, i + k)
    case Some(e) =>
      MatchAtSound(rest, text, i + k);
      SpaceRunSpaces(text, i, i + k);
    case None =>
      if k > 0 {
        TrySpacesSound(rest, text, i, k - 1);
      }
  }

  /** Whenever the items can match from `i`, the matcher finds a match from `i`. */
  lemma {:induction false} MatchAtComplete(items: seq<Item>, text: string, i: nat, e: nat)
    requires i <= |text| && Matches(items, text, i, e)
    ensures MatchAt(items, text, i).Some?
    decreases |items|, 0
  {
    if items != [] {
      match items[0]
      case Lit(c) => MatchAtComplete(items[1..], text, i + 1, e);
      case AnyChar => MatchAtComplete(items[1..], text, i + 1, e);
      case Spaces =>
        var j :| i <= j <= |text| && AllSpace(text[i..j]) && Matches(items[1..], text, j, e);
        SpaceRunSpaces(text, i, j);
        TrySpacesComplete(items[1..], text, i, SpaceRun(text, i), j, e);
    }
  }

  lemma {:induction false} TrySpacesComplete(rest: seq<Item>, text: string, i: nat, k: nat, j: nat, e: nat)
    requires i + k <= |text| && i <= j <= i + k && Matches(rest, text, j, e)
    ensures TrySpaces(rest, text, i, k).Some?
    decreases |rest|, k + 1
  {
    if MatchAt(rest, text, i + k).None? {
      if j == i + k {
        MatchAtComplete(rest, text, j, e);
      } else {
        TrySpacesComplete(rest, text, i, k - 1, j, e);
      }
    }
  }

  /** `re.search`: the first start position, from 0 to `|text|`, where the matcher succeeds. */
  function SearchFrom(items: seq<Item>, text: string, s: nat): (r: Option<(nat, nat)>)
    requires s <= |text|
    ensures r.Some? ==> s <= r.value.0 <= r.value.1 <= |text|
    decreases |text| - s
  {
    match MatchAt(items, text, s)
    case Some(e) => Some((s, e))
    case None => if s == |text| then None else SearchFrom(items, text, s + 1)
  }

  function Search(items: seq<Item>, text: string): (r: Option<(nat, nat)>)
    ensures r.Some? ==> r.value.0 <= r.value.1 <= |text|
  {
    SearchFrom(items, text, 0)
  }

  lemma {:induction false} SearchFromLeftmost(items: seq<Item>, text: string, s: nat)
    requires s <= |text|
    ensures SearchFrom(items, text, s).Some? ==>
      var (b, e) := SearchFrom(items, text, s).value;
      Matches(items, text, b, e) && forall b', e' :: s <= b' < b ==> !Matches(items, text, b', e')
    ensures SearchFrom(items, text, s).None? ==> forall b', e' :: s <= b' <= |text| ==> !Matches(items, text, b', e')
    decreases |text| - s
  {
    MatchAtSound(items, text, s);
    forall e' | Matches(items, text, s, e') ensures MatchAt(items, text, s).Some? {
      MatchAtComplete(items, text, s, e');
    }
    if MatchAt(items, text, s).None? && s < |text| {
      SearchFromLeftmost(items, text, s + 1);
    }
  }

  /** `re.search` returns the leftmost match and None only when the items match nowhere. */
  lemma SearchLeftmost(items: seq<Item>, text: string)
    ensures Search(items, text).Some? ==>
      var (b, e) := Search(items, text).value;
      Matches(items, text, b, e) && forall b', e' :: 0 <= b' < b ==> !Matches(items, text, b', e')
    ensures Search(items, text).None? ==> forall b', e' :: 0 <= b' <= |text| ==> !Matches(items, text, b', e')
  {
    SearchFromLeftmost(items, text, 0);
  }

  // ---------------------------------------------------------------------------
  // A heading written out in the text is found
  // ---------------------------------------------------------------------------

  lemma {:induction false} MatchesConcat(a: seq<Item>, b: seq<Item>, text: string, i: nat, m: nat, e: nat)
    requires Matches(a, text, i, m) && Matches(b, text, m, e)
    ensures Matches(a + b, text, i, e)
    decreases |a|
  {
    if a == [] {
      assert a + b == b;
    } else {
      assert (a + b)[0] == a[0] && (a + b)[1..] == a[1..] + b;
      match a[0]
      case Lit(c) => MatchesConcat(a[1..], b, text, i + 1, m, e);
      case AnyChar => MatchesConcat(a[1..], b, text, i + 1, m, e);
      case Spaces =>
        var j :| i <= j <= |text| && AllSpace(text[i..j]) && Matches(a[1..], text, j, m);
        MatchesConcat(a[1..], b, text, j, m, e);
    }
  }

  /** `\s*` matches a single space. */
  lemma SpacesMatchSpace(text: string, i: nat)
    requires i + 1 <= |text| && text[i..i + 1] == " "
    ensures Matches([Spaces], text, i, i + 1)
  {
    assert AllSpace(text[i..i + 1]);
    assert Matches([Spaces][1..], text, i + 1, i + 1);
  }

  /** A slice spelling `a + b` is a slice spelling `a` followed by one spelling `b`. */
  lemma SplitSlice(text: string, i: nat, a: string, b: string)
    requires i + |a| + |b| <= |text| && text[i..i + |a| + |b|] == a + b
    ensures text[i..i + |a|] == a && text[i + |a|..i + |a| + |b|] == b
  {
    assert text[i..i + |a|] == text[i..i + |a| + |b|][..|a|];
    assert text[i + |a|..i + |a| + |b|] == text[i..i + |a| + |b|][|a|..];
  }

  lemma {:induction false} LitsMatch(w: string, text: string, i: nat)
    requires i + |w| <= |text| && text[i..i + |w|] == w
    ensures Matches(Lits(w), text, i, i + |w|)
  {
    if w != [] {
      assert text[i] == w[0];
      assert text[i + 1..i + 1 + |w[1..]|] == w[1..];
      LitsMatch(w[1..], text, i + 1);
    }
  }

  lemma {:induction false} IdMatch(id: string, text: string, i: nat)
    requires IsNumbering(id) && i + |id| <= |text| && text[i..i + |id|] == id
    ensures Matches(IdItems(id), text, i, i + |id|)
  {
    if id != [] {
      assert text[i] == id[0];
      assert text[i + 1..i + 1 + |id[1..]|] == id[1..];
      assert IsNumbering(id[1..]) by {
        forall m | 0 <= m < |id[1..]| ensures IsDigit(id[1..][m]) || id[1..][m] == '.' {
          assert id[1..][m] == id[m + 1];
        }
      }
      IdMatch(id[1..], text, i + 1);
    }
  }

  lemma {:induction false} TitleMatch(t: string, text: string, i: nat)
    requires i + |t| <= |text| && text[i..i + |t|] == t
    ensures Matches(TitleItems(t), text, i, i + |t|)
  {
    if t != [] {
      assert text[i] == t[0];
      assert text[i + 1..i + 1 + |t[1..]|] == t[1..];
      TitleMatch(t[1..], text, i + 1);
      if t[0] == ' ' {
        assert AllSpace(text[i..i + 1]);
      }
    }
  }

  /** The heading as the table of contents spells it: the word, a space, the number, a space, the title. */
  function ChapterHeading(id: string, title: string): string
  {
    ChapterWord + (" " + SectionHeading(id, title))
  }

  function SectionHeading(id: string, title: string): string
  {
    id + (" " + title)
  }

  /** The section pattern matches its heading spelt out with single spaces. */
  lemma SectionHeadingMatches(id: string, title: string, text: string, i: nat)
    requires IsNumbering(id)
    requires i + |SectionHeading(id, title)| <= |text| && text[i..i + |SectionHeading(id, title)|] == SectionHeading(id, title)
    ensures Matches(SectionItems(id, title), text, i, i + |SectionHeading(id, title)|)
  {
    var m := i + |id|;
    var q := m + 1;
    SplitSlice(text, i, id, " " + title);
    SplitSlice(text, m, " ", title);
    IdMatch(id, text, i);
    SpacesMatchSpace(text, m);
    TitleMatch(title, text, q);
    SectionItemsMatch(id, title, text, i, m, q, q + |title|);
  }

  lemma SectionItemsMatch(id: string, title: string, text: string, i: nat, m: nat, q: nat, e: nat)
    requires Matches(IdItems(id), text, i, m) && Matches([Spaces], text, m, q) && Matches(TitleItems(title), text, q, e)
    ensures Matches(SectionItems(id, title), text, i, e)
  {
    MatchesConcat([Spaces], TitleItems(title), text, m, q, e);
    MatchesConcat(IdItems(id), [Spaces] + TitleItems(title), text, i, m, e);
  }

  /** The chapter pattern matches its heading spelt out with single spaces. */
  lemma ChapterHeadingMatches(id: string, title: string, text: string, i: nat)
    requires IsNumbering(id)
    requires i + |ChapterHeading(id, title)| <= |text| && text[i..i + |ChapterHeading(id, title)|] == ChapterHeading(id, title)
    ensures Matches(ChapterItems(id, title), text, i, i + |ChapterHeading(id, title)|)
  {
    var rest := SectionHeading(id, title);
    var m := i + |ChapterWord|;
    var p := m + 1;
    SplitSlice(text, i, ChapterWord, " " + rest);
    SplitSlice(text, m, " ", rest);
    LitsMatch(ChapterWord, text, i);
    SpacesMatchSpace(text, m);
    SectionHeadingMatches(id, title, text, p);
    ChapterItemsMatch(id, title, text, i, m, p, p + |rest|);
  }

  lemma ChapterItemsMatch(id: string, title: string, text: string, i: nat, m: nat, p: nat, e: nat)
    requires Matches(Lits(ChapterWord), text, i, m) && Matches([Spaces], text, m, p) && Matches(SectionItems(id, title), text, p, e)
    ensures Matches(ChapterItems(id, title), text, i, e)
  {
    MatchesConcat([Spaces], SectionItems(id, title), text, m, p, e);
    MatchesConcat(Lits(ChapterWord), [Spaces] + SectionItems(id, title), text, i, m, e);
  }

  /** A chapter heading that occurs in the text is found, at that position or earlier. */
  lemma ChapterHeadingFound(id: string, title: string, text: string, i: nat)
    requires IsNumbering(id)
    requires i + |ChapterHeading(id, title)| <= |text| && text[i..i + |ChapterHeading(id, title)|] == ChapterHeading(id, title)
    ensures Search(ChapterItems(id, title), text).Some?
    ensures Search(ChapterItems(id, title), text).value.0 <= i
  {
    ChapterHeadingMatches(id, title, text, i);
    SearchLeftmost(ChapterItems(id, title), text);
  }

  /** A section or subsection heading that occurs in the text is found, at that position or earlier. */
  lemma SectionHeadingFound(id: string, title: string, text: string, i: nat)
    requires IsNumbering(id)
    requires i + |SectionHeading(id, title)| <= |text| && text[i..i + |SectionHeading(id, title)|] == SectionHeading(id, title)
    ensures Search(SectionItems(id, title), text).Some?
    ensures Search(SectionItems(id, title), text).value.0 <= i
  {
    SectionHeadingMatches(id, title, text, i);
    SearchLeftmost(SectionItems(id, title), text);
  }
}
