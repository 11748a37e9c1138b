/** `StructureExtractor._get_next_section_start`: the keys of a section (or
    subsection) dict are sorted by their dot-separated integer groups, and the
    start page of the key that follows the current one in that order is
    returned, or the default end page when there is none. The sort runs before
    the `try` block, so a key that does not convert raises ValueError. */
module SectionOrder {
  import opened Wrappers
  import opened Dicts
  import opened PyStrings

  // ---------------------------------------------------------------------------
  // The sort key: list(map(int, x.split('.')))
  // ---------------------------------------------------------------------------

  /** `list(map(int, parts))`, or None (ValueError) when a part is not a number. */
  function IntParts(parts: seq<string>): Option<seq<nat>>
  {
    if parts == [] then Some([])
    else
      match ParseInt(parts[0])
      case None => None
      case Some(n) =>
        match IntParts(parts[1..])
        case None => None
        case Some(ns) => Some([n] + ns)
  }

  function SortKey(k: string): Option<seq<nat>>
  {
    IntParts(Split(k, '.'))
  }

  /** The conversion fails exactly when some part is not a non-empty digit string. */
  lemma {:induction false} IntPartsNone(parts: seq<string>)
    ensures IntParts(parts).None? <==> exists i :: 0 <= i < |parts| && ParseInt(parts[i]).None?
  {
    if parts != [] {
      IntPartsNone(parts[1..]);
      if ParseInt(parts[0]).Some? && IntParts(parts[1..]).None? {
        var i :| 0 <= i < |parts[1..]| && ParseInt(parts[1..][i]).None?;
        assert parts[i + 1] == parts[1..][i];
      }
      if exists i :: 0 <= i < |parts| && ParseInt(parts[i]).None? {
        var i :| 0 <= i < |parts| && ParseInt(parts[i]).None?;
        if i > 0 {
          assert parts[1..][i - 1] == parts[i];
        }
      }
    }
  }

  /** A key with a trailing period, such as "1.2.", has no sort key: its last part is empty. */
  lemma TrailingPeriod(p: string)
    ensures SortKey(p + ".") == None
  {
    SplitTrailing(p, '.');
    var parts := Split(p + ".", '.');
    assert parts[|parts| - 1] == "";
    IntPartsNone(parts);
  }

  // ---------------------------------------------------------------------------
  // Python's ordering of lists of integers
  // ---------------------------------------------------------------------------

  /** `a < b` on lists of integers: lexicographic, a proper prefix first. */
  predicate LexLess(a: seq<nat>, b: seq<nat>)
  {
    if a == [] then b != []
    else b != [] && (a[0] < b[0] || (a[0] == b[0] && LexLess(a[1..], b[1..])))
  }

  lemma {:induction false} LexLessIrreflexive(a: seq<nat>)
    ensures !LexLess(a, a)
  {
    if a != [] {
      LexLessIrreflexive(a[1..]);
    }
  }

  lemma {:induction false} LexLessTransitive(a: seq<nat>, b: seq<nat>, c: seq<nat>)
    requires LexLess(a, b) && LexLess(b, c)
    ensures LexLess(a, c)
  {
    if a != [] && a[0] == b[0] && b[0] == c[0] {
      LexLessTransitive(a[1..], b[1..], c[1..]);
    }
  }

  lemma {:induction false} LexLessTotal(a: seq<nat>, b: seq<nat>)
    ensures a == b || LexLess(a, b) || LexLess(b, a)
  {
    if a != [] && b != [] && a[0] == b[0] {
      LexLessTotal(a[1..], b[1..]);
      if a[1..] == b[1..] {
        assert a == [a[0]] + a[1..] && b == [b[0]] + b[1..];
      }
    }
  }

  // ---------------------------------------------------------------------------
  // sorted(keys, key=...): a stable sort
  // ---------------------------------------------------------------------------

  /** Every name has a sort key; otherwise `sorted` raises ValueError. */
  predicate AllConvert(names: seq<string>)
  {
    forall i :: 0 <= i < |names| ==> SortKey(names[i]).Some?
  }

  /** The sort key of a name, used only once every name is known to convert. */
  function Key(n: string): seq<nat>
  {
    match SortKey(n)
    case Some(k) => k
    case None => []
  }

  /** No element is followed by one with a smaller key. */
  predicate Sorted<T>(key: T -> seq<nat>, s: seq<T>)
  {
    forall i, j :: 0 <= i < j < |s| ==> !LexLess(key(s[j]), key(s[i]))
  }

  /** Insert `x` after every element whose key is not greater than its own. */
  function Insert<T>(key: T -> seq<nat>, x: T, s: seq<T>): (r: seq<T>)
    ensures |r| == |s| + 1
  {
    if s == [] then [x]
    else if LexLess(key(x), key(s[0])) then [x] + s
    else [s[0]] + Insert(key, x, s[1..])
  }

  /** Insertion sort, taking the elements in their original order, so elements with equal keys keep it. */
  function SortByKey<T>(key: T -> seq<nat>, s: seq<T>): (r: seq<T>)
    ensures |r| == |s|
  {
    if s == [] then [] else Insert(key, s[|s| - 1], SortByKey(key, s[..|s| - 1]))
  }

  lemma LexLessAsymmetric(a: seq<nat>, b: seq<nat>)
    requires LexLess(a, b)
    ensures !LexLess(b, a)
  {
    if LexLess(b, a) {
      LexLessTransitive(a, b, a);
      LexLessIrreflexive(a);
    }
  }

  lemma {:induction false} InsertPermutes<T>(key: T -> seq<nat>, x: T, s: seq<T>)
    ensures multiset(Insert(key, x, s)) == multiset(s) + multiset{x}
  {
    if s != [] && !LexLess(key(x), key(s[0])) {
      InsertPermutes(key, x, s[1..]);
      assert s == [s[0]] + s[1..];
    }
  }

  lemma {:induction false} InsertSorted<T>(key: T -> seq<nat>, x: T, s: seq<T>)
    requires Sorted(key, s)
    ensures Sorted(key, Insert(key, x, s))
  {
    if s != [] {
      if LexLess(key(x), key(s[0])) {
        InsertFrontSorted(key, x, s);
      } else {
        InsertSorted(key, x, s[1..]);
        InsertHeadSorted(key, x, s);
      }
    }
  }

  lemma InsertFrontSorted<T>(key: T -> seq<nat>, x: T, s: seq<T>)
    requires Sorted(key, s) && s != [] && LexLess(key(x), key(s[0]))
    ensures Sorted(key, [x] + s)
  {
    var r := [x] + s;
    forall j | 0 < j < |r| ensures !LexLess(key(r[j]), key(x)) {
      assert r[j] == s[j - 1];
      if LexLess(key(s[j - 1]), key(x)) {
        LexLessTransitive(key(s[j - 1]), key(x), key(s[0]));
        if j - 1 == 0 {
          LexLessIrreflexive(key(s[0]));
        }
      }
    }
    forall i, j | 0 <= i < j < |r| ensures !LexLess(key(r[j]), key(r[i])) {
      if i > 0 {
        assert r[i] == s[i - 1] && r[j] == s[j - 1];
      }
    }
  }

  lemma InsertHeadSorted<T>(key: T -> seq<nat>, x: T, s: seq<T>)
    requires Sorted(key, s) && s != [] && !LexLess(key(x), key(s[0])) && Sorted(key, Insert(key, x, s[1..]))
    ensures Sorted(key, [s[0]] + Insert(key, x, s[1..]))
  {
    var t := Insert(key, x, s[1..]);
    InsertPermutes(key, x, s[1..]);
    forall j | 0 <= j < |t| ensures !LexLess(key(t[j]), key(s[0])) {
      assert t[j] in multiset(t);
      if t[j] != x {
        assert t[j] in multiset(s[1..]);
        var m :| 0 <= m < |s[1..]| && s[1..][m] == t[j];
        assert s[m + 1] == t[j];
      }
    }
    var r := [s[0]] + t;
    forall i, j | 0 <= i < j < |r| ensures !LexLess(key(r[j]), key(r[i])) {
      if i > 0 {
        assert r[i] == t[i - 1] && r[j] == t[j - 1];
      } else {
        assert r[j] == t[j - 1];
      }
    }
  }

  /** `sorted` returns its input reordered so that keys never decrease. */
  lemma {:induction false} SortByKeySpec<T>(key: T -> seq<nat>, s: seq<T>)
    ensures Sorted(key, SortByKey(key, s))
    ensures multiset(SortByKey(key, s)) == multiset(s)
  {
    if s != [] {
      var init := s[..|s| - 1];
      SortByKeySpec(key, init);
      InsertSorted(key, s[|s| - 1], SortByKey(key, init));
      InsertPermutes(key, s[|s| - 1], SortByKey(key, init));
      assert s == init + [s[|s| - 1]];
    }
  }

  // ---------------------------------------------------------------------------
  // _get_next_section_start
  // ---------------------------------------------------------------------------

  /** The sorted keys, or None (ValueError) when a key has no sort key. */
  function SortedNames(names: seq<string>): Option<seq<string>>
  {
    if AllConvert(names) then Some(SortByKey(Key, names)) else None
  }

  /** `s.index(x)`: the first position of `x`, or None (ValueError). */
  function IndexOf(s: seq<string>, x: string): (r: Option<nat>)
    ensures r.Some? ==> r.value < |s| && s[r.value] == x && x !in s[..r.value]
    ensures r.None? ==> x !in s
  {
    if s == [] then None
    else if s[0] == x then Some(0)
    else match IndexOf(s[1..], x)
      case None => None
      case Some(i) => Some(i + 1)
  }

  /** The key following `cur` in sorted order. It is None when the sort
      fails, when `index` raises ValueError (`cur` is not a key) and when
      `[i + 1]` raises IndexError (`cur` is last). */
  function Successor(starts: Dict<int>, cur: string): Option<string>
  {
    match SortedNames(Keys(starts))
    case None => None
    case Some(order) =>
      match IndexOf(order, cur)
      case None => None
      case Some(i) => if i + 1 < |order| then Some(order[i + 1]) else None
  }

  /** `_get_next_section_start(sections, cur, default)`, given the start page
      of each key: a failed sort propagates ValueError; every error inside the
      `try` block yields the default. */
  function NextStart(starts: Dict<int>, cur: string, dflt: int): Result<int>
  {
    if !AllConvert(Keys(starts)) then Err(ValueError)
    else
      match Successor(starts, cur)
      case None => Ok(dflt)
      case Some(n) =>
        match Get(starts, n)
        case None => Ok(dflt)
        case Some(p) => Ok(p)
  }

  /** The lookup raises ValueError exactly when some key does not convert, whatever the current key. */
  lemma NextStartValueError(starts: Dict<int>, cur: string, dflt: int)
    ensures NextStart(starts, cur, dflt).Err? <==> !AllConvert(Keys(starts))
    ensures NextStart(starts, cur, dflt).Err? ==> NextStart(starts, cur, dflt).error == ValueError
  {
  }

  /** In particular a key with a trailing period, such as "1.2.", raises ValueError. */
  lemma NextStartTrailingPeriod(starts: Dict<int>, cur: string, dflt: int, i: nat, p: string)
    requires i < |starts| && starts[i].0 == p + "."
    ensures NextStart(starts, cur, dflt) == Err(ValueError)
  {
    TrailingPeriod(p);
    assert Keys(starts)[i] == p + ".";
  }

  /** The sorted keys are a permutation of the keys, in key order. */
  lemma OrderFacts(starts: Dict<int>)
    requires AllConvert(Keys(starts))
    ensures SortedNames(Keys(starts)) == Some(SortByKey(Key, Keys(starts)))
    ensures multiset(SortByKey(Key, Keys(starts))) == multiset(Keys(starts))
    ensures Sorted(Key, SortByKey(Key, Keys(starts)))
  {
    SortByKeySpec(Key, Keys(starts));
  }

  /** When every key converts, the lookup returns the successor's start page, or the default without one. */
  lemma NextStartIsSuccessor(starts: Dict<int>, cur: string, dflt: int)
    requires AllConvert(Keys(starts))
    ensures match Successor(starts, cur)
      case None => NextStart(starts, cur, dflt) == Ok(dflt)
      case Some(n) => Get(starts, n).Some? && NextStart(starts, cur, dflt) == Ok(Get(starts, n).value)
  {
    match Successor(starts, cur)
    case None =>
    case Some(n) =>
      SuccessorIsKey(starts, cur);
      GetSpec(starts, n);
  }

  /** The successor is one of the keys. */
  lemma SuccessorIsKey(starts: Dict<int>, cur: string)
    requires Successor(starts, cur).Some?
    ensures Successor(starts, cur).value in Keys(starts)
  {
    var order := SortByKey(Key, Keys(starts));
    SortByKeySpec(Key, Keys(starts));
    var i := IndexOf(order, cur).value;
    assert order[i + 1] in multiset(Keys(starts));
  }

  /** The successor is a key whose key is not smaller than that of `cur`, and
      no key lies strictly between the two, whatever the insertion order. */
  lemma SuccessorIsNext(starts: Dict<int>, cur: string, n: string, k: string)
    requires AllConvert(Keys(starts)) && Successor(starts, cur) == Some(n) && k in Keys(starts)
    ensures cur in Keys(starts) && n in Keys(starts)
    ensures !LexLess(Key(n), Key(cur))
    ensures !(LexLess(Key(cur), Key(k)) && LexLess(Key(k), Key(n)))
  {
    OrderFacts(starts);
    var order := SortByKey(Key, Keys(starts));
    var i := IndexOf(order, cur).value;
    assert order[i + 1] == n;
    assert n in multiset(order) && cur in multiset(order);
    assert k in multiset(order);
    var m :| 0 <= m < |order| && order[m] == k;
    if m < i {
      assert !LexLess(Key(cur), Key(k));
    } else if m > i + 1 {
      assert !LexLess(Key(k), Key(n));
    } else if m == i {
      LexLessIrreflexive(Key(cur));
    } else {
      LexLessIrreflexive(Key(n));
    }
  }

  /** Without a successor no key of the dict is greater than `cur`. */
  lemma NoSuccessorIsLast(starts: Dict<int>, cur: string, k: string)
    requires AllConvert(Keys(starts)) && cur in Keys(starts) && Successor(starts, cur).None? && k in Keys(starts)
    ensures !LexLess(Key(cur), Key(k))
  {
    OrderFacts(starts);
    var order := SortByKey(Key, Keys(starts));
    assert cur in multiset(order);
    var i := IndexOf(order, cur).value;
    assert i + 1 == |order|;
    assert k in multiset(order);
    var m :| 0 <= m < |order| && order[m] == k;
    if m == i {
      LexLessIrreflexive(Key(cur));
    }
  }

  /** A current key that is not in the dict yields the default (`index` raises ValueError, caught). */
  lemma NextStartMissing(starts: Dict<int>, cur: string, dflt: int)
    requires AllConvert(Keys(starts)) && cur !in Keys(starts)
    ensures NextStart(starts, cur, dflt) == Ok(dflt)
  {
    var order := SortByKey(Key, Keys(starts));
    SortByKeySpec(Key, Keys(starts));
    assert cur !in multiset(Keys(starts));
    assert cur !in order;
    assert SortedNames(Keys(starts)) == Some(order);
    assert Successor(starts, cur) == None;
  }
}
