/**
 * The style balancer (`getCSSRanges`, `balanceCSS`).  From the rule around
 * the caret it builds up to five candidate ranges and drops the repeated
 * ones, sorts them by length and steps one position through that list from
 * the candidate that best matches the selection.  The filter meant to drop
 * empty candidates keeps every range as the code is written; the filter as
 * intended is `NonEmpty`, used by `CorrectedRanges` and `CorrectedCssTarget`.
 */
module CssBalance {
  import opened Wrappers
  import opened Ranges
  import opened Host

  /** A declaration of the rule, with absolute offsets. */
  datatype CssProperty = CssProperty(range: Range, nameStart: int, valueRange: Range)

  /** A parsed rule: its full range, the offset of its brace content relative to the rule start, and its declarations. */
  datatype CssRule = CssRule(range: Range, contentStart: int, items: seq<CssProperty>)

  /** The style parser's operations; `None` stands for "no rule" and for a parse error. */
  datatype CssParser = CssParser(
    parseFromPosition: (string, int, bool) -> Option<CssRule>,
    parse: (string, int) -> Option<CssRule>,
    propertyFromPosition: (CssRule, int) -> Option<CssProperty>)

  /** What `getCSSRanges` is given: document text, or a rule already parsed. */
  datatype CssSource = Text(content: string) | Parsed(rule: CssRule)

  /** The rule around `pos`: the backward search's rule if it finds one, else the forward search's. */
  function ResolveRule(src: CssSource, pos: int, parser: CssParser): (rule: Option<CssRule>)
    ensures src.Parsed? ==> rule == Some(src.rule)
    ensures src.Text? && parser.parseFromPosition(src.content, pos, true).Some? ==>
      rule == parser.parseFromPosition(src.content, pos, true)
    ensures src.Text? && parser.parseFromPosition(src.content, pos, true).None? ==>
      rule == parser.parseFromPosition(src.content, pos, false)
  {
    match src
    case Parsed(rule) => Some(rule)
    case Text(content) =>
      var backward := parser.parseFromPosition(content, pos, true);
      if backward.Some? then backward else parser.parseFromPosition(content, pos, false)
  }

  /** The declaration at `pos`, or the rule's first declaration when there is none there. */
  function CurrentProperty(rule: CssRule, pos: int, parser: CssParser): (prop: Option<CssProperty>)
    ensures parser.propertyFromPosition(rule, pos).Some? ==> prop == parser.propertyFromPosition(rule, pos)
    ensures parser.propertyFromPosition(rule, pos).None? && |rule.items| > 0 ==> prop == Some(rule.items[0])
    ensures prop.None? <==> parser.propertyFromPosition(rule, pos).None? && |rule.items| == 0
  {
    var atPos := parser.propertyFromPosition(rule, pos);
    if atPos.Some? then atPos
    else if |rule.items| > 0 then Some(rule.items[0])
    else None
  }

  /**
   * The candidate ranges in the order they are built: the rule, its brace
   * content, first name to last value (when there are declarations), the
   * current declaration and its value (when there is one).
   */
  function Candidates(rule: CssRule, pos: int, parser: CssParser): (c: seq<Range>)
    ensures var prop := CurrentProperty(rule, pos, parser);
      |c| == 2 + (if |rule.items| > 0 then 1 else 0) + (if prop.Some? then 2 else 0)
    ensures 2 <= |c| <= 5
    ensures c[0] == rule.range && c[1] == Range(rule.range.start + rule.contentStart, rule.range.end - 1)
    ensures |rule.items| > 0 ==>
      c[2] == Range(rule.items[0].nameStart, rule.items[|rule.items| - 1].valueRange.end)
    ensures var prop := CurrentProperty(rule, pos, parser);
      prop.Some? ==> c[|c| - 2] == prop.value.range && c[|c| - 1] == prop.value.valueRange
  {
    var full := rule.range;
    var braces := Range(full.start + rule.contentStart, full.end - 1);
    var items := rule.items;
    var body := if |items| > 0 then [Range(items[0].nameStart, items[|items| - 1].valueRange.end)] else [];
    var prop := CurrentProperty(rule, pos, parser);
    var current := if prop.Some? then [prop.value.range, prop.value.valueRange] else [];
    [full, braces] + body + current
  }

  predicate Distinct(s: seq<Range>)
  {
    forall i, j :: 0 <= i < j < |s| ==> s[i] != s[j]
  }

  /** `_.find(ranges, r => r.equal(sel))` followed by `_.indexOf`: the first position holding `x`. */
  function IndexOf(s: seq<Range>, x: Range): (k: Option<nat>)
    ensures k.Some? <==> x in s
    ensures k.Some? ==> k.value < |s| && s[k.value] == x
    ensures k.Some? ==> forall j :: 0 <= j < k.value ==> s[j] != x
  {
    if |s| == 0 then None
    else if s[0] == x then Some(0)
    else
      match IndexOf(s[1..], x)
      case None => None
      case Some(i) => Some(i + 1)
  }

  /** Appending a range leaves the first position of every earlier range alone, and puts a new range last. */
  lemma IndexOfAppend(s: seq<Range>, y: Range, x: Range)
    requires x in s + [y]
    ensures x in s ==> IndexOf(s + [y], x) == IndexOf(s, x)
    ensures x !in s ==> IndexOf(s + [y], x) == Some(|s|)
  {
    var k' := IndexOf(s + [y], x).value;
    if x in s {
      var k := IndexOf(s, x).value;
      assert (s + [y])[k] == x;
    }
  }

  /** `_.uniq(ranges, valueOf)`: the first occurrence of every range of `s`. */
  function Uniq(s: seq<Range>): (r: seq<Range>)
    ensures |r| <= |s|
    ensures Distinct(r)
    ensures forall x :: x in r <==> x in s
  {
    if |s| == 0 then []
    else
      var init, last := s[..|s| - 1], s[|s| - 1];
      assert s == init + [last];
      var kept := Uniq(init);
      if last in kept then kept else kept + [last]
  }

  /** `_.uniq` keeps the ranges in the order of their first occurrences. */
  lemma {:induction false} UniqKeepsOrder(s: seq<Range>)
    ensures forall i, j :: 0 <= i < j < |Uniq(s)| ==> IndexOf(s, Uniq(s)[i]).value < IndexOf(s, Uniq(s)[j]).value
  {
    if |s| > 0 {
      var init, last := s[..|s| - 1], s[|s| - 1];
      assert s == init + [last];
      UniqKeepsOrder(init);
      var kept := Uniq(init);
      forall x | x in init
        ensures IndexOf(s, x) == IndexOf(init, x)
      {
        IndexOfAppend(init, last, x);
      }
      if last !in kept {
        IndexOfAppend(init, last, last);
        var r := kept + [last];
        assert Uniq(s) == r;
        forall i, j | 0 <= i < j < |r|
          ensures IndexOf(s, r[i]).value < IndexOf(s, r[j]).value
        {
          assert r[i] == kept[i] && r[i] in init;
          if j < |kept| {
            assert r[j] == kept[j] && r[j] in init;
          }
        }
      } else {
        assert Uniq(s) == kept;
        forall i, j | 0 <= i < j < |kept|
          ensures IndexOf(s, kept[i]).value < IndexOf(s, kept[j]).value
        {
          assert kept[i] in init && kept[j] in init;
        }
      }
    }
  }

  /**
   * `getCSSRanges` as written: no list without a rule; otherwise every
   * candidate once, in the order of first occurrence.  The filter meant to
   * drop empty ranges tests `!!item.length`, the method itself,
   * which always holds, so empty candidates stay.
   */
  function CssRanges(src: CssSource, pos: int, parser: CssParser): (r: Option<seq<Range>>)
    ensures r.Some? <==> ResolveRule(src, pos, parser).Some?
    ensures r.Some? ==>
      var candidates := Candidates(ResolveRule(src, pos, parser).value, pos, parser);
      |r.value| <= 5 && Distinct(r.value) &&
      (forall x :: x in r.value <==> x in candidates) &&
      forall i, j :: 0 <= i < j < |r.value| ==> IndexOf(candidates, r.value[i]).value < IndexOf(candidates, r.value[j]).value
  {
    match ResolveRule(src, pos, parser)
    case None => None
    case Some(rule) =>
      UniqKeepsOrder(Candidates(rule, pos, parser));
      Some(Uniq(Candidates(rule, pos, parser)))
  }

  /** The filter as intended (`item.length()`): the ranges of `s` that are not empty, in order. */
  function NonEmpty(s: seq<Range>): (r: seq<Range>)
    ensures |r| <= |s|
    ensures forall x :: x in r <==> x in s && Length(x) != 0
  {
    if |s| == 0 then []
    else if Length(s[0]) != 0 then [s[0]] + NonEmpty(s[1..])
    else NonEmpty(s[1..])
  }

  /** The filter works element by element, so it keeps the order of the ranges it keeps. */
  lemma {:induction false} NonEmptyDistributes(a: seq<Range>, b: seq<Range>)
    ensures NonEmpty(a + b) == NonEmpty(a) + NonEmpty(b)
  {
    if |a| > 0 {
      var ab := a + b;
      assert ab[0] == a[0] && ab[1..] == a[1..] + b;
      NonEmptyDistributes(a[1..], b);
      if Length(a[0]) != 0 {
        assert NonEmpty(ab) == [a[0]] + NonEmpty(a[1..] + b);
        assert NonEmpty(a) == [a[0]] + NonEmpty(a[1..]);
      } else {
        assert NonEmpty(ab) == NonEmpty(a[1..] + b);
        assert NonEmpty(a) == NonEmpty(a[1..]);
      }
    } else {
      assert a + b == b;
    }
  }

  /** A list without empty ranges passes the intended filter unchanged. */
  lemma {:induction false} NonEmptyKeepsAll(s: seq<Range>)
    requires forall i :: 0 <= i < |s| ==> Length(s[i]) != 0
    ensures NonEmpty(s) == s
  {
    if |s| > 0 {
      NonEmptyKeepsAll(s[1..]);
    }
  }

  /** The intended filter keeps the relative order of the ranges it keeps. */
  lemma {:induction false} NonEmptyKeepsOrder(s: seq<Range>, x: Range, y: Range)
    requires Precedes(NonEmpty(s), x, y)
    ensures Precedes(s, x, y)
  {
    var kept := NonEmpty(s);
    assert x in kept && y in kept;
    if Length(s[0]) != 0 {
      assert kept == [s[0]] + NonEmpty(s[1..]) && kept[1..] == NonEmpty(s[1..]);
      if x != s[0] {
        assert y != s[0];
        NonEmptyKeepsOrder(s[1..], x, y);
      }
    } else {
      assert kept == NonEmpty(s[1..]);
      NonEmptyKeepsOrder(s[1..], x, y);
    }
  }

  /** Deduplicating after the intended filter keeps the first-occurrence order of the input. */
  lemma CorrectedKeepsOrder(c: seq<Range>)
    ensures forall i, j :: 0 <= i < j < |Uniq(NonEmpty(c))| ==> Precedes(c, Uniq(NonEmpty(c))[i], Uniq(NonEmpty(c))[j])
  {
    var kept := NonEmpty(c);
    var r := Uniq(kept);
    UniqKeepsOrder(kept);
    forall i, j | 0 <= i < j < |r|
      ensures Precedes(c, r[i], r[j])
    {
      assert r[i] in kept && r[j] in kept;
      NonEmptyKeepsOrder(c, r[i], r[j]);
    }
  }

  /** `getCSSRanges` as intended: the distinct non-empty candidates, in the order of their first occurrences. */
  function CorrectedRanges(src: CssSource, pos: int, parser: CssParser): (r: Option<seq<Range>>)
    ensures r.Some? <==> ResolveRule(src, pos, parser).Some?
    ensures r.Some? ==>
      var candidates := Candidates(ResolveRule(src, pos, parser).value, pos, parser);
      |r.value| <= 5 && Distinct(r.value) &&
      (forall x :: x in r.value <==> x in candidates && Length(x) != 0) &&
      forall i, j :: 0 <= i < j < |r.value| ==> IndexOf(candidates, r.value[i]).value < IndexOf(candidates, r.value[j]).value
  {
    match ResolveRule(src, pos, parser)
    case None => None
    case Some(rule) =>
      CorrectedKeepsOrder(Candidates(rule, pos, parser));
      Some(Uniq(NonEmpty(Candidates(rule, pos, parser))))
  }

  predicate SortedByLength(s: seq<Range>)
  {
    forall i, j :: 0 <= i < j < |s| ==> Length(s[i]) <= Length(s[j])
  }

  /** Puts `x` in front of the first range of `s` at least as long. */
  function Insert(x: Range, s: seq<Range>): seq<Range>
  {
    if |s| == 0 || Length(x) <= Length(s[0]) then [x] + s
    else [s[0]] + Insert(x, s[1..])
  }

  /** Inserting adds exactly `x`. */
  lemma {:induction false} InsertPermutes(x: Range, s: seq<Range>)
    ensures multiset(Insert(x, s)) == multiset(s) + multiset{x}
  {
    if |s| > 0 && Length(x) > Length(s[0]) {
      assert s == [s[0]] + s[1..];
      InsertPermutes(x, s[1..]);
    }
  }

  /** Inserting into a sorted list keeps it sorted. */
  lemma {:induction false} InsertSorted(x: Range, s: seq<Range>)
    requires SortedByLength(s)
    ensures SortedByLength(Insert(x, s))
  {
    if |s| > 0 && Length(x) > Length(s[0]) {
      var rest := Insert(x, s[1..]);
      assert Insert(x, s) == [s[0]] + rest;
      InsertSorted(x, s[1..]);
      InsertPermutes(x, s[1..]);
      forall y | y in rest
        ensures Length(s[0]) <= Length(y)
      {
        assert y in multiset(rest);
        assert y == x || y in s[1..];
      }
    }
  }

  /** `ranges.sort` by ascending length: the ranges of `s`, each as often as in `s`, shortest first. */
  function SortByLength(s: seq<Range>): (r: seq<Range>)
    ensures SortedByLength(r)
    ensures multiset(r) == multiset(s)
  {
    if |s| == 0 then []
    else
      assert s == [s[0]] + s[1..];
      var sorted := SortByLength(s[1..]);
      InsertSorted(s[0], sorted);
      InsertPermutes(s[0], sorted);
      Insert(s[0], sorted)
  }

  /** One step of the sort: the first range is inserted into the sorted rest. */
  lemma SortStep(s: seq<Range>)
    requires |s| > 0
    ensures SortByLength(s) == Insert(s[0], SortByLength(s[1..]))
  {
  }

  /** Sorting keeps distinct ranges distinct. */
  lemma {:induction false} SortKeepsDistinct(s: seq<Range>)
    requires Distinct(s)
    ensures Distinct(SortByLength(s))
  {
    if |s| > 0 {
      var tail := s[1..];
      assert Distinct(tail) by {
        forall i, j | 0 <= i < j < |tail| ensures tail[i] != tail[j] {
          assert tail[i] == s[i + 1] && tail[j] == s[j + 1];
        }
      }
      assert s[0] !in tail;
      SortKeepsDistinct(tail);
      var sorted := SortByLength(tail);
      assert s[0] !in multiset(sorted);
      InsertKeepsDistinct(s[0], sorted);
    }
  }

  lemma {:induction false} InsertKeepsDistinct(x: Range, s: seq<Range>)
    requires SortedByLength(s) && Distinct(s) && x !in s
    ensures Distinct(Insert(x, s))
  {
    if |s| == 0 || Length(x) <= Length(s[0]) {
    } else {
      assert s == [s[0]] + s[1..];
      var rest := Insert(x, s[1..]);
      InsertKeepsDistinct(x, s[1..]);
      InsertPermutes(x, s[1..]);
      assert s[0] !in multiset(rest);
    }
  }

  /** `a` occurs in `t`, and its first occurrence comes before that of `b`. */
  predicate Precedes(t: seq<Range>, a: Range, b: Range)
  {
    IndexOf(t, a).Some? && IndexOf(t, b).Some? && IndexOf(t, a).value < IndexOf(t, b).value
  }

  /** Inserting another range keeps the relative order of the ranges already there. */
  lemma {:induction false} InsertKeepsOrder(x: Range, t: seq<Range>, a: Range, b: Range)
    requires a != x && b != x && Precedes(t, a, b)
    ensures Precedes(Insert(x, t), a, b)
  {
    InsertPermutes(x, t);
    var r := Insert(x, t);
    assert a in multiset(r) && b in multiset(r);
    if Length(x) <= Length(t[0]) {
      assert r == [x] + t && r[1..] == t;
    } else {
      assert r == [t[0]] + Insert(x, t[1..]) && r[1..] == Insert(x, t[1..]);
      if a != t[0] {
        assert t[0] != b;
        InsertKeepsOrder(x, t[1..], a, b);
      }
    }
  }

  /** A range inserted into a list that does not hold it goes before every range at least as long. */
  lemma {:induction false} InsertGoesFirst(x: Range, t: seq<Range>, b: Range)
    requires x !in t && b in t && Length(x) <= Length(b)
    ensures Precedes(Insert(x, t), x, b)
  {
    InsertPermutes(x, t);
    var r := Insert(x, t);
    assert x in multiset(r) && b in multiset(r);
    if Length(x) <= Length(t[0]) {
      assert r == [x] + t && r[1..] == t;
    } else {
      assert r == [t[0]] + Insert(x, t[1..]) && r[1..] == Insert(x, t[1..]);
      assert t[0] != b && t[0] != x;
      InsertGoesFirst(x, t[1..], b);
    }
  }

  /** The sort is stable: of two distinct ranges of equal length, the earlier one stays first. */
  lemma {:induction false} SortIsStable(s: seq<Range>)
    requires Distinct(s)
    ensures forall i, j :: 0 <= i < j < |s| && Length(s[i]) == Length(s[j]) ==> Precedes(SortByLength(s), s[i], s[j])
  {
    if |s| > 0 {
      var x, rest := s[0], s[1..];
      assert Distinct(rest) by {
        forall i, j | 0 <= i < j < |rest| ensures rest[i] != rest[j] {
          assert rest[i] == s[i + 1] && rest[j] == s[j + 1];
        }
      }
      SortIsStable(rest);
      var t := SortByLength(rest);
      assert x !in rest;
      assert x !in multiset(t);
      forall i, j | 0 <= i < j < |s| && Length(s[i]) == Length(s[j])
        ensures Precedes(SortByLength(s), s[i], s[j])
      {
        assert s[j] == rest[j - 1] && s[j] in multiset(t);
        if i == 0 {
          InsertGoesFirst(x, t, s[j]);
        } else {
          assert s[i] == rest[i - 1];
          InsertKeepsOrder(x, t, s[i], s[j]);
        }
      }
    }
  }

  /** `_.find(ranges, r => r.cmp(pos, 'lt', 'gte'))` followed by `_.indexOf`: the first range enclosing `pos`. */
  function FirstEnclosing(s: seq<Range>, pos: int): (k: Option<nat>)
    ensures k.Some? ==> k.value < |s| && Encloses(s[k.value], pos)
    ensures k.Some? ==> forall j :: 0 <= j < k.value ==> !Encloses(s[j], pos)
    ensures k.None? ==> forall j :: 0 <= j < |s| ==> !Encloses(s[j], pos)
  {
    if |s| == 0 then None
    else if Encloses(s[0], pos) then Some(0)
    else
      match FirstEnclosing(s[1..], pos)
      case None => None
      case Some(i) => Some(i + 1)
  }

  /** The position of the best match: the selection itself if it is a candidate, else the first candidate enclosing its start. */
  function BestMatch(ranges: seq<Range>, sel: Range): (k: Option<nat>)
    ensures k.Some? ==> k.value < |ranges|
    ensures sel in ranges ==> k.Some? && ranges[k.value] == sel
    ensures sel !in ranges ==> k == FirstEnclosing(ranges, sel.start)
  {
    var equal := IndexOf(ranges, sel);
    if equal.Some? then equal else FirstEnclosing(ranges, sel.start)
  }

  /**
   * The range a call selects from the sorted candidates: the best match
   * itself, or, when the best match is the selection, its neighbour one
   * position longer (`out`) or shorter (any other direction).
   */
  function Target(ranges: seq<Range>, sel: Range, dir: Direction): (t: Option<Range>)
    ensures t.Some? ==> t.value in ranges
    ensures sel !in ranges ==> (t.Some? <==> exists j :: 0 <= j < |ranges| && Encloses(ranges[j], sel.start))
    ensures sel !in ranges && t.Some? ==> Encloses(t.value, sel.start)
    ensures Distinct(ranges) && t.Some? ==> t.value != sel
    ensures SortedByLength(ranges) && sel in ranges && t.Some? ==>
      if dir == Out then Length(sel) <= Length(t.value) else Length(t.value) <= Length(sel)
  {
    match BestMatch(ranges, sel)
    case None => None
    case Some(best) =>
      var ix: int := if ranges[best] == sel then (if dir == Out then best + 1 else best - 1) else best;
      if 0 <= ix < |ranges| then Some(ranges[ix]) else None
  }

  /** When the selection is not a candidate, the target is the shortest candidate enclosing its start. */
  lemma ShortestEnclosing(ranges: seq<Range>, sel: Range, dir: Direction, r: Range)
    requires SortedByLength(ranges) && sel !in ranges
    requires r in ranges && Encloses(r, sel.start)
    ensures Target(ranges, sel, dir).Some?
    ensures Length(Target(ranges, sel, dir).value) <= Length(r)
  {
    var j :| 0 <= j < |ranges| && ranges[j] == r;
    var k := FirstEnclosing(ranges, sel.start).value;
    assert k <= j;
  }

  /**
   * `out` moves to a longer range only from a candidate: from a selection
   * that is not one, it lands on the shortest candidate enclosing the
   * selection's start, which may be shorter than the selection.
   */
  lemma OutwardCanNarrow()
    ensures Target([Range(4, 6)], Range(5, 100), Out) == Some(Range(4, 6))
    ensures Length(Range(4, 6)) < Length(Range(5, 100))
  {
    assert IndexOf([Range(4, 6)], Range(5, 100)) == None;
    assert FirstEnclosing([Range(4, 6)], 5) == Some(0);
  }

  /** When the selection is the `i`-th of distinct candidates, the target is its neighbour in the requested direction. */
  lemma StepFromSelection(ranges: seq<Range>, i: nat, dir: Direction)
    requires Distinct(ranges) && i < |ranges|
    ensures var j := if dir == Out then i + 1 else i - 1;
      Target(ranges, ranges[i], dir) == if 0 <= j < |ranges| then Some(ranges[j]) else None
  {
    var k := IndexOf(ranges, ranges[i]).value;
    assert k == i;
  }

  /** Out then in from a candidate returns to it. */
  lemma OutThenIn(ranges: seq<Range>, i: nat)
    requires Distinct(ranges) && i + 1 < |ranges|
    ensures Target(ranges, ranges[i], Out) == Some(ranges[i + 1])
    ensures Target(ranges, ranges[i + 1], In) == Some(ranges[i])
  {
    StepFromSelection(ranges, i, Out);
    StepFromSelection(ranges, i + 1, In);
  }

  /** Every two ranges of `s` lie one inside the other. */
  predicate Chain(s: seq<Range>)
  {
    forall x, y :: x in s && y in s ==> Contains(x, y) || Contains(y, x)
  }

  predicate AllWellFormed(s: seq<Range>)
  {
    forall x :: x in s ==> WellFormed(x)
  }

  predicate StrictlyAscending(s: seq<Range>)
  {
    forall i, j :: 0 <= i < j < |s| ==> Length(s[i]) < Length(s[j])
  }

  /** Sorted, distinct, nested ranges have strictly increasing lengths. */
  lemma StrictWidths(s: seq<Range>)
    requires SortedByLength(s) && Distinct(s) && Chain(s) && AllWellFormed(s)
    ensures StrictlyAscending(s)
  {
    forall i, j | 0 <= i < j < |s|
      ensures Length(s[i]) < Length(s[j])
    {
      if Length(s[i]) == Length(s[j]) {
        NestedSameLength(s[i], s[j]);
      }
    }
  }

  /**
   * When the parser's candidates are well formed and nested (rule, braces,
   * declarations, declaration, value), the sorted candidate list is strictly
   * ascending in length.
   */
  lemma NestedCandidatesAscend(src: CssSource, pos: int, parser: CssParser)
    requires ResolveRule(src, pos, parser).Some?
    requires var c := Candidates(ResolveRule(src, pos, parser).value, pos, parser);
      Chain(c) && AllWellFormed(c)
    ensures StrictlyAscending(SortByLength(CssRanges(src, pos, parser).value))
  {
    var ranges := CssRanges(src, pos, parser).value;
    SortKeepsDistinct(ranges);
    var sorted := SortByLength(ranges);
    assert forall x :: x in sorted <==> x in multiset(ranges);
    StrictWidths(sorted);
  }

  /** The rule `balanceCSS` works on: the one around the selection start, else the selected text re-parsed when the selection is not empty. */
  function SelectedRule(content: string, sel: Range, parser: CssParser): (rule: Option<CssRule>)
    ensures ResolveRule(Text(content), sel.start, parser).Some? ==> rule == ResolveRule(Text(content), sel.start, parser)
    ensures ResolveRule(Text(content), sel.start, parser).None? && Length(sel) != 0 ==>
      rule == parser.parse(Substring(sel, content), sel.start)
    ensures ResolveRule(Text(content), sel.start, parser).None? && Length(sel) == 0 ==> rule.None?
  {
    var direct := ResolveRule(Text(content), sel.start, parser);
    if direct.None? && Length(sel) != 0 then parser.parse(Substring(sel, content), sel.start) else direct
  }

  /** Sorting then stepping: the range chosen from a candidate list. */
  function Choose(ranges: seq<Range>, sel: Range, dir: Direction): (t: Option<Range>)
    requires Distinct(ranges)
    ensures t.Some? ==> t.value in ranges && t.value != sel
  {
    SortKeepsDistinct(ranges);
    var sorted := SortByLength(ranges);
    assert forall x :: x in sorted <==> x in multiset(ranges);
    Target(sorted, sel, dir)
  }

  /** Choosing is stepping through the sorted list. */
  lemma ChooseIsTarget(ranges: seq<Range>, sel: Range, dir: Direction)
    requires Distinct(ranges)
    ensures Choose(ranges, sel, dir) == Target(SortByLength(ranges), sel, dir)
  {
  }

  /**
   * `balanceCSS` as a value: the range selected, if any.  It is a candidate
   * of the selected rule at the selection start and never the selection itself.
   */
  function CssTarget(content: string, sel: Range, dir: Direction, parser: CssParser): (t: Option<Range>)
    ensures t.Some? ==> SelectedRule(content, sel, parser).Some?
    ensures t.Some? ==> t.value in Candidates(SelectedRule(content, sel, parser).value, sel.start, parser)
    ensures t.Some? ==> t.value != sel
  {
    match SelectedRule(content, sel, parser)
    case None => None
    case Some(rule) =>
      var ranges := CssRanges(Parsed(rule), sel.start, parser).value;
      Choose(ranges, sel, dir)
  }

  /** `balanceCSS` with the intended filter: never selects an empty range. */
  function CorrectedCssTarget(content: string, sel: Range, dir: Direction, parser: CssParser): (t: Option<Range>)
    ensures t.Some? ==> SelectedRule(content, sel, parser).Some?
    ensures t.Some? ==> t.value in Candidates(SelectedRule(content, sel, parser).value, sel.start, parser)
    ensures t.Some? ==> t.value != sel && Length(t.value) != 0
  {
    match SelectedRule(content, sel, parser)
    case None => None
    case Some(rule) =>
      var ranges := CorrectedRanges(Parsed(rule), sel.start, parser).value;
      Choose(ranges, sel, dir)
  }

  /** Where the rule has no empty candidate, the code as written and as intended agree. */
  lemma CorrectionAgreesWithoutEmpty(content: string, sel: Range, dir: Direction, parser: CssParser)
    requires SelectedRule(content, sel, parser).Some?
    requires var c := Candidates(SelectedRule(content, sel, parser).value, sel.start, parser);
      forall i :: 0 <= i < |c| ==> Length(c[i]) != 0
    ensures CorrectedCssTarget(content, sel, dir, parser) == CssTarget(content, sel, dir, parser)
  {
    var rule := SelectedRule(content, sel, parser).value;
    NonEmptyKeepsAll(Candidates(rule, sel.start, parser));
  }

  /** `balanceCSS`: sorts the candidates, finds the best match, moves its index and selects. */
  method BalanceCss(ed: Editor, dir: Direction, parser: CssParser) returns (ok: bool, ed': Editor)
    ensures ok <==> CssTarget(ed.content, ed.selection, dir, parser).Some?
    ensures ok ==> ed' == CreateSelection(ed, CssTarget(ed.content, ed.selection, dir, parser).value)
    ensures !ok ==> ed' == ed
  {
    var sel := ed.selection;
    var ranges := CssRanges(Text(ed.content), sel.start, parser);
    if ranges.None? && Length(sel) != 0 {
      var rule := parser.parse(Substring(sel, ed.content), sel.start);
      if rule.Some? {
        ranges := CssRanges(Parsed(rule.value), sel.start, parser);
      }
    }
    ghost var selected := SelectedRule(ed.content, sel, parser);
    assert ranges.None? <==> selected.None?;
    if ranges.None? {
      return false, ed;
    }
    assert ranges == CssRanges(Parsed(selected.value), sel.start, parser);
    var sorted := SortByLength(ranges.value);
    assert Target(sorted, sel, dir) == CssTarget(ed.content, sel, dir, parser);
    var best := BestMatch(sorted, sel);
    if best.None? {
      return false, ed;
    }
    var bestIx: int := best.value;
    if sorted[bestIx] == sel {
      bestIx := bestIx + if dir == Out then 1 else -1;
    }
    if bestIx < 0 || bestIx >= |sorted| {
      return false, ed;
    }
    return true, CreateSelection(ed, sorted[bestIx]);
  }
}
