/**
 * Two documents worked through the style balancer: a rule with two
 * declarations, stepped inward and outward, and the empty rule `a{}`, on
 * which the filter as written and as intended part ways.
 */
module CssScenarios {
  import opened Wrappers
  import opened Ranges
  import opened Host
  import opened CssBalance

  /** The document `a{color:red;width:1px}` and its one rule, as a parser would report them. */
  const ScenarioText: string := "a{color:red;width:1px}"
  const ScenarioColor: CssProperty := CssProperty(Range(2, 12), 2, Range(8, 11))
  const ScenarioWidth: CssProperty := CssProperty(Range(12, 21), 12, Range(18, 21))
  const ScenarioRule: CssRule := CssRule(Range(0, 22), 2, [ScenarioColor, ScenarioWidth])

  function ScenarioParser(): CssParser
  {
    CssParser(
      (text, pos, backward) => Some(ScenarioRule),
      (text, offset) => None,
      (rule, pos) => if 2 <= pos < 12 then Some(ScenarioColor) else if 12 <= pos < 21 then Some(ScenarioWidth) else None)
  }

  const ScenarioCandidates: seq<Range> := [Range(0, 22), Range(2, 21), Range(2, 21), Range(2, 12), Range(8, 11)]
  const ScenarioUnique: seq<Range> := [Range(0, 22), Range(2, 21), Range(2, 12), Range(8, 11)]
  const ScenarioSorted: seq<Range> := [Range(8, 11), Range(2, 12), Range(2, 21), Range(0, 22)]

  /** Every caret the scenario visits lies in `color:red;` or before the first declaration. */
  lemma ScenarioCandidatesAt(pos: int)
    requires pos == 0 || pos == 2 || pos == 8 || pos == 9
    ensures Candidates(ScenarioRule, pos, ScenarioParser()) == ScenarioCandidates
  {
    assert CurrentProperty(ScenarioRule, pos, ScenarioParser()) == Some(ScenarioColor);
  }

  /** The brace content and the declaration list coincide in the scenario; the second copy is dropped. */
  lemma ScenarioUniq()
    ensures Uniq(ScenarioCandidates) == ScenarioUnique
  {
    var c := ScenarioCandidates;
    assert Uniq(c[..1]) == [Range(0, 22)] by {
      assert c[..1][..0] == [];
    }
    assert Uniq(c[..2]) == [Range(0, 22), Range(2, 21)] by {
      assert c[..2][..1] == c[..1];
    }
    assert Uniq(c[..3]) == [Range(0, 22), Range(2, 21)] by {
      assert c[..3][..2] == c[..2];
    }
    assert Uniq(c[..4]) == [Range(0, 22), Range(2, 21), Range(2, 12)] by {
      assert c[..4][..3] == c[..3];
    }
    assert c[..|c| - 1] == c[..4];
  }

  lemma SortLastOne()
    ensures SortByLength([Range(8, 11)]) == [Range(8, 11)]
  {
    SortStep([Range(8, 11)]);
    assert [Range(8, 11)][1..] == [];
  }

  lemma SortLastTwo()
    ensures SortByLength([Range(2, 12), Range(8, 11)]) == [Range(8, 11), Range(2, 12)]
  {
    var u := [Range(2, 12), Range(8, 11)];
    SortStep(u);
    assert u[1..] == [Range(8, 11)];
    SortLastOne();
    assert Insert(Range(2, 12), [Range(8, 11)]) == [Range(8, 11), Range(2, 12)];
  }

  lemma SortLastThree()
    ensures SortByLength([Range(2, 21), Range(2, 12), Range(8, 11)]) == [Range(8, 11), Range(2, 12), Range(2, 21)]
  {
    var u := [Range(2, 21), Range(2, 12), Range(8, 11)];
    SortStep(u);
    assert u[1..] == [Range(2, 12), Range(8, 11)];
    SortLastTwo();
    assert [Range(8, 11), Range(2, 12)][1..] == [Range(2, 12)];
    assert Insert(Range(2, 21), [Range(8, 11), Range(2, 12)]) == [Range(8, 11), Range(2, 12), Range(2, 21)];
  }

  /** The scenario's candidates sorted by length: value, declaration, brace content, rule. */
  lemma ScenarioSorts()
    ensures SortByLength(ScenarioUnique) == ScenarioSorted
  {
    var u := ScenarioUnique;
    SortStep(u);
    assert u[1..] == [Range(2, 21), Range(2, 12), Range(8, 11)];
    SortLastThree();
    InsertLongest();
  }

  /** The rule, the longest candidate, goes to the end. */
  lemma InsertLongest()
    ensures Insert(Range(0, 22), [Range(8, 11), Range(2, 12), Range(2, 21)]) == ScenarioSorted
  {
    var x := Range(0, 22);
    var t := [Range(8, 11), Range(2, 12), Range(2, 21)];
    assert Insert(x, t[2..][1..]) == [x];
    assert t[2..] == [Range(2, 21)] && t[1..][1..] == t[2..] && t[1..] == [Range(2, 12), Range(2, 21)];
    assert Insert(x, t[2..]) == [Range(2, 21), x];
    assert Insert(x, t[1..]) == [Range(2, 12), Range(2, 21), x];
  }

  /** At every selection the scenario visits, the style balancer steps through the same sorted list. */
  lemma ScenarioTarget(sel: Range, dir: Direction)
    requires sel.start == 0 || sel.start == 2 || sel.start == 8 || sel.start == 9
    ensures CssTarget(ScenarioText, sel, dir, ScenarioParser()) == Target(ScenarioSorted, sel, dir)
  {
    var parser := ScenarioParser();
    assert SelectedRule(ScenarioText, sel, parser) == Some(ScenarioRule);
    ScenarioRangesAt(sel.start);
    ScenarioChoose(sel, dir);
  }

  lemma ScenarioRangesAt(pos: int)
    requires pos == 0 || pos == 2 || pos == 8 || pos == 9
    ensures CssRanges(Parsed(ScenarioRule), pos, ScenarioParser()) == Some(ScenarioUnique)
  {
    ScenarioCandidatesAt(pos);
    ScenarioUniq();
  }

  lemma ScenarioChoose(sel: Range, dir: Direction)
    ensures Distinct(ScenarioUnique)
    ensures Choose(ScenarioUnique, sel, dir) == Target(ScenarioSorted, sel, dir)
  {
    assert Distinct(ScenarioUnique);
    ChooseIsTarget(ScenarioUnique, sel, dir);
    ScenarioSorts();
  }

  /** With the caret inside `red` and nothing selected, `in` selects `red`. */
  lemma StyleScenarioFirst()
    ensures CssTarget(ScenarioText, Range(9, 9), In, ScenarioParser()) == Some(Range(8, 11))
  {
    ScenarioTarget(Range(9, 9), In);
    assert IndexOf(ScenarioSorted, Range(9, 9)) == None;
    assert FirstEnclosing(ScenarioSorted, 9) == Some(0);
  }

  /**
   * From `red`, `out` selects `color:red;`, then the brace content
   * `color:red;width:1px`, then the whole rule, and then fails.
   */
  lemma StyleScenarioOutward(i: nat)
    requires i < 4
    ensures CssTarget(ScenarioText, ScenarioSorted[i], Out, ScenarioParser())
         == if i < 3 then Some(ScenarioSorted[i + 1]) else None
  {
    var sorted := ScenarioSorted;
    assert Distinct(sorted);
    StepFromSelection(sorted, i, Out);
    if i == 0 {
      ScenarioTarget(Range(8, 11), Out);
    } else if i == 1 {
      ScenarioTarget(Range(2, 12), Out);
    } else if i == 2 {
      ScenarioTarget(Range(2, 21), Out);
    } else {
      ScenarioTarget(Range(0, 22), Out);
    }
  }

  /** The document `a{}`: one rule with no declarations, whose brace content is empty. */
  const EmptyText: string := "a{}"
  const EmptyRule: CssRule := CssRule(Range(0, 3), 2, [])

  function EmptyParser(): CssParser
  {
    CssParser(
      (text, pos, backward) => Some(EmptyRule),
      (text, offset) => None,
      (rule, pos) => None)
  }

  /** Both candidates of `a{}` survive the filter as written; sorted, the empty brace content comes first. */
  lemma EmptyRuleRanges(pos: int)
    ensures CssRanges(Parsed(EmptyRule), pos, EmptyParser()) == Some([Range(0, 3), Range(2, 2)])
    ensures SortByLength([Range(0, 3), Range(2, 2)]) == [Range(2, 2), Range(0, 3)]
  {
    var c := Candidates(EmptyRule, pos, EmptyParser());
    assert c == [Range(0, 3), Range(2, 2)];
    assert Uniq(c[..1]) == [Range(0, 3)] by {
      assert c[..1][..0] == [];
    }
    assert c[..|c| - 1] == c[..1];
    assert Uniq(c) == c;
    assert [Range(0, 3), Range(2, 2)][1..] == [Range(2, 2)];
  }

  /**
   * As written, on `a{}` the filter keeps the empty brace content: `in` from
   * the whole rule selects an empty range, and `in` from the caret between
   * the braces fails instead of selecting the rule.
   */
  lemma EmptyRuleAsWritten()
    ensures CssTarget(EmptyText, Range(0, 3), In, EmptyParser()) == Some(Range(2, 2))
    ensures Length(Range(2, 2)) == 0
    ensures CssTarget(EmptyText, Range(2, 2), In, EmptyParser()) == None
  {
    var sorted := [Range(2, 2), Range(0, 3)];
    EmptyRuleAsWrittenAt(Range(0, 3));
    EmptyRuleAsWrittenAt(Range(2, 2));
    assert IndexOf(sorted, Range(0, 3)) == Some(1);
    assert IndexOf(sorted, Range(2, 2)) == Some(0);
  }

  lemma EmptyRuleAsWrittenAt(sel: Range)
    ensures CssTarget(EmptyText, sel, In, EmptyParser()) == Target([Range(2, 2), Range(0, 3)], sel, In)
  {
    assert SelectedRule(EmptyText, sel, EmptyParser()) == Some(EmptyRule);
    EmptyRuleRanges(sel.start);
    assert Choose([Range(0, 3), Range(2, 2)], sel, In) == Target([Range(2, 2), Range(0, 3)], sel, In);
  }

  /** The intended filter leaves only the rule of `a{}`. */
  lemma EmptyRuleCorrectedRanges(pos: int)
    ensures CorrectedRanges(Parsed(EmptyRule), pos, EmptyParser()) == Some([Range(0, 3)])
    ensures SortByLength([Range(0, 3)]) == [Range(0, 3)]
  {
    var c := [Range(0, 3), Range(2, 2)];
    assert Candidates(EmptyRule, pos, EmptyParser()) == c;
    assert NonEmpty(c) == [Range(0, 3)] by {
      assert c[1..][1..] == [];
    }
    var only := [Range(0, 3)];
    assert Uniq(only) == only by {
      assert only[..0] == [];
    }
    assert only[1..] == [];
  }

  /**
   * With the intended filter only the rule is left: `in` from the rule
   * fails, and `in` from the caret between the braces selects the rule.
   */
  lemma EmptyRuleCorrected()
    ensures CorrectedCssTarget(EmptyText, Range(0, 3), In, EmptyParser()) == None
    ensures CorrectedCssTarget(EmptyText, Range(2, 2), In, EmptyParser()) == Some(Range(0, 3))
  {
    var only := [Range(0, 3)];
    EmptyRuleCorrectedAt(Range(0, 3));
    EmptyRuleCorrectedAt(Range(2, 2));
    assert IndexOf(only, Range(0, 3)) == Some(0);
    assert IndexOf(only, Range(2, 2)) == None;
    assert FirstEnclosing(only, 2) == Some(0);
  }

  lemma EmptyRuleCorrectedAt(sel: Range)
    ensures CorrectedCssTarget(EmptyText, sel, In, EmptyParser()) == Target([Range(0, 3)], sel, In)
  {
    assert SelectedRule(EmptyText, sel, EmptyParser()) == Some(EmptyRule);
    EmptyRuleCorrectedRanges(sel.start);
    assert Choose([Range(0, 3)], sel, In) == Target([Range(0, 3)], sel, In);
  }
}
