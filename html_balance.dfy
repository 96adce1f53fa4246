/**
 * The markup balancer (`balanceHTML`) as a function of its one piece of
 * session state, the last match.  `Step` gives the new last match and the
 * range the call selects (none on failure); the imperative method that
 * updates the state in place is `Balance.BalanceAction.BalanceHtml`.
 */
module HtmlBalance {
  import opened Wrappers
  import opened Ranges
  import opened Host

  /** Kind of markup unit the tag matcher reports. */
  datatype UnitType = Tag | Comment

  /**
   * A matched markup unit.  `range` is the active range, the one a balancing
   * step selects; it is one of `innerRange` (the content between the
   * delimiters) and `outerRange` (the whole unit).
   */
  datatype Match = Match(kind: UnitType, close: bool, range: Range, innerRange: Range, outerRange: Range)
  {
    /** A tag without a closing tag: there is nothing to descend into. */
    predicate IsUnaryTag()
    {
      kind == Tag && !close
    }
  }

  /** What the tag matcher is assumed to deliver: the inner range lies within the outer one. */
  predicate WellFormedMatch(m: Match)
  {
    Contains(m.outerRange, m.innerRange) && (m.range == m.innerRange || m.range == m.outerRange)
  }

  /** The tag matcher's `find(content, offset)`. */
  type Finder = (string, int) -> Option<Match>

  /** `narrowToNonSpace(content, range)`: the range without surrounding white space. */
  type Narrower = (string, Range) -> Range

  /** The state after a call and the range it selected, if it succeeded. */
  datatype Outcome = Outcome(last: Option<Match>, selected: Option<Range>)

  /** The previous match survives only while its active range is still the selection. */
  function Validate(last: Option<Match>, sel: Range): (valid: Option<Match>)
    ensures valid.Some? <==> last.Some? && last.value.range == sel
    ensures valid.Some? ==> valid == last
  {
    if last.Some? && last.value.range != sel then None else last
  }

  /** The end of every call: select the match's active range if it differs from the selection, else forget the match. */
  function Commit(found: Option<Match>, sel: Range): (o: Outcome)
    ensures o.selected.Some? <==> found.Some? && found.value.range != sel
    ensures o.selected.Some? ==> o.last == found && o.selected.value == found.value.range
    ensures o.selected.None? ==> o.last.None?
  {
    if found.Some? && found.value.range != sel then Outcome(found, Some(found.value.range))
    else Outcome(None, None)
  }

  /** `a` and `b` are the same unit, whatever their active ranges. */
  predicate SameUnit(a: Match, b: Match)
  {
    a.(range := b.range) == b
  }

  /**
   * The inward refinement of a match whose active range is the selection: a
   * match selected by its outer range switches to its inner range; otherwise
   * the matcher is asked again just inside the narrowed inner range, and a
   * unit found whose outer range is the selection switches to its inner range.
   */
  function Inward(m: Match, content: string, sel: Range, find: Finder, narrow: Narrower): (r: Option<Match>)
    ensures m.range == m.outerRange ==> r == Some(m.(range := m.innerRange))
    ensures m.range != m.outerRange ==>
      var q := find(content, narrow(content, m.innerRange).start + 1);
      (r.None? <==> q.None?) &&
      (r.Some? ==> SameUnit(r.value, q.value)) &&
      (r.Some? && r.value.range != q.value.range ==>
        q.value.range == sel && q.value.outerRange == sel && r.value.range == q.value.innerRange) &&
      (q.Some? && q.value.range == sel && q.value.outerRange == sel ==>
        r == Some(q.value.(range := q.value.innerRange)))
    ensures m.range == m.outerRange && WellFormedMatch(m) ==> WellFormedMatch(r.value) && Contains(m.range, r.value.range)
  {
    if m.range == m.outerRange then Some(m.(range := m.innerRange))
    else
      var narrowed := narrow(content, m.innerRange);
      var found := find(content, narrowed.start + 1);
      if found.Some? && found.value.range == sel && found.value.outerRange == sel
      then Some(found.value.(range := found.value.innerRange))
      else found
  }

  /**
   * The outward refinement of a match whose active range is the selection: a
   * match selected by an inner range that differs from its outer one switches
   * to its outer range; otherwise the matcher is asked again at the selection
   * start, and a unit found whose inner range is the selection switches to
   * its outer range.
   */
  function Outward(m: Match, content: string, sel: Range, find: Finder): (r: Option<Match>)
    ensures m.innerRange != m.outerRange && m.range == m.innerRange && sel == m.range ==>
      r == Some(m.(range := m.outerRange))
    ensures !(m.innerRange != m.outerRange && m.range == m.innerRange && sel == m.range) ==>
      var q := find(content, sel.start);
      (r.None? <==> q.None?) &&
      (r.Some? ==> SameUnit(r.value, q.value)) &&
      (r.Some? && r.value.range != q.value.range ==>
        q.value.range == sel && q.value.innerRange == sel && r.value.range == q.value.outerRange) &&
      (q.Some? && q.value.range == sel && q.value.innerRange == sel ==>
        r == Some(q.value.(range := q.value.outerRange)))
    ensures m.innerRange != m.outerRange && m.range == m.innerRange && sel == m.range && WellFormedMatch(m) ==>
      WellFormedMatch(r.value) && Contains(r.value.range, sel)
  {
    if m.innerRange != m.outerRange && m.range == m.innerRange && sel == m.range
    then Some(m.(range := m.outerRange))
    else
      var found := find(content, sel.start);
      if found.Some? && found.value.range == sel && found.value.innerRange == sel
      then Some(found.value.(range := found.value.outerRange))
      else found
  }

  /**
   * One call of the markup balancer.  A call that succeeds selects the new
   * match's active range, which always differs from the selection; afterwards
   * a remembered match always has the (new) selection as its active range;
   * the only failure that keeps a match is `in` on a unary tag.
   */
  function Step(last: Option<Match>, content: string, sel: Range, dir: Direction,
                find: Finder, narrow: Narrower): (o: Outcome)
    ensures o.selected.Some? ==> o.last.Some? && o.selected.value == o.last.value.range && o.selected.value != sel
    ensures o.last.Some? ==> o.last.value.range == if o.selected.Some? then o.selected.value else sel
    ensures o.selected.None? && o.last.Some? ==>
      o.last == last && dir == In && last.value.IsUnaryTag() && Length(sel) != 0
  {
    var valid := Validate(last, sel);
    if valid.Some? && Length(sel) != 0 then
      var m := valid.value;
      if dir == In then
        if m.IsUnaryTag() then Outcome(valid, None)
        else Commit(Inward(m, content, sel, find, narrow), sel)
      else Commit(Outward(m, content, sel, find), sel)
    else Commit(find(content, sel.start), sel)
  }

  /**
   * `out` that asks the matcher again and gets back a well-formed unit whose
   * inner range is the selection selects that unit's outer range, which
   * contains the selection.
   */
  lemma OutwardRequeryWidens(m: Match, content: string, sel: Range, dir: Direction,
                             find: Finder, narrow: Narrower)
    requires m.range == sel && Length(sel) != 0 && dir != In
    requires !(m.innerRange != m.outerRange && m.range == m.innerRange)
    requires var q := find(content, sel.start);
      q.Some? && WellFormedMatch(q.value) && q.value.range == sel && q.value.innerRange == sel && q.value.outerRange != sel
    ensures var q := find(content, sel.start).value;
      Step(Some(m), content, sel, dir, find, narrow) == Outcome(Some(q.(range := q.outerRange)), Some(q.outerRange))
    ensures Contains(find(content, sel.start).value.outerRange, sel)
  {
  }

  /** A remembered match whose active range is no longer the selection is ignored: the matcher is asked afresh. */
  lemma StaleMatchIsDropped(last: Option<Match>, content: string, sel: Range, dir: Direction,
                            find: Finder, narrow: Narrower)
    requires last.Some? && last.value.range != sel
    ensures Step(last, content, sel, dir, find, narrow) == Step(None, content, sel, dir, find, narrow)
    ensures Step(last, content, sel, dir, find, narrow) == Commit(find(content, sel.start), sel)
  {
  }

  /** With an empty selection the matcher is asked afresh at the caret, whatever was remembered. */
  lemma EmptySelectionQueriesAfresh(last: Option<Match>, content: string, sel: Range, dir: Direction,
                                    find: Finder, narrow: Narrower)
    requires Length(sel) == 0
    ensures Step(last, content, sel, dir, find, narrow) == Commit(find(content, sel.start), sel)
  {
  }

  /** `in` on a selected unary tag fails, keeps the match and selects nothing. */
  lemma UnaryInwardFails(m: Match, content: string, sel: Range, find: Finder, narrow: Narrower)
    requires m.range == sel && Length(sel) != 0 && m.IsUnaryTag()
    ensures Step(Some(m), content, sel, In, find, narrow) == Outcome(Some(m), None)
  {
  }

  /** `in` on a match selected by its outer range moves to its inner range, which lies within the selection. */
  lemma InwardFromOuter(m: Match, content: string, sel: Range, find: Finder, narrow: Narrower)
    requires m.range == sel && m.outerRange == sel && Length(sel) != 0 && !m.IsUnaryTag()
    ensures var o := Step(Some(m), content, sel, In, find, narrow);
      if m.innerRange != sel
      then o == Outcome(Some(m.(range := m.innerRange)), Some(m.innerRange))
      else o == Outcome(None, None)
    ensures WellFormedMatch(m) ==> Contains(sel, m.innerRange)
  {
  }

  /** Any direction but `in`, on a match selected by its distinct inner range, moves to its outer range around the selection. */
  lemma OutwardFromInner(m: Match, content: string, sel: Range, dir: Direction, find: Finder, narrow: Narrower)
    requires dir != In
    requires m.range == sel && m.innerRange == sel && m.outerRange != sel && Length(sel) != 0
    ensures Step(Some(m), content, sel, dir, find, narrow) == Outcome(Some(m.(range := m.outerRange)), Some(m.outerRange))
    ensures WellFormedMatch(m) ==> Contains(m.outerRange, sel)
  {
  }

  /** Out then in on an unchanged unit returns to the range it started from. */
  lemma OutThenIn(m: Match, content: string, find: Finder, narrow: Narrower)
    requires m.range == m.innerRange && m.innerRange != m.outerRange
    requires Length(m.innerRange) != 0 && Length(m.outerRange) != 0 && !m.IsUnaryTag()
    ensures var first := Step(Some(m), content, m.innerRange, Out, find, narrow);
      first.selected == Some(m.outerRange) &&
      Step(first.last, content, m.outerRange, In, find, narrow) == Outcome(Some(m), Some(m.innerRange))
  {
    OutwardFromInner(m, content, m.innerRange, Out, find, narrow);
    InwardFromOuter(m.(range := m.outerRange), content, m.outerRange, find, narrow);
  }

  /** After a successful call, calling again with the same selection either selects another range or fails. */
  lemma NoReselection(last: Option<Match>, content: string, sel: Range, dir: Direction, dir2: Direction,
                      find: Finder, narrow: Narrower)
    requires Step(last, content, sel, dir, find, narrow).selected.Some?
    ensures var first := Step(last, content, sel, dir, find, narrow);
      var second := Step(first.last, content, first.selected.value, dir2, find, narrow);
      second.selected != first.selected
  {
  }
}
