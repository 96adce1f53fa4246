/**
 * The public balancing actions: dispatch on the document's syntax, the
 * direction's default and case, and the session state of the markup
 * balancer, which the class below holds.
 */
module Balance {
  import opened Wrappers
  import opened Ranges
  import opened Host
  import HtmlBalance
  import CssBalance

  /** The collaborators the balancers consult. */
  datatype Collaborators = Collaborators(
    find: HtmlBalance.Finder,
    narrow: HtmlBalance.Narrower,
    css: CssBalance.CssParser)

  function LowerChar(c: char): char
  {
    if 'A' <= c <= 'Z' then (c as int + ('a' as int - 'A' as int)) as char else c
  }

  function ToLower(s: string): (r: string)
    ensures |r| == |s|
  {
    seq(|s|, i requires 0 <= i < |s| => LowerChar(s[i]))
  }

  /**
   * The direction a call works in: `out` when none (or an empty one) is
   * given, otherwise the given name compared without regard to case.
   */
  function ParseDirection(direction: Option<string>): (d: Direction)
    ensures direction.None? || direction.value == "" ==> d == Out
    ensures d == In <==> direction.Some? && ToLower(direction.value) == "in"
    ensures d == Out <==> direction.None? || direction.value == "" || ToLower(direction.value) == "out"
  {
    var name := if direction.None? || direction.value == "" then "out" else ToLower(direction.value);
    if name == "in" then In else if name == "out" then Out else Other
  }

  /** Upper- and lower-case spellings name the same direction. */
  lemma DirectionIgnoresCase()
    ensures ParseDirection(Some("IN")) == In && ParseDirection(Some("In")) == In
    ensures ParseDirection(Some("OUT")) == Out && ParseDirection(None) == Out
  {
    assert ToLower("IN") == "in";
    assert ToLower("In") == "in";
    assert ToLower("OUT") == "out";
  }

  class BalanceAction {
    /** The markup balancer's last match, kept between calls. */
    var lastMatch: Option<HtmlBalance.Match>

    constructor ()
      ensures lastMatch == None
    {
      lastMatch := None;
    }

    /**
     * `balanceHTML`: the new last match and the selection are those of
     * `HtmlBalance.Step`; a remembered match always has the resulting
     * selection as its active range.
     */
    method BalanceHtml(ed: Editor, dir: Direction, find: HtmlBalance.Finder, narrow: HtmlBalance.Narrower)
      returns (ok: bool, ed': Editor)
      modifies this
      ensures var o := HtmlBalance.Step(old(lastMatch), ed.content, ed.selection, dir, find, narrow);
        lastMatch == o.last && (ok <==> o.selected.Some?) &&
        ed' == if ok then CreateSelection(ed, o.selected.value) else ed
      ensures ok ==> ed'.selection != ed.selection
      ensures lastMatch.Some? ==> lastMatch.value.range == ed'.selection
    {
      var content := ed.content;
      var sel := ed.selection;
      ghost var expected := HtmlBalance.Step(lastMatch, content, sel, dir, find, narrow);

      if lastMatch.Some? && lastMatch.value.range != sel {
        lastMatch := None;
      }

      if lastMatch.Some? && Length(sel) != 0 {
        var m := lastMatch.value;
        if dir == In {
          if m.IsUnaryTag() {
            return false, ed;
          }
          if m.range == m.outerRange {
            lastMatch := Some(m.(range := m.innerRange));
          } else {
            var narrowed := narrow(content, m.innerRange);
            lastMatch := find(content, narrowed.start + 1);
            if lastMatch.Some? && lastMatch.value.range == sel && lastMatch.value.outerRange == sel {
              lastMatch := Some(lastMatch.value.(range := lastMatch.value.innerRange));
            }
          }
          assert lastMatch == HtmlBalance.Inward(m, content, sel, find, narrow);
        } else {
          if m.innerRange != m.outerRange && m.range == m.innerRange && sel == m.range {
            lastMatch := Some(m.(range := m.outerRange));
          } else {
            lastMatch := find(content, sel.start);
            if lastMatch.Some? && lastMatch.value.range == sel && lastMatch.value.innerRange == sel {
              lastMatch := Some(lastMatch.value.(range := lastMatch.value.outerRange));
            }
          }
          assert lastMatch == HtmlBalance.Outward(m, content, sel, find);
        }
      } else {
        lastMatch := find(content, sel.start);
      }
      assert expected == HtmlBalance.Commit(lastMatch, sel);

      if lastMatch.Some? && lastMatch.value.range != sel {
        return true, CreateSelection(ed, lastMatch.value.range);
      }

      lastMatch := None;
      return false, ed;
    }

    /**
     * `balance`: style sheets go to the style balancer, which leaves the
     * session state alone; everything else goes to the markup balancer.
     */
    method Balance(ed: Editor, direction: Option<string>, tools: Collaborators) returns (ok: bool, ed': Editor)
      modifies this
      ensures var dir := ParseDirection(direction);
        if ed.syntax == "css" then
          var t := CssBalance.CssTarget(ed.content, ed.selection, dir, tools.css);
          lastMatch == old(lastMatch) && (ok <==> t.Some?) &&
          ed' == if ok then CreateSelection(ed, t.value) else ed
        else
          var o := HtmlBalance.Step(old(lastMatch), ed.content, ed.selection, dir, tools.find, tools.narrow);
          lastMatch == o.last && (ok <==> o.selected.Some?) &&
          ed' == if ok then CreateSelection(ed, o.selected.value) else ed
      ensures ok ==> ed'.selection != ed.selection
    {
      var dir := ParseDirection(direction);
      if ed.syntax == "css" {
        ok, ed' := CssBalance.BalanceCss(ed, dir, tools.css);
        return;
      }
      ok, ed' := BalanceHtml(ed, dir, tools.find, tools.narrow);
    }

    /** `balanceInwardAction`. */
    method BalanceInward(ed: Editor, tools: Collaborators) returns (ok: bool, ed': Editor)
      modifies this
      ensures ed.syntax != "css" ==>
        var o := HtmlBalance.Step(old(lastMatch), ed.content, ed.selection, In, tools.find, tools.narrow);
        lastMatch == o.last && (ok <==> o.selected.Some?) &&
        ed' == if ok then CreateSelection(ed, o.selected.value) else ed
      ensures ed.syntax == "css" ==>
        var t := CssBalance.CssTarget(ed.content, ed.selection, In, tools.css);
        lastMatch == old(lastMatch) && (ok <==> t.Some?) &&
        ed' == if ok then CreateSelection(ed, t.value) else ed
    {
      DirectionIgnoresCase();
      ok, ed' := Balance(ed, Some("in"), tools);
    }

    /** `balanceOutwardAction`. */
    method BalanceOutward(ed: Editor, tools: Collaborators) returns (ok: bool, ed': Editor)
      modifies this
      ensures ed.syntax != "css" ==>
        var o := HtmlBalance.Step(old(lastMatch), ed.content, ed.selection, Out, tools.find, tools.narrow);
        lastMatch == o.last && (ok <==> o.selected.Some?) &&
        ed' == if ok then CreateSelection(ed, o.selected.value) else ed
      ensures ed.syntax == "css" ==>
        var t := CssBalance.CssTarget(ed.content, ed.selection, Out, tools.css);
        lastMatch == old(lastMatch) && (ok <==> t.Some?) &&
        ed' == if ok then CreateSelection(ed, t.value) else ed
    {
      assert ToLower("out") == "out";
      ok, ed' := Balance(ed, Some("out"), tools);
    }
  }
}
