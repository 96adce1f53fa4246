/**
 * The matching-pair navigator (`goToMatchingPairAction`): moves the caret
 * from one tag of a pair to the other.  Stateless.
 */
module MatchingPair {
  import opened Wrappers
  import opened Ranges
  import opened Host

  /** A tag pair: the range of the opening tag and, unless the tag is unary, of the closing tag. */
  datatype TagPair = TagPair(open: Range, close: Option<Range>)

  /** The tag matcher's `tag(content, offset)`. */
  type TagFinder = (string, int) -> Option<TagPair>

  /** A caret just before `<` is looked up one character further, inside the tag; any other caret where it is. */
  function LookupOffset(content: string, caret: int): (offset: int)
    ensures offset == caret || offset == caret + 1
    ensures offset == caret + 1 <==> 0 <= caret < |content| && content[caret] == '<'
  {
    if 0 <= caret < |content| && content[caret] == '<' then caret + 1 else caret
  }

  /**
   * Where the caret goes: nowhere without a pair or for a unary tag;
   * otherwise to the start of the other tag of the pair than the one the
   * lookup offset lies in.
   */
  function PairTarget(content: string, caret: int, tag: TagFinder): (t: Option<int>)
    ensures var found := tag(content, LookupOffset(content, caret));
      t.Some? <==> found.Some? && found.value.close.Some?
    ensures var found := tag(content, LookupOffset(content, caret));
      t.Some? ==>
        t.value == (if Inside(found.value.open, LookupOffset(content, caret))
                    then found.value.close.value.start else found.value.open.start)
  {
    var offset := LookupOffset(content, caret);
    match tag(content, offset)
    case None => None
    case Some(pair) =>
      if pair.close.None? then None
      else if Inside(pair.open, offset) then Some(pair.close.value.start)
      else Some(pair.open.start)
  }

  /**
   * For a pair the matcher reports from inside either tag, the navigator
   * takes the caret from the opening tag's `<` to the closing tag's `<` and back.
   */
  lemma JumpsBetweenTags(content: string, tag: TagFinder, pair: TagPair)
    requires pair.close.Some?
    requires 0 <= pair.open.start && pair.open.start + 1 < pair.open.end <= pair.close.value.start < |content|
    requires content[pair.open.start] == '<' && content[pair.close.value.start] == '<'
    requires tag(content, pair.open.start + 1) == Some(pair) && tag(content, pair.close.value.start + 1) == Some(pair)
    ensures PairTarget(content, pair.open.start, tag) == Some(pair.close.value.start)
    ensures PairTarget(content, pair.close.value.start, tag) == Some(pair.open.start)
  {
  }

  /** `goToMatchingPairAction`: on success only the caret moves, to the other tag's start. */
  method GoToMatchingPair(ed: Editor, tag: TagFinder) returns (ok: bool, ed': Editor)
    ensures ok <==> PairTarget(ed.content, ed.caret, tag).Some?
    ensures ok ==> ed' == SetCaretPos(ed, PairTarget(ed.content, ed.caret, tag).value)
    ensures !ok ==> ed' == ed
  {
    var content := ed.content;
    var caretPos := LookupOffset(content, ed.caret);
    var found := tag(content, caretPos);
    if found.Some? && found.value.close.Some? {
      if Inside(found.value.open, caretPos) {
        ed' := SetCaretPos(ed, found.value.close.value.start);
      } else {
        ed' := SetCaretPos(ed, found.value.open.start);
      }
      return true, ed';
    }
    return false, ed;
  }
}
