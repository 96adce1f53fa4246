/**
 * The editor as the balancing actions see it: its text, the current
 * selection, the caret and the document's syntax name.  The host's
 * `createSelection` and `setCaretPos` become record updates.
 */
module Host {
  import opened Ranges

  /** A balancing request after dispatch: `in`, `out`, or any other name. */
  datatype Direction = In | Out | Other

  datatype Editor = Editor(content: string, selection: Range, caret: int, syntax: string)

  function CreateSelection(ed: Editor, r: Range): (ed': Editor)
    ensures ed'.selection == r && ed'.content == ed.content && ed'.caret == ed.caret && ed'.syntax == ed.syntax
  {
    ed.(selection := r)
  }

  function SetCaretPos(ed: Editor, pos: int): (ed': Editor)
    ensures ed'.caret == pos && ed'.content == ed.content && ed'.selection == ed.selection && ed'.syntax == ed.syntax
  {
    ed.(caret := pos)
  }
}
