/** The tool bar: which tool (crop or palette) is selected, and when the
    redo and undo buttons are disabled. */
module BtnGroup {

  /** The selectable tools; `NoTool` is the source's empty selection. */
  datatype SelectedBtn = Crop | Palette | NoTool

  /** Pressing a tool button: the selected tool is deselected, any other
      tool becomes the selection. */
  function PressTool(selected: SelectedBtn, name: SelectedBtn): (r: SelectedBtn)
    ensures selected == name ==> r == NoTool
    ensures selected != name ==> r == name
  {
    if selected == name then NoTool else name
  }

  /** Redo is disabled at the last entry or when there are no entries;
      `length` is the length of the settings list the tool bar is given. */
  function RedoDisabled(counter: int, length: nat): (r: bool)
    ensures length == 0 ==> r
    // for a cursor on an entry: disabled exactly when no entry lies after it
    ensures 0 <= counter < length ==> (r <==> !(counter + 1 < length))
  {
    counter == length - 1 || length == 0
  }

  /** Undo is disabled at the first entry or when there are no entries. */
  function UndoDisabled(counter: int, length: nat): (r: bool)
    ensures length == 0 ==> r
    // for a cursor on an entry: disabled exactly when no entry lies before it
    ensures 0 <= counter < length ==> (r <==> !(0 < counter))
  {
    counter == 0 || length == 0
  }

  /** Pressing the same tool twice from an empty selection selects it and
      then deselects it again. */
  lemma PressTwiceDeselects(name: SelectedBtn)
    requires name != NoTool
    ensures PressTool(NoTool, name) == name
    ensures PressTool(PressTool(NoTool, name), name) == NoTool
  {
  }

  /** Whatever is selected, pressing the same tool twice ends either on that
      tool or on no selection, and the two presses always differ. */
  lemma PressTwiceToggles(selected: SelectedBtn, name: SelectedBtn)
    requires name != NoTool
    ensures PressTool(selected, name) != PressTool(PressTool(selected, name), name)
    ensures PressTool(PressTool(selected, name), name) in {name, NoTool}
  {
  }
}
