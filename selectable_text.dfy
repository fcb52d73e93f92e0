// The text-selection state of src/components/selectable_text.rs: a text,
// an optional (anchor, end) pair of positions in it and whether a drag is
// in progress, with the transitions the mouse handlers and the copy action
// make. Hit testing is an input: whether the mouse is over the text, and
// the position the layout reports for it.

module SelectableText {
  import opened Wrappers

  /// The selected part of `text`: nothing for no selection or an empty
  /// one, the text between the two positions in either order, and nothing
  /// when the later position lies beyond the text.
  function SelectedOf(text: string, selection: Option<(nat, nat)>): (r: Option<string>)
    ensures r.Some? <==> selection.Some? && selection.value.0 != selection.value.1
                         && selection.value.0 <= |text| && selection.value.1 <= |text|
    ensures r.Some? ==>
      var (lo, hi) := if selection.value.0 < selection.value.1 then selection.value
                      else (selection.value.1, selection.value.0);
      r.value == text[lo..hi] && |r.value| == hi - lo > 0
  {
    match selection
    case None => None
    case Some((start, end)) =>
      if start == end then None
      else
        var (lo, hi) := if start < end then (start, end) else (end, start);
        if hi <= |text| then Some(text[lo..hi]) else None
  }

  /// Dragging in either direction selects the same text.
  lemma SelectionSymmetric(text: string, a: nat, b: nat)
    ensures SelectedOf(text, Some((a, b))) == SelectedOf(text, Some((b, a)))
  {
  }

  /// A selection that grows inside the text never selects less.
  lemma SelectionGrows(text: string, anchor: nat, end: nat, further: nat)
    requires anchor < end <= further <= |text|
    ensures SelectedOf(text, Some((anchor, end))).Some?
    ensures SelectedOf(text, Some((anchor, further))).Some?
    ensures SelectedOf(text, Some((anchor, end))).value <= SelectedOf(text, Some((anchor, further))).value
  {
  }

  class SelectableTextState {
    var text: string
    var selection: Option<(nat, nat)>
    var selecting: bool

    /// `SelectableTextState::new`.
    constructor (text: string)
      ensures this.text == text && selection.None? && !selecting
    {
      this.text := text;
      selection := None;
      selecting := false;
    }

    /// `selected_text`.
    function SelectedText(): (r: Option<string>)
      reads this
      ensures r == SelectedOf(text, selection)
    {
      SelectedOf(text, selection)
    }

    /// Whether the painted element registers the click-outside handler.
    predicate HasSelection()
      reads this
    {
      selection.Some? && selection.value.0 != selection.value.1
    }

    /// `set_text`: new text, no selection, no drag.
    method SetText(t: string)
      modifies this
      ensures text == t && selection.None? && !selecting
      ensures SelectedText().None?
    {
      text := t;
      selection := None;
      selecting := false;
    }

    /// The copy action: what goes to the clipboard, if anything.
    method Copy() returns (clipboard: Option<string>)
      ensures clipboard == SelectedOf(text, selection)
    {
      clipboard := SelectedText();
    }

    /// Mouse down inside the text during the bubble phase, at the position
    /// the layout found (`None` when the mouse is not over a character):
    /// an empty selection at that position, and a drag starts.
    method MouseDown(hovered: bool, bubble: bool, index: Option<nat>)
      modifies this`selection, this`selecting
      ensures hovered && bubble && index.Some? ==>
                selection == Some((index.value, index.value)) && selecting && SelectedText().None?
      ensures !(hovered && bubble && index.Some?) ==>
                selection == old(selection) && selecting == old(selecting)
    {
      if !hovered || !bubble {
        return;
      }
      if index.Some? {
        selection := Some((index.value, index.value));
        selecting := true;
      }
    }

    /// Mouse move during the bubble phase, at the nearest position: while
    /// dragging, the anchor stays and the end follows the mouse.
    method MouseMove(bubble: bool, index: nat)
      modifies this`selection
      ensures bubble && selecting && old(selection).Some? ==>
                selection == Some((old(selection).value.0, index))
      ensures !(bubble && selecting && old(selection).Some?) ==> selection == old(selection)
    {
      if !bubble {
        return;
      }
      if selecting && selection.Some? {
        selection := Some((selection.value.0, index));
      }
    }

    /// Mouse up during the bubble phase ends the drag; the selection stays.
    method MouseUp(bubble: bool)
      modifies this`selecting
      ensures selecting == (old(selecting) && !bubble)
    {
      if !bubble {
        return;
      }
      if selecting {
        selecting := false;
      }
    }

    /// Mouse down away from the text, with the handler registered only
    /// while there is a non-empty selection: clears it and ends the drag.
    method ClickOutside(hovered: bool)
      modifies this`selection, this`selecting
      ensures old(HasSelection()) && !hovered ==> selection.None? && !selecting && SelectedText().None?
      ensures !(old(HasSelection()) && !hovered) ==>
                selection == old(selection) && selecting == old(selecting)
    {
      if HasSelection() && !hovered {
        selection := None;
        selecting := false;
      }
    }
  }

  /// A press at `a`, a drag to `b` and a release inside the text select
  /// exactly the text between the two, and copy puts it on the clipboard.
  method DragAndCopy(t: string, a: nat, b: nat) returns (clipboard: Option<string>)
    requires a <= |t| && b <= |t|
    ensures a != b ==> clipboard == Some(if a < b then t[a..b] else t[b..a])
    ensures a == b ==> clipboard.None?
  {
    var state := new SelectableTextState(t);
    state.MouseDown(true, true, Some(a));
    state.MouseMove(true, b);
    state.MouseUp(true);
    clipboard := state.Copy();
  }
}
