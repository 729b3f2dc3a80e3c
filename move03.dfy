// The picker buttons of Move03.js: each button keeps its own snapshot
// (`initial_positions`) of the selected sibling buttons, taken when a press
// leaves it selected and dropped on release.

module Move03 {
  import opened Wrappers
  import opened Names
  import opened Buttons
  import opened Dragging
  import opened Picker

  /** A signal a button emits towards its window. */
  datatype Request = SelectionRequest(id: nat) | TextEditRequest(id: nat)

  /**
   * The buttons under one picker area. The window that answers the
   * selection request is not part of this file; its answer is passed in.
   */
  class PickerArea {
    var buttons: seq<Button>
    /** Identity of the next button created. */
    var nextId: nat
    /** `drag_start_position` of the buttons that have one, by identity. */
    var dragStart: map<nat, Point>
    /** `initial_positions` of the buttons whose snapshot is not empty, by identity. */
    var initialPositions: map<nat, map<nat, Point>>
    /** The `cmds.select` calls issued, oldest first. */
    var hostLog: seq<HostCommand>

    predicate Valid()
      reads this
    {
      WellFormed(buttons, nextId)
    }

    constructor()
      ensures Valid()
      ensures buttons == [] && dragStart == map[] && initialPositions == map[] && hostLog == []
    {
      buttons := [];
      nextId := 0;
      dragStart := map[];
      initialPositions := map[];
      hostLog := [];
    }

    /** A new `PickerButton` under this area: draggable, unselected, no drag state. */
    method AddButton(controller: string, color: string, shape: string, width: int, height: int,
                     customText: string, pos: Point)
      requires Valid()
      modifies this`buttons, this`nextId
      ensures Valid()
      ensures nextId == old(nextId) + 1
      ensures buttons == old(buttons) + [NewButton(old(nextId), controller, color, shape, width, height, customText, pos)]
    {
      var b := NewButton(nextId, controller, color, shape, width, height, customText, pos);
      AppendWellFormed(buttons, b, nextId);
      buttons := buttons + [b];
      nextId := nextId + 1;
    }

    /** `set_custom_text`: stores the label; the caption follows it. */
    method SetCustomText(i: int, text: string)
      requires Valid() && 0 <= i < |buttons|
      modifies this`buttons
      ensures Valid()
      ensures buttons == old(buttons)[i := old(buttons)[i].(customText := text)]
      ensures Caption(buttons[i]) == (if text != "" then text else StrippedName(buttons[i].controller))
    {
      buttons := buttons[i := buttons[i].(customText := text)];
    }

    /**
     * `mousePressEvent` of button `i`. On a draggable button a left press
     * emits the selection request first (`requested` is the list once the
     * window has answered it, differing at most in selection flags), records
     * the drag origin and, if the button is then selected, snapshots every
     * selected button; a right press only emits the text-edit request. In
     * Run mode a left press selects the controller on the host if it exists.
     */
    method ButtonPress(i: int, mouse: MouseButton, shift: bool, pressPos: Point,
                       requested: seq<Button>, existing: set<string>)
      returns (emitted: seq<Request>)
      requires Valid() && 0 <= i < |buttons|
      requires |requested| == |buttons|
      requires forall j :: 0 <= j < |buttons| ==> requested[j] == buttons[j].(selected := requested[j].selected)
      modifies this`buttons, this`dragStart, this`initialPositions, this`hostLog
      ensures Valid()
      ensures var b := old(buttons)[i];
              if b.draggable && mouse == LeftButton then
                emitted == [SelectionRequest(b.id)] && buttons == requested && hostLog == old(hostLog) &&
                dragStart == old(dragStart)[b.id := pressPos] &&
                initialPositions == (if requested[i].selected
                                     then old(initialPositions)[b.id := SelectedPositions(requested)]
                                     else old(initialPositions))
              else
                buttons == old(buttons) && dragStart == old(dragStart) &&
                initialPositions == old(initialPositions) &&
                emitted == (if b.draggable && mouse == RightButton then [TextEditRequest(b.id)] else []) &&
                hostLog == old(hostLog) + (if !b.draggable && mouse == LeftButton && b.controller in existing
                                           then [SelectNodes([b.controller], shift)] else [])
    {
      var b := buttons[i];
      emitted := [];
      if b.draggable {
        if mouse == LeftButton {
          emitted := [SelectionRequest(b.id)];
          SameIdsWellFormed(buttons, requested, nextId);
          buttons := requested;
          dragStart := dragStart[b.id := pressPos];
          if buttons[i].selected {
            var snapshot := RecordSelected(buttons);
            initialPositions := initialPositions[b.id := snapshot];
          }
        } else if mouse == RightButton {
          emitted := [TextEditRequest(b.id)];
        }
      } else if mouse == LeftButton && b.controller in existing {
        hostLog := hostLog + [SelectNodes([b.controller], shift)];
      }
    }

    /**
     * `mouseMoveEvent` of button `i`: past the drag distance, a selected
     * button with a non-empty snapshot moves every snapshotted button to its
     * snapshot position plus the offset; otherwise the button moves alone.
     */
    method ButtonMove(i: int, leftOnly: bool, eventPos: Point, dragDistance: nat)
      requires Valid() && 0 <= i < |buttons|
      modifies this`buttons
      ensures Valid()
      ensures var b := old(buttons)[i];
              if leftOnly && b.id in dragStart && b.draggable &&
                 Manhattan(Minus(eventPos, dragStart[b.id])) >= dragDistance
              then
                var delta := Minus(eventPos, dragStart[b.id]);
                if b.selected && b.id in initialPositions && initialPositions[b.id] != map[]
                then buttons == Shifted(old(buttons), initialPositions[b.id], delta, false)
                else buttons == old(buttons)[i := b.(pos := Translate(b.pos, delta))]
              else buttons == old(buttons)
    {
      var b := buttons[i];
      if leftOnly && b.id in dragStart && b.draggable {
        var delta := Minus(eventPos, dragStart[b.id]);
        if Manhattan(delta) >= dragDistance {
          if b.selected && b.id in initialPositions && initialPositions[b.id] != map[] {
            SameIdsWellFormed(buttons, Shifted(buttons, initialPositions[b.id], delta, false), nextId);
            buttons := MoveSnapshot(buttons, initialPositions[b.id], delta, false);
          } else {
            buttons := buttons[i := b.(pos := Translate(b.pos, delta))];
          }
        }
      }
    }

    /** `mouseReleaseEvent` of button `i`: forgets both its drag origin and its snapshot. */
    method ButtonRelease(i: int)
      requires 0 <= i < |buttons|
      modifies this`dragStart, this`initialPositions
      ensures buttons[i].id !in dragStart && buttons[i].id !in initialPositions
      ensures dragStart == old(dragStart) - {buttons[i].id}
      ensures initialPositions == old(initialPositions) - {buttons[i].id}
    {
      dragStart := dragStart - {buttons[i].id};
      initialPositions := initialPositions - {buttons[i].id};
    }
  }

  /**
   * A press that leaves the button selected snapshots exactly the selected
   * buttons; a move then keeps their pairwise offsets and leaves every
   * unselected button in place.
   */
  lemma PressSnapshotMovesSelection(bs: seq<Button>, next: nat, delta: Point)
    requires WellFormed(bs, next)
    ensures var r := Shifted(bs, SelectedPositions(bs), delta, false);
            (forall j :: 0 <= j < |bs| && !bs[j].selected ==> r[j] == bs[j]) &&
            (forall j :: 0 <= j < |bs| && bs[j].selected ==> r[j].pos == Translate(bs[j].pos, delta))
  {
    SelectedPositionsExact(bs, next);
  }
}
