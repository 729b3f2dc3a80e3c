// The picker window of Move01.js: selected buttons are dragged together
// through `group_drag_positions`, a dictionary of positions recorded at the
// first move of a drag and cleared whenever the selection changes.

module Move01 {
  import opened Wrappers
  import opened Text
  import opened Buttons
  import opened Selection
  import opened Dragging
  import opened Json
  import opened Picker

  class RigPickerTool {
    var buttons: seq<Button>
    /** Identity of the next button created. */
    var nextId: nat
    /** The checked state of the Edit Mode action. */
    var editMode: bool
    var backgroundSize: Size
    var backgroundImage: Option<string>
    /** `group_drag_positions`: recorded positions by button identity. */
    var groupDrag: map<nat, Point>
    /** `drag_start_position` of the buttons that have one, by identity. */
    var dragStart: map<nat, Point>
    /** The `cmds.select` calls issued, oldest first. */
    var hostLog: seq<HostCommand>

    predicate Valid()
      reads this
    {
      WellFormed(buttons, nextId)
    }

    /** `__init__`: empty picker in Edit mode, 800 x 600 background, no recorded positions. */
    constructor()
      ensures Valid()
      ensures buttons == [] && editMode && groupDrag == map[] && dragStart == map[] && hostLog == []
      ensures backgroundSize == DefaultBackground && backgroundImage == None
    {
      buttons := [];
      nextId := 0;
      editMode := true;
      backgroundSize := DefaultBackground;
      backgroundImage := None;
      groupDrag := map[];
      dragStart := map[];
      hostLog := [];
    }

    /**
     * `move_selected_buttons(offset)`: the first call of a drag (nothing
     * recorded) records the positions of the selected buttons; every call
     * moves each selected, recorded button to its recorded position plus
     * `offset`.
     */
    method MoveSelectedButtons(offset: Point)
      requires Valid()
      modifies this`buttons, this`groupDrag
      ensures Valid()
      ensures groupDrag == if old(groupDrag) == map[] then SelectedPositions(old(buttons)) else old(groupDrag)
      ensures buttons == Shifted(old(buttons), groupDrag, offset, true)
    {
      if groupDrag == map[] {
        groupDrag := RecordSelected(buttons);
      }
      SameIdsWellFormed(buttons, Shifted(buttons, groupDrag, offset, true), nextId);
      buttons := MoveSnapshot(buttons, groupDrag, offset, true);
    }

    /**
     * `handle_button_selection` (the click toggle, with Shift keeping the
     * other flags), which also forgets the recorded positions.
     */
    method HandleButtonSelection(i: int, shift: bool)
      requires Valid() && 0 <= i < |buttons|
      modifies this`buttons, this`groupDrag
      ensures Valid()
      ensures buttons == Clicked(old(buttons), i, shift) && groupDrag == map[]
    {
      buttons := ToggleClick(buttons, i, shift);
      groupDrag := map[];
    }

    /** `deselect_all_buttons`, which also forgets the recorded positions. */
    method DeselectAllButtons()
      requires Valid()
      modifies this`buttons, this`groupDrag
      ensures Valid()
      ensures buttons == AllDeselected(old(buttons)) && groupDrag == map[]
    {
      buttons := DeselectAll(buttons);
      groupDrag := map[];
    }

    /** `delete_selected_button`: a confirmed delete keeps the unselected buttons and forgets the recorded positions. */
    method DeleteSelectedButton(confirmed: bool)
      requires Valid()
      modifies this`buttons, this`groupDrag
      ensures Valid()
      ensures if SelectedIndices(old(buttons)) != {} && confirmed
              then buttons == Unselected(old(buttons)) && groupDrag == map[]
              else buttons == old(buttons) && groupDrag == old(groupDrag)
    {
      if SelectedIndices(buttons) == {} {
        return;
      }
      if confirmed {
        UnselectedWellFormed(buttons, nextId);
        buttons := RemoveSelected(buttons);
        groupDrag := map[];
      }
    }

    /**
     * `select_buttons_in_rect`: in Edit mode the hits are selected (added to
     * the selection under Shift) and the recorded positions forgotten; in
     * Run mode the hit controllers go to the host.
     */
    method SelectButtonsInRect(hits: seq<bool>, shift: bool)
      requires Valid() && |hits| == |buttons|
      modifies this`buttons, this`groupDrag, this`hostLog
      ensures Valid()
      ensures editMode ==>
                buttons == RectSelected(old(buttons), hits, shift) && groupDrag == map[] && hostLog == old(hostLog)
      ensures !editMode ==> (buttons == old(buttons) && groupDrag == old(groupDrag) &&
                var names := HitControllers(old(buttons), hits);
                hostLog == old(hostLog) + (if names != [] then [SelectNodes(names, shift)]
                                           else if !shift then [ClearSelection] else []))
    {
      if editMode {
        buttons := SelectHits(buttons, hits, shift);
        groupDrag := map[];
      } else {
        var names := CollectHitControllers(buttons, hits);
        if names != [] {
          hostLog := hostLog + [SelectNodes(names, shift)];
        } else if !shift {
          hostLog := hostLog + [ClearSelection];
        }
      }
    }

    /**
     * `toggle_edit_mode(checked)`: draggable follows the mode; only entering
     * Run mode deselects (and forgets the recorded positions).
     */
    method ToggleEditMode(checked: bool)
      requires Valid()
      modifies this`editMode, this`buttons, this`groupDrag
      ensures Valid()
      ensures editMode == checked
      ensures checked ==> buttons == WithDraggable(old(buttons), true) && groupDrag == old(groupDrag)
      ensures !checked ==> buttons == AllDeselected(WithDraggable(old(buttons), false)) && groupDrag == map[]
    {
      editMode := checked;
      buttons := SetDraggable(buttons, checked);
      if !checked {
        DeselectAllButtons();
      }
    }

    /**
     * `PickerButton.mousePressEvent` of button `i`: in Edit mode a left
     * press runs the click selection and records the drag origin, a right
     * press edits the label; in Run mode a left press selects the controller
     * on the host if it exists.
     */
    method ButtonPress(i: int, mouse: MouseButton, shift: bool, pressPos: Point,
                       existing: set<string>, answer: Option<string>)
      requires Valid() && 0 <= i < |buttons|
      modifies this`buttons, this`groupDrag, this`dragStart, this`hostLog
      ensures Valid()
      ensures var b := old(buttons)[i];
              if b.draggable then
                hostLog == old(hostLog) &&
                (mouse == LeftButton ==>
                  buttons == Clicked(old(buttons), i, shift) && groupDrag == map[] &&
                  dragStart == old(dragStart)[b.id := pressPos]) &&
                (mouse == RightButton ==>
                  groupDrag == old(groupDrag) && dragStart == old(dragStart) &&
                  buttons == (if answer.Some? then old(buttons)[i := b.(customText := Strip(answer.value))]
                              else old(buttons))) &&
                (mouse == OtherButton ==>
                  buttons == old(buttons) && groupDrag == old(groupDrag) && dragStart == old(dragStart))
              else
                buttons == old(buttons) && groupDrag == old(groupDrag) && dragStart == old(dragStart) &&
                hostLog == old(hostLog) + (if mouse == LeftButton && b.controller in existing
                                           then [SelectNodes([b.controller], shift)] else [])
    {
      var b := buttons[i];
      if b.draggable {
        if mouse == LeftButton {
          HandleButtonSelection(i, shift);
          dragStart := dragStart[b.id := pressPos];
        } else if mouse == RightButton && answer.Some? {
          buttons := buttons[i := b.(customText := Strip(answer.value))];
        }
      } else if mouse == LeftButton && b.controller in existing {
        hostLog := hostLog + [SelectNodes([b.controller], shift)];
      }
    }

    /**
     * `PickerButton.mouseMoveEvent` of button `i`: past the drag distance, a
     * selected button drags every selected button through
     * `move_selected_buttons`, an unselected one moves alone.
     */
    method ButtonMove(i: int, leftOnly: bool, eventPos: Point, dragDistance: nat)
      requires Valid() && 0 <= i < |buttons|
      modifies this`buttons, this`groupDrag
      ensures Valid()
      ensures var b := old(buttons)[i];
              if leftOnly && b.id in dragStart && b.draggable &&
                 Manhattan(Minus(eventPos, dragStart[b.id])) >= dragDistance
              then
                var offset := Minus(eventPos, dragStart[b.id]);
                if b.selected then
                  groupDrag == (if old(groupDrag) == map[] then SelectedPositions(old(buttons)) else old(groupDrag)) &&
                  buttons == Shifted(old(buttons), groupDrag, offset, true)
                else
                  groupDrag == old(groupDrag) && buttons == old(buttons)[i := b.(pos := Translate(b.pos, offset))]
              else buttons == old(buttons) && groupDrag == old(groupDrag)
    {
      var b := buttons[i];
      if leftOnly && b.id in dragStart && b.draggable {
        var offset := Minus(eventPos, dragStart[b.id]);
        if Manhattan(offset) >= dragDistance {
          if b.selected {
            MoveSelectedButtons(offset);
          } else {
            buttons := buttons[i := b.(pos := Translate(b.pos, offset))];
          }
        }
      }
    }

    /** `PickerButton.mouseReleaseEvent`: forgets the drag origin and keeps the recorded positions. */
    method ButtonRelease(i: int)
      requires 0 <= i < |buttons|
      modifies this`dragStart
      ensures dragStart == old(dragStart) - {buttons[i].id}
      ensures groupDrag == old(groupDrag)
    {
      dragStart := dragStart - {buttons[i].id};
    }

    /** `clear_picker`: no buttons, no background image, no recorded positions. */
    method ClearPicker()
      requires Valid()
      modifies this`buttons, this`backgroundImage, this`backgroundSize, this`groupDrag
      ensures Valid()
      ensures buttons == [] && groupDrag == map[]
      ensures backgroundImage == None && backgroundSize == DefaultBackground
    {
      buttons := [];
      backgroundImage := None;
      backgroundSize := DefaultBackground;
      groupDrag := map[];
    }

    /** `save_picker`: nothing without a path; otherwise the document written there. */
    method SavePicker(path: Option<string>) returns (written: Option<(string, Value)>)
      ensures path.None? ==> written.None?
      ensures path.Some? ==> written == Some((path.value, SaveDocument(buttons, backgroundImage, backgroundSize)))
    {
      if path.None? {
        return None;
      }
      var records := EncodeButtons(buttons, EncodeButton);
      var doc := Obj(map[
        "buttons" := List(records),
        "background_image" := (if backgroundImage.Some? then Str(backgroundImage.value) else Null),
        "background_size" := IntPair(backgroundSize.width, backgroundSize.height)]);
      return Some((path.value, doc));
    }

    /**
     * `load_picker`: as in the L/R window, the picker is cleared once the
     * file parses, and the first dict that raises stops the load with the
     * buttons read so far; a complete load re-applies the current mode.
     */
    method LoadPicker(path: Option<string>, data: Option<Value>, disk: Disk)
      returns (status: LoadStatus)
      requires Valid()
      modifies this
      ensures Valid()
      ensures editMode == old(editMode) && hostLog == old(hostLog) && dragStart == old(dragStart)
      ensures path.None? || data.None? ==>
                status == (if path.None? then Cancelled else NotParsed) &&
                buttons == old(buttons) && nextId == old(nextId) && groupDrag == old(groupDrag) &&
                backgroundImage == old(backgroundImage) && backgroundSize == old(backgroundSize)
      ensures path.Some? && data.Some? ==> groupDrag == map[]
      ensures path.Some? && data.Some? && !data.value.Obj? ==>
                status == Aborted && buttons == [] && backgroundImage == None && backgroundSize == DefaultBackground
      ensures path.Some? && data.Some? && data.value.Obj? ==>
                var d := data.value.fields;
                var background := LoadedBackground(d, disk);
                var read := LoadedButtons(d, old(nextId));
                (background.None? || read.None? ==> status == Aborted && buttons == []) &&
                (background.Some? ==> backgroundImage == background.value.0 && backgroundSize == background.value.1) &&
                (background.Some? && read.Some? && !read.value.complete ==>
                   status == Aborted && buttons == read.value.buttons) &&
                (background.Some? && read.Some? && read.value.complete ==>
                   status == Loaded &&
                   buttons == (if editMode then WithDraggable(read.value.buttons, true)
                               else AllDeselected(WithDraggable(read.value.buttons, false))))
    {
      if path.None? {
        return Cancelled;
      }
      if data.None? {
        return NotParsed;
      }
      ClearPicker();
      if !data.value.Obj? {
        return Aborted;
      }
      status := LoadDocument(data.value.fields, disk);
    }

    /** `load_picker` from the parsed dict `d` on, once the picker is cleared. */
    method LoadDocument(d: map<string, Value>, disk: Disk) returns (status: LoadStatus)
      requires Valid() && buttons == [] && backgroundImage == None && groupDrag == map[]
      modifies this`buttons, this`nextId, this`backgroundImage, this`backgroundSize, this`editMode, this`groupDrag
      ensures Valid() && editMode == old(editMode) && groupDrag == map[]
      ensures var background := LoadedBackground(d, disk);
              var read := LoadedButtons(d, old(nextId));
              (background.None? || read.None? ==> status == Aborted && buttons == []) &&
              (background.Some? ==> backgroundImage == background.value.0 && backgroundSize == background.value.1) &&
              (background.Some? && read.Some? && !read.value.complete ==>
                 status == Aborted && buttons == read.value.buttons) &&
              (background.Some? && read.Some? && read.value.complete ==>
                 status == Loaded &&
                 buttons == (if editMode then WithDraggable(read.value.buttons, true)
                             else AllDeselected(WithDraggable(read.value.buttons, false))))
    {
      var size := LoadedSize(d);
      if size.None? {
        return Aborted;
      }
      backgroundSize := size.value;
      var bg := GetOr(d, "background_image", Null);
      if Truthy(bg) {
        if !bg.Str? {
          return Aborted;
        }
        if bg.s in disk.paths {
          backgroundImage := Some(bg.s);
          if bg.s in disk.images {
            backgroundSize := disk.images[bg.s];
          }
        }
      }
      var items := Items(GetOr(d, "buttons", List([])));
      if items.None? {
        return Aborted;
      }
      var bs, complete := ReadButtons(items.value, nextId, DecodeButton);
      DecodeRecordsIds(items.value, nextId, DecodeButton);
      buttons := bs;
      nextId := nextId + |bs|;
      if !complete {
        return Aborted;
      }
      ToggleEditMode(editMode);
      return Loaded;
    }
  }

  /**
   * Every press on a draggable button empties the recorded positions, so a
   * group drag always records afresh: the first move after a left press
   * records exactly the buttons selected at that moment.
   */
  lemma FreshRecordMovesSelection(bs: seq<Button>, next: nat, offset: Point)
    requires WellFormed(bs, next)
    ensures var recorded := SelectedPositions(bs);
            (forall j :: 0 <= j < |bs| ==> (bs[j].id in recorded <==> bs[j].selected)) &&
            Shifted(bs, recorded, offset, true) == Shifted(bs, recorded, offset, false)
  {
    SelectedPositionsExact(bs, next);
  }
}
