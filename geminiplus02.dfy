// The picker window of GeminiPlus02.js: a multi-drag with explicit start,
// update and end, a click that keeps the selection when a drag is about to
// start, square buttons with a single `size`.

module GeminiPlus02 {
  import opened Wrappers
  import opened Buttons
  import opened Selection
  import opened Dragging
  import opened Json
  import opened SizedFile
  import Picker

  /**
   * `handle_button_selection` as written: without Shift the selection is
   * cleared unless the clicked button is selected and no drag snapshot
   * exists; then the clicked button is toggled.
   */
  function GuardedClick(bs: seq<Button>, i: int, shift: bool, snapshotEmpty: bool): (r: seq<Button>)
    requires 0 <= i < |bs|
    ensures SameIds(bs, r)
    ensures forall j :: 0 <= j < |bs| ==> r[j] == bs[j].(selected := r[j].selected)
  {
    var aboutToDrag := bs[i].selected && snapshotEmpty;
    var base := if !shift && !aboutToDrag then AllDeselected(bs) else bs;
    base[i := base[i].(selected := !base[i].selected)]
  }

  /**
   * With Shift only the clicked button flips. Without Shift: an unselected
   * button, or any button while a snapshot exists, ends as the only
   * selected one; a selected button with no snapshot is turned off and the
   * rest of the selection kept.
   */
  lemma GuardedClickSelection(bs: seq<Button>, i: int, shift: bool, snapshotEmpty: bool)
    requires 0 <= i < |bs|
    ensures var r := GuardedClick(bs, i, shift, snapshotEmpty);
            (shift ==>
               SelectedIndices(r) == (if bs[i].selected then SelectedIndices(bs) - {i} else SelectedIndices(bs) + {i})) &&
            (!shift && (!bs[i].selected || !snapshotEmpty) ==> SelectedIndices(r) == {i}) &&
            (!shift && bs[i].selected && snapshotEmpty ==> SelectedIndices(r) == SelectedIndices(bs) - {i})
  {
    var r := GuardedClick(bs, i, shift, snapshotEmpty);
    if !shift && (!bs[i].selected || !snapshotEmpty) {
      assert forall j :: j in SelectedIndices(r) <==> j == i;
    }
  }

  /**
   * The evidently intended click: pressing a selected button without Shift,
   * with no drag in progress, keeps the whole selection so that the drag
   * can start; every other click is as written.
   */
  function IntendedClick(bs: seq<Button>, i: int, shift: bool, snapshotEmpty: bool): (r: seq<Button>)
    requires 0 <= i < |bs|
    ensures SameIds(bs, r)
  {
    if !shift && bs[i].selected && snapshotEmpty then bs else GuardedClick(bs, i, shift, snapshotEmpty)
  }

  /**
   * As written, pressing a selected button never leaves it selected, so the
   * press never starts a multi-drag from it: with buttons 0 and 1 selected,
   * a press on 0 without Shift leaves only 1 selected and nothing snapshotted.
   */
  lemma PressOnSelectedNeverDrags(bs: seq<Button>, i: int, shift: bool)
    requires 0 <= i < |bs| && bs[i].selected
    ensures !GuardedClick(bs, i, shift, true)[i].selected
  {
  }

  /** The concrete case: two selected buttons, a press on the first without Shift. */
  lemma PressOnSelectedExample(a: Button, b: Button)
    requires a.selected && b.selected
    ensures var r := GuardedClick([a, b], 0, false, true);
            !r[0].selected && r[1].selected
  {
  }

  /**
   * With the intended click, pressing a selected button without Shift keeps
   * it selected, and the drag snapshot then holds every selected button at
   * its position.
   */
  lemma IntendedPressDragsSelection(bs: seq<Button>, next: nat, i: int)
    requires WellFormed(bs, next) && 0 <= i < |bs| && bs[i].selected
    ensures var r := IntendedClick(bs, i, false, true);
            r[i].selected &&
            forall j :: 0 <= j < |r| && r[j].selected ==>
              r[j].id in SelectedPositions(r) && SelectedPositions(r)[r[j].id] == r[j].pos
    ensures SelectedIndices(IntendedClick(bs, i, false, true)) == SelectedIndices(bs)
  {
    assert IntendedClick(bs, i, false, true) == bs;
    SelectedPositionsExact(bs, next);
  }

  class RigPickerTool {
    var buttons: seq<Button>
    /** Identity of the next button created. */
    var nextId: nat
    var editMode: bool
    var currentColor: string
    var backgroundImage: Option<string>
    /** `drag_initial_positions`: the multi-drag snapshot by button identity. */
    var dragInitial: map<nat, Point>
    /** `drag_start_global_pos` of the buttons that have one, by identity. */
    var dragOrigin: map<nat, Point>
    /** The `cmds.select` calls issued, oldest first. */
    var hostLog: seq<HostCommand>

    predicate Valid()
      reads this
    {
      WellFormed(buttons, nextId) && AllSized(buttons)
    }

    constructor()
      ensures Valid()
      ensures buttons == [] && editMode && dragInitial == map[] && dragOrigin == map[] && hostLog == []
      ensures backgroundImage == None && currentColor == "#009688"
    {
      buttons := [];
      nextId := 0;
      editMode := true;
      currentColor := "#009688";
      backgroundImage := None;
      dragInitial := map[];
      dragOrigin := map[];
      hostLog := [];
    }

    /** `start_multi_drag`: the snapshot becomes the positions of exactly the selected buttons. */
    method StartMultiDrag()
      requires Valid()
      modifies this`dragInitial
      ensures dragInitial == SelectedPositions(buttons)
      ensures forall j :: 0 <= j < |buttons| ==> (buttons[j].id in dragInitial <==> buttons[j].selected)
    {
      SelectedPositionsExact(buttons, nextId);
      dragInitial := RecordSelected(buttons);
    }

    /** `update_multi_drag(delta)`: every snapshotted button goes to its snapshot position plus `delta`. */
    method UpdateMultiDrag(delta: Point)
      requires Valid()
      modifies this`buttons
      ensures Valid()
      ensures buttons == Shifted(old(buttons), dragInitial, delta, false)
    {
      SameIdsWellFormed(buttons, Shifted(buttons, dragInitial, delta, false), nextId);
      buttons := MoveSnapshot(buttons, dragInitial, delta, false);
    }

    /** `end_multi_drag`. */
    method EndMultiDrag()
      modifies this`dragInitial
      ensures dragInitial == map[]
    {
      dragInitial := map[];
    }

    /** `handle_button_selection`, with its guard for a drag about to start. */
    method HandleButtonSelection(i: int, shift: bool)
      requires Valid() && 0 <= i < |buttons|
      modifies this`buttons
      ensures Valid()
      ensures buttons == GuardedClick(old(buttons), i, shift, dragInitial == map[])
    {
      var aboutToDrag := buttons[i].selected && dragInitial == map[];
      if !shift && !aboutToDrag {
        buttons := DeselectAll(buttons);
      }
      buttons := buttons[i := buttons[i].(selected := !buttons[i].selected)];
    }

    /**
     * `PickerButton.mousePressEvent`: a left press on a draggable button is
     * handed to the selection first; only if the button is selected after
     * that does the drag start (origin recorded, snapshot taken). A left
     * press in Run mode selects the controller on the host if it exists.
     */
    method ButtonPress(i: int, left: bool, shift: bool, globalPos: Point, existing: set<string>)
      requires Valid() && 0 <= i < |buttons|
      modifies this`buttons, this`dragInitial, this`dragOrigin, this`hostLog
      ensures Valid()
      ensures var b := old(buttons)[i];
              if left && b.draggable then
                var clicked := GuardedClick(old(buttons), i, shift, old(dragInitial) == map[]);
                buttons == clicked && hostLog == old(hostLog) &&
                if clicked[i].selected
                then dragOrigin == old(dragOrigin)[b.id := globalPos] && dragInitial == SelectedPositions(clicked)
                else dragOrigin == old(dragOrigin) && dragInitial == old(dragInitial)
              else
                buttons == old(buttons) && dragInitial == old(dragInitial) && dragOrigin == old(dragOrigin) &&
                hostLog == old(hostLog) + (if left && b.controller in existing
                                           then [SelectNodes([b.controller], shift)] else [])
    {
      var b := buttons[i];
      if left && b.draggable {
        PressDraggable(i, shift, globalPos);
      } else if left && b.controller in existing {
        hostLog := hostLog + [SelectNodes([b.controller], shift)];
      }
    }

    /** The left press on a draggable button: the selection click, then the drag start if it is selected. */
    method PressDraggable(i: int, shift: bool, globalPos: Point)
      requires Valid() && 0 <= i < |buttons|
      modifies this`buttons, this`dragInitial, this`dragOrigin
      ensures Valid()
      ensures var clicked := GuardedClick(old(buttons), i, shift, old(dragInitial) == map[]);
              buttons == clicked &&
              if clicked[i].selected
              then dragOrigin == old(dragOrigin)[old(buttons)[i].id := globalPos] &&
                   dragInitial == SelectedPositions(clicked)
              else dragOrigin == old(dragOrigin) && dragInitial == old(dragInitial)
    {
      var id := buttons[i].id;
      HandleButtonSelection(i, shift);
      if buttons[i].selected {
        dragOrigin := dragOrigin[id := globalPos];
        StartMultiDrag();
      }
    }

    /**
     * The corrected left press on a draggable button: the intended click,
     * so that a press on a selected button with no drag in progress keeps
     * the selection and snapshots it.
     */
    method PressDraggableIntended(i: int, shift: bool, globalPos: Point)
      requires Valid() && 0 <= i < |buttons|
      modifies this`buttons, this`dragInitial, this`dragOrigin
      ensures Valid()
      ensures var clicked := IntendedClick(old(buttons), i, shift, old(dragInitial) == map[]);
              buttons == clicked &&
              if clicked[i].selected
              then dragOrigin == old(dragOrigin)[old(buttons)[i].id := globalPos] &&
                   dragInitial == SelectedPositions(clicked)
              else dragOrigin == old(dragOrigin) && dragInitial == old(dragInitial)
      ensures !shift && old(buttons)[i].selected && old(dragInitial) == map[] ==>
                buttons == old(buttons) && dragInitial == SelectedPositions(old(buttons)) &&
                dragOrigin == old(dragOrigin)[old(buttons)[i].id := globalPos]
    {
      var id := buttons[i].id;
      if shift || !buttons[i].selected || dragInitial != map[] {
        HandleButtonSelection(i, shift);
      }
      if buttons[i].selected {
        dragOrigin := dragOrigin[id := globalPos];
        StartMultiDrag();
      }
    }

    /** `PickerButton.mouseMoveEvent`: while a drag origin is recorded, forwards the offset from it. */
    method ButtonMove(i: int, globalPos: Point)
      requires Valid() && 0 <= i < |buttons|
      modifies this`buttons
      ensures Valid()
      ensures var b := old(buttons)[i];
              if b.id in dragOrigin && b.draggable
              then buttons == Shifted(old(buttons), dragInitial, Minus(globalPos, dragOrigin[b.id]), false)
              else buttons == old(buttons)
    {
      var b := buttons[i];
      if b.id in dragOrigin && b.draggable {
        UpdateMultiDrag(Minus(globalPos, dragOrigin[b.id]));
      }
    }

    /** `PickerButton.mouseReleaseEvent`: a recorded origin is forgotten and the multi-drag ended. */
    method ButtonRelease(i: int)
      requires 0 <= i < |buttons|
      modifies this`dragOrigin, this`dragInitial
      ensures buttons[i].id in old(dragOrigin) ==>
                dragOrigin == old(dragOrigin) - {buttons[i].id} && dragInitial == map[]
      ensures buttons[i].id !in old(dragOrigin) ==>
                dragOrigin == old(dragOrigin) && dragInitial == old(dragInitial)
    {
      if buttons[i].id in dragOrigin {
        dragOrigin := dragOrigin - {buttons[i].id};
        EndMultiDrag();
      }
    }

    /** `deselect_all_buttons`. */
    method DeselectAllButtons()
      requires Valid()
      modifies this`buttons
      ensures Valid()
      ensures buttons == AllDeselected(old(buttons))
    {
      buttons := DeselectAll(buttons);
    }

    /** `toggle_edit_mode(checked)`: draggable follows the mode; only entering Run mode deselects. */
    method ToggleEditMode(checked: bool)
      requires Valid()
      modifies this`editMode, this`buttons
      ensures Valid()
      ensures editMode == checked
      ensures buttons == if checked then WithDraggable(old(buttons), true)
                         else AllDeselected(WithDraggable(old(buttons), false))
    {
      editMode := checked;
      buttons := SetDraggable(buttons, checked);
      if !checked {
        DeselectAllButtons();
      }
    }

    /** `delete_selected_button`: a confirmed delete keeps exactly the unselected buttons, in order. */
    method DeleteSelectedButton(confirmed: bool)
      requires Valid()
      modifies this`buttons
      ensures Valid()
      ensures if SelectedIndices(old(buttons)) != {} && confirmed then buttons == Unselected(old(buttons))
              else buttons == old(buttons)
    {
      if SelectedIndices(buttons) == {} {
        return;
      }
      if confirmed {
        UnselectedWellFormed(buttons, nextId);
        UnselectedAllSized(buttons);
        buttons := RemoveSelected(buttons);
      }
    }

    /** `select_buttons_in_rect`: Edit mode selects the hits, Run mode sends their controllers to the host. */
    method SelectButtonsInRect(hits: seq<bool>, shift: bool)
      requires Valid() && |hits| == |buttons|
      modifies this`buttons, this`hostLog
      ensures Valid()
      ensures editMode ==> buttons == RectSelected(old(buttons), hits, shift) && hostLog == old(hostLog)
      ensures !editMode ==> (buttons == old(buttons) &&
                var names := HitControllers(old(buttons), hits);
                hostLog == old(hostLog) + (if names != [] then [SelectNodes(names, shift)]
                                           else if !shift then [ClearSelection] else []))
    {
      if editMode {
        buttons := SelectHits(buttons, hits, shift);
      } else {
        var names := CollectHitControllers(buttons, hits);
        if names != [] {
          hostLog := hostLog + [SelectNodes(names, shift)];
        } else if !shift {
          hostLog := hostLog + [ClearSelection];
        }
      }
    }

    /** `add_picker_button`: with a list item, one square button at (10, 10) with the spin-box size. */
    method AddPickerButton(item: Option<string>, shape: string, size: int)
      requires Valid()
      modifies this`buttons, this`nextId
      ensures Valid()
      ensures item.None? ==> buttons == old(buttons) && nextId == old(nextId)
      ensures item.Some? ==>
                nextId == old(nextId) + 1 &&
                buttons == old(buttons) + [SizedButton(old(nextId), item.value, currentColor, shape, size, Point(10, 10))]
    {
      if item.None? {
        return;
      }
      var b := SizedButton(nextId, item.value, currentColor, shape, size, Point(10, 10));
      AppendWellFormed(buttons, b, nextId);
      buttons := buttons + [b];
      nextId := nextId + 1;
    }

    /** `clear_picker`: no buttons, no snapshot, no background image. */
    method ClearPicker()
      requires Valid()
      modifies this`buttons, this`dragInitial, this`backgroundImage
      ensures Valid()
      ensures buttons == [] && dragInitial == map[] && backgroundImage == None
    {
      buttons := [];
      dragInitial := map[];
      backgroundImage := None;
    }

    /** `save_picker`: nothing without a path; otherwise one `size` per button. */
    method SavePicker(path: Option<string>) returns (written: Option<(string, Value)>)
      ensures path.None? ==> written.None?
      ensures path.Some? ==> written == Some((path.value, SizedDocument(buttons, backgroundImage)))
    {
      if path.None? {
        return None;
      }
      var records := EncodeButtons(buttons, EncodeSized);
      var doc := Obj(map[
        "buttons" := List(records),
        "background_image" := (if backgroundImage.Some? then Str(backgroundImage.value) else Null)]);
      return Some((path.value, doc));
    }

    /**
     * `load_picker`: after a parse the picker is cleared, the background
     * path restored if it exists, and the buttons read in file order until a
     * dict raises; a complete load re-applies the current mode.
     */
    method LoadPicker(path: Option<string>, data: Option<Value>, disk: Disk) returns (status: Picker.LoadStatus)
      requires Valid()
      modifies this
      ensures Valid()
      ensures editMode == old(editMode) && hostLog == old(hostLog) && dragOrigin == old(dragOrigin)
      ensures path.None? || data.None? ==>
                status == (if path.None? then Picker.Cancelled else Picker.NotParsed) &&
                buttons == old(buttons) && nextId == old(nextId) && dragInitial == old(dragInitial) &&
                backgroundImage == old(backgroundImage)
      ensures path.Some? && data.Some? ==> dragInitial == map[]
      ensures path.Some? && data.Some? && !data.value.Obj? ==>
                status == Picker.Aborted && buttons == [] && backgroundImage == None
      ensures path.Some? && data.Some? && data.value.Obj? ==>
                var d := data.value.fields;
                var background := SizedBackground(d, disk);
                var read := SizedButtons(d, old(nextId));
                (background.None? || read.None? ==> status == Picker.Aborted && buttons == []) &&
                (background.Some? ==> backgroundImage == background.value) &&
                (background.Some? && read.Some? && !read.value.complete ==>
                   status == Picker.Aborted && buttons == read.value.buttons) &&
                (background.Some? && read.Some? && read.value.complete ==>
                   status == Picker.Loaded &&
                   buttons == (if editMode then WithDraggable(read.value.buttons, true)
                               else AllDeselected(WithDraggable(read.value.buttons, false))))
    {
      if path.None? {
        return Picker.Cancelled;
      }
      if data.None? {
        return Picker.NotParsed;
      }
      ClearPicker();
      if !data.value.Obj? {
        return Picker.Aborted;
      }
      var d := data.value.fields;
      var background := SizedBackground(d, disk);
      if background.None? {
        return Picker.Aborted;
      }
      backgroundImage := background.value;
      var items := Items(GetOr(d, "buttons", List([])));
      if items.None? {
        return Picker.Aborted;
      }
      var bs, complete := ReadButtons(items.value, nextId, DecodeSized);
      SizedButtonsFacts(items.value, nextId);
      buttons := bs;
      nextId := nextId + |bs|;
      if !complete {
        return Picker.Aborted;
      }
      ToggleEditMode(editMode);
      return Picker.Loaded;
    }
  }
}
