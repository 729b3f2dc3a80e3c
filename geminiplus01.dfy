// The window of GeminiPlus01.js: square buttons of one `size`, click and
// rubber-band selection, delete, add, and the five-key picker file. A
// dragged button moves alone. The window of Gemini08.js has the same
// operations, line for line, except the rubber band (and its load reports
// a failure instead of raising, which changes no state); it is modelled by
// this class too.

module GeminiPlus01 {
  import opened Wrappers
  import opened Buttons
  import opened Selection
  import opened Json
  import opened SizedFile
  import Picker

  class RigPickerTool {
    var buttons: seq<Button>
    /** Identity of the next button created. */
    var nextId: nat
    /** Whether the "Edit Mode" action is checked. */
    var editMode: bool
    var currentColor: string
    /** `background_image_path`, absent until an image is set. */
    var backgroundImage: Option<string>
    /** `drag_start_position` of the buttons that have one, by identity. */
    var dragStart: map<nat, Point>
    /** The `cmds.select` calls issued, oldest first. */
    var hostLog: seq<HostCommand>

    predicate Valid()
      reads this
    {
      WellFormed(buttons, nextId) && AllSized(buttons)
    }

    /** The window opens empty, in Edit mode, with the teal default colour. */
    constructor()
      ensures Valid()
      ensures buttons == [] && editMode && dragStart == map[] && hostLog == []
      ensures backgroundImage == None && currentColor == "#009688"
    {
      buttons := [];
      nextId := 0;
      editMode := true;
      currentColor := "#009688";
      backgroundImage := None;
      dragStart := map[];
      hostLog := [];
    }

    /** `handle_button_selection`: the clicked flag is negated; without Shift every other button is cleared. */
    method HandleButtonSelection(i: int, shift: bool)
      requires Valid() && 0 <= i < |buttons|
      modifies this`buttons
      ensures Valid()
      ensures buttons == Clicked(old(buttons), i, shift)
    {
      SameIdsWellFormed(buttons, Clicked(buttons, i, shift), nextId);
      buttons := ToggleClick(buttons, i, shift);
    }

    /**
     * `PickerButton.mousePressEvent`: a left press on a draggable button is
     * handed to the selection and records the drag origin; in Run mode it
     * selects the controller on the host if it exists.
     */
    method ButtonPress(i: int, left: bool, shift: bool, pressPos: Point, existing: set<string>)
      requires Valid() && 0 <= i < |buttons|
      modifies this`buttons, this`dragStart, this`hostLog
      ensures Valid()
      ensures var b := old(buttons)[i];
              if left && b.draggable then
                buttons == Clicked(old(buttons), i, shift) && hostLog == old(hostLog) &&
                dragStart == old(dragStart)[b.id := pressPos]
              else
                buttons == old(buttons) && dragStart == old(dragStart) &&
                hostLog == old(hostLog) + (if left && !b.draggable && b.controller in existing
                                           then [SelectNodes([b.controller], shift)] else [])
    {
      var b := buttons[i];
      if b.draggable {
        if left {
          HandleButtonSelection(i, shift);
          dragStart := dragStart[b.id := pressPos];
        }
      } else if left && b.controller in existing {
        hostLog := hostLog + [SelectNodes([b.controller], shift)];
      }
    }

    /** `PickerButton.mouseMoveEvent`: past the drag distance the button alone follows the cursor. */
    method ButtonMove(i: int, leftOnly: bool, eventPos: Point, dragDistance: nat)
      requires Valid() && 0 <= i < |buttons|
      modifies this`buttons
      ensures Valid()
      ensures var b := old(buttons)[i];
              if leftOnly && b.id in dragStart && b.draggable &&
                 Manhattan(Minus(eventPos, dragStart[b.id])) >= dragDistance
              then buttons == old(buttons)[i := b.(pos := Translate(b.pos, Minus(eventPos, dragStart[b.id])))]
              else buttons == old(buttons)
    {
      var b := buttons[i];
      if leftOnly && b.id in dragStart && b.draggable {
        var delta := Minus(eventPos, dragStart[b.id]);
        if Manhattan(delta) >= dragDistance {
          buttons := buttons[i := b.(pos := Translate(b.pos, delta))];
        }
      }
    }

    /** `PickerButton.mouseReleaseEvent`: the drag origin is forgotten. */
    method ButtonRelease(i: int)
      requires 0 <= i < |buttons|
      modifies this`dragStart
      ensures dragStart == old(dragStart) - {buttons[i].id}
    {
      dragStart := dragStart - {buttons[i].id};
    }

    /** `deselect_all_buttons`: every flag false, nothing else changed. */
    method DeselectAllButtons()
      requires Valid()
      modifies this`buttons
      ensures Valid()
      ensures buttons == AllDeselected(old(buttons))
    {
      buttons := DeselectAll(buttons);
    }

    /** `toggle_edit_mode(checked)`: draggable follows the mode; only entering Run mode deselects. */
    method ToggleEditMode(checked: bool)
      requires Valid()
      modifies this`editMode, this`buttons
      ensures Valid()
      ensures editMode == checked
      ensures buttons == if checked then WithDraggable(old(buttons), true)
                         else AllDeselected(WithDraggable(old(buttons), false))
    {
      editMode := checked;
      buttons := SetDraggable(buttons, checked);
      if !checked {
        DeselectAllButtons();
      }
    }

    /** `delete_selected_button`: a confirmed delete keeps exactly the unselected buttons, in order. */
    method DeleteSelectedButton(confirmed: bool)
      requires Valid()
      modifies this`buttons
      ensures Valid()
      ensures if SelectedIndices(old(buttons)) != {} && confirmed then buttons == Unselected(old(buttons))
              else buttons == old(buttons)
    {
      if SelectedIndices(buttons) == {} {
        return;
      }
      if confirmed {
        UnselectedWellFormed(buttons, nextId);
        UnselectedAllSized(buttons);
        buttons := RemoveSelected(buttons);
      }
    }

    /** `select_buttons_in_rect`: Edit mode selects the hits, Run mode sends their controllers to the host. */
    method SelectButtonsInRect(hits: seq<bool>, shift: bool)
      requires Valid() && |hits| == |buttons|
      modifies this`buttons, this`hostLog
      ensures Valid()
      ensures editMode ==> buttons == RectSelected(old(buttons), hits, shift) && hostLog == old(hostLog)
      ensures !editMode ==> (buttons == old(buttons) &&
                var names := HitControllers(old(buttons), hits);
                hostLog == old(hostLog) + (if names != [] then [SelectNodes(names, shift)]
                                           else if !shift then [ClearSelection] else []))
    {
      if editMode {
        buttons := SelectHits(buttons, hits, shift);
      } else {
        var names := CollectHitControllers(buttons, hits);
        if names != [] {
          hostLog := hostLog + [SelectNodes(names, shift)];
        } else if !shift {
          hostLog := hostLog + [ClearSelection];
        }
      }
    }

    /** `add_picker_button`: with a list item, one square button at (10, 10) with the spin-box size. */
    method AddPickerButton(item: Option<string>, shape: string, size: int)
      requires Valid()
      modifies this`buttons, this`nextId
      ensures Valid()
      ensures item.None? ==> buttons == old(buttons) && nextId == old(nextId)
      ensures item.Some? ==>
                nextId == old(nextId) + 1 &&
                buttons == old(buttons) + [SizedButton(old(nextId), item.value, currentColor, shape, size, Point(10, 10))]
    {
      if item.None? {
        return;
      }
      var b := SizedButton(nextId, item.value, currentColor, shape, size, Point(10, 10));
      AppendWellFormed(buttons, b, nextId);
      buttons := buttons + [b];
      nextId := nextId + 1;
    }

    /** `set_background_image(path)`: the path is stored as given. */
    method SetBackgroundImage(path: string)
      modifies this`backgroundImage
      ensures backgroundImage == Some(path)
    {
      backgroundImage := Some(path);
    }

    /** `clear_picker`: no buttons and no background image. */
    method ClearPicker()
      requires Valid()
      modifies this`buttons, this`backgroundImage
      ensures Valid()
      ensures buttons == [] && backgroundImage == None
    {
      buttons := [];
      backgroundImage := None;
    }

    /** `save_picker`: nothing without a path; otherwise one `size` per button, in list order. */
    method SavePicker(path: Option<string>) returns (written: Option<(string, Value)>)
      ensures path.None? ==> written.None?
      ensures path.Some? ==> written == Some((path.value, SizedDocument(buttons, backgroundImage)))
    {
      if path.None? {
        return None;
      }
      var records := EncodeButtons(buttons, EncodeSized);
      var doc := Obj(map[
        "buttons" := List(records),
        "background_image" := (if backgroundImage.Some? then Str(backgroundImage.value) else Null)]);
      return Some((path.value, doc));
    }

    /**
     * `load_picker`: after a parse the picker is cleared, the background
     * path restored if it exists, and the buttons read in file order until a
     * dict raises; a complete load re-applies the current mode.
     */
    method LoadPicker(path: Option<string>, data: Option<Value>, disk: Disk) returns (status: Picker.LoadStatus)
      requires Valid()
      modifies this`buttons, this`nextId, this`backgroundImage, this`editMode
      ensures Valid()
      ensures editMode == old(editMode)
      ensures path.None? || data.None? ==>
                status == (if path.None? then Picker.Cancelled else Picker.NotParsed) &&
                buttons == old(buttons) && nextId == old(nextId) && backgroundImage == old(backgroundImage)
      ensures path.Some? && data.Some? && !data.value.Obj? ==>
                status == Picker.Aborted && buttons == [] && backgroundImage == None
      ensures path.Some? && data.Some? && data.value.Obj? ==>
                var d := data.value.fields;
                var background := SizedBackground(d, disk);
                var read := SizedButtons(d, old(nextId));
                (background.None? || read.None? ==> status == Picker.Aborted && buttons == []) &&
                (background.Some? ==> backgroundImage == background.value) &&
                (background.Some? && read.Some? && !read.value.complete ==>
                   status == Picker.Aborted && buttons == read.value.buttons) &&
                (background.Some? && read.Some? && read.value.complete ==>
                   status == Picker.Loaded &&
                   buttons == (if editMode then WithDraggable(read.value.buttons, true)
                               else AllDeselected(WithDraggable(read.value.buttons, false))))
    {
      if path.None? {
        return Picker.Cancelled;
      }
      if data.None? {
        return Picker.NotParsed;
      }
      ClearPicker();
      if !data.value.Obj? {
        return Picker.Aborted;
      }
      var d := data.value.fields;
      var background := SizedBackground(d, disk);
      if background.None? {
        return Picker.Aborted;
      }
      backgroundImage := background.value;
      var items := Items(GetOr(d, "buttons", List([])));
      if items.None? {
        return Picker.Aborted;
      }
      var bs, complete := ReadButtons(items.value, nextId, DecodeSized);
      SizedButtonsFacts(items.value, nextId);
      buttons := bs;
      nextId := nextId + |bs|;
      if !complete {
        return Picker.Aborted;
      }
      ToggleEditMode(editMode);
      return Picker.Loaded;
    }
  
    /**
     * The load the error handling of Gemini08.js evidently intends: the
     * file is read into locals first and committed only when every part of
     * it is readable, so a refused file leaves the picker as it was.
     */
    method LoadPickerChecked(path: Option<string>, data: Option<Value>, disk: Disk)
      returns (status: Picker.LoadStatus)
      requires Valid()
      modifies this`buttons, this`nextId, this`backgroundImage, this`editMode
      ensures Valid()
      ensures editMode == old(editMode)
      ensures status == Picker.Loaded <==>
                path.Some? && data.Some? && data.value.Obj? &&
                CheckedLoad(data.value.fields, disk, old(nextId)).Some?
      ensures status != Picker.Loaded ==>
                buttons == old(buttons) && nextId == old(nextId) && backgroundImage == old(backgroundImage)
      ensures status == Picker.Loaded ==>
                var r := CheckedLoad(data.value.fields, disk, old(nextId)).value;
                backgroundImage == r.0 && nextId == old(nextId) + |r.1| &&
                buttons == (if editMode then WithDraggable(r.1, true)
                            else AllDeselected(WithDraggable(r.1, false)))
    {
      if path.None? {
        return Picker.Cancelled;
      }
      if data.None? {
        return Picker.NotParsed;
      }
      if !data.value.Obj? {
        return Picker.Aborted;
      }
      var d := data.value.fields;
      CheckedLoadAgrees(d, disk, nextId);
      var background := SizedBackground(d, disk);
      var items := Items(GetOr(d, "buttons", List([])));
      if background.None? || items.None? {
        return Picker.Aborted;
      }
      var bs, complete := ReadButtons(items.value, nextId, DecodeSized);
      if !complete {
        return Picker.Aborted;
      }
      SizedButtonsFacts(items.value, nextId);
      buttons := bs;
      nextId := nextId + |bs|;
      backgroundImage := background.value;
      ToggleEditMode(editMode);
      return Picker.Loaded;
    }
  }
}
