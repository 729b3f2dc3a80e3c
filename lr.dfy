// The rig picker window with the L/R selectors and the button mirror
// (LR.js; Mirror01.js holds the same mirror routine on its own).

module LR {
  import opened Wrappers
  import opened Text
  import opened Names
  import opened Buttons
  import opened Selection
  import opened Mirroring
  import opened Json
  import opened Picker

  /** What `mirror_selected_button` reports: a warning, a declined question, or the copies made. */
  datatype MirrorOutcome =
    | NothingSelected
    | NothingMirrorable
    | Declined(count: nat, skipped: nat)
    | Mirrored(count: nat, skipped: nat)

  // ---------------------------------------------------------------------------
  // The window

  class RigPickerTool {
    var buttons: seq<Button>
    /** Identity of the next button created. */
    var nextId: nat
    /** The checked state of the Edit Mode action. */
    var editMode: bool
    var currentColor: string
    var backgroundSize: Size
    var backgroundImage: Option<string>
    /** The host selection seen by the previous poll. */
    var lastSelection: seq<string>
    /** `drag_start_position` of the buttons whose press started a drag, by identity. */
    var dragStart: map<nat, Point>
    /** The `cmds.select` calls issued, oldest first. */
    var hostLog: seq<HostCommand>

    predicate Valid()
      reads this
    {
      WellFormed(buttons, nextId)
    }

    /** `__init__`: empty picker in Edit mode, 800 x 600 background. */
    constructor()
      ensures Valid()
      ensures buttons == [] && editMode && lastSelection == [] && hostLog == []
      ensures backgroundSize == DefaultBackground && backgroundImage == None
      ensures currentColor == DefaultColor && dragStart == map[]
    {
      buttons := [];
      nextId := 0;
      editMode := true;
      currentColor := DefaultColor;
      backgroundSize := DefaultBackground;
      backgroundImage := None;
      lastSelection := [];
      dragStart := map[];
      hostLog := [];
    }

    // --- PickerButton -------------------------------------------------------

    /** `set_custom_text`: stores the label; the caption follows it. */
    method SetCustomText(i: int, text: string)
      requires Valid() && 0 <= i < |buttons|
      modifies this`buttons
      ensures Valid()
      ensures buttons == old(buttons)[i := old(buttons)[i].(customText := text)]
      ensures Caption(buttons[i]) == (if text != "" then text else StrippedName(buttons[i].controller))
    {
      buttons := buttons[i := buttons[i].(customText := text)];
    }

    /** `edit_button_text`: an accepted dialog stores the stripped answer. */
    method EditButtonText(i: int, answer: Option<string>)
      requires Valid() && 0 <= i < |buttons|
      modifies this`buttons
      ensures Valid()
      ensures answer.None? ==> buttons == old(buttons)
      ensures answer.Some? ==> buttons == old(buttons)[i := old(buttons)[i].(customText := Strip(answer.value))]
    {
      if answer.Some? {
        SetCustomText(i, Strip(answer.value));
      }
    }

    /**
     * `mousePressEvent` of button `i`. In Edit mode a left press runs the
     * click selection and then records the drag origin, a right press edits
     * the label; in Run mode a left press selects the controller on the host
     * if it exists.
     */
    method ButtonPress(i: int, mouse: MouseButton, shift: bool, pressPos: Point,
                       existing: set<string>, answer: Option<string>)
      requires Valid() && 0 <= i < |buttons|
      modifies this`buttons, this`dragStart, this`hostLog
      ensures Valid()
      ensures var b := old(buttons)[i];
              if b.draggable then
                hostLog == old(hostLog) &&
                (mouse == LeftButton ==>
                  buttons == Clicked(old(buttons), i, shift) && dragStart == old(dragStart)[b.id := pressPos]) &&
                (mouse == RightButton ==>
                  dragStart == old(dragStart) &&
                  buttons == (if answer.Some? then old(buttons)[i := b.(customText := Strip(answer.value))]
                              else old(buttons))) &&
                (mouse == OtherButton ==> buttons == old(buttons) && dragStart == old(dragStart))
              else
                buttons == old(buttons) && dragStart == old(dragStart) &&
                hostLog == old(hostLog) + (if mouse == LeftButton && b.controller in existing
                                           then [SelectNodes([b.controller], shift)] else [])
    {
      var b := buttons[i];
      if b.draggable {
        if mouse == LeftButton {
          HandleButtonSelection(i, shift);
          dragStart := dragStart[b.id := pressPos];
        } else if mouse == RightButton {
          EditButtonText(i, answer);
        }
      } else if mouse == LeftButton && b.controller in existing {
        hostLog := hostLog + [SelectNodes([b.controller], shift)];
      }
    }

    /**
     * `mouseMoveEvent` of button `i`: with only the left button held, a drag
     * origin and the button draggable, once the cursor is `dragDistance`
     * away from the origin the button moves by that offset.
     */
    method ButtonMove(i: int, leftOnly: bool, eventPos: Point, dragDistance: nat)
      requires Valid() && 0 <= i < |buttons|
      modifies this`buttons
      ensures Valid()
      ensures var b := old(buttons)[i];
              if leftOnly && b.id in dragStart && b.draggable &&
                 Manhattan(Minus(eventPos, dragStart[b.id])) >= dragDistance
              then buttons == old(buttons)[i := b.(pos := Translate(b.pos, Minus(eventPos, dragStart[b.id])))]
              else buttons == old(buttons)
    {
      var b := buttons[i];
      if leftOnly && b.id in dragStart && b.draggable {
        var delta := Minus(eventPos, dragStart[b.id]);
        if Manhattan(delta) >= dragDistance {
          buttons := buttons[i := b.(pos := Translate(b.pos, delta))];
        }
      }
    }

    /** `mouseReleaseEvent` of button `i`: forgets its drag origin. */
    method ButtonRelease(i: int)
      requires 0 <= i < |buttons|
      modifies this`dragStart
      ensures dragStart == old(dragStart) - {buttons[i].id}
    {
      dragStart := dragStart - {buttons[i].id};
    }

    // --- Selection ----------------------------------------------------------

    /** `handle_button_selection`. */
    method HandleButtonSelection(i: int, shift: bool)
      requires Valid() && 0 <= i < |buttons|
      modifies this`buttons
      ensures Valid()
      ensures buttons == Clicked(old(buttons), i, shift)
    {
      buttons := ToggleClick(buttons, i, shift);
    }

    /** `deselect_all_buttons`. */
    method DeselectAllButtons()
      requires Valid()
      modifies this`buttons
      ensures Valid()
      ensures buttons == AllDeselected(old(buttons))
    {
      buttons := DeselectAll(buttons);
    }

    /**
     * `select_buttons_in_rect`: `hits[j]` says whether the rubber band meets
     * button `j`. Edit mode selects the hits (adding under Shift); Run mode
     * sends their controllers to the host, or clears the host selection when
     * nothing is hit and Shift is up.
     */
    method SelectButtonsInRect(hits: seq<bool>, shift: bool)
      requires Valid() && |hits| == |buttons|
      modifies this`buttons, this`hostLog
      ensures Valid()
      ensures editMode ==> buttons == RectSelected(old(buttons), hits, shift) && hostLog == old(hostLog)
      ensures !editMode ==> (buttons == old(buttons) &&
                var names := HitControllers(old(buttons), hits);
                hostLog == old(hostLog) + (if names != [] then [SelectNodes(names, shift)]
                                           else if !shift then [ClearSelection] else []))
    {
      if editMode {
        buttons := SelectHits(buttons, hits, shift);
      } else {
        var names := CollectHitControllers(buttons, hits);
        if names != [] {
          hostLog := hostLog + [SelectNodes(names, shift)];
        } else if !shift {
          hostLog := hostLog + [ClearSelection];
        }
      }
    }

    /** `select_l_controllers` (prefix `Con_L_`) and `select_r_controllers` (prefix `Con_R_`). */
    method SelectSideControllers(prefix: string)
      requires prefix == LeftPrefix || prefix == RightPrefix
      modifies this`hostLog
      ensures var names := HitControllers(buttons, PrefixHits(buttons, prefix));
              hostLog == old(hostLog) + [if names != [] then SelectNodes(names, false) else ClearSelection]
    {
      var names := CollectPrefixed(buttons, prefix);
      if names != [] {
        hostLog := hostLog + [SelectNodes(names, false)];
      } else {
        hostLog := hostLog + [ClearSelection];
      }
    }

    /**
     * `check_selection_change`, one poll with the host selection `current`:
     * nothing in Edit mode or when it equals the last one seen; otherwise it
     * is remembered and the buttons are highlighted from it.
     */
    method CheckSelectionChange(current: seq<string>)
      requires Valid()
      modifies this`buttons, this`lastSelection
      ensures Valid()
      ensures editMode || current == old(lastSelection) ==>
                buttons == old(buttons) && lastSelection == old(lastSelection)
      ensures !editMode && current != old(lastSelection) ==>
                buttons == Highlighted(old(buttons), current) && lastSelection == current
    {
      if editMode {
        return;
      }
      if current == lastSelection {
        return;
      }
      lastSelection := current;
      buttons := Highlight(buttons, current);
    }

    /**
     * `toggle_edit_mode(checked)`: every button's draggable flag follows the
     * mode and the selection is cleared; entering Run mode then polls the
     * host selection once, which may highlight buttons again.
     */
    method ToggleEditMode(checked: bool, current: seq<string>)
      requires Valid()
      modifies this`editMode, this`buttons, this`lastSelection
      ensures Valid()
      ensures editMode == checked
      ensures var cleared := AllDeselected(WithDraggable(old(buttons), checked));
              if !checked && current != old(lastSelection) then
                buttons == Highlighted(cleared, current) && lastSelection == current
              else
                buttons == cleared && lastSelection == old(lastSelection)
    {
      editMode := checked;
      buttons := SetDraggable(buttons, checked);
      buttons := DeselectAll(buttons);
      if !checked {
        CheckSelectionChange(current);
      }
    }

    // --- Editing ------------------------------------------------------------

    /**
     * `add_picker_button`: `item` is the first selected controller in the
     * list, if any. A circle is as high as it is wide.
     */
    method AddPickerButton(item: Option<string>, shape: string, width: int, heightSpin: int, text: string)
      requires Valid()
      modifies this`buttons, this`nextId
      ensures Valid()
      ensures item.None? ==> buttons == old(buttons) && nextId == old(nextId)
      ensures item.Some? ==>
                nextId == old(nextId) + 1 &&
                buttons == old(buttons) + [AddedButton(old(nextId), item.value, currentColor, shape, width,
                                                       heightSpin, text)]
    {
      if item.None? {
        return;
      }
      var b := AddedButton(nextId, item.value, currentColor, shape, width, heightSpin, text);
      AppendWellFormed(buttons, b, nextId);
      buttons := buttons + [b];
      nextId := nextId + 1;
    }

    /** `choose_button_color`: a valid pick becomes the colour of later buttons. */
    method ChooseButtonColor(picked: Option<string>)
      modifies this`currentColor
      ensures currentColor == if picked.Some? then picked.value else old(currentColor)
    {
      if picked.Some? {
        currentColor := picked.value;
      }
    }

    /** `delete_selected_button`: a confirmed delete removes exactly the selected buttons. */
    method DeleteSelectedButton(confirmed: bool)
      requires Valid()
      modifies this`buttons
      ensures Valid()
      ensures if SelectedIndices(old(buttons)) != {} && confirmed then buttons == Unselected(old(buttons))
              else buttons == old(buttons)
    {
      if SelectedIndices(buttons) == {} {
        return;
      }
      if confirmed {
        UnselectedWellFormed(buttons, nextId);
        buttons := RemoveSelected(buttons);
      }
    }

    /**
     * `mirror_selected_button`: with something selected, something mirrorable
     * and the user's consent, every flag is cleared and one mirrored button
     * per mirrorable selected button is appended and selected.
     */
    method MirrorSelectedButton(existing: set<string>, confirmed: bool) returns (outcome: MirrorOutcome)
      requires Valid()
      modifies this`buttons, this`nextId
      ensures Valid()
      ensures var plan := MirrorPlan(old(buttons), existing);
              var skipped := CountSkipped(old(buttons), existing);
              if SelectedIndices(old(buttons)) == {} then
                outcome == NothingSelected && buttons == old(buttons) && nextId == old(nextId)
              else if plan == [] then
                outcome == NothingMirrorable && buttons == old(buttons) && nextId == old(nextId)
              else if !confirmed then
                outcome == Declined(|plan|, skipped) && buttons == old(buttons) && nextId == old(nextId)
              else
                outcome == Mirrored(|plan|, skipped) && nextId == old(nextId) + |plan| &&
                buttons == AllDeselected(old(buttons)) +
                           Mirrors(old(buttons), plan, backgroundSize.width, old(nextId))
    {
      if SelectedIndices(buttons) == {} {
        return NothingSelected;
      }
      var plan := PlanMirror(buttons, existing);
      if plan == [] {
        return NothingMirrorable;
      }
      SkipCount(buttons, existing);
      CountSelectedZero(buttons);
      var skipped := CountSkipped(buttons, existing);
      if !confirmed {
        return Declined(|plan|, skipped);
      }
      MirrorsWellFormed(buttons, plan, backgroundSize.width, nextId);
      buttons := AppendMirrors(buttons, plan, backgroundSize.width, nextId);
      nextId := nextId + |plan|;
      outcome := Mirrored(|plan|, skipped);
    }

    // --- Background ---------------------------------------------------------

    /** `set_background_image`: the path is kept; an image that loads sets the picker size. */
    method SetBackgroundImage(path: string, disk: Disk)
      modifies this`backgroundImage, this`backgroundSize
      ensures backgroundImage == Some(path)
      ensures backgroundSize == if path in disk.images then disk.images[path] else old(backgroundSize)
    {
      backgroundImage := Some(path);
      if path in disk.images {
        backgroundSize := disk.images[path];
      }
    }

    /** `clear_background_image`: no image, 800 x 600. */
    method ClearBackgroundImage()
      modifies this`backgroundImage, this`backgroundSize
      ensures backgroundImage == None && backgroundSize == DefaultBackground
    {
      backgroundImage := None;
      backgroundSize := DefaultBackground;
    }

    /** `clear_picker`: no buttons, no background image. */
    method ClearPicker()
      requires Valid()
      modifies this`buttons, this`backgroundImage, this`backgroundSize
      ensures Valid()
      ensures buttons == [] && backgroundImage == None && backgroundSize == DefaultBackground
    {
      buttons := [];
      ClearBackgroundImage();
    }

    // --- Files --------------------------------------------------------------

    /** `save_picker`: nothing without a path; otherwise the document written there. */
    method SavePicker(path: Option<string>) returns (written: Option<(string, Value)>)
      ensures path.None? ==> written.None?
      ensures path.Some? ==> written == Some((path.value, SaveDocument(buttons, backgroundImage, backgroundSize)))
    {
      if path.None? {
        return None;
      }
      var records := EncodeButtons(buttons, EncodeButton);
      var doc := Obj(map[
        "buttons" := List(records),
        "background_image" := (if backgroundImage.Some? then Str(backgroundImage.value) else Null),
        "background_size" := IntPair(backgroundSize.width, backgroundSize.height)]);
      return Some((path.value, doc));
    }

    /**
     * `load_picker`: `data` is what `json.load` returned (`None` if it
     * raised). After a parse the picker is cleared, the background is read,
     * and the buttons are appended in file order; whatever raises stops the
     * load there (`Aborted`), keeping what was done so far. A complete load
     * re-applies the current mode, polling the host selection `current`.
     */
    method LoadPicker(path: Option<string>, data: Option<Value>, disk: Disk, current: seq<string>)
      returns (status: LoadStatus)
      requires Valid()
      modifies this
      ensures Valid()
      ensures editMode == old(editMode) && currentColor == old(currentColor)
      ensures hostLog == old(hostLog) && dragStart == old(dragStart)
      ensures path.None? || data.None? ==>
                status == (if path.None? then Cancelled else NotParsed) &&
                buttons == old(buttons) && nextId == old(nextId) && lastSelection == old(lastSelection) &&
                backgroundImage == old(backgroundImage) && backgroundSize == old(backgroundSize)
      ensures path.Some? && data.Some? && !data.value.Obj? ==>
                status == Aborted && buttons == [] && backgroundImage == None && backgroundSize == DefaultBackground
      ensures path.Some? && data.Some? && data.value.Obj? ==>
                var d := data.value.fields;
                var background := LoadedBackground(d, disk);
                var read := LoadedButtons(d, old(nextId));
                (background.None? || read.None? ==> status == Aborted && buttons == []) &&
                (background.Some? ==> backgroundImage == background.value.0 && backgroundSize == background.value.1) &&
                (background.Some? && read.Some? && !read.value.complete ==>
                   status == Aborted && buttons == read.value.buttons) &&
                (background.Some? && read.Some? && read.value.complete ==>
                   status == Loaded &&
                   var restored := AllDeselected(WithDraggable(read.value.buttons, editMode));
                   buttons == (if !editMode && current != old(lastSelection) then Highlighted(restored, current)
                               else restored))
    {
      if path.None? {
        return Cancelled;
      }
      if data.None? {
        return NotParsed;
      }
      ClearPicker();
      if !data.value.Obj? {
        return Aborted;
      }
      status := LoadDocument(data.value.fields, disk, current);
    }

    /** `load_picker` from the parsed dict `d` on, once the picker is cleared. */
    method LoadDocument(d: map<string, Value>, disk: Disk, current: seq<string>) returns (status: LoadStatus)
      requires Valid() && buttons == [] && backgroundImage == None
      modifies this`buttons, this`nextId, this`backgroundImage, this`backgroundSize, this`lastSelection,
               this`editMode
      ensures Valid() && editMode == old(editMode)
      ensures var background := LoadedBackground(d, disk);
              var read := LoadedButtons(d, old(nextId));
              (background.None? || read.None? ==> status == Aborted && buttons == []) &&
              (background.Some? ==> backgroundImage == background.value.0 && backgroundSize == background.value.1) &&
              (background.Some? && read.Some? && !read.value.complete ==>
                 status == Aborted && buttons == read.value.buttons) &&
              (background.Some? && read.Some? && read.value.complete ==>
                 status == Loaded &&
                 var restored := AllDeselected(WithDraggable(read.value.buttons, editMode));
                 buttons == (if !editMode && current != old(lastSelection) then Highlighted(restored, current)
                             else restored))
    {
      var ok := ReadBackground(d, disk);
      if !ok {
        return Aborted;
      }
      var items := Items(GetOr(d, "buttons", List([])));
      if items.None? {
        return Aborted;
      }
      var complete := AppendRecords(items.value);
      if !complete {
        return Aborted;
      }
      ToggleEditMode(editMode, current);
      return Loaded;
    }

    /** The background part of `load_picker`, on a cleared picker. */
    method ReadBackground(d: map<string, Value>, disk: Disk) returns (ok: bool)
      requires backgroundImage == None
      modifies this`backgroundImage, this`backgroundSize
      ensures ok == LoadedBackground(d, disk).Some?
      ensures ok ==> backgroundImage == LoadedBackground(d, disk).value.0 &&
                     backgroundSize == LoadedBackground(d, disk).value.1
    {
      var size := LoadedSize(d);
      if size.None? {
        return false;
      }
      backgroundSize := size.value;
      var bg := GetOr(d, "background_image", Null);
      if Truthy(bg) {
        if !bg.Str? {
          return false;
        }
        if bg.s in disk.paths {
          SetBackgroundImage(bg.s, disk);
        }
      }
      return true;
    }

    /** The button loop of `load_picker`, on an emptied list. */
    method AppendRecords(items: seq<Value>) returns (complete: bool)
      requires Valid() && buttons == []
      modifies this`buttons, this`nextId
      ensures Valid()
      ensures Decoded(buttons, complete) == DecodeRecords(items, old(nextId), DecodeButton)
    {
      var bs;
      bs, complete := ReadButtons(items, nextId, DecodeButton);
      DecodeRecordsIds(items, nextId, DecodeButton);
      buttons := bs;
      nextId := nextId + |bs|;
    }
  }
}
