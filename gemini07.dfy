// The window of Gemini07.js: square buttons without a selection state. A
// click selects the controller on the host in Run mode; a drag moves the
// button in Edit mode; the picker file is the five-key one.

module Gemini07 {
  import opened Wrappers
  import opened Text
  import opened Names
  import opened Buttons
  import opened Selection
  import opened Json
  import opened SizedFile
  import Picker

  /** The caption of a button of this window: the controller name without namespace and suffix tokens; `Con_` is not removed. */
  function Caption07(b: Button): (r: string)
    ensures ':' !in r && |r| <= |b.controller|
  {
    ShortName(b.controller)
  }

  /** No button of the list is selected. */
  predicate NoneSelected(bs: seq<Button>)
  {
    forall j :: 0 <= j < |bs| ==> !bs[j].selected
  }

  class RigPickerTool {
    var buttons: seq<Button>
    /** Identity of the next button created. */
    var nextId: nat
    /** Whether the "Edit Mode" action is checked. */
    var editMode: bool
    var currentColor: string
    /** `background_image_path`, absent until an image is set. */
    var backgroundImage: Option<string>
    /** `drag_start_position` of the buttons that have one, by identity. */
    var dragStart: map<nat, Point>
    /** The `cmds.select` calls issued, oldest first. */
    var hostLog: seq<HostCommand>

    /** Buttons of this window are square, unlabelled and never selected. */
    predicate Valid()
      reads this
    {
      WellFormed(buttons, nextId) && AllSized(buttons) && NoneSelected(buttons)
    }

    constructor()
      ensures Valid()
      ensures buttons == [] && editMode && dragStart == map[] && hostLog == []
      ensures backgroundImage == None && currentColor == "#009688"
    {
      buttons := [];
      nextId := 0;
      editMode := true;
      currentColor := "#009688";
      backgroundImage := None;
      dragStart := map[];
      hostLog := [];
    }

    /** `on_button_clicked`: only a button that is not draggable (Run mode) selects its controller, if it exists. */
    method ButtonClicked(i: int, shift: bool, existing: set<string>)
      requires Valid() && 0 <= i < |buttons|
      modifies this`hostLog
      ensures var b := buttons[i];
              hostLog == old(hostLog) + (if !b.draggable && b.controller in existing
                                         then [SelectNodes([b.controller], shift)] else [])
    {
      var b := buttons[i];
      if !b.draggable && b.controller in existing {
        hostLog := hostLog + [SelectNodes([b.controller], shift)];
      }
    }

    /** `PickerButton.mousePressEvent`: a left press on a draggable button records the drag origin. */
    method ButtonPress(i: int, left: bool, pressPos: Point)
      requires 0 <= i < |buttons|
      modifies this`dragStart
      ensures dragStart == if left && buttons[i].draggable then old(dragStart)[buttons[i].id := pressPos]
                           else old(dragStart)
    {
      if left && buttons[i].draggable {
        dragStart := dragStart[buttons[i].id := pressPos];
      }
    }

    /** `PickerButton.mouseMoveEvent`: past the drag distance the button follows the cursor. */
    method ButtonMove(i: int, leftOnly: bool, eventPos: Point, dragDistance: nat)
      requires Valid() && 0 <= i < |buttons|
      modifies this`buttons
      ensures Valid()
      ensures var b := old(buttons)[i];
              if leftOnly && b.id in dragStart && b.draggable &&
                 Manhattan(Minus(eventPos, dragStart[b.id])) >= dragDistance
              then buttons == old(buttons)[i := b.(pos := Translate(b.pos, Minus(eventPos, dragStart[b.id])))]
              else buttons == old(buttons)
    {
      var b := buttons[i];
      if leftOnly && b.id in dragStart && b.draggable {
        var delta := Minus(eventPos, dragStart[b.id]);
        if Manhattan(delta) >= dragDistance {
          buttons := buttons[i := b.(pos := Translate(b.pos, delta))];
        }
      }
    }

    /** `PickerButton.mouseReleaseEvent`: the drag origin is forgotten. */
    method ButtonRelease(i: int)
      requires 0 <= i < |buttons|
      modifies this`dragStart
      ensures dragStart == old(dragStart) - {buttons[i].id}
    {
      dragStart := dragStart - {buttons[i].id};
    }

    /** `toggle_edit_mode(checked)`: every button's draggable flag follows the mode; nothing else changes. */
    method ToggleEditMode(checked: bool)
      requires Valid()
      modifies this`editMode, this`buttons
      ensures Valid()
      ensures editMode == checked
      ensures buttons == WithDraggable(old(buttons), checked)
    {
      editMode := checked;
      buttons := SetDraggable(buttons, checked);
    }

    /** `add_picker_button`: with a list item, one square button at (10, 10) with the spin-box size. */
    method AddPickerButton(item: Option<string>, shape: string, size: int)
      requires Valid()
      modifies this`buttons, this`nextId
      ensures Valid()
      ensures item.None? ==> buttons == old(buttons) && nextId == old(nextId)
      ensures item.Some? ==>
                nextId == old(nextId) + 1 &&
                buttons == old(buttons) + [SizedButton(old(nextId), item.value, currentColor, shape, size, Point(10, 10))]
    {
      if item.None? {
        return;
      }
      var b := SizedButton(nextId, item.value, currentColor, shape, size, Point(10, 10));
      AppendWellFormed(buttons, b, nextId);
      buttons := buttons + [b];
      nextId := nextId + 1;
    }

    /** `delete_selected_button`: only an information box; no state changes. */
    method DeleteSelectedButton()
      ensures unchanged(this)
    {
    }

    /** `clear_picker`: no buttons and no background image. */
    method ClearPicker()
      requires Valid()
      modifies this`buttons, this`backgroundImage
      ensures Valid()
      ensures buttons == [] && backgroundImage == None
    {
      buttons := [];
      backgroundImage := None;
    }

    /** `save_picker`: nothing without a path; otherwise one `size` per button, in list order. */
    method SavePicker(path: Option<string>) returns (written: Option<(string, Value)>)
      ensures path.None? ==> written.None?
      ensures path.Some? ==> written == Some((path.value, SizedDocument(buttons, backgroundImage)))
    {
      if path.None? {
        return None;
      }
      var records := EncodeButtons(buttons, EncodeSized);
      var doc := Obj(map[
        "buttons" := List(records),
        "background_image" := (if backgroundImage.Some? then Str(backgroundImage.value) else Null)]);
      return Some((path.value, doc));
    }

    /**
     * `load_picker`: a file that does not parse changes nothing; otherwise
     * the picker is cleared, the background path restored if it exists, and
     * the buttons read in file order until a dict raises; a complete load
     * re-applies the current mode.
     */
    method LoadPicker(path: Option<string>, data: Option<Value>, disk: Disk) returns (status: Picker.LoadStatus)
      requires Valid()
      modifies this`buttons, this`nextId, this`backgroundImage, this`editMode
      ensures Valid()
      ensures editMode == old(editMode)
      ensures path.None? || data.None? ==>
                status == (if path.None? then Picker.Cancelled else Picker.NotParsed) &&
                buttons == old(buttons) && nextId == old(nextId) && backgroundImage == old(backgroundImage)
      ensures path.Some? && data.Some? && !data.value.Obj? ==>
                status == Picker.Aborted && buttons == [] && backgroundImage == None
      ensures path.Some? && data.Some? && data.value.Obj? ==>
                var d := data.value.fields;
                var background := SizedBackground(d, disk);
                var read := SizedButtons(d, old(nextId));
                (background.None? || read.None? ==> status == Picker.Aborted && buttons == []) &&
                (background.Some? ==> backgroundImage == background.value) &&
                (background.Some? && read.Some? && !read.value.complete ==>
                   status == Picker.Aborted && buttons == read.value.buttons) &&
                (background.Some? && read.Some? && read.value.complete ==>
                   status == Picker.Loaded && buttons == WithDraggable(read.value.buttons, editMode))
    {
      if path.None? {
        return Picker.Cancelled;
      }
      if data.None? {
        return Picker.NotParsed;
      }
      ClearPicker();
      if !data.value.Obj? {
        return Picker.Aborted;
      }
      var d := data.value.fields;
      var background := SizedBackground(d, disk);
      if background.None? {
        return Picker.Aborted;
      }
      backgroundImage := background.value;
      var items := Items(GetOr(d, "buttons", List([])));
      if items.None? {
        return Picker.Aborted;
      }
      var bs, complete := ReadButtons(items.value, nextId, DecodeSized);
      SizedButtonsFacts(items.value, nextId);
      DecodeRecordsKeeps(items.value, nextId);
      buttons := bs;
      nextId := nextId + |bs|;
      if !complete {
        return Picker.Aborted;
      }
      ToggleEditMode(editMode);
      return Picker.Loaded;
    }
  }

  /** The caption ignores the namespace: for a plain name it is the name with the suffix tokens removed. */
  lemma Caption07IgnoresNamespace(ns: string, name: string)
    requires ':' !in name
    ensures ShortName(name) == StripSuffixTokens(name)
    ensures ShortName(ns + ":" + name) == StripSuffixTokens(name)
  {
    CaptionsIgnoreNamespace(ns, name);
    AfterLastColonNoColon(name);
  }

  /** This caption is the L/R caption before its last step, the removal of `Con_`. */
  lemma Caption07SkipsPrefixRemoval(controller: string)
    ensures ReplaceAll(ShortName(controller), "Con_", "") == StrippedName(controller)
  {
  }

  /** A plain name without the suffix tokens is shown as it is, `Con_` included. */
  lemma Caption07KeepsPlainName(name: string)
    requires ':' !in name
    requires !Contains(name, "_ctrl") && !Contains(name, "_control") && !Contains(name, "_con")
    ensures ShortName(name) == name
  {
    AfterLastColonNoColon(name);
    assert ReplaceAll(name, "_ctrl", "") == name;
    assert ReplaceAll(name, "_control", "") == name;
  }
}
