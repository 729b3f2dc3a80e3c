// The window of Gemini02.js: picker buttons are items of a graphics scene,
// moved by Qt's own dragging in Edit mode and meant to select their node on
// the host in Run mode (as written the press raises); files are opened,
// saved and saved-as through a current file path.

module Gemini02 {
  import opened Wrappers
  import opened Buttons
  import opened Json
  import opened Scene
  import Picker

  /** The colour a new window starts with. */
  const StartColor: Rgba := Rgba(0, 150, 255, 180)

  /** Every item's movable flag set to the mode; nothing else changes. */
  function WithMovable(items: seq<Item>, on: bool): (r: seq<Item>)
    ensures |r| == |items|
    ensures forall k :: 0 <= k < |items| ==> r[k] == items[k].(movable := on)
  {
    seq(|items|, k requires 0 <= k < |items| => items[k].(movable := on))
  }

  /** The toggle loop `for item in self.scene.items(): item.setFlag(ItemIsMovable, checked)`. */
  method SetMovable(items: seq<Item>, on: bool) returns (r: seq<Item>)
    ensures r == WithMovable(items, on)
  {
    r := items;
    var i := 0;
    while i < |r|
      invariant 0 <= i <= |r| == |items|
      invariant forall k :: 0 <= k < i ==> r[k] == items[k].(movable := on)
      invariant forall k :: i <= k < |r| ==> r[k] == items[k]
    {
      r := r[i := r[i].(movable := on)];
      i := i + 1;
    }
  }

  /** The mode toggle changes only the movable flags: ids, colours and selection stay. */
  lemma WithMovableKeeps(items: seq<Item>, next: nat, on: bool)
    requires Ordered(items, next) && ColorsInRange(items)
    ensures Ordered(WithMovable(items, on), next) && ColorsInRange(WithMovable(items, on))
    ensures forall k :: 0 <= k < |items| ==>
              WithMovable(items, on)[k].selected == items[k].selected &&
              WithMovable(items, on)[k].pos == items[k].pos
  {
  }

  /**
   * The widget `view.parent()` answers. The view is created without a
   * parent and then laid out in the window's central widget, so as built
   * it is that plain widget; the picker window is the evidently intended one.
   */
  datatype ViewParent = PickerWindow | PlainWidget

  /**
   * What `PickerButton.mousePressEvent` sends to the host, or `None` when it
   * raises. `is_edit_mode` is looked up on the view's parent; a plain widget
   * has no such method, so the handler raises before either branch, and
   * neither the host select nor Qt's default press happens.
   */
  function PressCommands(parent: ViewParent, editMode: bool, node: string, shift: bool, existing: set<string>)
    : (r: Option<seq<HostCommand>>)
    ensures r.None? <==> parent.PlainWidget?
    ensures r.Some? ==> (r.value != [] <==> !editMode && node in existing)
    ensures r.Some? && r.value != [] ==> r.value == [SelectNodes([node], shift)]
  {
    if parent.PlainWidget? then None
    else if !editMode && node in existing then Some([SelectNodes([node], shift)])
    else Some([])
  }

  /**
   * As built, a Run-mode press on an item whose node exists raises and
   * selects nothing; with the picker window as the view's parent it
   * selects the node.
   */
  lemma RunModePressRaises(node: string, shift: bool, existing: set<string>)
    requires node in existing
    ensures PressCommands(PlainWidget, false, node, shift, existing).None?
    ensures PressCommands(PickerWindow, false, node, shift, existing) == Some([SelectNodes([node], shift)])
  {
  }

  class RigPickerWindow {
    /** The picker items of the scene, in the order they were added. */
    var items: seq<Item>
    /** Identity of the next item created. */
    var nextId: nat
    var editMode: bool
    var currentFilePath: Option<string>
    /** `background_image_path`; absent and `None` read alike. */
    var backgroundImage: Option<string>
    var currentColor: Rgba
    /** The `cmds.select` calls issued, oldest first. */
    var hostLog: seq<HostCommand>

    /** What `view.parent()` answers for this window's view. */
    var viewParent: ViewParent

    predicate Valid()
      reads this
    {
      Ordered(items, nextId) && ColorsInRange(items) && InRange(currentColor) && viewParent == PlainWidget
    }

    /** The window starts empty, in Edit mode, without a file. */
    constructor()
      ensures Valid()
      ensures items == [] && editMode && currentFilePath.None? && backgroundImage.None?
      ensures currentColor == StartColor && hostLog == []
    {
      items := [];
      nextId := 0;
      editMode := true;
      currentFilePath := None;
      backgroundImage := None;
      currentColor := StartColor;
      hostLog := [];
      viewParent := PlainWidget;
    }

    /**
     * `PickerButton.mousePressEvent` as written: the lookup of
     * `is_edit_mode` on the view's parent raises, in either mode, so the
     * press changes nothing.
     */
    method ButtonPress(i: int, shift: bool, existing: set<string>) returns (raised: bool)
      requires Valid() && 0 <= i < |items|
      ensures raised
    {
      var sent := PressCommands(viewParent, editMode, items[i].nodeName, shift, existing);
      raised := sent.None?;
    }

    /**
     * The press as intended, with the picker window as the view's parent:
     * in Run mode the node is selected on the host, added under Shift, if it
     * exists; in Edit mode the press is Qt's own.
     */
    method ButtonPressIntended(i: int, shift: bool, existing: set<string>)
      requires 0 <= i < |items|
      modifies this`hostLog
      ensures PressCommands(PickerWindow, editMode, items[i].nodeName, shift, existing).Some?
      ensures hostLog == old(hostLog) + PressCommands(PickerWindow, editMode, items[i].nodeName, shift, existing).value
      ensures hostLog != old(hostLog) <==> !editMode && items[i].nodeName in existing
    {
      var sent := PressCommands(PickerWindow, editMode, items[i].nodeName, shift, existing);
      hostLog := hostLog + sent.value;
    }

    /** `toggle_edit_mode(checked)`: the mode and every item's movable flag follow `checked`. */
    method ToggleEditMode(checked: bool)
      requires Valid()
      modifies this`editMode, this`items
      ensures Valid()
      ensures editMode == checked && items == WithMovable(old(items), checked)
    {
      WithMovableKeeps(items, nextId, checked);
      editMode := checked;
      items := SetMovable(items, checked);
    }

    /** `choose_color`: a valid chosen colour becomes current, with alpha 180. */
    method ChooseColor(chosen: Option<Rgba>)
      requires Valid() && (chosen.Some? ==> InRange(chosen.value))
      modifies this`currentColor
      ensures Valid()
      ensures currentColor == if chosen.Some? then chosen.value.(a := 180) else old(currentColor)
    {
      if chosen.Some? {
        currentColor := chosen.value.(a := 180);
      }
    }

    /** `set_background_image`: a chosen image path is kept. */
    method SetBackgroundImage(path: Option<string>)
      modifies this`backgroundImage
      ensures backgroundImage == if path.Some? then path else old(backgroundImage)
    {
      if path.Some? {
        backgroundImage := path;
      }
    }

    /**
     * `add_control_button`: with no node selected on the host nothing
     * happens; otherwise one new item per selected node, in selection order.
     */
    method AddControlButton(hostSelection: seq<string>, shape: string, size: int)
      requires Valid()
      modifies this`items, this`nextId
      ensures Valid()
      ensures nextId == old(nextId) + |hostSelection|
      ensures items == old(items) + NewItems(hostSelection, old(nextId), shape, size, currentColor, true)
    {
      NewItemsOrdered(items, nextId, hostSelection, shape, size, currentColor, true);
      var i := 0;
      while i < |hostSelection|
        invariant 0 <= i <= |hostSelection|
        invariant nextId == old(nextId) + i
        invariant items == old(items) + NewItems(hostSelection[..i], old(nextId), shape, size, currentColor, true)
      {
        items := items + [NewItem(nextId, hostSelection[i], shape, size, currentColor, true)];
        nextId := nextId + 1;
        i := i + 1;
      }
      assert hostSelection[..i] == hostSelection;
    }

    /** A selection gesture handled by Qt: `sel` is the identities it chose; only selectable items take it. */
    method SetSelection(sel: set<nat>)
      requires Valid()
      modifies this`items
      ensures Valid()
      ensures items == WithSelection(old(items), sel)
    {
      SelectThenDelete(items, sel, nextId);
      items := WithSelection(items, sel);
    }

    /** `delete_selected_button`: exactly the selected items leave the scene. */
    method DeleteSelectedButton()
      requires Valid()
      modifies this`items
      ensures Valid()
      ensures items == Kept(old(items))
      ensures forall b :: b in items <==> b in old(items) && !b.selected
    {
      KeptOrdered(items, nextId);
      forall b ensures b in Kept(items) <==> b in items && !b.selected {
        KeptMembers(items, b);
      }
      items := RemoveSelectedItems(items);
    }

    /** `new_picker`: an empty scene without file or background. */
    method NewPicker()
      requires Valid()
      modifies this`items, this`currentFilePath, this`backgroundImage
      ensures Valid()
      ensures items == [] && currentFilePath.None? && backgroundImage.None?
    {
      items := [];
      currentFilePath := None;
      backgroundImage := None;
    }

    /**
     * `open_picker`: without a chosen file nothing happens; otherwise the
     * scene is cleared first, so a file that does not parse or raises while
     * being read leaves it empty or partly filled, and only a complete open
     * records the file path.
     */
    method OpenPicker(path: Option<string>, data: Option<Value>, disk: Disk) returns (status: Picker.LoadStatus)
      requires Valid()
      modifies this`items, this`nextId, this`currentFilePath, this`backgroundImage
      ensures Valid()
      ensures path.None? ==> status == Picker.Cancelled && items == old(items) && nextId == old(nextId) &&
                             currentFilePath == old(currentFilePath) && backgroundImage == old(backgroundImage)
      ensures path.Some? && data.None? ==>
                status == Picker.NotParsed && items == [] && currentFilePath.None? && backgroundImage.None?
      ensures path.Some? && data.Some? ==>
                var o := OpenedAsWritten(data.value, disk, old(nextId), true);
                items == o.items && backgroundImage == o.backgroundImage &&
                (o.complete ==> status == Picker.Loaded && currentFilePath == path) &&
                (!o.complete ==> status == Picker.Aborted && currentFilePath.None?)
    {
      if path.None? {
        return Picker.Cancelled;
      }
      NewPicker();
      if data.None? {
        return Picker.NotParsed;
      }
      var o := OpenDocument(data.value, disk, nextId, true);
      items := o.items;
      nextId := nextId + |o.items|;
      backgroundImage := o.backgroundImage;
      if !o.complete {
        return Picker.Aborted;
      }
      currentFilePath := path;
      return Picker.Loaded;
    }

    /** `open_picker` with the background restored through the scene, as evidently intended. */
    method OpenPickerIntended(path: Option<string>, data: Option<Value>, disk: Disk)
      returns (status: Picker.LoadStatus)
      requires Valid()
      modifies this`items, this`nextId, this`currentFilePath, this`backgroundImage
      ensures Valid()
      ensures path.None? ==> status == Picker.Cancelled && items == old(items) && nextId == old(nextId) &&
                             currentFilePath == old(currentFilePath) && backgroundImage == old(backgroundImage)
      ensures path.Some? && data.None? ==>
                status == Picker.NotParsed && items == [] && currentFilePath.None? && backgroundImage.None?
      ensures path.Some? && data.Some? ==>
                var o := OpenedIntended(data.value, disk, old(nextId), true);
                items == o.items && backgroundImage == o.backgroundImage &&
                (o.complete ==> status == Picker.Loaded && currentFilePath == path) &&
                (!o.complete ==> status == Picker.Aborted && currentFilePath.None?)
    {
      if path.None? {
        return Picker.Cancelled;
      }
      NewPicker();
      if data.None? {
        return Picker.NotParsed;
      }
      var o := OpenDocumentIntended(data.value, disk, nextId, true);
      items := o.items;
      nextId := nextId + |o.items|;
      backgroundImage := o.backgroundImage;
      if !o.complete {
        return Picker.Aborted;
      }
      currentFilePath := path;
      return Picker.Loaded;
    }

    /** `save_picker`: to the current file if there is one, otherwise as `save_picker_as`. */
    method SavePicker(dialogPath: Option<string>, order: seq<nat>) returns (written: Option<(string, Value)>)
      requires IsOrder(order, |items|)
      modifies this`currentFilePath
      ensures old(currentFilePath).Some? ==>
                currentFilePath == old(currentFilePath) &&
                written == Some((old(currentFilePath).value, SceneDocument(Permuted(items, order), backgroundImage)))
      ensures old(currentFilePath).None? ==>
                currentFilePath == dialogPath &&
                written == (if dialogPath.Some?
                            then Some((dialogPath.value, SceneDocument(Permuted(items, order), backgroundImage)))
                            else None)
    {
      if currentFilePath.None? {
        written := SavePickerAs(dialogPath, order);
      } else {
        written := SaveToFile(currentFilePath.value, order);
      }
    }

    /** `save_picker_as`: a chosen path becomes the current file and is written. */
    method SavePickerAs(dialogPath: Option<string>, order: seq<nat>) returns (written: Option<(string, Value)>)
      requires IsOrder(order, |items|)
      modifies this`currentFilePath
      ensures currentFilePath == if dialogPath.Some? then dialogPath else old(currentFilePath)
      ensures written == if dialogPath.Some?
                         then Some((dialogPath.value, SceneDocument(Permuted(items, order), backgroundImage)))
                         else None
    {
      if dialogPath.None? {
        return None;
      }
      currentFilePath := dialogPath;
      written := SaveToFile(dialogPath.value, order);
    }

    /** `_save_to_file`: the background path and one dict per item, in scene order. */
    method SaveToFile(path: string, order: seq<nat>) returns (written: Option<(string, Value)>)
      requires IsOrder(order, |items|)
      ensures written == Some((path, SceneDocument(Permuted(items, order), backgroundImage)))
    {
      var listed := Permuted(items, order);
      var dicts := WriteDicts(listed);
      var doc := Obj(map[
        "backgroundImage" := (if backgroundImage.Some? then Str(backgroundImage.value) else Null),
        "buttons" := List(dicts)]);
      return Some((path, doc));
    }
  }

  /**
   * Saving then reopening with the intended open gives back every item, in
   * the scene order of the save, with its node name, shape, size, colour
   * and position (each item of the scene is listed once, by `PermutedCovers`).
   */
  lemma SaveOpenRoundTrip(items: seq<Item>, order: seq<nat>, backgroundImage: Option<string>, disk: Disk,
                          firstId: nat)
    requires ColorsInRange(items) && IsOrder(order, |items|)
    ensures var o := OpenedIntended(SceneDocument(Permuted(items, order), backgroundImage), disk, firstId, true);
            o.complete && |o.items| == |items| &&
            forall k :: 0 <= k < |items| ==> o.items[k] == Reopened(items[order[k]], firstId + k, true)
  {
    var listed := Permuted(items, order);
    assert ColorsInRange(listed);
    OpenSavedIntended(listed, backgroundImage, disk, firstId, true);
  }
}
