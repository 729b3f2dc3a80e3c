// The window of Gemini06.js: picker buttons are push buttons embedded in a
// graphics scene through proxies, each knowing whether the window is in Edit
// mode; a click in Run mode selects the node on the host. Files are handled
// as in Gemini02.js.

module Gemini06 {
  import opened Wrappers
  import opened Buttons
  import opened Json
  import opened Scene
  import Picker

  /** The colour a new window starts with. */
  const StartColor: Rgba := Rgba(0, 150, 255, 180)

  /**
   * Every item's movable and selectable flags and its `is_in_edit_mode`
   * follow the mode; Qt drops the selection of an item that stops being
   * selectable, so leaving Edit mode deselects everything.
   */
  function WithEditMode(items: seq<Item>, on: bool): (r: seq<Item>)
    ensures |r| == |items|
    ensures forall k :: 0 <= k < |items| ==>
              r[k] == items[k].(movable := on, selectable := on, inEditMode := on,
                                selected := items[k].selected && on)
  {
    seq(|items|, k requires 0 <= k < |items| =>
      items[k].(movable := on, selectable := on, inEditMode := on, selected := items[k].selected && on))
  }

  /** The toggle loop over `self.scene.items()`. */
  method SetEditMode(items: seq<Item>, on: bool) returns (r: seq<Item>)
    ensures r == WithEditMode(items, on)
  {
    r := items;
    var i := 0;
    while i < |r|
      invariant 0 <= i <= |r| == |items|
      invariant forall k :: 0 <= k < i ==> r[k] == WithEditMode(items, on)[k]
      invariant forall k :: i <= k < |r| ==> r[k] == items[k]
    {
      r := r[i := r[i].(movable := on, selectable := on, inEditMode := on, selected := r[i].selected && on)];
      i := i + 1;
    }
  }

  /**
   * The mode toggle keeps ids, colours and positions; leaving Edit mode
   * leaves nothing selected and entering it keeps the selection.
   */
  lemma WithEditModeKeeps(items: seq<Item>, next: nat, on: bool)
    requires Ordered(items, next) && ColorsInRange(items)
    ensures Ordered(WithEditMode(items, on), next) && ColorsInRange(WithEditMode(items, on))
    ensures forall k :: 0 <= k < |items| ==>
              WithEditMode(items, on)[k].pos == items[k].pos &&
              WithEditMode(items, on)[k].selected == (on && items[k].selected)
  {
  }

  class RigPickerWindow {
    /** The picker items of the scene, in the order they were added. */
    var items: seq<Item>
    /** Identity of the next item created. */
    var nextId: nat
    var editMode: bool
    var currentFilePath: Option<string>
    /** `background_image_path`; absent and `None` read alike. */
    var backgroundImage: Option<string>
    var currentColor: Rgba
    /** The `cmds.select` calls issued, oldest first. */
    var hostLog: seq<HostCommand>

    predicate Valid()
      reads this
    {
      Ordered(items, nextId) && ColorsInRange(items) && InRange(currentColor)
    }

    /** The window starts empty, in Edit mode, without a file. */
    constructor()
      ensures Valid()
      ensures items == [] && editMode && currentFilePath.None? && backgroundImage.None?
      ensures currentColor == StartColor && hostLog == []
    {
      items := [];
      nextId := 0;
      editMode := true;
      currentFilePath := None;
      backgroundImage := None;
      currentColor := StartColor;
      hostLog := [];
    }

    /**
     * `PickerProxyButton.on_button_clicked`: only an item not in Edit mode
     * selects its node on the host, added under Shift, if it exists.
     */
    method ButtonClicked(i: int, shift: bool, existing: set<string>)
      requires 0 <= i < |items|
      modifies this`hostLog
      ensures hostLog == old(hostLog) + (if !items[i].inEditMode && items[i].nodeName in existing
                                         then [SelectNodes([items[i].nodeName], shift)] else [])
    {
      if !items[i].inEditMode && items[i].nodeName in existing {
        hostLog := hostLog + [SelectNodes([items[i].nodeName], shift)];
      }
    }

    /** `toggle_edit_mode(checked)`: the mode, every item's flags and its `is_in_edit_mode` follow `checked`. */
    method ToggleEditMode(checked: bool)
      requires Valid()
      modifies this`editMode, this`items
      ensures Valid()
      ensures editMode == checked && items == WithEditMode(old(items), checked)
    {
      WithEditModeKeeps(items, nextId, checked);
      editMode := checked;
      items := SetEditMode(items, checked);
    }

    /** `choose_color`: a valid chosen colour becomes current as chosen. */
    method ChooseColor(chosen: Option<Rgba>)
      requires Valid() && (chosen.Some? ==> InRange(chosen.value))
      modifies this`currentColor
      ensures Valid()
      ensures currentColor == if chosen.Some? then chosen.value else old(currentColor)
    {
      if chosen.Some? {
        currentColor := chosen.value;
      }
    }

    /** `set_background_image`: a chosen image path is kept. */
    method SetBackgroundImage(path: Option<string>)
      modifies this`backgroundImage
      ensures backgroundImage == if path.Some? then path else old(backgroundImage)
    {
      if path.Some? {
        backgroundImage := path;
      }
    }

    /**
     * `add_control_button`: with no node selected on the host nothing
     * happens; otherwise one new item per selected node, in selection order,
     * each in the window's current mode.
     */
    method AddControlButton(hostSelection: seq<string>, shape: string, size: int)
      requires Valid()
      modifies this`items, this`nextId
      ensures Valid()
      ensures nextId == old(nextId) + |hostSelection|
      ensures items == old(items) + NewItems(hostSelection, old(nextId), shape, size, currentColor, editMode)
    {
      NewItemsOrdered(items, nextId, hostSelection, shape, size, currentColor, editMode);
      var i := 0;
      while i < |hostSelection|
        invariant 0 <= i <= |hostSelection|
        invariant nextId == old(nextId) + i
        invariant items == old(items) + NewItems(hostSelection[..i], old(nextId), shape, size, currentColor, editMode)
      {
        items := items + [NewItem(nextId, hostSelection[i], shape, size, currentColor, editMode)];
        nextId := nextId + 1;
        i := i + 1;
      }
      assert hostSelection[..i] == hostSelection;
    }

    /** A selection gesture handled by Qt: `sel` is the identities it chose; only selectable items take it. */
    method SetSelection(sel: set<nat>)
      requires Valid()
      modifies this`items
      ensures Valid()
      ensures items == WithSelection(old(items), sel)
    {
      SelectThenDelete(items, sel, nextId);
      items := WithSelection(items, sel);
    }

    /** `delete_selected_button`: exactly the selected items leave the scene. */
    method DeleteSelectedButton()
      requires Valid()
      modifies this`items
      ensures Valid()
      ensures items == Kept(old(items))
      ensures forall b :: b in items <==> b in old(items) && !b.selected
    {
      KeptOrdered(items, nextId);
      forall b ensures b in Kept(items) <==> b in items && !b.selected {
        KeptMembers(items, b);
      }
      items := RemoveSelectedItems(items);
    }

    /** `new_picker`: an empty scene without file or background. */
    method NewPicker()
      requires Valid()
      modifies this`items, this`currentFilePath, this`backgroundImage
      ensures Valid()
      ensures items == [] && currentFilePath.None? && backgroundImage.None?
    {
      items := [];
      currentFilePath := None;
      backgroundImage := None;
    }

    /**
     * `open_picker`: without a chosen file nothing happens; otherwise the
     * scene is cleared first, every item read takes the window's mode, so a file that does not parse or raises while
     * being read leaves it empty or partly filled, and only a complete open
     * records the file path.
     */
    method OpenPicker(path: Option<string>, data: Option<Value>, disk: Disk) returns (status: Picker.LoadStatus)
      requires Valid()
      modifies this`items, this`nextId, this`currentFilePath, this`backgroundImage
      ensures Valid()
      ensures path.None? ==> status == Picker.Cancelled && items == old(items) && nextId == old(nextId) &&
                             currentFilePath == old(currentFilePath) && backgroundImage == old(backgroundImage)
      ensures path.Some? && data.None? ==>
                status == Picker.NotParsed && items == [] && currentFilePath.None? && backgroundImage.None?
      ensures path.Some? && data.Some? ==>
                var o := OpenedAsWritten(data.value, disk, old(nextId), editMode);
                items == o.items && backgroundImage == o.backgroundImage &&
                (o.complete ==> status == Picker.Loaded && currentFilePath == path) &&
                (!o.complete ==> status == Picker.Aborted && currentFilePath.None?)
    {
      if path.None? {
        return Picker.Cancelled;
      }
      NewPicker();
      if data.None? {
        return Picker.NotParsed;
      }
      var o := OpenDocument(data.value, disk, nextId, editMode);
      items := o.items;
      nextId := nextId + |o.items|;
      backgroundImage := o.backgroundImage;
      if !o.complete {
        return Picker.Aborted;
      }
      currentFilePath := path;
      return Picker.Loaded;
    }

    /** `open_picker` with the background restored through the scene, as evidently intended. */
    method OpenPickerIntended(path: Option<string>, data: Option<Value>, disk: Disk)
      returns (status: Picker.LoadStatus)
      requires Valid()
      modifies this`items, this`nextId, this`currentFilePath, this`backgroundImage
      ensures Valid()
      ensures path.None? ==> status == Picker.Cancelled && items == old(items) && nextId == old(nextId) &&
                             currentFilePath == old(currentFilePath) && backgroundImage == old(backgroundImage)
      ensures path.Some? && data.None? ==>
                status == Picker.NotParsed && items == [] && currentFilePath.None? && backgroundImage.None?
      ensures path.Some? && data.Some? ==>
                var o := OpenedIntended(data.value, disk, old(nextId), editMode);
                items == o.items && backgroundImage == o.backgroundImage &&
                (o.complete ==> status == Picker.Loaded && currentFilePath == path) &&
                (!o.complete ==> status == Picker.Aborted && currentFilePath.None?)
    {
      if path.None? {
        return Picker.Cancelled;
      }
      NewPicker();
      if data.None? {
        return Picker.NotParsed;
      }
      var o := OpenDocumentIntended(data.value, disk, nextId, editMode);
      items := o.items;
      nextId := nextId + |o.items|;
      backgroundImage := o.backgroundImage;
      if !o.complete {
        return Picker.Aborted;
      }
      currentFilePath := path;
      return Picker.Loaded;
    }

    /** `save_picker`: to the current file if there is one, otherwise as `save_picker_as`. */
    method SavePicker(dialogPath: Option<string>, order: seq<nat>) returns (written: Option<(string, Value)>)
      requires IsOrder(order, |items|)
      modifies this`currentFilePath
      ensures old(currentFilePath).Some? ==>
                currentFilePath == old(currentFilePath) &&
                written == Some((old(currentFilePath).value, SceneDocument(Permuted(items, order), backgroundImage)))
      ensures old(currentFilePath).None? ==>
                currentFilePath == dialogPath &&
                written == (if dialogPath.Some?
                            then Some((dialogPath.value, SceneDocument(Permuted(items, order), backgroundImage)))
                            else None)
    {
      if currentFilePath.None? {
        written := SavePickerAs(dialogPath, order);
      } else {
        written := SaveToFile(currentFilePath.value, order);
      }
    }

    /** `save_picker_as`: a chosen path becomes the current file and is written. */
    method SavePickerAs(dialogPath: Option<string>, order: seq<nat>) returns (written: Option<(string, Value)>)
      requires IsOrder(order, |items|)
      modifies this`currentFilePath
      ensures currentFilePath == if dialogPath.Some? then dialogPath else old(currentFilePath)
      ensures written == if dialogPath.Some?
                         then Some((dialogPath.value, SceneDocument(Permuted(items, order), backgroundImage)))
                         else None
    {
      if dialogPath.None? {
        return None;
      }
      currentFilePath := dialogPath;
      written := SaveToFile(dialogPath.value, order);
    }

    /** `_save_to_file`: the background path and one dict per item, in scene order. */
    method SaveToFile(path: string, order: seq<nat>) returns (written: Option<(string, Value)>)
      requires IsOrder(order, |items|)
      ensures written == Some((path, SceneDocument(Permuted(items, order), backgroundImage)))
    {
      var listed := Permuted(items, order);
      var dicts := WriteDicts(listed);
      var doc := Obj(map[
        "backgroundImage" := (if backgroundImage.Some? then Str(backgroundImage.value) else Null),
        "buttons" := List(dicts)]);
      return Some((path, doc));
    }
  }

  /**
   * Saving then reopening with the intended open gives back every item, in
   * the scene order of the save, with its node name, shape, size, colour
   * and position, in the window's current mode.
   */
  lemma SaveOpenRoundTrip(items: seq<Item>, order: seq<nat>, backgroundImage: Option<string>, disk: Disk,
                          firstId: nat, editMode: bool)
    requires ColorsInRange(items) && IsOrder(order, |items|)
    ensures var o := OpenedIntended(SceneDocument(Permuted(items, order), backgroundImage), disk, firstId, editMode);
            o.complete && |o.items| == |items| &&
            forall k :: 0 <= k < |items| ==>
              o.items[k] == Reopened(items[order[k]], firstId + k, editMode) && o.items[k].inEditMode == editMode
  {
    var listed := Permuted(items, order);
    assert ColorsInRange(listed);
    OpenSavedIntended(listed, backgroundImage, disk, firstId, editMode);
  }
}
