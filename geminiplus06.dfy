// The window of GeminiPlus06.js: buttons with a width and a height, and a
// position relative to the background image (`relative_pos`, between 0 and 1
// once a drag has measured it). The placement of buttons from their relative
// positions is floating-point widget geometry and is not part of this model;
// what is modelled is which relative position each button carries, and the
// integer record the picker file holds.

module GeminiPlus06 {
  import opened Wrappers
  import opened Buttons
  import opened Selection
  import opened Json
  import opened SizedFile
  import Picker

  /** A `QPointF` relative position. */
  datatype Rel = Rel(x: real, y: real)

  /** The relative position a new `PickerButton` starts with. */
  const DefaultRel: Rel := Rel(0.05, 0.05)

  /** Where a widget that was never moved sits in its parent. */
  const Origin: Point := Point(0, 0)

  /** `max(0.0, min(1.0, v))`. */
  function Clamp01(v: real): (r: real)
    ensures 0.0 <= r <= 1.0
    ensures 0.0 <= v <= 1.0 ==> r == v
    ensures v < 0.0 ==> r == 0.0
    ensures v > 1.0 ==> r == 1.0
  {
    if v > 1.0 then 1.0 else if v < 0.0 then 0.0 else v
  }

  /** Clamping a measured relative position into the unit square. */
  function ClampRel(m: Rel): (r: Rel)
    ensures 0.0 <= r.x <= 1.0 && 0.0 <= r.y <= 1.0
  {
    Rel(Clamp01(m.x), Clamp01(m.y))
  }

  /** Clamping twice is clamping once. */
  lemma ClampRelIdempotent(m: Rel)
    ensures ClampRel(ClampRel(m)) == ClampRel(m)
  {
  }

  /**
   * The `relative_pos` step of the load loop: `Some(None)` when the key is
   * absent (the default stays), `Some(Some(rel))` when it reads, `None` when
   * reading it raises.
   */
  function SavedRel(d: map<string, Value>): Option<Option<Rel>>
  {
    if "relative_pos" !in d then Some(None)
    else
      var v := d["relative_pos"];
      if v.List? && |v.items| >= 2 && AsNumber(v.items[0]).Some? && AsNumber(v.items[1]).Some?
      then Some(Some(Rel(AsNumber(v.items[0]).value, AsNumber(v.items[1]).value)))
      else None
  }

  /** The dict `save_picker` writes for one button. */
  function EncodeButton06(b: Button, rel: Rel): Value
  {
    Obj(map[
      "controller" := Str(b.controller),
      "position" := IntPair(b.pos.x, b.pos.y),
      "color" := Str(b.color),
      "shape" := Str(b.shape),
      "width" := Int(b.width),
      "height" := Int(b.height),
      "relative_pos" := List([Real(rel.x), Real(rel.y)])])
  }

  /**
   * The button `load_picker` builds from one dict: `controller`, `color`
   * and `shape` are required; `width` and `height` default to 40; a present
   * `relative_pos` must read. The saved `position` is not read: the button
   * stays where a new widget is.
   */
  function DecodeButton06(v: Value, id: nat): (r: Option<Button>)
    ensures r.Some? ==> r.value.id == id && r.value.pos == Origin && r.value.customText == "" &&
                        !r.value.selected && r.value.draggable
    ensures r.Some? ==> v.Obj? && (("width" !in v.fields) ==> r.value.width == 40) &&
                        (("height" !in v.fields) ==> r.value.height == 40)
  {
    if !v.Obj? then None
    else
      var d := v.fields;
      var width := GetOr(d, "width", Int(40));
      var height := GetOr(d, "height", Int(40));
      if "controller" in d && "color" in d && "shape" in d &&
         d["controller"].Str? && d["color"].Str? && d["shape"].Str? &&
         width.Int? && height.Int? && SavedRel(d).Some?
      then Some(NewButton(id, d["controller"].s, d["color"].s, d["shape"].s, width.i, height.i, "", Origin))
      else None
  }

  /** The relative position a loaded dict leaves on its button. */
  function RelOf(v: Value): Rel
  {
    if v.Obj? && SavedRel(v.fields).Some? && SavedRel(v.fields).value.Some?
    then SavedRel(v.fields).value.value
    else DefaultRel
  }

  /** A saved button as loading brings it back: new identity, unselected, draggable, at the origin. */
  function Reopened(b: Button, id: nat): Button
  {
    NewButton(id, b.controller, b.color, b.shape, b.width, b.height, "", Origin)
  }

  /** One dict round trip: everything but the position comes back, and so does the relative position. */
  lemma DecodeEncoded06(b: Button, rel: Rel, id: nat)
    ensures DecodeButton06(EncodeButton06(b, rel), id) == Some(Reopened(b, id))
    ensures RelOf(EncodeButton06(b, rel)) == rel
  {
  }

  /** A button's relative position, the default when none was recorded. */
  function RelFor(relative: map<nat, Rel>, b: Button): Rel
  {
    if b.id in relative then relative[b.id] else DefaultRel
  }

  /** The per-button dict of `save_picker`, given every button's relative position. */
  function Encoder06(relative: map<nat, Rel>): Button -> Value
  {
    b => EncodeButton06(b, RelFor(relative, b))
  }

  /** The whole file `save_picker` writes. */
  function Document06(bs: seq<Button>, relative: map<nat, Rel>, backgroundImage: Option<string>): Value
  {
    Obj(map[
      "buttons" := List(Encoded(bs, Encoder06(relative))),
      "background_image" := (if backgroundImage.Some? then Str(backgroundImage.value) else Null)])
  }

  /** The relative positions the load loop leaves on the first `n` buttons it built. */
  function LoadedRelatives(items: seq<Value>, firstId: nat, n: nat): (m: map<nat, Rel>)
    requires n <= |items|
    ensures forall id :: id in m <==> firstId <= id < firstId + n
    ensures forall k :: 0 <= k < n ==> m[firstId + k] == RelOf(items[k])
  {
    if n == 0 then map[]
    else LoadedRelatives(items, firstId, n - 1)[firstId + n - 1 := RelOf(items[n - 1])]
  }

  /** The load loop's `relative_pos` updates. */
  method ReadRelatives(items: seq<Value>, firstId: nat, n: nat) returns (m: map<nat, Rel>)
    requires n <= |items|
    ensures m == LoadedRelatives(items, firstId, n)
  {
    m := map[];
    var k := 0;
    while k < n
      invariant 0 <= k <= n
      invariant m == LoadedRelatives(items, firstId, k)
    {
      m := m[firstId + k := RelOf(items[k])];
      k := k + 1;
    }
  }

  /** The buttons `load_picker` reads, if it gets as far as the button loop. */
  function Buttons06(d: map<string, Value>, firstId: nat): Option<(seq<Value>, Decoded)>
  {
    match Items(GetOr(d, "buttons", List([])))
    case Some(items) => Some((items, DecodeRecords(items, firstId, DecodeButton06)))
    case None => None
  }

  /** The buttons of a load get consecutive ids from `firstId`, so they are well formed. */
  lemma Decoded06Ids(items: seq<Value>, firstId: nat)
    ensures var bs := DecodeRecords(items, firstId, DecodeButton06).buttons;
            WellFormed(bs, firstId + |bs|) && forall k :: 0 <= k < |bs| ==> bs[k].id == firstId + k
  {
    DecodeRecordsIds(items, firstId, DecodeButton06);
    ConsecutiveWellFormed(DecodeRecords(items, firstId, DecodeButton06).buttons, firstId);
  }

  /**
   * Saving and loading gives back every button in order with its
   * controller, colour, shape, width, height and relative position, but at
   * the origin instead of its saved position.
   */
  lemma SaveLoadRoundTrip06(bs: seq<Button>, relative: map<nat, Rel>, backgroundImage: Option<string>,
                            disk: Disk, firstId: nat)
    ensures var d := Document06(bs, relative, backgroundImage).fields;
            SizedBackground(d, disk) ==
              Some(if backgroundImage.Some? && backgroundImage.value != "" && backgroundImage.value in disk.paths
                   then backgroundImage else None) &&
            Buttons06(d, firstId).Some? &&
            var (items, r) := Buttons06(d, firstId).value;
            r.complete && |r.buttons| == |bs| == |items| &&
            (forall k :: 0 <= k < |bs| ==> r.buttons[k] == Reopened(bs[k], firstId + k)) &&
            (forall k :: 0 <= k < |bs| ==> RelOf(items[k]) == RelFor(relative, bs[k]))
  {
    var encode := Encoder06(relative);
    var d := Document06(bs, relative, backgroundImage).fields;
    assert Items(GetOr(d, "buttons", List([]))) == Some(Encoded(bs, encode));
    assert GetOr(d, "background_image", Null) ==
           (if backgroundImage.Some? then Str(backgroundImage.value) else Null);
    SavedBackgroundRead(d, backgroundImage, disk);
    forall b: Button, id: nat ensures DecodeButton06(encode(b), id) == Some(Reopened(b, id)) {
      DecodeEncoded06(b, RelFor(relative, b), id);
    }
    DecodeEncoded(bs, firstId, encode, DecodeButton06, Reopened);
    forall k | 0 <= k < |bs| ensures RelOf(Encoded(bs, encode)[k]) == RelFor(relative, bs[k]) {
      DecodeEncoded06(bs[k], RelFor(relative, bs[k]), firstId + k);
    }
  }

  /**
   * Without a background image no relative position is ever applied, so a
   * button saved away from the origin comes back at the origin.
   */
  lemma LoadDropsPosition(b: Button, rel: Rel, id: nat)
    requires b.pos == Point(100, 100)
    ensures DecodeButton06(EncodeButton06(b, rel), id).Some?
    ensures DecodeButton06(EncodeButton06(b, rel), id).value.pos != b.pos
  {
    DecodeEncoded06(b, rel, id);
  }

  /** The load the saved `position` evidently serves: the same dict, read at its saved position when one reads. */
  function DecodePlaced06(v: Value, id: nat): (r: Option<Button>)
    ensures r.Some? <==> DecodeButton06(v, id).Some?
    ensures r.Some? ==> r.value == DecodeButton06(v, id).value.(pos := r.value.pos)
  {
    match DecodeButton06(v, id)
    case None => None
    case Some(b) =>
      var p := GetOr(v.fields, "position", Null);
      Some(if AsPoint(p).Some? then b.(pos := AsPoint(p).value) else b)
  }

  /** With the corrected read, a saved button comes back where it was. */
  lemma DecodePlacedRoundTrip(b: Button, rel: Rel, id: nat)
    ensures DecodePlaced06(EncodeButton06(b, rel), id) == Some(Reopened(b, id).(pos := b.pos))
  {
    DecodeEncoded06(b, rel, id);
    assert GetOr(EncodeButton06(b, rel).fields, "position", Null) == IntPair(b.pos.x, b.pos.y);
  }

  class RigPickerTool {
    var buttons: seq<Button>
    /** Identity of the next button created. */
    var nextId: nat
    /** Whether the "Edit Mode" action is checked. */
    var editMode: bool
    var currentColor: string
    /** `background_image_path`, absent until an image is set. */
    var backgroundImage: Option<string>
    /** `relative_pos` of every button, by identity. */
    var relative: map<nat, Rel>
    /** `drag_start_position` of the buttons that have one, by identity. */
    var dragStart: map<nat, Point>
    /** The `cmds.select` calls issued, oldest first. */
    var hostLog: seq<HostCommand>

    predicate Valid()
      reads this
    {
      WellFormed(buttons, nextId) && forall j :: 0 <= j < |buttons| ==> buttons[j].id in relative
    }

    constructor()
      ensures Valid()
      ensures buttons == [] && editMode && relative == map[] && dragStart == map[] && hostLog == []
      ensures backgroundImage == None && currentColor == "#009688"
    {
      buttons := [];
      nextId := 0;
      editMode := true;
      currentColor := "#009688";
      backgroundImage := None;
      relative := map[];
      dragStart := map[];
      hostLog := [];
    }

    /** `handle_button_selection`: the clicked flag is negated; without Shift every other button is cleared. */
    method HandleButtonSelection(i: int, shift: bool)
      requires Valid() && 0 <= i < |buttons|
      modifies this`buttons
      ensures Valid()
      ensures buttons == Clicked(old(buttons), i, shift)
    {
      SameIdsWellFormed(buttons, Clicked(buttons, i, shift), nextId);
      buttons := ToggleClick(buttons, i, shift);
    }

    /**
     * `PickerButton.mousePressEvent`: a left press on a draggable button is
     * handed to the selection and records the drag origin; in Run mode it
     * selects the controller on the host if it exists.
     */
    method ButtonPress(i: int, left: bool, shift: bool, pressPos: Point, existing: set<string>)
      requires Valid() && 0 <= i < |buttons|
      modifies this`buttons, this`dragStart, this`hostLog
      ensures Valid()
      ensures var b := old(buttons)[i];
              if left && b.draggable then
                buttons == Clicked(old(buttons), i, shift) && hostLog == old(hostLog) &&
                dragStart == old(dragStart)[b.id := pressPos]
              else
                buttons == old(buttons) && dragStart == old(dragStart) &&
                hostLog == old(hostLog) + (if left && !b.draggable && b.controller in existing
                                           then [SelectNodes([b.controller], shift)] else [])
    {
      var b := buttons[i];
      if b.draggable {
        if left {
          HandleButtonSelection(i, shift);
          dragStart := dragStart[b.id := pressPos];
        }
      } else if left && b.controller in existing {
        hostLog := hostLog + [SelectNodes([b.controller], shift)];
      }
    }

    /** `PickerButton.mouseMoveEvent`: past the drag distance the button alone follows the cursor. */
    method ButtonMove(i: int, leftOnly: bool, eventPos: Point, dragDistance: nat)
      requires Valid() && 0 <= i < |buttons|
      modifies this`buttons
      ensures Valid()
      ensures var b := old(buttons)[i];
              if leftOnly && b.id in dragStart && b.draggable &&
                 Manhattan(Minus(eventPos, dragStart[b.id])) >= dragDistance
              then buttons == old(buttons)[i := b.(pos := Translate(b.pos, Minus(eventPos, dragStart[b.id])))]
              else buttons == old(buttons)
    {
      var b := buttons[i];
      if leftOnly && b.id in dragStart && b.draggable {
        var delta := Minus(eventPos, dragStart[b.id]);
        if Manhattan(delta) >= dragDistance {
          buttons := buttons[i := b.(pos := Translate(b.pos, delta))];
        }
      }
    }

    /**
     * `PickerButton.mouseReleaseEvent` and `update_button_relative_pos`: a
     * finished drag forgets its origin and, when the background pixmap has a
     * size (`measured` is the button's position relative to it), stores
     * that relative position clamped into the unit square.
     */
    method ButtonRelease(i: int, measured: Option<Rel>)
      requires Valid() && 0 <= i < |buttons|
      modifies this`dragStart, this`relative
      ensures Valid()
      ensures var id := buttons[i].id;
              if id in old(dragStart) then
                dragStart == old(dragStart) - {id} &&
                relative == (if measured.Some? then old(relative)[id := ClampRel(measured.value)] else old(relative))
              else dragStart == old(dragStart) && relative == old(relative)
    {
      var id := buttons[i].id;
      if id in dragStart {
        dragStart := dragStart - {id};
        if measured.Some? {
          relative := relative[id := ClampRel(measured.value)];
        }
      }
    }

    /** `deselect_all_buttons`: every flag false, nothing else changed. */
    method DeselectAllButtons()
      requires Valid()
      modifies this`buttons
      ensures Valid()
      ensures buttons == AllDeselected(old(buttons))
    {
      buttons := DeselectAll(buttons);
    }

    /** `toggle_edit_mode(checked)`: draggable follows the mode; only entering Run mode deselects. */
    method ToggleEditMode(checked: bool)
      requires Valid()
      modifies this`editMode, this`buttons
      ensures Valid()
      ensures editMode == checked
      ensures buttons == if checked then WithDraggable(old(buttons), true)
                         else AllDeselected(WithDraggable(old(buttons), false))
    {
      editMode := checked;
      buttons := SetDraggable(buttons, checked);
      if !checked {
        DeselectAllButtons();
      }
    }

    /** `delete_selected_button`: a confirmed delete keeps exactly the unselected buttons, in order. */
    method DeleteSelectedButton(confirmed: bool)
      requires Valid()
      modifies this`buttons
      ensures Valid()
      ensures if SelectedIndices(old(buttons)) != {} && confirmed then buttons == Unselected(old(buttons))
              else buttons == old(buttons)
    {
      if SelectedIndices(buttons) == {} {
        return;
      }
      if confirmed {
        UnselectedWellFormed(buttons, nextId);
        forall j | 0 <= j < |Unselected(buttons)| ensures Unselected(buttons)[j].id in relative {
          UnselectedMembers(buttons, Unselected(buttons)[j]);
        }
        buttons := RemoveSelected(buttons);
      }
    }

    /** `select_buttons_in_rect`: Edit mode selects the hits, Run mode sends their controllers to the host. */
    method SelectButtonsInRect(hits: seq<bool>, shift: bool)
      requires Valid() && |hits| == |buttons|
      modifies this`buttons, this`hostLog
      ensures Valid()
      ensures editMode ==> buttons == RectSelected(old(buttons), hits, shift) && hostLog == old(hostLog)
      ensures !editMode ==> (buttons == old(buttons) &&
                var names := HitControllers(old(buttons), hits);
                hostLog == old(hostLog) + (if names != [] then [SelectNodes(names, shift)]
                                           else if !shift then [ClearSelection] else []))
    {
      if editMode {
        buttons := SelectHits(buttons, hits, shift);
      } else {
        var names := CollectHitControllers(buttons, hits);
        if names != [] {
          hostLog := hostLog + [SelectNodes(names, shift)];
        } else if !shift {
          hostLog := hostLog + [ClearSelection];
        }
      }
    }

    /**
     * `add_picker_button`: with a list item, one button at the end of the
     * list, as wide as the width spin box and, for a Circle, as high as it
     * is wide; it starts at the default relative position.
     */
    method AddPickerButton(item: Option<string>, shape: string, width: int, heightSpin: int)
      requires Valid()
      modifies this`buttons, this`nextId, this`relative
      ensures Valid()
      ensures item.None? ==> buttons == old(buttons) && nextId == old(nextId) && relative == old(relative)
      ensures item.Some? ==>
                nextId == old(nextId) + 1 &&
                relative == old(relative)[old(nextId) := DefaultRel] &&
                buttons == old(buttons) + [NewButton(old(nextId), item.value, currentColor, shape, width,
                                                     if shape == "Circle" then width else heightSpin, "", Origin)]
    {
      if item.None? {
        return;
      }
      var height := if shape == "Circle" then width else heightSpin;
      var b := NewButton(nextId, item.value, currentColor, shape, width, height, "", Origin);
      AppendWellFormed(buttons, b, nextId);
      buttons := buttons + [b];
      relative := relative[nextId := DefaultRel];
      nextId := nextId + 1;
    }

    /** `clear_picker`: no buttons and no background image. */
    method ClearPicker()
      requires Valid()
      modifies this`buttons, this`backgroundImage, this`relative
      ensures Valid()
      ensures buttons == [] && backgroundImage == None && relative == map[]
    {
      buttons := [];
      backgroundImage := None;
      relative := map[];
    }

    /** `save_picker`: nothing without a path; otherwise one dict per button, in list order. */
    method SavePicker(path: Option<string>) returns (written: Option<(string, Value)>)
      ensures path.None? ==> written.None?
      ensures path.Some? ==> written == Some((path.value, Document06(buttons, relative, backgroundImage)))
    {
      if path.None? {
        return None;
      }
      var records := EncodeButtons(buttons, Encoder06(relative));
      var doc := Obj(map[
        "buttons" := List(records),
        "background_image" := (if backgroundImage.Some? then Str(backgroundImage.value) else Null)]);
      return Some((path.value, doc));
    }

    /**
     * `load_picker`: after a parse the picker is cleared, the background
     * path restored if it exists, and the buttons read in file order until a
     * dict raises; a complete load re-applies the current mode.
     */
    method LoadPicker(path: Option<string>, data: Option<Value>, disk: Disk) returns (status: Picker.LoadStatus)
      requires Valid()
      modifies this`buttons, this`nextId, this`backgroundImage, this`editMode, this`relative
      ensures Valid()
      ensures editMode == old(editMode)
      ensures path.None? || data.None? ==>
                status == (if path.None? then Picker.Cancelled else Picker.NotParsed) &&
                buttons == old(buttons) && nextId == old(nextId) && backgroundImage == old(backgroundImage) &&
                relative == old(relative)
      ensures path.Some? && data.Some? && !data.value.Obj? ==>
                status == Picker.Aborted && buttons == [] && backgroundImage == None
      ensures path.Some? && data.Some? && data.value.Obj? ==>
                var d := data.value.fields;
                var background := SizedBackground(d, disk);
                var read := Buttons06(d, old(nextId));
                (background.None? || read.None? ==> status == Picker.Aborted && buttons == []) &&
                (background.Some? ==> backgroundImage == background.value) &&
                (background.Some? && read.Some? ==>
                   var (items, r) := read.value;
                   relative == LoadedRelatives(items, old(nextId), |r.buttons|) &&
                   (!r.complete ==> status == Picker.Aborted && buttons == r.buttons) &&
                   (r.complete ==>
                      status == Picker.Loaded &&
                      buttons == (if editMode then WithDraggable(r.buttons, true)
                                  else AllDeselected(WithDraggable(r.buttons, false)))))
    {
      if path.None? {
        return Picker.Cancelled;
      }
      if data.None? {
        return Picker.NotParsed;
      }
      ClearPicker();
      if !data.value.Obj? {
        return Picker.Aborted;
      }
      var d := data.value.fields;
      var background := SizedBackground(d, disk);
      if background.None? {
        return Picker.Aborted;
      }
      backgroundImage := background.value;
      var items := Items(GetOr(d, "buttons", List([])));
      if items.None? {
        return Picker.Aborted;
      }
      var bs, complete := ReadButtons(items.value, nextId, DecodeButton06);
      Decoded06Ids(items.value, nextId);
      var rels := ReadRelatives(items.value, nextId, |bs|);
      forall j | 0 <= j < |bs| ensures bs[j].id in rels {
        assert bs[j].id == nextId + j;
      }
      buttons := bs;
      relative := rels;
      nextId := nextId + |bs|;
      if !complete {
        return Picker.Aborted;
      }
      ToggleEditMode(editMode);
      return Picker.Loaded;
    }
  }
}
