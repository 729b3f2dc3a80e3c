// The picker creator of Claude02.js: square buttons stacked down the picker
// area as they are added, a character name that saving and UI generation
// require, and the generated picker window whose buttons select their
// controller on the host.

module Claude02 {
  import opened Wrappers
  import opened Text
  import opened Names
  import opened Buttons
  import opened Json
  import opened SizedFile
  import Picker

  /** The colour a new creator starts with. */
  const CreatorColor: string := "#4CAF50"

  /** Where the creator places the button added when `n` buttons already exist. */
  function Placement(n: nat): (p: Point)
    ensures p.x == 300 && p.y == 60 * n + 50
  {
    Point(300, n * 60 + 50)
  }

  /** Buttons added one after the other sit in one column, 60 pixels apart. */
  lemma PlacementSpacing(n: nat, m: nat)
    requires n < m
    ensures Placement(m).x == Placement(n).x
    ensures Placement(m).y - Placement(n).y == 60 * (m - n)
  {
  }

  /** One `(controller, x, y, color, shape, size)` tuple handed to the generated picker. */
  datatype UiEntry = UiEntry(controller: string, x: int, y: int, color: string, shape: string, size: int)

  /** The generated picker window: its character name and its buttons. */
  datatype PickerUi = PickerUi(characterName: string, entries: seq<UiEntry>)

  /** The tuple of one creator button. */
  function EntryOf(b: Button): UiEntry
  {
    UiEntry(b.controller, b.pos.x, b.pos.y, b.color, b.shape, b.width)
  }

  /** The tuple list comprehension of `generate_picker_ui`, in list order. */
  function Entries(bs: seq<Button>): (es: seq<UiEntry>)
    ensures |es| == |bs|
    ensures forall k :: 0 <= k < |bs| ==> es[k] == EntryOf(bs[k])
  {
    seq(|bs|, k requires 0 <= k < |bs| => EntryOf(bs[k]))
  }

  /** The caption of a generated button: the controller name, without namespace and suffix tokens. */
  function EntryCaption(e: UiEntry): string
  {
    ShortName(e.controller)
  }

  /** The generated window shows every button with the creator's caption, position, colour, shape and size. */
  lemma GeneratedMatchesCreator(bs: seq<Button>, k: int)
    requires 0 <= k < |bs|
    ensures var e := Entries(bs)[k];
            EntryCaption(e) == ShortName(bs[k].controller) &&
            Point(e.x, e.y) == bs[k].pos && e.color == bs[k].color && e.shape == bs[k].shape &&
            e.size == bs[k].width
  {
  }

  /** `RigPickerUI.select_controller`: the host selection is replaced by the controller, if it exists. */
  function SelectController(controller: string, existing: set<string>): (cs: seq<HostCommand>)
    ensures |cs| <= 1
    ensures cs != [] <==> controller in existing
    ensures forall c :: c in cs ==> c == SelectNodes([controller], false)
  {
    if controller in existing then [SelectNodes([controller], false)] else []
  }

  /** Clicking the k-th generated button selects exactly the k-th creator button's controller. */
  lemma GeneratedButtonSelects(bs: seq<Button>, k: int, existing: set<string>)
    requires 0 <= k < |bs| && bs[k].controller in existing
    ensures SelectController(Entries(bs)[k].controller, existing) == [SelectNodes([bs[k].controller], false)]
  {
  }

  /** The file `save_picker` writes: the character name and one five-key dict per button. */
  function CreatorDocument(characterName: string, bs: seq<Button>): Value
  {
    Obj(map[
      "character_name" := Str(characterName),
      "buttons" := List(Encoded(bs, EncodeSized))])
  }

  /** The character name `load_picker` sets: `''` when absent; `None` when setting it raises. */
  function LoadedName(d: map<string, Value>): (r: Option<string>)
    ensures "character_name" !in d ==> r == Some("")
  {
    var v := GetOr(d, "character_name", Str(""));
    if v.Str? then Some(v.s) else None
  }

  /** Loading a saved file restores the character name and every button in order. */
  lemma CreatorSaveLoadRoundTrip(characterName: string, bs: seq<Button>, firstId: nat)
    ensures var d := CreatorDocument(characterName, bs).fields;
            LoadedName(d) == Some(characterName) &&
            SizedButtons(d, firstId).Some? &&
            var r := SizedButtons(d, firstId).value;
            r.complete && |r.buttons| == |bs| &&
            forall k :: 0 <= k < |bs| ==> r.buttons[k] == SizedRestored(bs[k], firstId + k)
  {
    var d := CreatorDocument(characterName, bs).fields;
    assert Items(GetOr(d, "buttons", List([]))) == Some(Encoded(bs, EncodeSized));
    assert GetOr(d, "character_name", Str("")) == Str(characterName);
    forall b: Button, id: nat ensures DecodeSized(EncodeSized(b), id) == Some(SizedRestored(b, id)) {
      DecodeEncodedSized(b, id);
    }
    DecodeEncoded(bs, firstId, EncodeSized, DecodeSized, SizedRestored);
  }

  /** The comprehension as a loop. */
  method CollectEntries(bs: seq<Button>) returns (es: seq<UiEntry>)
    ensures es == Entries(bs)
  {
    es := [];
    var i := 0;
    while i < |bs|
      invariant 0 <= i <= |bs|
      invariant es == Entries(bs[..i])
    {
      es := es + [EntryOf(bs[i])];
      i := i + 1;
    }
    assert bs[..i] == bs;
  }

  class RigPickerCreator {
    var buttons: seq<Button>
    /** Identity of the next button created. */
    var nextId: nat
    /** The text of the character-name field. */
    var characterName: string
    var currentColor: string
    /** `drag_start_position` of the buttons that have one, by identity. */
    var dragStart: map<nat, Point>

    /** Buttons of the creator are square, unlabelled, never selected and always draggable. */
    predicate Valid()
      reads this
    {
      WellFormed(buttons, nextId) && AllSized(buttons) &&
      forall j :: 0 <= j < |buttons| ==> !buttons[j].selected && buttons[j].draggable
    }

    constructor()
      ensures Valid()
      ensures buttons == [] && characterName == "" && currentColor == CreatorColor && dragStart == map[]
    {
      buttons := [];
      nextId := 0;
      characterName := "";
      currentColor := CreatorColor;
      dragStart := map[];
    }

    /** The user types into the character-name field: its text becomes `text`. */
    method SetCharacterName(text: string)
      modifies this`characterName
      ensures characterName == text
    {
      characterName := text;
    }

    /** `add_picker_button`: with a list item, one square button placed below the ones before it. */
    method AddPickerButton(item: Option<string>, shape: string, size: int)
      requires Valid()
      modifies this`buttons, this`nextId
      ensures Valid()
      ensures item.None? ==> buttons == old(buttons) && nextId == old(nextId)
      ensures item.Some? ==>
                nextId == old(nextId) + 1 &&
                buttons == old(buttons) + [SizedButton(old(nextId), item.value, currentColor, shape, size,
                                                       Placement(|old(buttons)|))]
    {
      if item.None? {
        return;
      }
      var b := SizedButton(nextId, item.value, currentColor, shape, size, Placement(|buttons|));
      AppendWellFormed(buttons, b, nextId);
      buttons := buttons + [b];
      nextId := nextId + 1;
    }

    /** `PickerButton.mousePressEvent`: a left press records the drag origin. */
    method ButtonPress(i: int, left: bool, pressPos: Point)
      requires 0 <= i < |buttons|
      modifies this`dragStart
      ensures dragStart == if left then old(dragStart)[buttons[i].id := pressPos] else old(dragStart)
    {
      if left {
        dragStart := dragStart[buttons[i].id := pressPos];
      }
    }

    /** `PickerButton.mouseMoveEvent`: past the drag distance the button follows the cursor. */
    method ButtonMove(i: int, leftOnly: bool, eventPos: Point, dragDistance: nat)
      requires Valid() && 0 <= i < |buttons|
      modifies this`buttons
      ensures Valid()
      ensures var b := old(buttons)[i];
              if leftOnly && b.id in dragStart && Manhattan(Minus(eventPos, dragStart[b.id])) >= dragDistance
              then buttons == old(buttons)[i := b.(pos := Translate(b.pos, Minus(eventPos, dragStart[b.id])))]
              else buttons == old(buttons)
    {
      var b := buttons[i];
      if leftOnly && b.id in dragStart {
        var delta := Minus(eventPos, dragStart[b.id]);
        if Manhattan(delta) >= dragDistance {
          buttons := buttons[i := b.(pos := Translate(b.pos, delta))];
        }
      }
    }

    /** `PickerButton.mouseReleaseEvent`: the drag origin is forgotten. */
    method ButtonRelease(i: int)
      requires 0 <= i < |buttons|
      modifies this`dragStart
      ensures dragStart == old(dragStart) - {buttons[i].id}
    {
      dragStart := dragStart - {buttons[i].id};
    }

    /**
     * `save_picker`: refused without a character name; nothing written
     * without a path; otherwise the name and one dict per button.
     */
    method SavePicker(path: Option<string>) returns (written: Option<(string, Value)>)
      ensures characterName == "" || path.None? ==> written.None?
      ensures characterName != "" && path.Some? ==>
                written == Some((path.value, CreatorDocument(characterName, buttons)))
    {
      if characterName == "" || path.None? {
        return None;
      }
      var records := EncodeButtons(buttons, EncodeSized);
      var doc := Obj(map[
        "character_name" := Str(characterName),
        "buttons" := List(records)]);
      return Some((path.value, doc));
    }

    /** `generate_picker_ui`: refused without a character name; otherwise one tuple per button, in list order. */
    method GeneratePickerUi() returns (ui: Option<PickerUi>)
      ensures characterName == "" ==> ui.None?
      ensures characterName != "" ==> ui == Some(PickerUi(characterName, Entries(buttons)))
    {
      if characterName == "" {
        return None;
      }
      var es := CollectEntries(buttons);
      return Some(PickerUi(characterName, es));
    }

    /**
     * `load_picker`: a file that does not parse changes nothing; otherwise
     * the buttons are removed, the character name set (empty when absent)
     * and the buttons read in file order until a dict raises.
     */
    method LoadPicker(path: Option<string>, data: Option<Value>) returns (status: Picker.LoadStatus)
      requires Valid()
      modifies this`buttons, this`nextId, this`characterName
      ensures Valid()
      ensures path.None? || data.None? ==>
                status == (if path.None? then Picker.Cancelled else Picker.NotParsed) &&
                buttons == old(buttons) && nextId == old(nextId) && characterName == old(characterName)
      ensures path.Some? && data.Some? && !data.value.Obj? ==>
                status == Picker.Aborted && buttons == [] && characterName == old(characterName)
      ensures path.Some? && data.Some? && data.value.Obj? ==>
                var d := data.value.fields;
                var name := LoadedName(d);
                var read := SizedButtons(d, old(nextId));
                (name.None? ==> status == Picker.Aborted && buttons == [] && characterName == old(characterName)) &&
                (name.Some? ==> characterName == name.value) &&
                (name.Some? && read.None? ==> status == Picker.Aborted && buttons == []) &&
                (name.Some? && read.Some? ==>
                   buttons == read.value.buttons &&
                   status == (if read.value.complete then Picker.Loaded else Picker.Aborted))
    {
      if path.None? {
        return Picker.Cancelled;
      }
      if data.None? {
        return Picker.NotParsed;
      }
      buttons := [];
      if !data.value.Obj? {
        return Picker.Aborted;
      }
      var d := data.value.fields;
      var name := LoadedName(d);
      if name.None? {
        return Picker.Aborted;
      }
      characterName := name.value;
      var items := Items(GetOr(d, "buttons", List([])));
      if items.None? {
        return Picker.Aborted;
      }
      var bs, complete := ReadButtons(items.value, nextId, DecodeSized);
      SizedButtonsFacts(items.value, nextId);
      DecodeRecordsKeeps(items.value, nextId);
      DecodedDraggable(items.value, nextId);
      buttons := bs;
      nextId := nextId + |bs|;
      return if complete then Picker.Loaded else Picker.Aborted;
    }
  }

  /** Every button the load loop builds is draggable. */
  lemma {:induction false} DecodedDraggable(items: seq<Value>, firstId: nat)
    ensures forall j :: 0 <= j < |DecodeRecords(items, firstId, DecodeSized).buttons| ==>
              DecodeRecords(items, firstId, DecodeSized).buttons[j].draggable
    decreases |items|
  {
    if items != [] {
      DecodedDraggable(items[..|items| - 1], firstId);
    }
  }
}
