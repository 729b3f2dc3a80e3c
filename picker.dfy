// What the QPushButton picker windows (LR.js, Move01.js) share: the button
// a window adds, the caption a button shows, and the JSON file written by
// `save_picker` and read back by `load_picker`.

module Picker {
  import opened Wrappers
  import opened Text
  import opened Names
  import opened Buttons
  import opened Json

  const Circle: string := "Circle"
  const DefaultColor: string := "#009688"
  /** Where a new button is placed. */
  const AddPosition: Point := Point(10, 10)
  /** `size` assumed for a saved button that has neither `width`/`height` nor `size`. */
  const LegacySize: int := 40

  /**
   * The button `add_picker_button` creates: at (10, 10), as high as it is
   * wide when it is a circle, with the label stripped of surrounding spaces.
   */
  function AddedButton(id: nat, controller: string, color: string, shape: string,
                       width: int, heightSpin: int, text: string): (b: Button)
    ensures b.id == id && b.controller == controller && b.pos == AddPosition
    ensures b.height == (if shape == Circle then width else heightSpin)
    ensures b.customText == Strip(text) && !b.selected && b.draggable
  {
    NewButton(id, controller, color, shape, width, if shape == Circle then width else heightSpin,
              Strip(text), AddPosition)
  }

  /** The caption of a button: its custom label, or the stripped controller name. */
  function Caption(b: Button): string
  {
    DisplayText(b.controller, b.customText)
  }

  // ---------------------------------------------------------------------------
  // Saved records

  /** The dict `save_picker` writes for one button. */
  function EncodeButton(b: Button): Value
  {
    Obj(map[
      "controller" := Str(b.controller),
      "position" := IntPair(b.pos.x, b.pos.y),
      "color" := Str(b.color),
      "shape" := Str(b.shape),
      "width" := Int(b.width),
      "height" := Int(b.height),
      "custom_text" := Str(b.customText)])
  }

  /**
   * The button `load_picker` builds from one dict: `width`/`height` default
   * to `size`, which defaults to 40; `custom_text` defaults to ''; the
   * controller, colour, shape and position are required.
   */
  function DecodeButton(v: Value, id: nat): (r: Option<Button>)
    ensures r.Some? ==> r.value.id == id && !r.value.selected && r.value.draggable
  {
    if !v.Obj? then None
    else
      var d := v.fields;
      var size := GetOr(d, "size", Int(LegacySize));
      var width := GetOr(d, "width", size);
      var height := GetOr(d, "height", size);
      var customText := GetOr(d, "custom_text", Str(""));
      if "controller" in d && "color" in d && "shape" in d && "position" in d
         && d["controller"].Str? && d["color"].Str? && d["shape"].Str?
         && width.Int? && height.Int? && customText.Str? && AsPoint(d["position"]).Some?
      then
        Some(NewButton(id, d["controller"].s, d["color"].s, d["shape"].s, width.i, height.i,
                       customText.s, AsPoint(d["position"]).value))
      else None
  }

  /** A saved button comes back with the same fields, unselected, draggable and with a new identity. */
  function Restored(b: Button, id: nat): Button
  {
    NewButton(id, b.controller, b.color, b.shape, b.width, b.height, b.customText, b.pos)
  }

  lemma DecodeEncodedButton(b: Button, id: nat)
    ensures DecodeButton(EncodeButton(b), id) == Some(Restored(b, id))
  {
  }

  /**
   * An old file without `width`/`height` gets both from `size`, or 40 when
   * `size` is missing too; a missing `custom_text` becomes ''.
   */
  lemma LegacySizeFallback(controller: string, color: string, shape: string, x: int, y: int,
                           size: Option<int>, id: nat)
    ensures var base := map["controller" := Str(controller), "color" := Str(color),
                             "shape" := Str(shape), "position" := IntPair(x, y)];
            var d := if size.Some? then base["size" := Int(size.value)] else base;
            var s := if size.Some? then size.value else LegacySize;
            DecodeButton(Obj(d), id) == Some(NewButton(id, controller, color, shape, s, s, "", Point(x, y)))
  {
  }

  /** The whole file `save_picker` writes. */
  function SaveDocument(bs: seq<Button>, backgroundImage: Option<string>, backgroundSize: Size): Value
  {
    Obj(map[
      "buttons" := List(Encoded(bs, EncodeButton)),
      "background_image" := (if backgroundImage.Some? then Str(backgroundImage.value) else Null),
      "background_size" := IntPair(backgroundSize.width, backgroundSize.height)])
  }

  /** The buttons `load_picker` reads from a parsed file, if it gets as far as the button loop. */
  function LoadedButtons(d: map<string, Value>, firstId: nat): Option<Decoded>
  {
    match Items(GetOr(d, "buttons", List([])))
    case Some(items) => Some(DecodeRecords(items, firstId, DecodeButton))
    case None => None
  }

  /** The background size `load_picker` reads, `[800, 600]` when the key is missing. */
  function LoadedSize(d: map<string, Value>): Option<Size>
  {
    match AsIntPair(GetOr(d, "background_size", IntPair(DefaultBackground.width, DefaultBackground.height)))
    case Some((w, h)) => Some(Size(w, h))
    case None => None
  }

  /**
   * The background `load_picker` sets from a parsed file: the saved size
   * (800 x 600 without the key), then, for a saved path that exists, that
   * path and the size of the image if it loads. `None` when reading raises.
   */
  function LoadedBackground(d: map<string, Value>, disk: Disk): Option<(Option<string>, Size)>
  {
    match LoadedSize(d)
    case None => None
    case Some(size) =>
      var bg := GetOr(d, "background_image", Null);
      if !Truthy(bg) then Some((None, size))
      else if !bg.Str? then None
      else if bg.s !in disk.paths then Some((None, size))
      else Some((Some(bg.s), if bg.s in disk.images then disk.images[bg.s] else size))
  }

  /**
   * Loading a saved file reads back every button, in order, with the same
   * controller, position, colour, shape, width, height and label and no
   * selection, and the saved background size.
   */
  lemma SaveLoadRoundTrip(bs: seq<Button>, backgroundImage: Option<string>, backgroundSize: Size,
                          disk: Disk, firstId: nat)
    ensures var d := SaveDocument(bs, backgroundImage, backgroundSize).fields;
            var reopened := backgroundImage.Some? && backgroundImage.value != "" && backgroundImage.value in disk.paths;
            LoadedBackground(d, disk) ==
              Some(if !reopened then (None, backgroundSize)
                   else (backgroundImage, if backgroundImage.value in disk.images then disk.images[backgroundImage.value]
                                          else backgroundSize)) &&
            LoadedButtons(d, firstId).Some? &&
            var r := LoadedButtons(d, firstId).value;
            r.complete && |r.buttons| == |bs| &&
            forall k :: 0 <= k < |bs| ==> r.buttons[k] == Restored(bs[k], firstId + k)
  {
    var d := SaveDocument(bs, backgroundImage, backgroundSize).fields;
    SavedBackgroundLoads(bs, backgroundImage, backgroundSize, disk);
    assert Items(GetOr(d, "buttons", List([]))) == Some(Encoded(bs, EncodeButton));
    forall b: Button, id: nat ensures DecodeButton(EncodeButton(b), id) == Some(Restored(b, id)) {
      DecodeEncodedButton(b, id);
    }
    DecodeEncoded(bs, firstId, EncodeButton, DecodeButton, Restored);
  }

  /** The background half of `SaveLoadRoundTrip`. */
  lemma SavedBackgroundLoads(bs: seq<Button>, backgroundImage: Option<string>, backgroundSize: Size, disk: Disk)
    ensures var d := SaveDocument(bs, backgroundImage, backgroundSize).fields;
            var reopened := backgroundImage.Some? && backgroundImage.value != "" && backgroundImage.value in disk.paths;
            LoadedBackground(d, disk) ==
              Some(if !reopened then (None, backgroundSize)
                   else (backgroundImage, if backgroundImage.value in disk.images then disk.images[backgroundImage.value]
                                          else backgroundSize))
  {
    var d := SaveDocument(bs, backgroundImage, backgroundSize).fields;
    assert GetOr(d, "background_size", IntPair(800, 600)) == IntPair(backgroundSize.width, backgroundSize.height);
    assert LoadedSize(d) == Some(backgroundSize);
    assert GetOr(d, "background_image", Null) ==
           (if backgroundImage.Some? then Str(backgroundImage.value) else Null);
  }

  /** Without the key, the background size is 800 x 600. */
  lemma LoadedSizeDefault(d: map<string, Value>)
    requires "background_size" !in d
    ensures LoadedSize(d) == Some(DefaultBackground)
  {
  }

  /** How `load_picker` ended: no path chosen, `json.load` raised, a later step raised, or done. */
  datatype LoadStatus = Cancelled | NotParsed | Aborted | Loaded
}
