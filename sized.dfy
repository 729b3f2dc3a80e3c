// The picker file of the windows whose buttons have a single `size`
// (GeminiPlus01.js, GeminiPlus02.js, Gemini08.js): per button the
// controller, position, colour, shape and size, plus the background image
// path. Loading needs every one of the five keys.

module SizedFile {
  import opened Wrappers
  import opened Buttons
  import opened Json
  import opened Selection

  /** A button of these windows: square, without a custom label. */
  predicate Sized(b: Button)
  {
    b.height == b.width && b.customText == ""
  }

  /** The button these windows construct from `(controller, color, shape, size)`, placed at `pos`. */
  function SizedButton(id: nat, controller: string, color: string, shape: string, size: int, pos: Point): (b: Button)
    ensures Sized(b) && !b.selected && b.draggable && b.id == id
  {
    NewButton(id, controller, color, shape, size, size, "", pos)
  }

  /** The dict `save_picker` writes for one button. */
  function EncodeSized(b: Button): Value
  {
    Obj(map[
      "controller" := Str(b.controller),
      "position" := IntPair(b.pos.x, b.pos.y),
      "color" := Str(b.color),
      "shape" := Str(b.shape),
      "size" := Int(b.width)])
  }

  /** The button `load_picker` builds from one dict; every key is required. */
  function DecodeSized(v: Value, id: nat): (r: Option<Button>)
    ensures r.Some? ==> r.value.id == id && Sized(r.value) && !r.value.selected && r.value.draggable
  {
    if !v.Obj? then None
    else
      var d := v.fields;
      if "controller" in d && "color" in d && "shape" in d && "size" in d && "position" in d
         && d["controller"].Str? && d["color"].Str? && d["shape"].Str? && d["size"].Int?
         && AsPoint(d["position"]).Some?
      then Some(SizedButton(id, d["controller"].s, d["color"].s, d["shape"].s, d["size"].i,
                            AsPoint(d["position"]).value))
      else None
  }

  /** A saved button comes back unselected, draggable and with a new identity. */
  function SizedRestored(b: Button, id: nat): Button
  {
    SizedButton(id, b.controller, b.color, b.shape, b.width, b.pos)
  }

  lemma DecodeEncodedSized(b: Button, id: nat)
    ensures DecodeSized(EncodeSized(b), id) == Some(SizedRestored(b, id))
  {
  }

  /** On these windows' buttons, restoring changes nothing but identity and flags. */
  lemma SizedRestoredExact(b: Button, id: nat)
    requires Sized(b)
    ensures SizedRestored(b, id) == b.(id := id, selected := false, draggable := true)
  {
  }

  /** A dict without `size` (or any other of the five keys) fails to load. */
  lemma DecodeSizedNeedsSize(d: map<string, Value>, id: nat)
    requires "size" !in d
    ensures DecodeSized(Obj(d), id) == None
  {
  }

  /** The whole file `save_picker` writes. */
  function SizedDocument(bs: seq<Button>, backgroundImage: Option<string>): Value
  {
    Obj(map[
      "buttons" := List(Encoded(bs, EncodeSized)),
      "background_image" := (if backgroundImage.Some? then Str(backgroundImage.value) else Null)])
  }

  /** The buttons `load_picker` reads from a parsed dict, if it gets as far as the button loop. */
  function SizedButtons(d: map<string, Value>, firstId: nat): Option<Decoded>
  {
    match Items(GetOr(d, "buttons", List([])))
    case Some(items) => Some(DecodeRecords(items, firstId, DecodeSized))
    case None => None
  }

  /**
   * The background image `load_picker` sets on a cleared picker: a saved
   * path that exists; `None` when reading raises.
   */
  function SizedBackground(d: map<string, Value>, disk: Disk): Option<Option<string>>
  {
    var bg := GetOr(d, "background_image", Null);
    if !Truthy(bg) then Some(None)
    else if !bg.Str? then None
    else if bg.s in disk.paths then Some(Some(bg.s))
    else Some(None)
  }

  /** A saved background path reads back when its file still exists. */
  lemma SavedBackgroundRead(d: map<string, Value>, backgroundImage: Option<string>, disk: Disk)
    requires GetOr(d, "background_image", Null) == (if backgroundImage.Some? then Str(backgroundImage.value) else Null)
    ensures SizedBackground(d, disk) ==
              Some(if backgroundImage.Some? && backgroundImage.value != "" && backgroundImage.value in disk.paths
                   then backgroundImage else None)
  {
  }

  /**
   * Loading a saved file gives back every button in order, with the same
   * controller, position, colour, shape and size, unselected; and the saved
   * background path when it still exists.
   */
  lemma SizedSaveLoadRoundTrip(bs: seq<Button>, backgroundImage: Option<string>, disk: Disk, firstId: nat)
    ensures var d := SizedDocument(bs, backgroundImage).fields;
            SizedBackground(d, disk) ==
              Some(if backgroundImage.Some? && backgroundImage.value != "" && backgroundImage.value in disk.paths
                   then backgroundImage else None) &&
            SizedButtons(d, firstId).Some? &&
            var r := SizedButtons(d, firstId).value;
            r.complete && |r.buttons| == |bs| &&
            forall k :: 0 <= k < |bs| ==> r.buttons[k] == SizedRestored(bs[k], firstId + k)
  {
    var d := SizedDocument(bs, backgroundImage).fields;
    assert Items(GetOr(d, "buttons", List([]))) == Some(Encoded(bs, EncodeSized));
    assert GetOr(d, "background_image", Null) ==
           (if backgroundImage.Some? then Str(backgroundImage.value) else Null);
    SavedBackgroundRead(d, backgroundImage, disk);
    forall b: Button, id: nat ensures DecodeSized(EncodeSized(b), id) == Some(SizedRestored(b, id)) {
      DecodeEncodedSized(b, id);
    }
    DecodeEncoded(bs, firstId, EncodeSized, DecodeSized, SizedRestored);
  }

  /** All buttons of a list are square and unlabelled. */
  predicate AllSized(bs: seq<Button>)
  {
    forall j :: 0 <= j < |bs| ==> Sized(bs[j])
  }

  /** The button loop of `load_picker`: consecutive fresh identities, and square unlabelled buttons. */
  lemma SizedButtonsFacts(items: seq<Value>, firstId: nat)
    ensures var r := DecodeRecords(items, firstId, DecodeSized);
            AllSized(r.buttons) && WellFormed(r.buttons, firstId + |r.buttons|)
  {
    DecodeRecordsIds(items, firstId, DecodeSized);
    DecodeRecordsKeeps(items, firstId);
  }

  lemma {:induction false} DecodeRecordsKeeps(items: seq<Value>, firstId: nat)
    ensures AllSized(DecodeRecords(items, firstId, DecodeSized).buttons)
    ensures forall j :: 0 <= j < |DecodeRecords(items, firstId, DecodeSized).buttons| ==>
              !DecodeRecords(items, firstId, DecodeSized).buttons[j].selected
    decreases |items|
  {
    if items != [] {
      DecodeRecordsKeeps(items[..|items| - 1], firstId);
    }
  }

  /** Deleting the selected buttons keeps the rest square and unlabelled. */
  lemma UnselectedAllSized(bs: seq<Button>)
    requires AllSized(bs)
    ensures AllSized(Unselected(bs))
  {
    forall j | 0 <= j < |Unselected(bs)| ensures Sized(Unselected(bs)[j]) {
      UnselectedMembers(bs, Unselected(bs)[j]);
    }
  }

  /**
   * A load that fails halfway: the picker has already been cleared, so the
   * buttons built before the bad dict replace the previous ones.
   */
  lemma PartialLoadAfterBadRecord(b: Button, firstId: nat)
    ensures var d := map["buttons" := List([EncodeSized(b), Obj(map[])])];
            SizedButtons(d, firstId) == Some(Decoded([SizedRestored(b, firstId)], false))
  {
    var d := map["buttons" := List([EncodeSized(b), Obj(map[])])];
    var items := [EncodeSized(b), Obj(map[])];
    assert Items(GetOr(d, "buttons", List([]))) == Some(items);
    assert items[..1] == [EncodeSized(b)];
    assert items[..1][..0] == [];
    DecodeEncodedSized(b, firstId);
    assert DecodeRecords(items[..1], firstId, DecodeSized) == Decoded([SizedRestored(b, firstId)], true);
    assert DecodeSized(Obj(map[]), firstId + 1) == None;
  }

  /**
   * The load checked before anything is changed: the background and every
   * dict must be readable, or the file is refused as a whole. Otherwise the
   * background path (kept only if it exists) and all buttons, in file order.
   */
  function CheckedLoad(d: map<string, Value>, disk: Disk, firstId: nat): (r: Option<(Option<string>, seq<Button>)>)
    ensures r.Some? ==> Items(GetOr(d, "buttons", List([]))).Some? &&
                        |r.value.1| == |Items(GetOr(d, "buttons", List([]))).value|
  {
    var background := SizedBackground(d, disk);
    var items := Items(GetOr(d, "buttons", List([])));
    if background.None? || items.None? then None
    else match DecodeAll(items.value, firstId, DecodeSized)
      case Some(bs) => Some((background.value, bs))
      case None => None
  }

  /**
   * The checked load accepts exactly the files the unchecked loop reads to
   * the end, with the same background and buttons.
   */
  lemma CheckedLoadAgrees(d: map<string, Value>, disk: Disk, firstId: nat)
    ensures CheckedLoad(d, disk, firstId).Some? <==>
              SizedBackground(d, disk).Some? && SizedButtons(d, firstId).Some? &&
              SizedButtons(d, firstId).value.complete
    ensures CheckedLoad(d, disk, firstId).Some? ==>
              CheckedLoad(d, disk, firstId).value ==
                (SizedBackground(d, disk).value, SizedButtons(d, firstId).value.buttons)
  {
    var items := Items(GetOr(d, "buttons", List([])));
    if items.Some? {
      DecodeAllAgrees(items.value, firstId, DecodeSized);
    }
  }

  /** Every file `save_picker` writes passes the checked load. */
  lemma CheckedLoadAcceptsSaved(bs: seq<Button>, backgroundImage: Option<string>, disk: Disk, firstId: nat)
    ensures var r := CheckedLoad(SizedDocument(bs, backgroundImage).fields, disk, firstId);
            r.Some? && |r.value.1| == |bs| &&
            forall k :: 0 <= k < |bs| ==> r.value.1[k] == SizedRestored(bs[k], firstId + k)
  {
    var d := SizedDocument(bs, backgroundImage).fields;
    SizedSaveLoadRoundTrip(bs, backgroundImage, disk, firstId);
    CheckedLoadAgrees(d, disk, firstId);
  }

  /** Buttons the checked load builds are square, unselected and carry consecutive fresh ids. */
  lemma CheckedLoadFacts(d: map<string, Value>, disk: Disk, firstId: nat)
    requires CheckedLoad(d, disk, firstId).Some?
    ensures var bs := CheckedLoad(d, disk, firstId).value.1;
            AllSized(bs) && WellFormed(bs, firstId + |bs|) &&
            forall j :: 0 <= j < |bs| ==> !bs[j].selected
  {
    var items := Items(GetOr(d, "buttons", List([]))).value;
    CheckedLoadAgrees(d, disk, firstId);
    SizedButtonsFacts(items, firstId);
    DecodeRecordsKeeps(items, firstId);
  }
}
