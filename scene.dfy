// The graphics-scene pickers of Gemini02.js and Gemini06.js: each button is
// an item of a Qt scene holding a node name, a shape, a size, an RGBA colour
// and a position; files hold one `to_dict` dict per item and the optional
// background image path.

module Scene {
  import opened Wrappers
  import opened Text
  import opened Names
  import opened Buttons
  import opened Json

  /** A `QColor` by its red, green, blue and alpha components. */
  datatype Rgba = Rgba(r: int, g: int, b: int, a: int)

  /** The components of a valid `QColor`. */
  predicate InRange(c: Rgba)
  {
    0 <= c.r <= 255 && 0 <= c.g <= 255 && 0 <= c.b <= 255 && 0 <= c.a <= 255
  }

  /** A `QPointF` scene position. */
  datatype PointF = PointF(x: real, y: real)

  /**
   * One picker item. `movable` and `selectable` are its Qt flags, `selected`
   * its scene selection. `inEditMode` is the attribute of Gemini06.js's proxy
   * button; Gemini02.js's items have no such attribute and keep it `true`.
   */
  datatype Item = Item(
    id: nat,
    nodeName: string,
    shape: string,
    size: int,
    color: Rgba,
    pos: PointF,
    movable: bool,
    selectable: bool,
    selected: bool,
    inEditMode: bool)

  /** The label drawn on an item keeps every character of the short name in place, each '_' a line break. */
  lemma SceneLabelChars(nodeName: string)
    ensures var s := AfterLastColon(nodeName);
            |SceneLabel(nodeName)| == |s| &&
            forall k :: 0 <= k < |s| ==> SceneLabel(nodeName)[k] == if s[k] == '_' then '\n' else s[k]
  {
    var s := AfterLastColon(nodeName);
    ReplaceCharIsExpand(s, '_', "\n");
    ExpandCharPointwise(s, '_', '\n');
  }

  /** A new item: movable and selectable, unselected, at the scene origin. */
  function NewItem(id: nat, nodeName: string, shape: string, size: int, color: Rgba, inEditMode: bool): Item
  {
    Item(id, nodeName, shape, size, color, PointF(0.0, 0.0), true, true, false, inEditMode)
  }

  /** Item ids strictly increase along the list and are below `next`. */
  predicate Ordered(items: seq<Item>, next: nat)
  {
    (forall j, k :: 0 <= j < k < |items| ==> items[j].id < items[k].id) &&
    (forall j :: 0 <= j < |items| ==> items[j].id < next)
  }

  /** Every item colour is a valid `QColor`. */
  predicate ColorsInRange(items: seq<Item>)
  {
    forall j :: 0 <= j < |items| ==> InRange(items[j].color)
  }

  // ---------------------------------------------------------------------------
  // `to_dict` / `from_dict`

  /** The dict `to_dict` returns. */
  function ToDict(b: Item): Value
  {
    Obj(map[
      "node_name" := Str(b.nodeName),
      "shape" := Str(b.shape),
      "position" := List([Real(b.pos.x), Real(b.pos.y)]),
      "size" := Int(b.size),
      "color" := List([Int(b.color.r), Int(b.color.g), Int(b.color.b), Int(b.color.a)])])
  }

  /** One colour component `QColor` accepts. */
  predicate Component(v: Value)
  {
    v.Int? && 0 <= v.i <= 255
  }

  /** `QColor(*v)`: three or four integer components in 0..255; alpha defaults to opaque. */
  function AsColor(v: Value): (r: Option<Rgba>)
    ensures r.Some? ==> InRange(r.value)
  {
    if v.List? && (|v.items| == 3 || |v.items| == 4) &&
       Component(v.items[0]) && Component(v.items[1]) && Component(v.items[2]) &&
       (|v.items| == 3 || Component(v.items[3]))
    then Some(Rgba(v.items[0].i, v.items[1].i, v.items[2].i, if |v.items| == 4 then v.items[3].i else 255))
    else None
  }

  /** `QPointF(*v)`: two numbers, or none at all for the origin. */
  function AsPointF(v: Value): (r: Option<PointF>)
    ensures v == List([]) ==> r == Some(PointF(0.0, 0.0))
  {
    if v.List? && |v.items| == 0 then Some(PointF(0.0, 0.0))
    else if v.List? && |v.items| == 2 && AsNumber(v.items[0]).Some? && AsNumber(v.items[1]).Some?
    then Some(PointF(AsNumber(v.items[0]).value, AsNumber(v.items[1]).value))
    else None
  }

  /**
   * `from_dict` followed by the attribute the window sets: all five keys are
   * required, the node name must be a string and the colour and position
   * must convert; the item is new apart from its position.
   */
  function FromDict(v: Value, id: nat, inEditMode: bool): (r: Option<Item>)
    ensures r.Some? ==>
              v.Obj? && "node_name" in v.fields && v.fields["node_name"] == Str(r.value.nodeName) &&
              "color" in v.fields && AsColor(v.fields["color"]) == Some(r.value.color) &&
              "position" in v.fields && AsPointF(v.fields["position"]) == Some(r.value.pos) &&
              r.value.id == id && r.value.movable && r.value.selectable && !r.value.selected &&
              r.value.inEditMode == inEditMode && InRange(r.value.color)
  {
    if !v.Obj? then None
    else
      var d := v.fields;
      if "node_name" !in d || "shape" !in d || "size" !in d || "color" !in d || "position" !in d then None
      else if !d["node_name"].Str? || !d["shape"].Str? || !d["size"].Int? then None
      else match (AsColor(d["color"]), AsPointF(d["position"]))
        case (Some(c), Some(p)) =>
          Some(NewItem(id, d["node_name"].s, d["shape"].s, d["size"].i, c, inEditMode).(pos := p))
        case _ => None
  }

  /** What reopening a saved item gives: a new item with the saved fields and position. */
  function Reopened(b: Item, id: nat, inEditMode: bool): Item
  {
    NewItem(id, b.nodeName, b.shape, b.size, b.color, inEditMode).(pos := b.pos)
  }

  /** `from_dict(to_dict(b))` reproduces the node name, shape, size, RGBA colour and position. */
  lemma FromDictToDict(b: Item, id: nat, inEditMode: bool)
    requires InRange(b.color)
    ensures FromDict(ToDict(b), id, inEditMode) == Some(Reopened(b, id, inEditMode))
  {
    var c := List([Int(b.color.r), Int(b.color.g), Int(b.color.b), Int(b.color.a)]);
    assert AsColor(c) == Some(b.color);
    var p := List([Real(b.pos.x), Real(b.pos.y)]);
    assert AsPointF(p) == Some(b.pos);
  }

  // ---------------------------------------------------------------------------
  // Item lists in files

  /** The saved list: one dict per item, in the given order. */
  function ToDicts(items: seq<Item>): (vs: seq<Value>)
    ensures |vs| == |items|
    ensures forall k :: 0 <= k < |items| ==> vs[k] == ToDict(items[k])
  {
    seq(|items|, k requires 0 <= k < |items| => ToDict(items[k]))
  }

  /** The save loop `for item in self.scene.items(): ... append(item.to_dict())`. */
  method WriteDicts(items: seq<Item>) returns (vs: seq<Value>)
    ensures vs == ToDicts(items)
  {
    vs := [];
    var i := 0;
    while i < |items|
      invariant 0 <= i <= |items|
      invariant vs == ToDicts(items[..i])
    {
      vs := vs + [ToDict(items[i])];
      i := i + 1;
    }
    assert items[..i] == items;
  }

  /** Outcome of the open loop: the items added before any failure, and whether all were read. */
  datatype Read = Read(items: seq<Item>, complete: bool)

  /** Reads the dicts in file order with consecutive ids; the first one that raises ends the loop. */
  function DecodeItems(vs: seq<Value>, firstId: nat, inEditMode: bool): (r: Read)
    ensures |r.items| <= |vs|
    ensures r.complete ==> |r.items| == |vs|
    decreases |vs|
  {
    if vs == [] then Read([], true)
    else ReadStep(DecodeItems(vs[..|vs| - 1], firstId, inEditMode), vs[|vs| - 1], firstId, inEditMode)
  }

  /** One turn of the open loop: after a failure nothing more is read. */
  function ReadStep(prev: Read, v: Value, firstId: nat, inEditMode: bool): (r: Read)
    ensures |r.items| <= |prev.items| + 1
    ensures r.complete ==> prev.complete && |r.items| == |prev.items| + 1
  {
    if !prev.complete then prev
    else match FromDict(v, firstId + |prev.items|, inEditMode)
      case None => Read(prev.items, false)
      case Some(b) => Read(prev.items + [b], true)
  }

  /** Once a dict has failed, the later ones are not read. */
  lemma {:induction false} DecodeItemsStops(vs: seq<Value>, i: nat, firstId: nat, inEditMode: bool)
    requires i <= |vs| && !DecodeItems(vs[..i], firstId, inEditMode).complete
    ensures DecodeItems(vs, firstId, inEditMode) == DecodeItems(vs[..i], firstId, inEditMode)
    decreases |vs| - i
  {
    if i < |vs| {
      assert vs[..i + 1][..i] == vs[..i];
      DecodeItemsStops(vs, i + 1, firstId, inEditMode);
    } else {
      assert vs[..i] == vs;
    }
  }

  /** The open loop over one more dict is one more turn. */
  lemma DecodeItemsSnoc(vs: seq<Value>, i: nat, firstId: nat, inEditMode: bool)
    requires i < |vs|
    ensures DecodeItems(vs[..i + 1], firstId, inEditMode) ==
            ReadStep(DecodeItems(vs[..i], firstId, inEditMode), vs[i], firstId, inEditMode)
  {
    assert vs[..i + 1][..i] == vs[..i];
  }

  /** The open loop `for btn_data in data.get("buttons", []): ... addItem(btn)`. */
  method ReadItems(vs: seq<Value>, firstId: nat, inEditMode: bool) returns (items: seq<Item>, complete: bool)
    ensures Read(items, complete) == DecodeItems(vs, firstId, inEditMode)
  {
    items := [];
    complete := true;
    var i := 0;
    while i < |vs| && complete
      invariant 0 <= i <= |vs|
      invariant Read(items, complete) == DecodeItems(vs[..i], firstId, inEditMode)
    {
      DecodeItemsSnoc(vs, i, firstId, inEditMode);
      var b := FromDict(vs[i], firstId + |items|, inEditMode);
      if b.Some? {
        ReadStepReads(Read(items, complete), vs[i], firstId, inEditMode, b.value);
        items := items + [b.value];
      } else {
        ReadStepFails(Read(items, complete), vs[i], firstId, inEditMode);
        complete := false;
      }
      i := i + 1;
    }
    if complete {
      assert vs[..i] == vs;
    } else {
      DecodeItemsStops(vs, i, firstId, inEditMode);
    }
  }

  /** An item as an open creates it: with the given id and mode, unselected, with a valid colour. */
  predicate Fresh(b: Item, id: nat, inEditMode: bool)
  {
    b.id == id && !b.selected && b.inEditMode == inEditMode && InRange(b.color)
  }

  /** Items read from a file get consecutive fresh ids, unselected and in the given mode. */
  lemma {:induction false} DecodeItemsFresh(vs: seq<Value>, firstId: nat, inEditMode: bool)
    ensures forall k :: 0 <= k < |DecodeItems(vs, firstId, inEditMode).items| ==>
              Fresh(DecodeItems(vs, firstId, inEditMode).items[k], firstId + k, inEditMode)
    decreases |vs|
  {
    if vs != [] {
      var pre := vs[..|vs| - 1];
      DecodeItemsFresh(pre, firstId, inEditMode);
      var prev := DecodeItems(pre, firstId, inEditMode);
      if prev.complete {
        var b := FromDict(vs[|vs| - 1], firstId + |prev.items|, inEditMode);
        if b.Some? {
          var x := b.value;
          assert InRange(x.color) by {
            assert AsColor(vs[|vs| - 1].fields["color"]) == Some(x.color);
          }
          var r := DecodeItems(vs, firstId, inEditMode).items;
          assert r == prev.items + [x];
          assert x.id == firstId + |prev.items| && !x.selected && x.inEditMode == inEditMode;
          forall k | 0 <= k < |r|
            ensures Fresh(r[k], firstId + k, inEditMode)
          {
            if k < |prev.items| {
              assert r[k] == prev.items[k];
            } else {
              assert r[k] == x;
            }
          }
        }
      }
    }
  }

  /** Items read from a file into the cleared scene are well ordered, with valid colours. */
  lemma DecodeItemsOrdered(vs: seq<Value>, next: nat, inEditMode: bool)
    ensures var r := DecodeItems(vs, next, inEditMode).items;
            Ordered(r, next + |r|) && ColorsInRange(r)
  {
    var r := DecodeItems(vs, next, inEditMode).items;
    DecodeItemsFresh(vs, next, inEditMode);
    forall j | 0 <= j < |r| ensures r[j].id == next + j && InRange(r[j].color) {
      assert Fresh(r[j], next + j, inEditMode);
    }
  }

  /** A turn of the open loop on a dict that raises ends the loop with the items so far. */
  lemma ReadStepFails(prev: Read, v: Value, firstId: nat, inEditMode: bool)
    requires prev.complete && FromDict(v, firstId + |prev.items|, inEditMode).None?
    ensures ReadStep(prev, v, firstId, inEditMode) == Read(prev.items, false)
  {
  }

  /** A turn of the open loop on a dict that reads appends its item. */
  lemma ReadStepReads(prev: Read, v: Value, firstId: nat, inEditMode: bool, b: Item)
    requires prev.complete && FromDict(v, firstId + |prev.items|, inEditMode) == Some(b)
    ensures ReadStep(prev, v, firstId, inEditMode) == Read(prev.items + [b], true)
  {
  }

  /** When every dict reads with the id it gets, the open reads them all, in order. */
  lemma DecodeItemsAll(vs: seq<Value>, out: seq<Item>, firstId: nat, inEditMode: bool)
    requires |vs| == |out|
    requires forall k :: 0 <= k < |vs| ==> FromDict(vs[k], firstId + k, inEditMode) == Some(out[k])
    ensures DecodeItems(vs, firstId, inEditMode) == Read(out, true)
  {
    DecodeItemsAllPrefix(vs, out, firstId, inEditMode, |vs|);
    assert vs[..|vs|] == vs && out[..|vs|] == out;
  }

  /** The induction behind `DecodeItemsAll`, over the first `i` dicts. */
  lemma {:induction false} DecodeItemsAllPrefix(vs: seq<Value>, out: seq<Item>, firstId: nat, inEditMode: bool, i: nat)
    requires i <= |vs| == |out|
    requires forall k :: 0 <= k < |vs| ==> FromDict(vs[k], firstId + k, inEditMode) == Some(out[k])
    ensures DecodeItems(vs[..i], firstId, inEditMode) == Read(out[..i], true)
  {
    if i > 0 {
      var n := i - 1;
      DecodeItemsAllPrefix(vs, out, firstId, inEditMode, n);
      assert vs[..i][..n] == vs[..n] && vs[..i][n] == vs[n];
      assert DecodeItems(vs[..i], firstId, inEditMode) ==
             ReadStep(Read(out[..n], true), vs[n], firstId, inEditMode);
      ReadStepReads(Read(out[..n], true), vs[n], firstId, inEditMode, out[n]);
      assert out[..i] == out[..n] + [out[n]];
    }
  }

  /** Dicts written by `to_dict` are all read back, in order, as `Reopened` says. */
  lemma DecodeItemsToDicts(items: seq<Item>, firstId: nat, inEditMode: bool)
    requires ColorsInRange(items)
    ensures DecodeItems(ToDicts(items), firstId, inEditMode) == Read(ReopenedAll(items, firstId, inEditMode), true)
  {
    var vs := ToDicts(items);
    var out := ReopenedAll(items, firstId, inEditMode);
    forall k | 0 <= k < |vs| ensures FromDict(vs[k], firstId + k, inEditMode) == Some(out[k]) {
      FromDictToDict(items[k], firstId + k, inEditMode);
    }
    DecodeItemsAll(vs, out, firstId, inEditMode);
  }

  /** Each item reopened with consecutive ids from `firstId`. */
  function ReopenedAll(items: seq<Item>, firstId: nat, inEditMode: bool): (r: seq<Item>)
    ensures |r| == |items|
    ensures forall k :: 0 <= k < |items| ==> r[k] == Reopened(items[k], firstId + k, inEditMode)
  {
    seq(|items|, k requires 0 <= k < |items| => Reopened(items[k], firstId + k, inEditMode))
  }

  // ---------------------------------------------------------------------------
  // Scene order

  /**
   * `scene.items()` lists the items in an order Qt chooses: `order` gives,
   * for each position of that listing, the index of the item in the model.
   */
  predicate IsOrder(order: seq<nat>, n: nat)
  {
    |order| == n && (forall k :: 0 <= k < n ==> order[k] < n) && (forall j :: 0 <= j < n ==> j in order)
  }

  function Permuted(items: seq<Item>, order: seq<nat>): (r: seq<Item>)
    requires IsOrder(order, |items|)
    ensures |r| == |items|
    ensures forall k :: 0 <= k < |r| ==> r[k] == items[order[k]]
  {
    seq(|order|, k requires 0 <= k < |order| => items[order[k]])
  }

  /** Every item of the scene is listed, at a position that names it. */
  lemma PermutedCovers(items: seq<Item>, order: seq<nat>)
    requires IsOrder(order, |items|)
    ensures forall j :: 0 <= j < |items| ==> ListedAt(Permuted(items, order), order, j, items[j])
  {
    var p := Permuted(items, order);
    forall j | 0 <= j < |items|
      ensures ListedAt(p, order, j, items[j])
    {
      assert j in order;
      var k :| 0 <= k < |order| && order[k] == j;
      assert p[k] == items[j];
    }
  }

  /** Some position `k` of the listing `p` is item `j` of the model, namely `b`. */
  predicate ListedAt(p: seq<Item>, order: seq<nat>, j: nat, b: Item)
  {
    exists k :: 0 <= k < |p| && k < |order| && order[k] == j && p[k] == b
  }

  /** The list order itself is one scene order. */
  lemma IdentityOrder(n: nat)
    ensures IsOrder(seq(n, k => k), n)
  {
    var o := seq(n, k => k);
    forall j | 0 <= j < n ensures j in o {
      assert o[j] == j;
    }
  }

  // ---------------------------------------------------------------------------
  // Files

  /** The file `_save_to_file` writes for items listed in scene order. */
  function SceneDocument(listed: seq<Item>, backgroundImage: Option<string>): Value
  {
    Obj(map[
      "backgroundImage" := (if backgroundImage.Some? then Str(backgroundImage.value) else Null),
      "buttons" := List(ToDicts(listed))])
  }

  /** What opening a parsed file leaves in the cleared scene. */
  datatype Opened = Opened(items: seq<Item>, backgroundImage: Option<string>, complete: bool)

  /**
   * `open_picker` after `new_picker`, as written: a background key that is
   * non-empty and names an existing file is handed to the window's
   * zero-argument `set_background_image` slot, which raises before any
   * button is read; a missing file is only reported; then the buttons are
   * read in file order.
   */
  function OpenedAsWritten(data: Value, disk: Disk, firstId: nat, inEditMode: bool): Opened
  {
    if !data.Obj? then Opened([], None, false)
    else
      var d := data.fields;
      var bg := GetOr(d, "backgroundImage", Null);
      if Truthy(bg) && (!bg.Str? || bg.s in disk.paths) then Opened([], None, false)
      else match Items(GetOr(d, "buttons", List([])))
        case None => Opened([], None, false)
        case Some(vs) =>
          var r := DecodeItems(vs, firstId, inEditMode);
          Opened(r.items, None, r.complete)
  }

  /**
   * `open_picker` as evidently intended: an existing background file is
   * shown and its path kept, and the buttons are read as before.
   */
  function OpenedIntended(data: Value, disk: Disk, firstId: nat, inEditMode: bool): Opened
  {
    if !data.Obj? then Opened([], None, false)
    else
      var d := data.fields;
      var bg := GetOr(d, "backgroundImage", Null);
      if Truthy(bg) && !bg.Str? then Opened([], None, false)
      else
        var background := if Truthy(bg) && bg.s in disk.paths then Some(bg.s) else None;
        match Items(GetOr(d, "buttons", List([])))
        case None => Opened([], background, false)
        case Some(vs) =>
          var r := DecodeItems(vs, firstId, inEditMode);
          Opened(r.items, background, r.complete)
  }

  /**
   * The body of `open_picker` once the scene is cleared, as written: the
   * background check, then the read loop over the buttons.
   */
  method OpenDocument(data: Value, disk: Disk, firstId: nat, inEditMode: bool) returns (o: Opened)
    ensures o == OpenedAsWritten(data, disk, firstId, inEditMode)
    ensures Ordered(o.items, firstId + |o.items|) && ColorsInRange(o.items)
  {
    if !data.Obj? {
      return Opened([], None, false);
    }
    var d := data.fields;
    var bg := GetOr(d, "backgroundImage", Null);
    if Truthy(bg) && (!bg.Str? || bg.s in disk.paths) {
      // the path goes to the window's zero-argument slot, which raises
      return Opened([], None, false);
    }
    var vs := Items(GetOr(d, "buttons", List([])));
    if vs.None? {
      return Opened([], None, false);
    }
    var read, complete := ReadItems(vs.value, firstId, inEditMode);
    DecodeItemsOrdered(vs.value, firstId, inEditMode);
    return Opened(read, None, complete);
  }

  /** The same with the background shown and kept, as evidently intended. */
  method OpenDocumentIntended(data: Value, disk: Disk, firstId: nat, inEditMode: bool) returns (o: Opened)
    ensures o == OpenedIntended(data, disk, firstId, inEditMode)
    ensures Ordered(o.items, firstId + |o.items|) && ColorsInRange(o.items)
  {
    if !data.Obj? {
      return Opened([], None, false);
    }
    var d := data.fields;
    var bg := GetOr(d, "backgroundImage", Null);
    if Truthy(bg) && !bg.Str? {
      return Opened([], None, false);
    }
    var background := None;
    if Truthy(bg) && bg.s in disk.paths {
      background := Some(bg.s);
    }
    var vs := Items(GetOr(d, "buttons", List([])));
    if vs.None? {
      return Opened([], background, false);
    }
    var read, complete := ReadItems(vs.value, firstId, inEditMode);
    DecodeItemsOrdered(vs.value, firstId, inEditMode);
    return Opened(read, background, complete);
  }

  /**
   * As written, a file saved with a background image that still exists
   * never opens: the scene stays empty and the open does not complete.
   */
  lemma OpenSavedWithBackgroundFails(listed: seq<Item>, path: string, disk: Disk, firstId: nat, inEditMode: bool)
    requires path != "" && path in disk.paths
    ensures OpenedAsWritten(SceneDocument(listed, Some(path)), disk, firstId, inEditMode) == Opened([], None, false)
  {
    var d := SceneDocument(listed, Some(path)).fields;
    assert GetOr(d, "backgroundImage", Null) == Str(path);
  }

  /** As written, a file without a background image opens completely. */
  lemma OpenSavedNoBackground(listed: seq<Item>, disk: Disk, firstId: nat, inEditMode: bool)
    requires ColorsInRange(listed)
    ensures var o := OpenedAsWritten(SceneDocument(listed, None), disk, firstId, inEditMode);
            o.complete && o.backgroundImage.None? && |o.items| == |listed| &&
            forall k :: 0 <= k < |listed| ==> o.items[k] == Reopened(listed[k], firstId + k, inEditMode)
  {
    var d := SceneDocument(listed, None).fields;
    assert GetOr(d, "backgroundImage", Null) == Null;
    assert Items(GetOr(d, "buttons", List([]))) == Some(ToDicts(listed));
    DecodeItemsToDicts(listed, firstId, inEditMode);
  }

  /**
   * With the intended open, every saved file opens completely: the items in
   * saved order and the background image when its file still exists.
   */
  lemma OpenSavedIntended(listed: seq<Item>, backgroundImage: Option<string>, disk: Disk, firstId: nat, inEditMode: bool)
    requires ColorsInRange(listed)
    ensures var o := OpenedIntended(SceneDocument(listed, backgroundImage), disk, firstId, inEditMode);
            o.complete && |o.items| == |listed| &&
            (forall k :: 0 <= k < |listed| ==> o.items[k] == Reopened(listed[k], firstId + k, inEditMode)) &&
            o.backgroundImage == (if backgroundImage.Some? && backgroundImage.value != "" &&
                                     backgroundImage.value in disk.paths
                                  then backgroundImage else None)
  {
    var d := SceneDocument(listed, backgroundImage).fields;
    assert Items(GetOr(d, "buttons", List([]))) == Some(ToDicts(listed));
    var bg := GetOr(d, "backgroundImage", Null);
    assert bg == if backgroundImage.Some? then Str(backgroundImage.value) else Null;
    assert Truthy(bg) <==> backgroundImage.Some? && backgroundImage.value != "";
    DecodeItemsToDicts(listed, firstId, inEditMode);
  }

  /** The two opens differ only on files naming an existing background image. */
  lemma OpenedAgreeWithoutBackground(data: Value, disk: Disk, firstId: nat, inEditMode: bool)
    requires data.Obj?
    requires var bg := GetOr(data.fields, "backgroundImage", Null);
             !Truthy(bg) || (bg.Str? && bg.s !in disk.paths)
    ensures OpenedAsWritten(data, disk, firstId, inEditMode) == OpenedIntended(data, disk, firstId, inEditMode)
  {
  }

  // ---------------------------------------------------------------------------
  // Deleting

  /** The scene without its selected items, order kept. */
  function Kept(items: seq<Item>): seq<Item>
    decreases |items|
  {
    if items == [] then []
    else (if items[0].selected then [] else [items[0]]) + Kept(items[1..])
  }

  lemma {:induction false} KeptAppend(u: seq<Item>, v: seq<Item>)
    ensures Kept(u + v) == Kept(u) + Kept(v)
    decreases |u|
  {
    if u == [] {
      assert u + v == v;
    } else {
      assert (u + v)[1..] == u[1..] + v;
      KeptAppend(u[1..], v);
    }
  }

  /** `for item in self.scene.selectedItems(): self.scene.removeItem(item)`. */
  method RemoveSelectedItems(items: seq<Item>) returns (r: seq<Item>)
    ensures r == Kept(items)
  {
    r := items;
    var i := |items|;
    while i > 0
      invariant 0 <= i <= |items|
      invariant r == items[..i] + Kept(items[i..])
    {
      i := i - 1;
      ghost var tail := Kept(items[i + 1..]);
      assert items[i..][1..] == items[i + 1..];
      assert Kept(items[i..]) == (if items[i].selected then [] else [items[i]]) + tail;
      assert r == items[..i] + [items[i]] + tail by {
        assert items[..i + 1] == items[..i] + [items[i]];
      }
      if r[i].selected {
        r := r[..i] + r[i + 1..];
        assert r == items[..i] + tail;
      } else {
        assert r == items[..i] + ([items[i]] + tail);
      }
    }
  }

  /** An item survives the delete exactly when it was in the scene and not selected. */
  lemma {:induction false} KeptMembers(items: seq<Item>, b: Item)
    ensures b in Kept(items) <==> b in items && !b.selected
    decreases |items|
  {
    if items != [] {
      KeptMembers(items[1..], b);
      assert items == [items[0]] + items[1..];
    }
  }

  /** Deleting keeps the ids in order and the colours valid. */
  lemma {:induction false} KeptOrdered(items: seq<Item>, next: nat)
    requires Ordered(items, next) && ColorsInRange(items)
    ensures Ordered(Kept(items), next) && ColorsInRange(Kept(items))
    decreases |items|
  {
    if items != [] {
      KeptOrdered(items[1..], next);
      var rest := Kept(items[1..]);
      forall b | b in rest ensures items[0].id < b.id {
        KeptMembers(items[1..], b);
      }
    }
  }

  /**
   * The selection Qt reports after a click or rubber band in the scene: the
   * selectable items whose identity is in `sel` are selected, all others not.
   */
  function WithSelection(items: seq<Item>, sel: set<nat>): (r: seq<Item>)
    ensures |r| == |items|
    ensures forall j :: 0 <= j < |items| ==>
              r[j] == items[j].(selected := r[j].selected) &&
              (r[j].selected <==> items[j].selectable && items[j].id in sel)
  {
    seq(|items|, j requires 0 <= j < |items| => items[j].(selected := items[j].selectable && items[j].id in sel))
  }

  /**
   * Deleting after such a selection removes exactly the selectable items
   * chosen by `sel`; ids stay ordered and colours valid.
   */
  lemma SelectThenDelete(items: seq<Item>, sel: set<nat>, next: nat)
    requires Ordered(items, next) && ColorsInRange(items)
    ensures var s := WithSelection(items, sel);
            Ordered(s, next) && ColorsInRange(s) &&
            forall j :: 0 <= j < |items| ==>
              (s[j] in Kept(s) <==> !(items[j].selectable && items[j].id in sel))
  {
    var s := WithSelection(items, sel);
    forall j | 0 <= j < |items|
      ensures s[j] in Kept(s) <==> !(items[j].selectable && items[j].id in sel)
    {
      KeptMembers(s, s[j]);
    }
  }

  // ---------------------------------------------------------------------------
  // Adding

  /** The items `add_control_button` creates, one per host-selected node in selection order. */
  function NewItems(nodes: seq<string>, firstId: nat, shape: string, size: int, color: Rgba, inEditMode: bool)
    : (r: seq<Item>)
    ensures |r| == |nodes|
    ensures forall k :: 0 <= k < |nodes| ==> r[k] == NewItem(firstId + k, nodes[k], shape, size, color, inEditMode)
  {
    seq(|nodes|, k requires 0 <= k < |nodes| => NewItem(firstId + k, nodes[k], shape, size, color, inEditMode))
  }

  /** Appending the new items keeps the scene ordered and its colours valid. */
  lemma NewItemsOrdered(items: seq<Item>, next: nat, nodes: seq<string>, shape: string, size: int,
                        color: Rgba, inEditMode: bool)
    requires Ordered(items, next) && ColorsInRange(items) && InRange(color)
    ensures var r := items + NewItems(nodes, next, shape, size, color, inEditMode);
            Ordered(r, next + |nodes|) && ColorsInRange(r)
  {
  }
}
