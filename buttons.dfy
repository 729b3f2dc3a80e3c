// The picker-button record shared by the QPushButton windows, and the host
// (Maya) selection commands the windows issue.

module Buttons {

  /** A widget position or a mouse offset, in integer pixels. */
  datatype Point = Point(x: int, y: int)

  function Translate(p: Point, d: Point): Point
  {
    Point(p.x + d.x, p.y + d.y)
  }

  function Minus(p: Point, q: Point): Point
  {
    Point(p.x - q.x, p.y - q.y)
  }

  /** Qt's `QPoint.manhattanLength`. */
  function Manhattan(d: Point): nat
  {
    (if d.x < 0 then -d.x else d.x) + (if d.y < 0 then -d.y else d.y)
  }

  datatype Size = Size(width: int, height: int)

  /** The picker area's size when no background image sets it. */
  const DefaultBackground: Size := Size(800, 600)

  /**
   * One picker button. `id` stands for the Python object's identity (the
   * windows key dictionaries by button); `width == height` in the variants
   * that store a single `size`, and `customText` is empty where the
   * variant has no custom label.
   */
  datatype Button = Button(
    id: nat,
    controller: string,
    color: string,
    shape: string,
    width: int,
    height: int,
    customText: string,
    pos: Point,
    selected: bool,
    draggable: bool)

  /** A freshly constructed `PickerButton`: draggable, not selected. */
  function NewButton(id: nat, controller: string, color: string, shape: string,
                     width: int, height: int, customText: string, pos: Point): (b: Button)
    ensures b.draggable && !b.selected
  {
    Button(id, controller, color, shape, width, height, customText, pos, false, true)
  }

  /** The mouse button of a press. */
  datatype MouseButton = LeftButton | RightButton | OtherButton

  /**
   * What the file system answers: the paths that exist (`os.path.exists`),
   * and the images that load into a non-null pixmap, with their pixel size.
   */
  datatype Disk = Disk(paths: set<string>, images: map<string, Size>)

  /** A call of `cmds.select`: `SelectNodes(ns, false)` replaces the host selection, `SelectNodes(ns, true)` adds to it. */
  datatype HostCommand = SelectNodes(nodes: seq<string>, add: bool) | ClearSelection

  /** Indices of the selected buttons. */
  function SelectedIndices(bs: seq<Button>): set<int>
  {
    set j | 0 <= j < |bs| && bs[j].selected
  }

  /** Ids (object identities) run strictly upward along the list and stay below `next`. */
  predicate WellFormed(bs: seq<Button>, next: nat)
  {
    (forall j :: 0 <= j < |bs| ==> bs[j].id < next) &&
    (forall j, k :: 0 <= j < k < |bs| ==> bs[j].id < bs[k].id)
  }

  /** Same buttons in the same order, flags and positions aside. */
  predicate SameIds(bs: seq<Button>, cs: seq<Button>)
  {
    |bs| == |cs| && forall j :: 0 <= j < |bs| ==> bs[j].id == cs[j].id
  }

  lemma SameIdsWellFormed(bs: seq<Button>, cs: seq<Button>, next: nat)
    requires WellFormed(bs, next) && SameIds(bs, cs)
    ensures WellFormed(cs, next)
  {
  }

  /** Appending a button with a fresh id keeps the ids in order. */
  lemma AppendWellFormed(bs: seq<Button>, b: Button, next: nat)
    requires WellFormed(bs, next) && b.id == next
    ensures WellFormed(bs + [b], next + 1)
  {
  }

  /** Buttons numbered consecutively from `firstId` are well formed below the next number. */
  lemma ConsecutiveWellFormed(bs: seq<Button>, firstId: nat)
    requires forall k :: 0 <= k < |bs| ==> bs[k].id == firstId + k
    ensures WellFormed(bs, firstId + |bs|)
  {
  }
}
