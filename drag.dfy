// Moving several selected buttons together: a snapshot of the selected
// buttons' positions, keyed by button identity, and a move that puts every
// snapshotted button at its recorded position plus the drag offset.

module Dragging {
  import opened Buttons

  /** The snapshot `{btn: btn.pos() for btn in buttons if btn.is_selected}`. */
  function SelectedPositions(bs: seq<Button>): (m: map<nat, Point>)
    ensures forall id :: id in m ==> exists j :: 0 <= j < |bs| && bs[j].selected && bs[j].id == id
    decreases |bs|
  {
    if bs == [] then map[]
    else
      var n := |bs| - 1;
      var prev := SelectedPositions(bs[..n]);
      assert forall id :: id in prev ==> exists j :: 0 <= j < n && bs[j].selected && bs[j].id == id by {
        forall id | id in prev ensures exists j :: 0 <= j < n && bs[j].selected && bs[j].id == id {
          var j :| 0 <= j < n && bs[..n][j].selected && bs[..n][j].id == id;
          assert bs[j] == bs[..n][j];
        }
      }
      if bs[n].selected then prev[bs[n].id := bs[n].pos] else prev
  }

  /**
   * With distinct identities, the snapshot holds exactly the selected
   * buttons, each at its position.
   */
  lemma {:induction false} SelectedPositionsExact(bs: seq<Button>, next: nat)
    requires WellFormed(bs, next)
    ensures forall j :: 0 <= j < |bs| ==> (bs[j].id in SelectedPositions(bs) <==> bs[j].selected)
    ensures forall j :: 0 <= j < |bs| && bs[j].selected ==> SelectedPositions(bs)[bs[j].id] == bs[j].pos
    decreases |bs|
  {
    if bs != [] {
      var n := |bs| - 1;
      var pre := bs[..n];
      var last := bs[n];
      assert WellFormed(pre, last.id) by {
        forall j | 0 <= j < n ensures pre[j].id < last.id {
          assert pre[j] == bs[j];
        }
        forall j, k | 0 <= j < k < n ensures pre[j].id < pre[k].id {
          assert pre[j] == bs[j] && pre[k] == bs[k];
        }
      }
      SelectedPositionsExact(pre, last.id);
      var prev := SelectedPositions(pre);
      assert last.id !in prev;
      var m := SelectedPositions(bs);
      assert m == if last.selected then prev[last.id := last.pos] else prev;
      forall j | 0 <= j < |bs|
        ensures bs[j].id in m <==> bs[j].selected
        ensures bs[j].selected ==> m[bs[j].id] == bs[j].pos
      {
        if j < n {
          assert pre[j] == bs[j];
        }
      }
    }
  }

  /**
   * Every button whose identity is in the snapshot (and, when
   * `selectedOnly`, that is selected) moves to its recorded position plus
   * `offset`; the others stay where they are.
   */
  function Shifted(bs: seq<Button>, snapshot: map<nat, Point>, offset: Point, selectedOnly: bool): (r: seq<Button>)
    ensures SameIds(bs, r)
    ensures forall j :: 0 <= j < |r| ==> r[j] == bs[j].(pos := r[j].pos)
  {
    seq(|bs|, j requires 0 <= j < |bs| =>
      if bs[j].id in snapshot && (bs[j].selected || !selectedOnly)
      then bs[j].(pos := Translate(snapshot[bs[j].id], offset))
      else bs[j])
  }

  /** Whether `Shifted` moves button `b`. */
  predicate Moves(b: Button, snapshot: map<nat, Point>, selectedOnly: bool)
  {
    b.id in snapshot && (b.selected || !selectedOnly)
  }

  /** The snapshot loop. */
  method RecordSelected(bs: seq<Button>) returns (m: map<nat, Point>)
    ensures m == SelectedPositions(bs)
  {
    m := map[];
    var i := 0;
    while i < |bs|
      invariant 0 <= i <= |bs|
      invariant m == SelectedPositions(bs[..i])
    {
      assert bs[..i + 1][..i] == bs[..i];
      if bs[i].selected {
        m := m[bs[i].id := bs[i].pos];
      }
      i := i + 1;
    }
    assert bs[..i] == bs;
  }

  /** The move loop over the buttons. */
  method MoveSnapshot(bs: seq<Button>, snapshot: map<nat, Point>, offset: Point, selectedOnly: bool)
    returns (r: seq<Button>)
    ensures r == Shifted(bs, snapshot, offset, selectedOnly)
  {
    r := bs;
    var i := 0;
    while i < |r|
      invariant 0 <= i <= |r| == |bs|
      invariant forall j :: 0 <= j < i ==> r[j] == Shifted(bs, snapshot, offset, selectedOnly)[j]
      invariant forall j :: i <= j < |r| ==> r[j] == bs[j]
    {
      var b := r[i];
      if b.id in snapshot && (b.selected || !selectedOnly) {
        r := r[i := b.(pos := Translate(snapshot[b.id], offset))];
      }
      i := i + 1;
    }
  }

  /** Two moved buttons keep the offset between their recorded positions. */
  lemma ShiftedKeepsOffsets(bs: seq<Button>, snapshot: map<nat, Point>, offset: Point, selectedOnly: bool,
                            j: int, k: int)
    requires 0 <= j < |bs| && 0 <= k < |bs|
    requires Moves(bs[j], snapshot, selectedOnly) && Moves(bs[k], snapshot, selectedOnly)
    ensures var r := Shifted(bs, snapshot, offset, selectedOnly);
            Minus(r[j].pos, r[k].pos) == Minus(snapshot[bs[j].id], snapshot[bs[k].id])
  {
  }

  /**
   * Moving the buttons of a fresh snapshot of the same list keeps their
   * pairwise offsets, and an offset of zero leaves the list as it was.
   */
  lemma ShiftedFromSnapshot(bs: seq<Button>, next: nat, offset: Point, selectedOnly: bool)
    requires WellFormed(bs, next)
    ensures var r := Shifted(bs, SelectedPositions(bs), offset, selectedOnly);
            (forall j :: 0 <= j < |bs| ==> (r[j].pos == bs[j].pos || bs[j].selected)) &&
            (forall j, k :: 0 <= j < |bs| && 0 <= k < |bs| && bs[j].selected && bs[k].selected ==>
               Minus(r[j].pos, r[k].pos) == Minus(bs[j].pos, bs[k].pos))
    ensures Shifted(bs, SelectedPositions(bs), Point(0, 0), selectedOnly) == bs
  {
    var r := Shifted(bs, SelectedPositions(bs), offset, selectedOnly);
    ShiftedSelectedPositions(bs, next, offset, selectedOnly);
    TranslateKeepsOffsets(bs, r, offset);
    var z := Shifted(bs, SelectedPositions(bs), Point(0, 0), selectedOnly);
    ShiftedSelectedPositions(bs, next, Point(0, 0), selectedOnly);
    forall j | 0 <= j < |bs| ensures z[j] == bs[j] {
      assert z[j].pos == bs[j].pos;
    }
  }

  /** Moving the selected buttons by one offset keeps their pairwise offsets. */
  lemma TranslateKeepsOffsets(bs: seq<Button>, r: seq<Button>, offset: Point)
    requires |r| == |bs|
    requires forall j :: 0 <= j < |bs| && bs[j].selected ==> r[j].pos == Translate(bs[j].pos, offset)
    ensures forall j, k :: 0 <= j < |bs| && 0 <= k < |bs| && bs[j].selected && bs[k].selected ==>
              Minus(r[j].pos, r[k].pos) == Minus(bs[j].pos, bs[k].pos)
  {
  }

  /** With a fresh snapshot, exactly the selected buttons move, each by the offset. */
  lemma ShiftedSelectedPositions(bs: seq<Button>, next: nat, offset: Point, selectedOnly: bool)
    requires WellFormed(bs, next)
    ensures var r := Shifted(bs, SelectedPositions(bs), offset, selectedOnly);
            forall j :: 0 <= j < |bs| ==>
              r[j].pos == if bs[j].selected then Translate(bs[j].pos, offset) else bs[j].pos
  {
    SelectedPositionsExact(bs, next);
  }

  /** A later move from the same snapshot overrides an earlier one: offsets do not accumulate. */
  lemma ShiftedLatestWins(bs: seq<Button>, snapshot: map<nat, Point>, d1: Point, d2: Point)
    ensures Shifted(Shifted(bs, snapshot, d1, false), snapshot, d2, false) == Shifted(bs, snapshot, d2, false)
  {
  }
}
