// The selection state machine shared by the QPushButton windows: the loops
// over `picker_buttons` that set `is_selected` and `is_draggable`, the
// delete filter, the rubber-band rectangle and the host-selection sync.
// Each loop is a method on the button list, proved equal to a function
// that states the outcome; lemmas say what that outcome means.

module Selection {
  import opened Text
  import opened Buttons

  // ---------------------------------------------------------------------------
  // Deselect all

  function AllDeselected(bs: seq<Button>): (r: seq<Button>)
    ensures SelectedIndices(r) == {}
    ensures SameIds(bs, r)
  {
    seq(|bs|, j requires 0 <= j < |bs| => bs[j].(selected := false))
  }

  /** `deselect_all_buttons`: clears every selection flag and nothing else. */
  method DeselectAll(bs: seq<Button>) returns (r: seq<Button>)
    ensures r == AllDeselected(bs)
  {
    r := bs;
    var i := 0;
    while i < |r|
      invariant 0 <= i <= |r| == |bs|
      invariant forall j :: 0 <= j < i ==> r[j] == bs[j].(selected := false)
      invariant forall j :: i <= j < |r| ==> r[j] == bs[j]
    {
      if r[i].selected {
        r := r[i := r[i].(selected := false)];
      }
      i := i + 1;
    }
  }

  // ---------------------------------------------------------------------------
  // Click selection

  /** Outcome of a click on button `i`: it is toggled; without Shift every other button is cleared. */
  function Clicked(bs: seq<Button>, i: int, shift: bool): (r: seq<Button>)
    requires 0 <= i < |bs|
    ensures SameIds(bs, r)
  {
    seq(|bs|, j requires 0 <= j < |bs| =>
      if j == i then bs[j].(selected := !bs[j].selected)
      else if shift then bs[j]
      else bs[j].(selected := false))
  }

  /** `handle_button_selection`: the loop over the other buttons, then the toggle. */
  method ToggleClick(bs: seq<Button>, i: int, shift: bool) returns (r: seq<Button>)
    requires 0 <= i < |bs|
    ensures r == Clicked(bs, i, shift)
  {
    r := bs;
    if !shift {
      var k := 0;
      while k < |r|
        invariant 0 <= k <= |r| == |bs|
        invariant forall j :: 0 <= j < k && j != i ==> r[j] == bs[j].(selected := false)
        invariant forall j :: 0 <= j < |r| && (k <= j || j == i) ==> r[j] == bs[j]
      {
        if k != i && r[k].selected {
          r := r[k := r[k].(selected := false)];
        }
        k := k + 1;
      }
    }
    r := r[i := r[i].(selected := !r[i].selected)];
  }

  /**
   * Without Shift a click leaves exactly the clicked button selected, or
   * nothing if it was selected; with Shift it flips the clicked button's
   * membership and keeps the rest of the selection.
   */
  lemma ClickedSelection(bs: seq<Button>, i: int, shift: bool)
    requires 0 <= i < |bs|
    ensures !shift ==> SelectedIndices(Clicked(bs, i, shift)) == (if bs[i].selected then {} else {i})
    ensures shift && bs[i].selected ==> SelectedIndices(Clicked(bs, i, shift)) == SelectedIndices(bs) - {i}
    ensures shift && !bs[i].selected ==> SelectedIndices(Clicked(bs, i, shift)) == SelectedIndices(bs) + {i}
  {
    var r := Clicked(bs, i, shift);
    if !shift {
      if bs[i].selected {
        assert forall j :: j in SelectedIndices(r) ==> false;
      } else {
        assert forall j :: j in SelectedIndices(r) <==> j == i;
      }
    }
  }

  /** Clicking a selected button without Shift clears it; clicking it again selects exactly it. */
  lemma ClickTwice(bs: seq<Button>, i: int)
    requires 0 <= i < |bs| && bs[i].selected
    ensures SelectedIndices(Clicked(bs, i, false)) == {}
    ensures SelectedIndices(Clicked(Clicked(bs, i, false), i, false)) == {i}
  {
    ClickedSelection(bs, i, false);
    ClickedSelection(Clicked(bs, i, false), i, false);
  }

  // ---------------------------------------------------------------------------
  // Rubber-band rectangle

  /** Indices whose geometry the rectangle intersects. */
  function HitIndices(hits: seq<bool>): set<int>
  {
    set j | 0 <= j < |hits| && hits[j]
  }

  /** Edit-mode rectangle: hits become selected; without Shift the rest is cleared first. */
  function RectSelected(bs: seq<Button>, hits: seq<bool>, shift: bool): (r: seq<Button>)
    requires |hits| == |bs|
    ensures SameIds(bs, r)
  {
    seq(|bs|, j requires 0 <= j < |bs| => bs[j].(selected := hits[j] || (shift && bs[j].selected)))
  }

  /** The Edit-mode branch of `select_buttons_in_rect`. */
  method SelectHits(bs: seq<Button>, hits: seq<bool>, shift: bool) returns (r: seq<Button>)
    requires |hits| == |bs|
    ensures r == RectSelected(bs, hits, shift)
  {
    r := bs;
    if !shift {
      r := DeselectAll(bs);
    }
    var k := 0;
    while k < |r|
      invariant 0 <= k <= |r| == |bs|
      invariant forall j :: 0 <= j < k ==> r[j] == bs[j].(selected := hits[j] || (shift && bs[j].selected))
      invariant forall j :: k <= j < |r| ==> r[j] == bs[j].(selected := shift && bs[j].selected)
    {
      if hits[k] {
        r := r[k := r[k].(selected := true)];
      }
      k := k + 1;
    }
  }

  /**
   * Without Shift the selection becomes exactly the intersecting buttons; with
   * Shift it is the old selection together with them. No hit ends unselected.
   */
  lemma RectSelection(bs: seq<Button>, hits: seq<bool>, shift: bool)
    requires |hits| == |bs|
    ensures SelectedIndices(RectSelected(bs, hits, shift)) ==
              HitIndices(hits) + (if shift then SelectedIndices(bs) else {})
    ensures HitIndices(hits) <= SelectedIndices(RectSelected(bs, hits, shift))
  {
    var r := RectSelected(bs, hits, shift);
    assert forall j :: j in SelectedIndices(r) <==>
      (j in HitIndices(hits) || (shift && j in SelectedIndices(bs)));
  }

  /** Controllers of the buttons flagged in `hits`, in list order. */
  function HitControllers(bs: seq<Button>, hits: seq<bool>): seq<string>
    requires |hits| == |bs|
    decreases |bs|
  {
    if bs == [] then []
    else
      HitControllers(bs[..|bs| - 1], hits[..|bs| - 1]) +
      (if hits[|bs| - 1] then [bs[|bs| - 1].controller] else [])
  }

  /** The Run-mode comprehension `[btn.controller for btn in picker_buttons if hit]`. */
  method CollectHitControllers(bs: seq<Button>, hits: seq<bool>) returns (names: seq<string>)
    requires |hits| == |bs|
    ensures names == HitControllers(bs, hits)
  {
    names := [];
    var k := 0;
    while k < |bs|
      invariant 0 <= k <= |bs|
      invariant names == HitControllers(bs[..k], hits[..k])
    {
      assert bs[..k + 1][..k] == bs[..k] && hits[..k + 1][..k] == hits[..k];
      if hits[k] {
        names := names + [bs[k].controller];
      }
      k := k + 1;
    }
    assert bs[..k] == bs && hits[..k] == hits;
  }

  /** A name is passed on exactly when some flagged button has that controller. */
  lemma {:induction false} HitControllersMembers(bs: seq<Button>, hits: seq<bool>, c: string)
    requires |hits| == |bs|
    ensures c in HitControllers(bs, hits) <==> exists j :: 0 <= j < |bs| && hits[j] && bs[j].controller == c
    ensures |HitControllers(bs, hits)| <= |bs|
    decreases |bs|
  {
    if bs != [] {
      var n := |bs| - 1;
      HitControllersMembers(bs[..n], hits[..n], c);
      if exists j :: 0 <= j < n && hits[..n][j] && bs[..n][j].controller == c {
        var j :| 0 <= j < n && hits[..n][j] && bs[..n][j].controller == c;
        assert hits[j] && bs[j].controller == c;
      }
      if exists j :: 0 <= j < |bs| && hits[j] && bs[j].controller == c {
        var j :| 0 <= j < |bs| && hits[j] && bs[j].controller == c;
        if j < n {
          assert hits[..n][j] && bs[..n][j].controller == c;
        }
      }
    }
  }

  /** Flags the buttons whose controller starts with `prefix`. */
  function PrefixHits(bs: seq<Button>, prefix: string): (hits: seq<bool>)
    ensures |hits| == |bs|
  {
    seq(|bs|, j requires 0 <= j < |bs| => StartsWith(bs[j].controller, prefix))
  }

  /** The loop of `select_l_controllers` / `select_r_controllers`. */
  method CollectPrefixed(bs: seq<Button>, prefix: string) returns (names: seq<string>)
    ensures names == HitControllers(bs, PrefixHits(bs, prefix))
  {
    names := [];
    var k := 0;
    ghost var hits := PrefixHits(bs, prefix);
    while k < |bs|
      invariant 0 <= k <= |bs|
      invariant names == HitControllers(bs[..k], hits[..k])
    {
      assert bs[..k + 1][..k] == bs[..k] && hits[..k + 1][..k] == hits[..k];
      if StartsWith(bs[k].controller, prefix) {
        names := names + [bs[k].controller];
      }
      k := k + 1;
    }
    assert bs[..k] == bs && hits[..k] == hits;
  }

  // ---------------------------------------------------------------------------
  // Delete

  /** The list without its selected buttons, order kept. */
  function Unselected(bs: seq<Button>): seq<Button>
    decreases |bs|
  {
    if bs == [] then []
    else (if bs[0].selected then [] else [bs[0]]) + Unselected(bs[1..])
  }

  lemma {:induction false} UnselectedAppend(u: seq<Button>, v: seq<Button>)
    ensures Unselected(u + v) == Unselected(u) + Unselected(v)
    decreases |u|
  {
    if u == [] {
      assert u + v == v;
    } else {
      assert (u + v)[1..] == u[1..] + v;
      UnselectedAppend(u[1..], v);
    }
  }

  /**
   * The delete loop: walks the list backwards and removes each selected
   * button (`list.remove` removes that very object, here its index).
   */
  method RemoveSelected(bs: seq<Button>) returns (r: seq<Button>)
    ensures r == Unselected(bs)
  {
    r := bs;
    var i := |bs|;
    while i > 0
      invariant 0 <= i <= |bs|
      invariant r == bs[..i] + Unselected(bs[i..])
    {
      i := i - 1;
      assert bs[i..] == [bs[i]] + bs[i + 1..];
      assert bs[..i + 1] == bs[..i] + [bs[i]];
      if r[i].selected {
        r := r[..i] + r[i + 1..];
      } else {
        assert r == bs[..i] + ([bs[i]] + Unselected(bs[i + 1..]));
      }
    }
  }

  /** A button survives the delete exactly when it is in the list and not selected. */
  lemma {:induction false} UnselectedMembers(bs: seq<Button>, b: Button)
    ensures b in Unselected(bs) <==> b in bs && !b.selected
    decreases |bs|
  {
    if bs != [] {
      UnselectedMembers(bs[1..], b);
      assert bs == [bs[0]] + bs[1..];
    }
  }

  /** Deleting with nothing selected keeps the list. */
  lemma {:induction false} UnselectedNoneSelected(bs: seq<Button>)
    requires SelectedIndices(bs) == {}
    ensures Unselected(bs) == bs
    decreases |bs|
  {
    if bs != [] {
      assert 0 !in SelectedIndices(bs);
      assert forall j :: j in SelectedIndices(bs[1..]) ==> j + 1 in SelectedIndices(bs);
      UnselectedNoneSelected(bs[1..]);
    }
  }

  /** Deleting keeps the ids in order, so object identities stay distinct. */
  lemma {:induction false} UnselectedWellFormed(bs: seq<Button>, next: nat)
    requires WellFormed(bs, next)
    ensures WellFormed(Unselected(bs), next)
    decreases |bs|
  {
    if bs != [] {
      UnselectedWellFormed(bs[1..], next);
      var rest := Unselected(bs[1..]);
      forall b | b in rest ensures bs[0].id < b.id {
        UnselectedMembers(bs[1..], b);
      }
    }
  }

  // ---------------------------------------------------------------------------
  // Edit/Run mode

  function WithDraggable(bs: seq<Button>, on: bool): (r: seq<Button>)
    ensures SameIds(bs, r)
  {
    seq(|bs|, j requires 0 <= j < |bs| => bs[j].(draggable := on))
  }

  /** The `for button in picker_buttons: button.is_draggable = checked` loop. */
  method SetDraggable(bs: seq<Button>, on: bool) returns (r: seq<Button>)
    ensures r == WithDraggable(bs, on)
  {
    r := bs;
    var i := 0;
    while i < |r|
      invariant 0 <= i <= |r| == |bs|
      invariant forall j :: 0 <= j < i ==> r[j] == bs[j].(draggable := on)
      invariant forall j :: i <= j < |r| ==> r[j] == bs[j]
    {
      r := r[i := r[i].(draggable := on)];
      i := i + 1;
    }
  }

  // ---------------------------------------------------------------------------
  // Highlight sync from the host selection

  /** Index of the first button with controller `c`, or `|bs|` if there is none. */
  function FirstWith(bs: seq<Button>, c: string): (k: nat)
    ensures k <= |bs|
    ensures k < |bs| ==> bs[k].controller == c
    ensures forall j :: 0 <= j < k ==> bs[j].controller != c
    decreases |bs|
  {
    if bs == [] then 0
    else if bs[0].controller == c then 0
    else 1 + FirstWith(bs[1..], c)
  }

  /** A button is highlighted iff its controller is selected on the host and no earlier button has it. */
  function Highlighted(bs: seq<Button>, current: seq<string>): (r: seq<Button>)
    ensures SameIds(bs, r)
  {
    seq(|bs|, j requires 0 <= j < |bs| =>
      bs[j].(selected := bs[j].controller in current && FirstWith(bs, bs[j].controller) == j))
  }

  /** The two loops of `check_selection_change` after the early returns. */
  method Highlight(bs: seq<Button>, current: seq<string>) returns (r: seq<Button>)
    ensures r == Highlighted(bs, current)
  {
    r := DeselectAll(bs);
    var k := 0;
    while k < |current|
      invariant 0 <= k <= |current|
      invariant |r| == |bs|
      invariant forall j :: 0 <= j < |bs| ==>
        r[j] == bs[j].(selected := bs[j].controller in current[..k] && FirstWith(bs, bs[j].controller) == j)
    {
      var c := current[k];
      var j := 0;
      while j < |r| && r[j].controller != c
        invariant 0 <= j <= |r|
        invariant forall m :: 0 <= m < j ==> bs[m].controller != c
      {
        j := j + 1;
      }
      assert current[..k + 1] == current[..k] + [c];
      if j < |r| {
        assert FirstWith(bs, c) == j;
        r := r[j := r[j].(selected := true)];
      } else {
        assert forall m :: 0 <= m < |bs| ==> bs[m].controller != c;
      }
      k := k + 1;
    }
    assert current[..k] == current;
  }

  /**
   * After the sync, each host-selected node that has a button lights exactly
   * one button (the first with that controller), and every lit button's
   * controller is selected on the host.
   */
  lemma HighlightOnePerNode(bs: seq<Button>, current: seq<string>, c: string)
    ensures forall j :: 0 <= j < |bs| && Highlighted(bs, current)[j].selected ==> bs[j].controller in current
    ensures c in current && (exists j :: 0 <= j < |bs| && bs[j].controller == c) ==>
              FirstWith(bs, c) < |bs| && Highlighted(bs, current)[FirstWith(bs, c)].selected
    ensures forall j, k :: 0 <= j < k < |bs| && bs[j].controller == bs[k].controller ==>
              !Highlighted(bs, current)[k].selected
  {
  }
}
