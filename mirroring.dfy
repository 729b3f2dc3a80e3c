// Left/right mirroring of picker buttons: which selected buttons can be
// mirrored, how many are skipped, and the buttons created for them.

module Mirroring {
  import opened Wrappers
  import opened Names
  import opened Buttons
  import opened Selection

  /** A mirrorable button (its index in the list) and the controller its copy drives. */
  datatype Plan = Plan(source: nat, target: string)

  /** The counterpart of `b` when `b` is selected and the counterpart exists in the scene. */
  predicate Mirrorable(b: Button, existing: set<string>)
  {
    b.selected && Counterpart(b.controller).Some? && Counterpart(b.controller).value in existing
  }

  /** The mirrorable selected buttons, in list order, with their counterparts. */
  function MirrorPlan(bs: seq<Button>, existing: set<string>): (plan: seq<Plan>)
    ensures |plan| <= |bs|
    ensures forall k :: 0 <= k < |plan| ==>
              plan[k].source < |bs| && Mirrorable(bs[plan[k].source], existing) &&
              Counterpart(bs[plan[k].source].controller) == Some(plan[k].target)
    decreases |bs|
  {
    if bs == [] then []
    else
      var n := |bs| - 1;
      MirrorPlan(bs[..n], existing) +
      (if Mirrorable(bs[n], existing) then [Plan(n, Counterpart(bs[n].controller).value)] else [])
  }

  /** The list positions a plan mirrors, in plan order. */
  function Sources(plan: seq<Plan>): (s: seq<nat>)
    ensures |s| == |plan| && forall k :: 0 <= k < |plan| ==> s[k] == plan[k].source
  {
    seq(|plan|, k requires 0 <= k < |plan| => plan[k].source)
  }

  /**
   * The plan lists the mirrorable buttons in increasing list order, each
   * once: a list position is in the plan exactly when its button is mirrorable.
   */
  lemma {:induction false} MirrorPlanOrdered(bs: seq<Button>, existing: set<string>)
    ensures forall k, m :: 0 <= k < m < |MirrorPlan(bs, existing)| ==>
              MirrorPlan(bs, existing)[k].source < MirrorPlan(bs, existing)[m].source
    ensures forall j :: 0 <= j < |bs| ==> (j in Sources(MirrorPlan(bs, existing)) <==> Mirrorable(bs[j], existing))
  {
    MirrorPlanIncreasing(bs, existing);
    MirrorPlanCovers(bs, existing);
    var plan := MirrorPlan(bs, existing);
    forall j | 0 <= j < |bs| && j in Sources(plan) ensures Mirrorable(bs[j], existing) {
      var k :| 0 <= k < |plan| && Sources(plan)[k] == j;
    }
  }

  /** Plan entries follow list order. */
  lemma {:induction false} MirrorPlanIncreasing(bs: seq<Button>, existing: set<string>)
    ensures forall k, m :: 0 <= k < m < |MirrorPlan(bs, existing)| ==>
              MirrorPlan(bs, existing)[k].source < MirrorPlan(bs, existing)[m].source
    decreases |bs|
  {
    if bs != [] {
      var n := |bs| - 1;
      var pre := bs[..n];
      MirrorPlanIncreasing(pre, existing);
      var p := MirrorPlan(pre, existing);
      var plan := MirrorPlan(bs, existing);
      assert plan[..|p|] == p;
      forall k, m | 0 <= k < m < |plan| ensures plan[k].source < plan[m].source {
        assert plan[k] == p[k];
        if m < |p| { assert plan[m] == p[m]; }
      }
    }
  }

  /** Every mirrorable button has an entry in the plan. */
  lemma {:induction false} MirrorPlanCovers(bs: seq<Button>, existing: set<string>)
    ensures forall j :: 0 <= j < |bs| && Mirrorable(bs[j], existing) ==> j in Sources(MirrorPlan(bs, existing))
    decreases |bs|
  {
    if bs != [] {
      var n := |bs| - 1;
      var pre := bs[..n];
      MirrorPlanCovers(pre, existing);
      var p := MirrorPlan(pre, existing);
      var plan := MirrorPlan(bs, existing);
      assert plan[..|p|] == p;
      forall j | 0 <= j < |bs| && Mirrorable(bs[j], existing) ensures j in Sources(plan) {
        if j < n {
          assert pre[j] == bs[j];
          var k :| 0 <= k < |p| && Sources(p)[k] == j;
          assert Sources(plan)[k] == j;
        } else {
          assert plan == p + [Plan(n, Counterpart(bs[n].controller).value)];
          assert Sources(plan)[|p|] == j;
        }
      }
    }
  }

  /** Number of selected buttons. */
  function CountSelected(bs: seq<Button>): nat
    decreases |bs|
  {
    if bs == [] then 0
    else CountSelected(bs[..|bs| - 1]) + (if bs[|bs| - 1].selected then 1 else 0)
  }

  /** Selected buttons that are skipped: no `Con_L_`/`Con_R_` prefix, or no counterpart in the scene. */
  function CountSkipped(bs: seq<Button>, existing: set<string>): nat
    decreases |bs|
  {
    if bs == [] then 0
    else
      var b := bs[|bs| - 1];
      CountSkipped(bs[..|bs| - 1], existing) + (if b.selected && !Mirrorable(b, existing) then 1 else 0)
  }

  /** The reported skip count `len(selected) - len(mirrorable)` counts exactly the skipped buttons. */
  lemma {:induction false} SkipCount(bs: seq<Button>, existing: set<string>)
    ensures CountSelected(bs) == |MirrorPlan(bs, existing)| + CountSkipped(bs, existing)
    decreases |bs|
  {
    if bs != [] {
      SkipCount(bs[..|bs| - 1], existing);
    }
  }

  /** There is something to select exactly when some flag is set. */
  lemma {:induction false} CountSelectedZero(bs: seq<Button>)
    ensures CountSelected(bs) == 0 <==> SelectedIndices(bs) == {}
    decreases |bs|
  {
    if bs != [] {
      var n := |bs| - 1;
      CountSelectedZero(bs[..n]);
      assert SelectedIndices(bs[..n]) == SelectedIndices(bs) - {n};
    }
  }

  /** The x of a mirrored button: reflected about the middle of the picker area. */
  function MirroredX(backgroundWidth: int, x: int, width: int): (mx: int)
    ensures mx + width == backgroundWidth - x
  {
    backgroundWidth - x - width
  }

  /** Reflecting twice gives the original x back. */
  lemma MirroredXInvolution(backgroundWidth: int, x: int, width: int)
    ensures MirroredX(backgroundWidth, MirroredX(backgroundWidth, x, width), width) == x
  {
  }

  /**
   * The button created for `b`: counterpart controller, colour, shape and
   * size copied, mirrored label, reflected x and the same y; it is
   * draggable and, once the mirror finishes, selected.
   */
  function MirrorOf(b: Button, target: string, backgroundWidth: int, id: nat): (m: Button)
    ensures m.pos.y == b.pos.y && m.pos.x + m.width == backgroundWidth - b.pos.x
    ensures m.controller == target && m.customText == MirrorLabel(b.customText)
    ensures (m.color, m.shape, m.width, m.height) == (b.color, b.shape, b.width, b.height)
    ensures m.selected && m.draggable && m.id == id
  {
    Button(id, target, b.color, b.shape, b.width, b.height, MirrorLabel(b.customText),
           Point(MirroredX(backgroundWidth, b.pos.x, b.width), b.pos.y), true, true)
  }

  /**
   * Mirroring the mirror of a button with a label free of `TEMP`/`temp`
   * restores its controller, label, colour, shape, size and position.
   */
  lemma MirrorOfRoundTrip(b: Button, backgroundWidth: int, id1: nat, id2: nat)
    requires Counterpart(b.controller).Some?
    requires !Text.Contains(b.customText, "TEMP") && !Text.Contains(b.customText, "temp")
    ensures var m := MirrorOf(b, Counterpart(b.controller).value, backgroundWidth, id1);
            Counterpart(m.controller) == Some(b.controller) &&
            var back := MirrorOf(m, Counterpart(m.controller).value, backgroundWidth, id2);
            back.(id := b.id, selected := b.selected, draggable := b.draggable) == b
  {
    CounterpartInvolution(b.controller);
    MirrorLabelInvolution(b.customText);
  }

  /** The buttons created for a plan, in plan order, with consecutive fresh ids. */
  function Mirrors(bs: seq<Button>, plan: seq<Plan>, backgroundWidth: int, firstId: nat): (ms: seq<Button>)
    requires forall k :: 0 <= k < |plan| ==> plan[k].source < |bs|
    ensures |ms| == |plan|
  {
    seq(|plan|, k requires 0 <= k < |plan| =>
      MirrorOf(bs[plan[k].source], plan[k].target, backgroundWidth, firstId + k))
  }

  /** The loop over the mirrorable buttons that builds the plan. */
  method PlanMirror(bs: seq<Button>, existing: set<string>) returns (plan: seq<Plan>)
    ensures plan == MirrorPlan(bs, existing)
  {
    plan := [];
    var i := 0;
    while i < |bs|
      invariant 0 <= i <= |bs|
      invariant plan == MirrorPlan(bs[..i], existing)
    {
      assert bs[..i + 1][..i] == bs[..i];
      var b := bs[i];
      if b.selected {
        var target := Counterpart(b.controller);
        if target.Some? && target.value in existing {
          plan := plan + [Plan(i, target.value)];
        }
      }
      i := i + 1;
    }
    assert bs[..i] == bs;
  }

  /**
   * The confirmed part of `mirror_selected_button`: clear every flag, append
   * one new button per plan entry, then select the new buttons.
   */
  method AppendMirrors(bs: seq<Button>, plan: seq<Plan>, backgroundWidth: int, firstId: nat)
    returns (r: seq<Button>)
    requires forall k :: 0 <= k < |plan| ==> plan[k].source < |bs|
    ensures r == AllDeselected(bs) + Mirrors(bs, plan, backgroundWidth, firstId)
  {
    r := DeselectAll(bs);
    ghost var ms := Mirrors(bs, plan, backgroundWidth, firstId);
    var added: seq<Button> := [];
    var k := 0;
    while k < |plan|
      invariant 0 <= k <= |plan|
      invariant |added| == k
      invariant forall m :: 0 <= m < k ==> added[m] == ms[m].(selected := false)
    {
      var src := bs[plan[k].source];
      var created := NewButton(firstId + k, plan[k].target, src.color, src.shape, src.width, src.height,
                               MirrorLabel(src.customText),
                               Point(MirroredX(backgroundWidth, src.pos.x, src.width), src.pos.y));
      CreatedIsMirror(src, plan[k].target, backgroundWidth, firstId + k);
      assert ms[k] == MirrorOf(src, plan[k].target, backgroundWidth, firstId + k);
      ghost var before := added;
      added := added + [created];
      forall m | 0 <= m < k + 1 ensures added[m] == ms[m].(selected := false) {
        if m < k {
          assert added[m] == before[m];
        }
      }
      k := k + 1;
    }
    var m := 0;
    while m < |added|
      invariant 0 <= m <= |added| == |plan|
      invariant forall q :: 0 <= q < |plan| ==> added[q] == ms[q].(selected := q < m)
    {
      ghost var before := added;
      added := added[m := added[m].(selected := true)];
      forall q | 0 <= q < |plan| ensures added[q] == ms[q].(selected := q < m + 1) {
        if q != m {
          assert added[q] == before[q];
        }
      }
      m := m + 1;
    }
    forall q | 0 <= q < |plan| ensures added[q] == ms[q] {
      assert added[q] == ms[q].(selected := true);
    }
    assert added == ms;
    r := r + added;
  }

  /** The button the mirror loop creates is `MirrorOf`, before it is selected. */
  lemma CreatedIsMirror(src: Button, target: string, backgroundWidth: int, id: nat)
    ensures NewButton(id, target, src.color, src.shape, src.width, src.height, MirrorLabel(src.customText),
                      Point(MirroredX(backgroundWidth, src.pos.x, src.width), src.pos.y)) ==
            MirrorOf(src, target, backgroundWidth, id).(selected := false)
  {
  }

  /**
   * After a confirmed mirror exactly the new buttons are selected, and the
   * existing buttons keep everything but their selection flag.
   */
  lemma MirroredSelection(bs: seq<Button>, plan: seq<Plan>, backgroundWidth: int, firstId: nat)
    requires forall k :: 0 <= k < |plan| ==> plan[k].source < |bs|
    ensures var r := AllDeselected(bs) + Mirrors(bs, plan, backgroundWidth, firstId);
            (forall k :: k in SelectedIndices(r) <==> |bs| <= k < |bs| + |plan|) &&
            forall j :: 0 <= j < |bs| ==> r[j] == bs[j].(selected := false)
  {
    var ds := AllDeselected(bs);
    var ms := Mirrors(bs, plan, backgroundWidth, firstId);
    var r := ds + ms;
    forall k ensures k in SelectedIndices(r) <==> |bs| <= k < |bs| + |plan| {
      if 0 <= k < |bs| {
        assert r[k] == ds[k];
      } else if |bs| <= k < |r| {
        assert r[k] == ms[k - |bs|];
      }
    }
  }

  /** The mirrored buttons take fresh, increasing ids after the existing ones. */
  lemma MirrorsWellFormed(bs: seq<Button>, plan: seq<Plan>, backgroundWidth: int, next: nat)
    requires WellFormed(bs, next)
    requires forall k :: 0 <= k < |plan| ==> plan[k].source < |bs|
    ensures WellFormed(AllDeselected(bs) + Mirrors(bs, plan, backgroundWidth, next), next + |plan|)
  {
    var ds := AllDeselected(bs);
    var ms := Mirrors(bs, plan, backgroundWidth, next);
    var r := ds + ms;
    forall j | 0 <= j < |r| ensures r[j].id == (if j < |bs| then bs[j].id else next + (j - |bs|)) {
      if j < |bs| {
        assert r[j] == ds[j];
      } else {
        assert r[j] == ms[j - |bs|];
      }
    }
  }
}
