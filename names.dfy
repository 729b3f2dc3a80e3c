// Names and labels derived from Maya controller names: the button caption,
// the mirrored controller (`Con_L_` <-> `Con_R_`) and the mirrored custom label.

module Names {
  import opened Text
  import opened Wrappers

  // ---------------------------------------------------------------------------
  // Captions

  /** The suffix chain of the QPushButton variants: strips `_ctrl`, `_control`, `_con`. */
  function StripSuffixTokens(s: string): (r: string)
    ensures |r| <= |s|
    ensures ':' !in s ==> ':' !in r
  {
    StripSuffixFacts(s);
    ReplaceAll(ReplaceAll(ReplaceAll(s, "_ctrl", ""), "_control", ""), "_con", "")
  }

  lemma StripSuffixFacts(s: string)
    ensures |ReplaceAll(ReplaceAll(ReplaceAll(s, "_ctrl", ""), "_control", ""), "_con", "")| <= |s|
    ensures ':' !in s ==> ':' !in ReplaceAll(ReplaceAll(ReplaceAll(s, "_ctrl", ""), "_control", ""), "_con", "")
  {
    var a := ReplaceAll(s, "_ctrl", "");
    var b := ReplaceAll(a, "_control", "");
    ReplaceAllDeleteShortens(s, "_ctrl");
    ReplaceAllDeleteShortens(a, "_control");
    ReplaceAllDeleteShortens(b, "_con");
    if ':' !in s {
      ReplaceAllKeepsOut(s, "_ctrl", "", ':');
      ReplaceAllKeepsOut(a, "_control", "", ':');
      ReplaceAllKeepsOut(b, "_con", "", ':');
    }
  }

  /**
   * Caption of a button without a custom label in the variants that also
   * strip the `Con_` prefix: the name after its last namespace separator,
   * with the tokens `_ctrl`, `_control`, `_con` and `Con_` removed in that order.
   */
  function StrippedName(controller: string): (r: string)
    ensures ':' !in r
    ensures |r| <= |controller|
  {
    var base := AfterLastColon(controller);
    AfterLastColonIsLastSegment(controller);
    var s := StripSuffixTokens(base);
    ReplaceAllDeleteShortens(s, "Con_");
    ReplaceAllKeepsOut(s, "Con_", "", ':');
    ReplaceAll(s, "Con_", "")
  }

  /** Caption of a button in the variants that keep the `Con_` prefix. */
  function ShortName(controller: string): (r: string)
    ensures ':' !in r
    ensures |r| <= |controller|
  {
    AfterLastColonIsLastSegment(controller);
    StripSuffixTokens(AfterLastColon(controller))
  }

  /** The text a labelled button shows: its custom label if it has one, else its stripped name. */
  function DisplayText(controller: string, customText: string): (r: string)
    ensures customText != "" ==> r == customText
    ensures customText == "" ==> ':' !in r && |r| <= |controller|
  {
    if customText != "" then customText else StrippedName(controller)
  }

  /** The captions ignore the Maya namespace in front of the name. */
  lemma CaptionsIgnoreNamespace(ns: string, name: string)
    requires ':' !in name
    ensures StrippedName(ns + ":" + name) == StrippedName(name)
    ensures ShortName(ns + ":" + name) == ShortName(name)
    ensures SceneLabel(ns + ":" + name) == SceneLabel(name)
  {
    AfterLastColonDropsNamespace(ns, name);
    AfterLastColonNoColon(name);
  }

  /** Label of a graphics-scene button: the name after its namespace, each `_` starting a new line. */
  function SceneLabel(nodeName: string): (r: string)
    ensures '_' !in r
    ensures ':' !in r
  {
    var base := AfterLastColon(nodeName);
    AfterLastColonIsLastSegment(nodeName);
    ReplaceCharIsExpand(base, '_', "\n");
    ReplaceAllKeepsOut(base, "_", "\n", ':');
    ReplaceAll(base, "_", "\n")
  }

  // ---------------------------------------------------------------------------
  // Mirrored controller

  const LeftPrefix: string := "Con_L_"
  const RightPrefix: string := "Con_R_"

  /**
   * The controller on the other side: `Con_L_x` <-> `Con_R_x` (only the first
   * occurrence of the prefix is replaced); `None` for any other name.
   */
  function Counterpart(controller: string): (r: Option<string>)
  {
    if StartsWith(controller, LeftPrefix) then Some(ReplaceFirst(controller, LeftPrefix, RightPrefix))
    else if StartsWith(controller, RightPrefix) then Some(ReplaceFirst(controller, RightPrefix, LeftPrefix))
    else None
  }

  /** Exactly the names with a side prefix have a counterpart, which swaps the prefix and keeps the rest. */
  lemma CounterpartShape(controller: string)
    ensures Counterpart(controller).Some? <==>
              StartsWith(controller, LeftPrefix) || StartsWith(controller, RightPrefix)
    ensures StartsWith(controller, LeftPrefix) ==>
              Counterpart(controller) == Some(RightPrefix + controller[|LeftPrefix|..])
    ensures StartsWith(controller, RightPrefix) ==>
              Counterpart(controller) == Some(LeftPrefix + controller[|RightPrefix|..])
  {
  }

  /** Mirroring a name twice gives the name back, and a counterpart is never the name itself. */
  lemma CounterpartInvolution(controller: string)
    requires Counterpart(controller).Some?
    ensures Counterpart(Counterpart(controller).value) == Some(controller)
    ensures Counterpart(controller).value != controller
    ensures |Counterpart(controller).value| == |controller|
  {
    var m := Counterpart(controller).value;
    var rest := controller[6..];
    if StartsWith(controller, LeftPrefix) {
      assert m == RightPrefix + rest;
      assert m[..6] == RightPrefix;
      assert !StartsWith(m, LeftPrefix) by { assert m[4] != LeftPrefix[4]; }
      assert m[6..] == rest;
      assert controller == LeftPrefix + rest;
      assert m[4] != controller[4];
    } else {
      assert m == LeftPrefix + rest;
      assert m[..6] == LeftPrefix;
      assert m[6..] == rest;
      assert controller == RightPrefix + rest;
      assert m[4] != controller[4];
    }
  }

  // ---------------------------------------------------------------------------
  // Mirrored custom label

  /** Swap the characters `a` and `b` everywhere. */
  function SwapChar(c: char, a: char, b: char): char
  {
    if c == a then b else if c == b then a else c
  }

  function Swap(s: string, a: char, b: char): string
  {
    seq(|s|, i requires 0 <= i < |s| => SwapChar(s[i], a, b))
  }

  /**
   * The custom label of a mirrored button: `L`/`R` exchanged through the
   * placeholder `TEMP`, then `l`/`r` through `temp`; an empty label stays empty.
   */
  function MirrorLabel(text: string): string
  {
    if text == "" then text
    else
      var upper := ReplaceAll(ReplaceAll(ReplaceAll(text, "L", "TEMP"), "R", "L"), "TEMP", "R");
      ReplaceAll(ReplaceAll(ReplaceAll(upper, "l", "temp"), "r", "l"), "temp", "r")
  }

  /** Stage between the second and the third replacement: `a` became `tmp`, `b` became `a`. */
  function Marked(s: string, a: char, b: char, tmp: string): string
    decreases |s|
  {
    if s == [] then []
    else (if s[0] == a then tmp else if s[0] == b then [a] else [s[0]]) + Marked(s[1..], a, b, tmp)
  }

  /** The first two replacements together produce `Marked`. */
  lemma {:induction false} FirstTwoSteps(s: string, a: char, b: char, tmp: string)
    requires a != b && b !in tmp
    ensures ExpandChar(ExpandChar(s, a, tmp), b, [a]) == Marked(s, a, b, tmp)
    decreases |s|
  {
    if s != [] {
      var head := if s[0] == a then tmp else [s[0]];
      assert ExpandChar(s, a, tmp) == head + ExpandChar(s[1..], a, tmp);
      ExpandCharAppend(head, ExpandChar(s[1..], a, tmp), b, [a]);
      FirstTwoSteps(s[1..], a, b, tmp);
      if s[0] != a {
        assert ExpandChar(head, b, [a]) == (if s[0] == b then [a] else [s[0]]) + ExpandChar([], b, [a]);
      }
    }
  }

  /**
   * A prefix of `Marked(s)` that contains neither `a` nor the placeholder's
   * first character was copied from `s` unchanged.
   */
  lemma {:induction false} MarkedPrefix(s: string, a: char, b: char, tmp: string, w: string)
    requires tmp != [] && a !in w && tmp[0] !in w
    requires |w| <= |Marked(s, a, b, tmp)| && Marked(s, a, b, tmp)[..|w|] == w
    ensures |w| <= |s| && s[..|w|] == w
    decreases |w|
  {
    if w != [] {
      assert s != [];
      var m := Marked(s, a, b, tmp);
      assert m[0] == w[0];
      if s[0] == a || s[0] == b {
        assert false;
      } else {
        assert m == [s[0]] + Marked(s[1..], a, b, tmp);
        assert Marked(s[1..], a, b, tmp)[..|w| - 1] == w[1..];
        MarkedPrefix(s[1..], a, b, tmp, w[1..]);
        assert s[..|w|] == [s[0]] + s[1..][..|w| - 1];
      }
    }
  }

  /** If `Marked(s[1..])` continues a placeholder started by `s[0]`, then `s` held the placeholder. */
  lemma PlaceholderFromMarked(s: string, a: char, b: char, tmp: string)
    requires tmp != [] && a !in tmp && tmp[0] !in tmp[1..]
    requires s != [] && s[0] == tmp[0]
    requires |tmp| - 1 <= |Marked(s[1..], a, b, tmp)|
    requires Marked(s[1..], a, b, tmp)[..|tmp| - 1] == tmp[1..]
    ensures Contains(s, tmp)
  {
    MarkedPrefix(s[1..], a, b, tmp, tmp[1..]);
    assert s[..|tmp|] == tmp;
    assert OccursAt(s, tmp, 0);
  }

  /** An occurrence in a tail is an occurrence in the whole. */
  lemma ContainsInTail(s: string, p: string)
    requires s != [] && Contains(s[1..], p)
    ensures Contains(s, p)
  {
    var j :| 0 <= j <= |s[1..]| && OccursAt(s[1..], p, j);
    assert s[1..][j..j + |p|] == s[j + 1..j + 1 + |p|];
    assert OccursAt(s, p, j + 1);
  }

  /** The third replacement turns `Marked(s)` into the swap, provided `s` held no placeholder. */
  lemma {:induction false} LastStep(s: string, a: char, b: char, tmp: string)
    requires tmp != [] && a != b && a !in tmp && b !in tmp && tmp[0] !in tmp[1..]
    requires !Contains(s, tmp)
    ensures ReplaceAll(Marked(s, a, b, tmp), tmp, [b]) == Swap(s, a, b)
    decreases |s|
  {
    if s == [] {
      assert Marked(s, a, b, tmp) == [];
    } else {
      var rest := Marked(s[1..], a, b, tmp);
      if Contains(s[1..], tmp) {
        ContainsInTail(s, tmp);
      }
      LastStep(s[1..], a, b, tmp);
      SwapCons(s, a, b);
      if s[0] == a {
        assert Marked(s, a, b, tmp) == tmp + rest;
        ReplaceAllHeadHit(tmp, rest, [b]);
      } else {
        var d := if s[0] == b then a else s[0];
        assert Marked(s, a, b, tmp) == [d] + rest;
        if |tmp| <= 1 + |rest| && ([d] + rest)[..|tmp|] == tmp {
          assert d == tmp[0] && s[0] != b;
          assert rest[..|tmp| - 1] == ([d] + rest)[1..|tmp|] == tmp[1..];
          PlaceholderFromMarked(s, a, b, tmp);
          assert false;
        }
        ReplaceAllHeadMiss(d, rest, tmp, [b]);
      }
    }
  }

  /** The swap of a non-empty text, one character at a time. */
  lemma SwapCons(s: string, a: char, b: char)
    requires s != []
    ensures Swap(s, a, b) == [SwapChar(s[0], a, b)] + Swap(s[1..], a, b)
  {
  }

  /** A text starting with the pattern has it replaced first. */
  lemma ReplaceAllHeadHit(pat: string, rest: string, rep: string)
    requires pat != []
    ensures ReplaceAll(pat + rest, pat, rep) == rep + ReplaceAll(rest, pat, rep)
  {
    var t := pat + rest;
    assert t[..|pat|] == pat && t[|pat|..] == rest;
  }

  /** A text not starting with the pattern keeps its first character. */
  lemma ReplaceAllHeadMiss(d: char, rest: string, pat: string, rep: string)
    requires pat != []
    requires !(|pat| <= 1 + |rest| && ([d] + rest)[..|pat|] == pat)
    ensures ReplaceAll([d] + rest, pat, rep) == [d] + ReplaceAll(rest, pat, rep)
  {
    var t := [d] + rest;
    assert t[1..] == rest;
  }

  /**
   * The three chained replacements `a -> tmp`, `b -> a`, `tmp -> b` exchange
   * `a` and `b`, when the text holds no placeholder and the placeholder does
   * not overlap itself.
   */
  lemma ChainSwaps(s: string, a: char, b: char, tmp: string)
    requires tmp != [] && a != b && a !in tmp && b !in tmp && tmp[0] !in tmp[1..]
    requires !Contains(s, tmp)
    ensures ReplaceAll(ReplaceAll(ReplaceAll(s, [a], tmp), [b], [a]), tmp, [b]) == Swap(s, a, b)
  {
    ReplaceCharIsExpand(s, a, tmp);
    ReplaceCharIsExpand(ExpandChar(s, a, tmp), b, [a]);
    FirstTwoSteps(s, a, b, tmp);
    LastStep(s, a, b, tmp);
  }

  /** Swapping two characters cannot create a pattern that uses neither of them. */
  lemma SwapKeepsAbsent(s: string, a: char, b: char, p: string)
    requires a !in p && b !in p && !Contains(s, p)
    ensures !Contains(Swap(s, a, b), p)
  {
    var t := Swap(s, a, b);
    if Contains(t, p) {
      var i :| 0 <= i <= |t| && OccursAt(t, p, i);
      forall k | 0 <= k < |p| ensures s[i + k] == p[k] {
        assert t[i + k] == p[k];
      }
      assert s[i..i + |p|] == p;
      assert OccursAt(s, p, i);
    }
  }

  /**
   * A label without the placeholders `TEMP` and `temp` is mirrored by
   * exchanging `L` with `R` and `l` with `r`, character by character.
   */
  lemma MirrorLabelSwapsSides(text: string)
    requires !Contains(text, "TEMP") && !Contains(text, "temp")
    ensures MirrorLabel(text) == Swap(Swap(text, 'L', 'R'), 'l', 'r')
  {
    if text != "" {
      ChainSwaps(text, 'L', 'R', "TEMP");
      var upper := Swap(text, 'L', 'R');
      SwapKeepsAbsent(text, 'L', 'R', "temp");
      ChainSwaps(upper, 'l', 'r', "temp");
    }
  }

  /** Mirroring such a label twice gives it back. */
  lemma MirrorLabelInvolution(text: string)
    requires !Contains(text, "TEMP") && !Contains(text, "temp")
    ensures MirrorLabel(MirrorLabel(text)) == text
  {
    var upper := Swap(text, 'L', 'R');
    var once := Swap(upper, 'l', 'r');
    MirrorLabelSwapsSides(text);
    SwapKeepsAbsent(text, 'L', 'R', "TEMP");
    SwapKeepsAbsent(text, 'L', 'R', "temp");
    SwapKeepsAbsent(upper, 'l', 'r', "TEMP");
    SwapKeepsAbsent(upper, 'l', 'r', "temp");
    MirrorLabelSwapsSides(once);
    SwapsUndo(text);
  }

  /** Exchanging both letter pairs twice restores every character. */
  lemma SwapsUndo(s: string)
    ensures Swap(Swap(Swap(Swap(s, 'L', 'R'), 'l', 'r'), 'L', 'R'), 'l', 'r') == s
  {
    var t := Swap(Swap(Swap(Swap(s, 'L', 'R'), 'l', 'r'), 'L', 'R'), 'l', 'r');
    forall k | 0 <= k < |s| ensures t[k] == s[k] {
    }
  }

  /**
   * A label that already holds the placeholder is not mirrored back:
   * `TEMP` becomes `R`, which mirrors to `L`.
   */
  lemma MirrorLabelPlaceholderNotInvolution()
    ensures MirrorLabel("TEMP") == "R"
    ensures MirrorLabel(MirrorLabel("TEMP")) == "L"
  {
    UpperChainOnPlaceholder();
    LowerChainKeeps("R");
    UpperChainOnR();
    LowerChainKeeps("L");
  }

  lemma UpperChainOnPlaceholder()
    ensures ReplaceAll(ReplaceAll(ReplaceAll("TEMP", "L", "TEMP"), "R", "L"), "TEMP", "R") == "R"
  {
    var t := "TEMP";
    assert 'L' !in t && 'R' !in t by {
      forall k | 0 <= k < |t| ensures t[k] != 'L' && t[k] != 'R' {}
    }
    ReplaceCharIsExpand(t, 'L', "TEMP");
    assert ReplaceAll(t, "L", "TEMP") == t;
    ReplaceCharIsExpand(t, 'R', "L");
    assert ReplaceAll(t, "R", "L") == t;
    ReplaceAllWhole(t, "R");
  }

  /** Replacing a whole text by `rep` gives `rep`. */
  lemma ReplaceAllWhole(p: string, rep: string)
    requires p != []
    ensures ReplaceAll(p, p, rep) == rep
  {
    assert p[..|p|] == p && p[|p|..] == [];
    assert ReplaceAll(p, p, rep) == rep + ReplaceAll([], p, rep);
  }

  lemma UpperChainOnR()
    ensures ReplaceAll(ReplaceAll(ReplaceAll("R", "L", "TEMP"), "R", "L"), "TEMP", "R") == "L"
  {
    ReplaceCharIsExpand("R", 'L', "TEMP");
    ReplaceCharIsExpand("R", 'R', "L");
    assert ExpandChar("R", 'R', "L") == "L" + ExpandChar([], 'R', "L");
  }

  /** A one-letter label without `l`, `r` passes the lower-case stage unchanged. */
  lemma LowerChainKeeps(s: string)
    requires |s| == 1 && 'l' !in s && 'r' !in s
    ensures ReplaceAll(ReplaceAll(ReplaceAll(s, "l", "temp"), "r", "l"), "temp", "r") == s
  {
    ReplaceCharIsExpand(s, 'l', "temp");
    ReplaceCharIsExpand(s, 'r', "l");
  }
}
