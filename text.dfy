// Python string operations the picker uses on Maya node names and button labels.

module Text {

  /** `p` occurs in `s` starting at index `i`. */
  predicate OccursAt(s: string, p: string, i: int)
  {
    0 <= i && i + |p| <= |s| && s[i..i + |p|] == p
  }

  /** Python's `p in s` (for a non-empty `p`). */
  predicate Contains(s: string, p: string)
  {
    exists i | 0 <= i <= |s| :: OccursAt(s, p, i)
  }

  predicate StartsWith(s: string, p: string)
  {
    |p| <= |s| && s[..|p|] == p
  }

  /**
   * Python's `s.replace(pat, rep)`: scans left to right and replaces
   * non-overlapping occurrences; the replacement text is never rescanned.
   */
  function ReplaceAll(s: string, pat: string, rep: string): (r: string)
    requires pat != []
    ensures !Contains(s, pat) ==> r == s
    decreases |s|
  {
    if |s| < |pat| then
      NoRoomNoOccurrence(s, pat);
      s
    else if s[..|pat|] == pat then
      assert OccursAt(s, pat, 0);
      rep + ReplaceAll(s[|pat|..], pat, rep)
    else
      ContainsTail(s, pat);
      [s[0]] + ReplaceAll(s[1..], pat, rep)
  }

  /** Python's `s.replace(pat, rep, 1)`: only the first occurrence is replaced. */
  function ReplaceFirst(s: string, pat: string, rep: string): (r: string)
    requires pat != []
    ensures !Contains(s, pat) ==> r == s
    ensures StartsWith(s, pat) ==> r == rep + s[|pat|..]
    decreases |s|
  {
    if |s| < |pat| then
      NoRoomNoOccurrence(s, pat);
      s
    else if s[..|pat|] == pat then
      assert OccursAt(s, pat, 0);
      rep + s[|pat|..]
    else
      ContainsTail(s, pat);
      [s[0]] + ReplaceFirst(s[1..], pat, rep)
  }

  lemma NoRoomNoOccurrence(s: string, p: string)
    requires |s| < |p|
    ensures !Contains(s, p)
  {
  }

  /** An occurrence that is not at the front lies in the tail. */
  lemma ContainsTail(s: string, p: string)
    requires p != [] && |p| <= |s| && s[..|p|] != p
    ensures Contains(s, p) <==> Contains(s[1..], p)
  {
    if Contains(s[1..], p) {
      var j :| 0 <= j <= |s[1..]| && OccursAt(s[1..], p, j);
      assert s[1..][j..j + |p|] == s[j + 1..j + 1 + |p|];
      assert OccursAt(s, p, j + 1);
    }
    if Contains(s, p) {
      var i :| 0 <= i <= |s| && OccursAt(s, p, i);
      assert s[i..i + |p|] == p;
      assert i != 0;
      assert s[1..][i - 1..i - 1 + |p|] == s[i..i + |p|];
      assert OccursAt(s[1..], p, i - 1);
    }
  }

  /** A character that is in neither the subject nor the replacement is not in the result. */
  lemma {:induction false} ReplaceAllKeepsOut(s: string, pat: string, rep: string, c: char)
    requires pat != []
    requires c !in s && c !in rep
    ensures c !in ReplaceAll(s, pat, rep)
    decreases |s|
  {
    if |s| < |pat| {
    } else if s[..|pat|] == pat {
      assert c !in s[|pat|..] by {
        forall k | 0 <= k < |s[|pat|..]| ensures s[|pat|..][k] != c {
          assert s[|pat|..][k] == s[|pat| + k];
        }
      }
      ReplaceAllKeepsOut(s[|pat|..], pat, rep, c);
    } else {
      assert c !in s[1..] by {
        forall k | 0 <= k < |s[1..]| ensures s[1..][k] != c {
          assert s[1..][k] == s[1 + k];
        }
      }
      ReplaceAllKeepsOut(s[1..], pat, rep, c);
    }
  }

  /** Deleting occurrences (`replace(pat, "")`) never lengthens the text. */
  lemma {:induction false} ReplaceAllDeleteShortens(s: string, pat: string)
    requires pat != []
    ensures |ReplaceAll(s, pat, "")| <= |s|
    decreases |s|
  {
    if |s| < |pat| {
    } else if s[..|pat|] == pat {
      ReplaceAllDeleteShortens(s[|pat|..], pat);
    } else {
      ReplaceAllDeleteShortens(s[1..], pat);
    }
  }

  // ---------------------------------------------------------------------------
  // `split(':')[-1]`

  /** Python's `s.split(':')[-1]`: the text after the last ':' (all of `s` if there is none). */
  function AfterLastColon(s: string): (r: string)
    decreases |s|
  {
    if s == [] then []
    else if s[|s| - 1] == ':' then []
    else AfterLastColon(s[..|s| - 1]) + [s[|s| - 1]]
  }

  /**
   * The result is a suffix of `s` without ':', and it is either all of `s`
   * or preceded in `s` by a ':' — i.e. it is exactly the text after the last ':'.
   */
  lemma {:induction false} AfterLastColonIsLastSegment(s: string)
    ensures ':' !in AfterLastColon(s)
    ensures |AfterLastColon(s)| <= |s|
    ensures AfterLastColon(s) == s[|s| - |AfterLastColon(s)|..]
    ensures |AfterLastColon(s)| < |s| ==> s[|s| - |AfterLastColon(s)| - 1] == ':'
    decreases |s|
  {
    if s == [] {
    } else if s[|s| - 1] == ':' {
    } else {
      var t := s[..|s| - 1];
      AfterLastColonIsLastSegment(t);
      var r := AfterLastColon(t);
      assert AfterLastColon(s) == r + [s[|s| - 1]];
      assert s[|s| - |r| - 1..] == t[|t| - |r|..] + [s[|s| - 1]];
    }
  }

  /** A name with no ':' is returned unchanged. */
  lemma {:induction false} AfterLastColonNoColon(s: string)
    requires ':' !in s
    ensures AfterLastColon(s) == s
    decreases |s|
  {
    if s != [] {
      var t := s[..|s| - 1];
      assert ':' !in t by {
        forall k | 0 <= k < |t| ensures t[k] != ':' {
          assert t[k] == s[k];
        }
      }
      AfterLastColonNoColon(t);
      assert t + [s[|s| - 1]] == s;
    }
  }

  /** The namespace `ns:` in front of a name without ':' is dropped. */
  lemma {:induction false} AfterLastColonDropsNamespace(ns: string, name: string)
    requires ':' !in name
    ensures AfterLastColon(ns + ":" + name) == name
    decreases |name|
  {
    if name == [] {
      assert (ns + ":" + name)[|ns + ":" + name| - 1] == ':';
    } else {
      var s := ns + ":" + name;
      var t := name[..|name| - 1];
      assert s[..|s| - 1] == ns + ":" + t;
      assert ':' !in t by {
        forall k | 0 <= k < |t| ensures t[k] != ':' {
          assert t[k] == name[k];
        }
      }
      AfterLastColonDropsNamespace(ns, t);
      assert t + [name[|name| - 1]] == name;
    }
  }

  // ---------------------------------------------------------------------------
  // Single-character patterns

  /** Every occurrence of character `c` expanded to `rep`, other characters kept. */
  function ExpandChar(s: string, c: char, rep: string): (r: string)
    ensures c !in s ==> r == s
    ensures c !in rep ==> c !in r
    decreases |s|
  {
    if s == [] then []
    else (if s[0] == c then rep else [s[0]]) + ExpandChar(s[1..], c, rep)
  }

  lemma {:induction false} ExpandCharAppend(u: string, v: string, c: char, rep: string)
    ensures ExpandChar(u + v, c, rep) == ExpandChar(u, c, rep) + ExpandChar(v, c, rep)
    decreases |u|
  {
    if u == [] {
      assert u + v == v;
    } else {
      assert (u + v)[1..] == u[1..] + v;
      ExpandCharAppend(u[1..], v, c, rep);
    }
  }

  /** Expanding a character to one character substitutes it in place. */
  lemma {:induction false} ExpandCharPointwise(s: string, c: char, d: char)
    ensures |ExpandChar(s, c, [d])| == |s|
    ensures forall k :: 0 <= k < |s| ==> ExpandChar(s, c, [d])[k] == if s[k] == c then d else s[k]
    decreases |s|
  {
    if s != [] {
      ExpandCharPointwise(s[1..], c, d);
    }
  }

  /** With a one-character pattern, `replace` is a character-by-character substitution. */
  lemma {:induction false} ReplaceCharIsExpand(s: string, c: char, rep: string)
    ensures ReplaceAll(s, [c], rep) == ExpandChar(s, c, rep)
    decreases |s|
  {
    if s != [] {
      ReplaceCharIsExpand(s[1..], c, rep);
      if s[0] == c {
        assert s[..1] == [c];
      } else {
        assert s[..1] != [c];
      }
    }
  }

  // ---------------------------------------------------------------------------
  // `str.strip()`

  /** Python's `str.isspace` for one character. */
  predicate IsSpace(c: char)
  {
    var n := c as int;
    (9 <= n <= 13) || (28 <= n <= 32) || n == 0x85 || n == 0xA0 || n == 0x1680 ||
    (0x2000 <= n <= 0x200A) || n == 0x2028 || n == 0x2029 || n == 0x202F || n == 0x205F || n == 0x3000
  }

  function StripLeft(s: string): (r: string)
    ensures |r| <= |s|
    ensures r == [] || !IsSpace(r[0])
    decreases |s|
  {
    if s != [] && IsSpace(s[0]) then StripLeft(s[1..]) else s
  }

  function StripRight(s: string): (r: string)
    ensures |r| <= |s|
    ensures r == [] || !IsSpace(r[|r| - 1])
    decreases |s|
  {
    if s != [] && IsSpace(s[|s| - 1]) then StripRight(s[..|s| - 1]) else s
  }

  /** What `StripLeft` keeps is a suffix of its input. */
  lemma {:induction false} StripLeftSuffix(s: string)
    ensures StripLeft(s) == s[|s| - |StripLeft(s)|..]
    decreases |s|
  {
    if s != [] && IsSpace(s[0]) {
      StripLeftSuffix(s[1..]);
    }
  }

  /** What `StripRight` keeps is a prefix of its input. */
  lemma {:induction false} StripRightPrefix(s: string)
    ensures StripRight(s) == s[..|StripRight(s)|]
    decreases |s|
  {
    if s != [] && IsSpace(s[|s| - 1]) {
      StripRightPrefix(s[..|s| - 1]);
    }
  }

  /** Python's `s.strip()`: leading and trailing whitespace removed. */
  function Strip(s: string): (r: string)
  {
    StripRight(StripLeft(s))
  }

  /** The stripped text is a piece of the original that neither starts nor ends with whitespace. */
  lemma StripTrims(s: string)
    ensures |Strip(s)| <= |s|
    ensures Strip(s) == [] || (!IsSpace(Strip(s)[0]) && !IsSpace(Strip(s)[|Strip(s)| - 1]))
    ensures Strip(s) != [] ==> Contains(s, Strip(s))
  {
    var l := StripLeft(s);
    var r := StripRight(l);
    StripLeftSuffix(s);
    StripRightPrefix(l);
    if r != [] {
      assert r[0] == l[0];
      assert s[|s| - |l|..|s| - |l| + |r|] == r;
      assert OccursAt(s, r, |s| - |l|);
    }
  }

  /** Text without surrounding whitespace is kept as it is, so stripping twice is stripping once. */
  lemma StripKeepsTrimmed(s: string)
    requires s == [] || (!IsSpace(s[0]) && !IsSpace(s[|s| - 1]))
    ensures Strip(s) == s
  {
  }
}
