// The picker files as the Python `json` module hands them over: a tree of
// dicts, lists, strings and numbers. Saving turns each button into a dict;
// loading reads the dicts back in file order and stops at the first one
// that raises (a missing key or a value of the wrong kind).

module Json {
  import opened Wrappers
  import opened Buttons

  datatype Value =
    | Null
    | Bool(b: bool)
    | Int(i: int)
    | Real(r: real)
    | Str(s: string)
    | List(items: seq<Value>)
    | Obj(fields: map<string, Value>)

  /** Python's `d.get(key, default)`. */
  function GetOr(d: map<string, Value>, key: string, default: Value): (v: Value)
    ensures key in d ==> v == d[key]
    ensures key !in d ==> v == default
  {
    if key in d then d[key] else default
  }

  /** Python truthiness of a JSON value. */
  predicate Truthy(v: Value)
  {
    match v
    case Null => false
    case Bool(b) => b
    case Int(i) => i != 0
    case Real(r) => r != 0.0
    case Str(s) => s != ""
    case List(xs) => xs != []
    case Obj(m) => m != map[]
  }

  /**
   * What a `for x in v` loop visits, when every visited element is then used
   * as a dict: a list's elements; an empty dict or string visits nothing;
   * anything else raises (`None` here) before or at its first element.
   */
  function Items(v: Value): (r: Option<seq<Value>>)
    ensures v.List? ==> r == Some(v.items)
  {
    match v
    case List(xs) => Some(xs)
    case Obj(m) => if m == map[] then Some([]) else None
    case Str(s) => if s == "" then Some([]) else None
    case _ => None
  }

  function AsInt(v: Value): Option<int>
  {
    if v.Int? then Some(v.i) else None
  }

  function AsStr(v: Value): Option<string>
  {
    if v.Str? then Some(v.s) else None
  }

  /** A JSON number as Python hands it to Qt (an int is widened). */
  function AsNumber(v: Value): (r: Option<real>)
    ensures v.Int? ==> r == Some(v.i as real)
    ensures v.Real? ==> r == Some(v.r)
    ensures !v.Int? && !v.Real? ==> r.None?
  {
    match v
    case Int(i) => Some(i as real)
    case Real(r) => Some(r)
    case _ => None
  }

  /** `[x, y]`, as saved for positions and sizes. */
  function IntPair(x: int, y: int): Value
  {
    List([Int(x), Int(y)])
  }

  /** Reading `v[0]` and `v[1]` as integers: a list with at least two integer elements. */
  function AsIntPair(v: Value): (r: Option<(int, int)>)
    ensures r.Some? ==> v.List? && |v.items| >= 2 && v.items[0] == Int(r.value.0) && v.items[1] == Int(r.value.1)
  {
    if v.List? && |v.items| >= 2 && v.items[0].Int? && v.items[1].Int? then
      Some((v.items[0].i, v.items[1].i))
    else None
  }

  function AsPoint(v: Value): Option<Point>
  {
    match AsIntPair(v)
    case Some((x, y)) => Some(Point(x, y))
    case None => None
  }

  // ---------------------------------------------------------------------------
  // Button lists

  /** Outcome of reading the button dicts: those built before any failure, and whether all were read. */
  datatype Decoded = Decoded(buttons: seq<Button>, complete: bool)

  /**
   * Reads the dicts in file order, giving consecutive ids from `firstId`;
   * the first dict that fails ends the loop (the exception leaves the
   * buttons built so far in place).
   */
  function DecodeRecords(items: seq<Value>, firstId: nat, decode: (Value, nat) -> Option<Button>): (r: Decoded)
    ensures |r.buttons| <= |items|
    ensures r.complete ==> |r.buttons| == |items|
    decreases |items|
  {
    if items == [] then Decoded([], true)
    else
      var prev := DecodeRecords(items[..|items| - 1], firstId, decode);
      if !prev.complete then prev
      else match decode(items[|items| - 1], firstId + |prev.buttons|)
        case None => Decoded(prev.buttons, false)
        case Some(b) => Decoded(prev.buttons + [b], true)
  }

  /**
   * The load loop `for btn_data in ...: ... self.picker_buttons.append(btn)`:
   * appends the buttons read so far; `complete` is false when a dict raised.
   */
  method ReadButtons(items: seq<Value>, firstId: nat, decode: (Value, nat) -> Option<Button>)
    returns (bs: seq<Button>, complete: bool)
    ensures Decoded(bs, complete) == DecodeRecords(items, firstId, decode)
  {
    bs := [];
    complete := true;
    var i := 0;
    while i < |items| && complete
      invariant 0 <= i <= |items|
      invariant Decoded(bs, complete) == DecodeRecords(items[..i], firstId, decode)
    {
      assert items[..i + 1][..i] == items[..i];
      var b := decode(items[i], firstId + |bs|);
      if b.Some? {
        bs := bs + [b.value];
      } else {
        complete := false;
      }
      i := i + 1;
    }
    if complete {
      assert items[..i] == items;
    } else {
      DecodeRecordsStops(items, i, firstId, decode);
    }
  }

  /** Once a dict has failed, the later ones are not read. */
  lemma {:induction false} DecodeRecordsStops(items: seq<Value>, i: nat, firstId: nat, decode: (Value, nat) -> Option<Button>)
    requires i <= |items| && !DecodeRecords(items[..i], firstId, decode).complete
    ensures DecodeRecords(items, firstId, decode) == DecodeRecords(items[..i], firstId, decode)
    decreases |items| - i
  {
    if i < |items| {
      assert items[..i + 1][..i] == items[..i];
      DecodeRecordsStops(items, i + 1, firstId, decode);
    } else {
      assert items[..i] == items;
    }
  }

  /** Dicts written by `encode` are read back as `restore` says, all of them and in order. */
  lemma {:induction false} DecodeEncoded(bs: seq<Button>, firstId: nat,
                                          encode: Button -> Value,
                                          decode: (Value, nat) -> Option<Button>,
                                          restore: (Button, nat) -> Button)
    requires forall b: Button, id: nat :: decode(encode(b), id) == Some(restore(b, id))
    ensures var r := DecodeRecords(Encoded(bs, encode), firstId, decode);
            r.complete && |r.buttons| == |bs| &&
            forall k :: 0 <= k < |bs| ==> r.buttons[k] == restore(bs[k], firstId + k)
    decreases |bs|
  {
    if bs != [] {
      var n := |bs| - 1;
      assert Encoded(bs, encode)[..n] == Encoded(bs[..n], encode);
      DecodeEncoded(bs[..n], firstId, encode, decode, restore);
    }
  }

  /** The saved list: one dict per button, in list order. */
  function Encoded(bs: seq<Button>, encode: Button -> Value): (vs: seq<Value>)
    ensures |vs| == |bs|
  {
    seq(|bs|, k requires 0 <= k < |bs| => encode(bs[k]))
  }

  /** The save loop `for btn in picker_buttons: data['buttons'].append({...})`. */
  method EncodeButtons(bs: seq<Button>, encode: Button -> Value) returns (vs: seq<Value>)
    ensures vs == Encoded(bs, encode)
  {
    vs := [];
    var i := 0;
    while i < |bs|
      invariant 0 <= i <= |bs|
      invariant vs == Encoded(bs[..i], encode)
    {
      vs := vs + [encode(bs[i])];
      i := i + 1;
    }
    assert bs[..i] == bs;
  }

  /** Decoded buttons get consecutive fresh ids. */
  lemma {:induction false} DecodeRecordsIds(items: seq<Value>, firstId: nat, decode: (Value, nat) -> Option<Button>)
    requires forall v: Value, id: nat :: decode(v, id).Some? ==> decode(v, id).value.id == id
    ensures forall k :: 0 <= k < |DecodeRecords(items, firstId, decode).buttons| ==>
              DecodeRecords(items, firstId, decode).buttons[k].id == firstId + k
    decreases |items|
  {
    if items != [] {
      DecodeRecordsIds(items[..|items| - 1], firstId, decode);
    }
  }

  /**
   * The read is complete exactly when every dict decodes with the id it
   * would get, and then the buttons are those decodes in file order.
   */
  lemma {:induction false} DecodeRecordsComplete(items: seq<Value>, firstId: nat, decode: (Value, nat) -> Option<Button>)
    ensures DecodeRecords(items, firstId, decode).complete <==>
              forall k :: 0 <= k < |items| ==> decode(items[k], firstId + k).Some?
    ensures DecodeRecords(items, firstId, decode).complete ==>
              forall k :: 0 <= k < |items| ==>
                decode(items[k], firstId + k).Some? &&
                DecodeRecords(items, firstId, decode).buttons[k] == decode(items[k], firstId + k).value
    decreases |items|
  {
    if items != [] {
      var n := |items| - 1;
      var pre := items[..n];
      DecodeRecordsComplete(pre, firstId, decode);
      assert forall k :: 0 <= k < n ==> pre[k] == items[k];
      var prev := DecodeRecords(pre, firstId, decode);
      if prev.complete {
        assert |prev.buttons| == n;
      }
    }
  }

  /** The all-or-nothing read: every dict decoded with the id it would get, or `None`. */
  function DecodeAll(items: seq<Value>, firstId: nat, decode: (Value, nat) -> Option<Button>): (r: Option<seq<Button>>)
    ensures r.Some? ==> |r.value| == |items|
  {
    if forall k :: 0 <= k < |items| ==> decode(items[k], firstId + k).Some?
    then Some(seq(|items|, k requires 0 <= k < |items| => decode(items[k], firstId + k).value))
    else None
  }

  /** The all-or-nothing read succeeds exactly when the loop reads to the end, with the same buttons. */
  lemma DecodeAllAgrees(items: seq<Value>, firstId: nat, decode: (Value, nat) -> Option<Button>)
    ensures DecodeAll(items, firstId, decode).Some? <==> DecodeRecords(items, firstId, decode).complete
    ensures DecodeAll(items, firstId, decode).Some? ==>
              DecodeAll(items, firstId, decode).value == DecodeRecords(items, firstId, decode).buttons
  {
    DecodeRecordsComplete(items, firstId, decode);
    var r := DecodeAll(items, firstId, decode);
    var dec := DecodeRecords(items, firstId, decode);
    if r.Some? {
      forall k | 0 <= k < |items| ensures dec.buttons[k] == r.value[k] {
        assert r.value[k] == decode(items[k], firstId + k).value;
      }
      assert dec.buttons == r.value;
    }
  }
}
