/** Raw-Cadet key frames: the schedule's encoder, the witness's validator, and when they agree. */
module CadetFrames {
  import opened Bytes

  datatype Plane = Unshift | Shift | Top | Greek | Other

  datatype Key = Key(code: nat, plane: Plane)

  // The keyboard mapping by key name, and how a character is put in lower case: to any string, as for Unicode.
  datatype Mapping = Mapping(names: map<string, Key>, lower: char -> string)

  const ALL_UP: nat := 0x8000

  // ----- The encoder -----

  // Characters whose key has a longer name.
  function Special(c: char): Option<string> {
    match c
    case '(' => Some("parenleft")
    case ')' => Some("parenright")
    case ':' => Some("colon")
    case '\'' => Some("apostrophe")
    case '\"' => Some("quotedbl")
    case '-' => Some("minus")
    case ' ' => Some("space")
    case '#' => Some("numbersign")
    case '%' => Some("percent")
    case '*' => Some("asterisk")
    case _ => None
  }

  function KeyOf(c: char, values: Mapping): Result<Key> {
    var name :=
      match Special(c)
      case Some(s) => s
      case None => if [c] in values.names then [c] else values.lower(c);
    if name in values.names then Ok(values.names[name]) else Err
  }

  // Code and held mask of a modifier.
  function Modifier(p: Plane): (m: Option<(nat, nat)>)
    ensures m.Some? <==> p in {Shift, Top, Greek}
  {
    match p
    case Shift => Some((20, 1))  // octal 24
    case Top => Some((68, 4))    // octal 104
    case Greek => Some((36, 2))  // octal 44
    case _ => None
  }

  // The frames of one key stroke, ending all-up.
  function Stroke(k: Key): Result<seq<nat>> {
    if k.plane == Unshift then Ok([k.code, ALL_UP]) else
    match Modifier(k.plane)
    case Some((modifier, mask)) => Ok([modifier, k.code, ALL_UP + mask, ALL_UP])
    case None => Err
  }

  function Wire(keys: seq<Key>): Result<seq<nat>> {
    if keys == [] then Ok([]) else
    var before :- Wire(keys[..|keys| - 1]);
    var last :- Stroke(keys[|keys| - 1]);
    Ok(before + last)
  }

  function KeysOf(text: string, values: Mapping): Result<seq<Key>> {
    if text == [] then Ok([]) else
    var before :- KeysOf(text[..|text| - 1], values);
    var last :- KeyOf(text[|text| - 1], values);
    Ok(before + [last])
  }

  // The frames of a text, or nothing when a character has no key or a key no frames.
  function WireOf(text: string, values: Mapping): Result<seq<nat>> {
    var keys :- KeysOf(text, values);
    Wire(keys)
  }

  lemma {:induction false} PrefixFails(text: string, values: Mapping, n: nat)
    requires n <= |text| && WireOf(text[..n], values).Err?
    ensures WireOf(text, values).Err?
    decreases |text| - n
  {
    if n < |text| {
      assert text[..n + 1][..n] == text[..n];
      WireGrows(text[..n], text[n], values);
      assert text[..n + 1] == text[..n] + [text[n]];
      PrefixFails(text, values, n + 1);
    } else {
      assert text[..n] == text;
    }
  }

  lemma WireGrows(text: string, c: char, values: Mapping)
    ensures var k := KeyOf(c, values);
            WireOf(text + [c], values)
            == if WireOf(text, values).Ok? && k.Ok? && Stroke(k.value).Ok?
               then Ok(WireOf(text, values).value + Stroke(k.value).value) else Err
  {
    hide KeyOf, Stroke;
    assert (text + [c])[..|text|] == text;
    if KeysOf(text, values).Ok? && KeyOf(c, values).Ok? {
      var keys, k := KeysOf(text, values).value, KeyOf(c, values).value;
      assert (keys + [k])[..|keys|] == keys;
    }
  }

  lemma NothingTyped(values: Mapping)
    ensures WireOf([], values) == Ok([])
  {}

  method Transitions(text: string, values: Mapping) returns (r: Result<seq<nat>>)
    ensures r == WireOf(text, values)
  {
    hide KeyOf, WireOf;
    var result: seq<nat> := [];
    NothingTyped(values);
    for i := 0 to |text|
      invariant WireOf(text[..i], values) == Ok(result)
    {
      WireGrows(text[..i], text[i], values);
      assert text[..i + 1] == text[..i] + [text[i]];
      var key := KeyOf(text[i], values);
      if key.Err? {
        PrefixFails(text, values, i + 1);
        return Err;
      }
      var Key(code, want) := key.value;
      if want == Unshift {
        result := result + [code, ALL_UP];
      } else {
        var m := Modifier(want);
        if m.None? {
          PrefixFails(text, values, i + 1);
          return Err;
        }
        result := result + [m.value.0, code, ALL_UP + m.value.1, ALL_UP];
      }
    }
    assert text[..|text|] == text;
    return Ok(result);
  }

  // ----- The validator -----

  function HeldMask(code: nat): Option<nat> {
    if code == 20 then Some(1) else if code == 68 then Some(4) else if code == 36 then Some(2) else None
  }

  // How many frames the stroke at the front takes, unless it breaks the grammar.
  function StrokeLength(wire: seq<nat>): (r: Option<nat>)
    requires wire != []
    ensures r.Some? ==> r.value in {2, 4} && r.value <= |wire|
  {
    match HeldMask(wire[0])
    case Some(mask) =>
      if |wire| >= 4 && wire[1] <= 0x7f && wire[2] == ALL_UP + mask && wire[3] == ALL_UP then Some(4) else None
    case None =>
      if wire[0] <= 0x7f && |wire| >= 2 && wire[1] == ALL_UP then Some(2) else None
  }

  predicate AllUp(wire: seq<nat>)
    decreases |wire|
  {
    wire == [] || (StrokeLength(wire).Some? && AllUp(wire[StrokeLength(wire).value..]))
  }

  method ValidateGroup(wire: seq<nat>) returns (ok: bool)
    ensures ok <==> wire != [] && AllUp(wire)
  {
    if wire == [] {
      return false;
    }
    assert wire[0..] == wire;
    var index := 0;
    while index < |wire|
      invariant 0 <= index <= |wire|
      invariant AllUp(wire) == AllUp(wire[index..])
    {
      var code := wire[index];
      assert forall k :: index <= k < |wire| ==> wire[index..][k - index] == wire[k];
      if code > 0xffff {
        return false;
      }
      var mask := HeldMask(code);
      if mask.Some? {
        if index + 3 >= |wire| || wire[index + 1] > 0x7f || wire[index + 2] != ALL_UP + mask.value || wire[index + 3] != ALL_UP {
          return false;
        }
        assert wire[index..][4..] == wire[index + 4..];
        index := index + 4;
      } else {
        if code > 0x7f || index + 1 >= |wire| || wire[index + 1] != ALL_UP {
          return false;
        }
        assert wire[index..][2..] == wire[index + 2..];
        index := index + 2;
      }
    }
    return true;
  }

  // ----- Encoder and validator together -----

  // A key the frame grammar can carry.
  predicate Typable(k: Key) {
    k.plane != Other && k.code <= 0x7f && (k.plane == Unshift ==> HeldMask(k.code) == None)
  }

  lemma {:induction false} WireFront(keys: seq<Key>)
    requires keys != [] && Wire(keys).Ok?
    ensures Stroke(keys[0]).Ok? && Wire(keys[1..]).Ok?
    ensures Wire(keys).value == Stroke(keys[0]).value + Wire(keys[1..]).value
    decreases |keys|
  {
    hide Stroke;
    var n := |keys| - 1;
    if n > 0 {
      WireFront(keys[..n]);
      assert keys[1..][..n - 1] == keys[..n][1..];
      assert keys[1..][n - 1] == keys[n];
    }
  }

  lemma StrokeAtFront(k: Key, rest: seq<nat>)
    requires Stroke(k).Ok?
    ensures StrokeLength(Stroke(k).value + rest) == if Typable(k) then Some(|Stroke(k).value|) else None
    ensures (Stroke(k).value + rest)[|Stroke(k).value|..] == rest
  {}

  // The validator accepts what the encoder wrote exactly when every key is typable.
  lemma {:induction false} AcceptedIffTypable(keys: seq<Key>)
    requires Wire(keys).Ok?
    ensures AllUp(Wire(keys).value) <==> forall k :: k in keys ==> Typable(k)
    decreases |keys|
  {
    hide Stroke, StrokeLength, Typable, Wire;
    if keys == [] {
      NoKeys();
    } else {
      WireFront(keys);
      StrokeAtFront(keys[0], Wire(keys[1..]).value);
      StrokeNotEmpty(keys[0]);
      AcceptedIffTypable(keys[1..]);
      assert keys == [keys[0]] + keys[1..];
    }
  }

  lemma StrokeNotEmpty(k: Key)
    requires Stroke(k).Ok?
    ensures Stroke(k).value != []
  {}

  lemma NoKeys()
    ensures Wire([]) == Ok([])
  {}

  // The key held in the frames of one stroke.
  function ReadStroke(wire: seq<nat>): (k: Key)
    requires wire != [] && StrokeLength(wire).Some?
    ensures Typable(k) && Stroke(k) == Ok(wire[..StrokeLength(wire).value])
  {
    assert wire[..2] == [wire[0], wire[1]] && (|wire| >= 4 ==> wire[..4] == [wire[0], wire[1], wire[2], wire[3]]);
    match HeldMask(wire[0])
    case None => Key(wire[0], Unshift)
    case Some(mask) => Key(wire[1], if mask == 1 then Shift else if mask == 4 then Top else Greek)
  }

  // The decoder that the grammar implies.
  function Decode(wire: seq<nat>): seq<Key>
    requires AllUp(wire)
    decreases |wire|
  {
    if wire == [] then [] else [ReadStroke(wire)] + Decode(wire[StrokeLength(wire).value..])
  }

  lemma {:induction false} WirePrepend(k: Key, keys: seq<Key>)
    requires Stroke(k).Ok? && Wire(keys).Ok?
    ensures Wire([k] + keys) == Ok(Stroke(k).value + Wire(keys).value)
    decreases |keys|
  {
    hide Stroke;
    var n := |keys|;
    if n == 0 {
      var stroke := Stroke(k).value;
      assert [k] + keys == [k] && [k][..0] == [] && Wire([k]) == Ok([] + stroke);
      assert [] + stroke == stroke == stroke + [];
    } else {
      assert ([k] + keys)[..n] == [k] + keys[..n - 1] && ([k] + keys)[n] == keys[n - 1];
      WirePrepend(k, keys[..n - 1]);
      var a, b, c := Stroke(k).value, Wire(keys[..n - 1]).value, Stroke(keys[n - 1]).value;
      assert a + b + c == a + (b + c);
    }
  }

  // Every wire the validator accepts is the encoding of the typable keys it decodes to.
  lemma {:induction false} EncodeDecoded(wire: seq<nat>)
    requires AllUp(wire)
    ensures Wire(Decode(wire)) == Ok(wire) && forall k :: k in Decode(wire) ==> Typable(k)
    decreases |wire|
  {
    hide Stroke, StrokeLength, Typable, Wire;
    if wire == [] {
      NoKeys();
    } else {
      var k, n := ReadStroke(wire), StrokeLength(wire).value;
      EncodeDecoded(wire[n..]);
      WirePrepend(k, Decode(wire[n..]));
      assert wire == wire[..n] + wire[n..];
    }
  }

  // A text's frames are decoded back to its keys and planes, and to nothing else.
  lemma {:induction false} DecodeEncoded(keys: seq<Key>)
    requires Wire(keys).Ok? && forall k :: k in keys ==> Typable(k)
    ensures AllUp(Wire(keys).value) && Decode(Wire(keys).value) == keys
    decreases |keys|
  {
    hide Stroke, StrokeLength, Typable, Wire;
    AcceptedIffTypable(keys);
    if keys == [] {
      NoKeys();
    } else {
      WireFront(keys);
      var first, rest := Stroke(keys[0]).value, Wire(keys[1..]).value;
      StrokeAtFront(keys[0], rest);
      StrokeNotEmpty(keys[0]);
      DecodeEncoded(keys[1..]);
      assert (first + rest)[..|first|] == first;
      StrokeInjective(ReadStroke(first + rest), keys[0]);
      assert keys == [keys[0]] + keys[1..];
    }
  }

  lemma StrokeInjective(k: Key, l: Key)
    requires Typable(k) && Typable(l) && Stroke(k).Ok? && Stroke(k) == Stroke(l)
    ensures k == l
  {
    assert Stroke(k).value[0] == Stroke(l).value[0] && Stroke(k).value[1] == Stroke(l).value[1];
  }
}
