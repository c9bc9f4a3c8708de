/** The key schedule's numbers and names said again: key names, frame codes, deadlines, batches. */
module CadetReference {
  import opened Bytes
  import opened CadetFrames
  import opened CadetPacing
  import opened CadetSchedule

  // ----- Keys -----

  // Ten characters go by the name of their key; any other by itself if it has a key, else in lower case.
  lemma NamesOfSpecials(values: Mapping, i: nat)
    requires i < 10
    ensures var characters := "():'\"- #%*";
            var names := ["parenleft", "parenright", "colon", "apostrophe", "quotedbl",
                          "minus", "space", "numbersign", "percent", "asterisk"];
            KeyOf(characters[i], values) == if names[i] in values.names then Ok(values.names[names[i]]) else Err
  {
    assert i in {0, 1, 2, 3, 4, 5, 6, 7, 8, 9};
  }

  lemma NamesOfOthers(values: Mapping, c: char)
    requires c !in "():'\"- #%*"
    ensures KeyOf(c, values) ==
              if [c] in values.names then Ok(values.names[[c]])
              else if values.lower(c) in values.names then Ok(values.names[values.lower(c)])
              else Err
  {
    assert "():'\"- #%*" == ['(', ')', ':', '\'', '\"', '-', ' ', '#', '%', '*'];
  }

  // A stroke: the code and 8000 (hexadecimal); or modifier, code, 8000 and its mask, 8000. The modifiers are octal
  // 24, 44 and 104 with masks 1, 2 and 4.
  lemma FramesOfStroke(k: Key)
    ensures Stroke(k) ==
              match k.plane
              case Unshift => Ok([k.code, 0x8000])
              case Shift => Ok([2 * 8 + 4, k.code, 0x8001, 0x8000])
              case Greek => Ok([4 * 8 + 4, k.code, 0x8002, 0x8000])
              case Top => Ok([8 * 8 + 4, k.code, 0x8004, 0x8000])
              case Other => Err
  {}

  // ----- Deadlines -----

  // The n-th frame comes at the first boundary not before n sixtieths of 1,000,000.
  lemma SpacingIs(n: nat)
    ensures 60 * (Spacing(n) - 1) < 1_000_000 * n <= 60 * Spacing(n)
  {}

  // The boot texts start at 25 and 27 million.
  lemma BootStarts(values: Mapping, aText: string, bText: string, aStart: int, hold: int, bursting: Bursting)
    requires Groups(values, aText, bText, aStart, hold, bursting).Ok?
    ensures var g := Groups(values, aText, bText, aStart, hold, bursting).value;
            && g[0] != [] && g[1] != [] && g[2] != [] && g[3] != []
            && g[0][0].due == 25_000_000 && g[1][0].due == 27_000_000 && g[2][0].due == aStart
            && g[3][0].due == g[2][|g[2]| - 1].due + hold
            && (forall e :: e in g[0] || e in g[1] ==> e.phase == Boot)
            && (forall e :: e in g[2] ==> e.phase == FormA) && (forall e :: e in g[3] ==> e.phase == FormB)
  {
    hide Form, WireOf, Increasing, Codes, WithReturn;
    var g := Groups(values, aText, bText, aStart, hold, bursting).value;
    var expanded := WithReturn(values);
    FormIsPaced(Boot, BOOT_START, "\r", expanded, None);
    FormIsPaced(Boot, N_START, "N\r", expanded, None);
    FormIsPaced(FormA, aStart, aText + "\r", expanded, bursting);
    FormIsPaced(FormB, LastDue(g[2]) + hold, bText + "\r", expanded, bursting);
    FormPhase(Boot, BOOT_START, "\r", expanded, None);
    FormPhase(Boot, N_START, "N\r", expanded, None);
    FormPhase(FormA, aStart, aText + "\r", expanded, bursting);
    FormPhase(FormB, LastDue(g[2]) + hold, bText + "\r", expanded, bursting);
  }

  lemma FormPhase(phase: Phase, start: int, text: string, values: Mapping, bursting: Bursting)
    requires Form(phase, start, text, values, bursting).Ok?
    ensures forall e :: e in Form(phase, start, text, values, bursting).value ==> e.phase == phase
  {
    hide WireOf, Strokes, Bursts, Spacing;
    if bursting.Some? {
      StrokesJoin(text, values);
      var s := Strokes(text, values).value;
      BurstsPhase(phase, s, start, bursting.value.0, bursting.value.1, |s|);
    }
  }

  lemma {:induction false} BurstsPhase(phase: Phase, strokes: seq<seq<nat>>, start: int, chars: nat, pause: nat, k: nat)
    requires k <= |strokes| && chars > 0 && forall i :: 0 <= i < |strokes| ==> strokes[i] != []
    ensures forall e :: e in Bursts(phase, strokes, start, chars, pause, k) ==> e.phase == phase
    decreases k
  {
    hide CharacterStart, Spacing;
    if k > 0 {
      BurstsPhase(phase, strokes, start, chars, pause, k - 1);
    }
  }

  // Every batch but the last holds 64 events.
  lemma BatchesHold64<T>(events: seq<T>, k: nat)
    requires k < |Chunks(events)|
    ensures 1 <= |Chunks(events)[k]| <= 64 && (k < |Chunks(events)| - 1 ==> |Chunks(events)[k]| == 64)
    ensures |Chunks(events)| == (|events| + 63) / 64
  {
    ChunksPartition(events);
  }
}
