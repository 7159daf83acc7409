/**
 The LRC side of the converter: a cue's time tag `[MM:SS.cc]`, one line per cue
 with text, and the reading of such a line back into its fields.
 */
module Lyrics {
  import opened Wrappers
  import opened Timing

  /** One cue of the transcript: its start time, already folded into minutes, and its text. */
  datatype Cue = Cue(minute: nat, second: nat, centisecond: nat, text: string)

  function DigitChar(d: nat): (c: char)
    requires d < 10
    ensures IsDigit(c) && DigitValue(c) == d
  {
    ('0' as int + d) as char
  }

  lemma ValueSnoc(ds: string, c: char)
    requires AllDigits(ds) && IsDigit(c)
    ensures AllDigits(ds + [c]) && Value(ds + [c]) == 10 * Value(ds) + DigitValue(c)
  {
    assert (ds + [c])[..|ds|] == ds;
  }

  /** Python's `str(n)` for a natural number: the shortest decimal numeral. */
  function Decimal(n: nat): (r: string)
    ensures IsNumeral(r)
    ensures Value(r) == n
    ensures |r| > 1 ==> r[0] != '0'
  {
    if n < 10 then
      assert Value([DigitChar(n)]) == n by { assert [DigitChar(n)][..0] == []; }
      [DigitChar(n)]
    else
      var d := Decimal(n / 10);
      ValueSnoc(d, DigitChar(n % 10));
      d + [DigitChar(n % 10)]
  }

  /**
   Python's `f"{n:02d}"`: the decimal numeral left-padded with zeros to at least
   two digits, never cut down to two.
   */
  function Pad2(n: nat): (r: string)
    ensures |r| >= 2 && IsNumeral(r)
    ensures Value(r) == n
    ensures |r| > 2 ==> r[0] != '0'
  {
    if n < 10 then
      ValueSnoc(['0'], DigitChar(n));
      assert Value(['0']) == 0 by { assert ['0'][..0] == []; }
      ['0', DigitChar(n)]
    else
      Decimal(n)
  }

  /** The separators inside a time tag `MM:SS.cc`. */
  const TagSeps: seq<string> := [":", "."]

  /** The three zero-padded fields of a cue's time tag. */
  function TagFields(c: Cue): seq<string>
  {
    [Pad2(c.minute), Pad2(c.second), Pad2(c.centisecond)]
  }

  /** The time tag `[MM:SS.cc]` of a cue followed by `rest`. */
  function TagThen(c: Cue, rest: string): string
  {
    "[" + FieldsThen(TagFields(c), TagSeps, "]" + rest)
  }

  /** The time tag alone. */
  function TimeTag(c: Cue): string
  {
    TagThen(c, "")
  }

  /** The LRC line `[MM:SS.cc]text` of a cue. */
  function LrcLine(c: Cue): string
  {
    TagThen(c, c.text)
  }

  /** Reads the fields of an LRC line `[M:S.C]text` back. */
  function ReadTag(line: string): Option<Cue>
  {
    if |line| == 0 || line[0] != '[' then None
    else
      var f := ReadFields(TagSeps, line[1..]);
      if f.None? || !StartsWith(f.value.1, "]") then None
      else
        var v := f.value.0;
        Some(Cue(v[0], v[1], v[2], f.value.1[1..]))
  }

  lemma TagFieldsFacts(c: Cue)
    ensures AllNumerals(TagFields(c))
    ensures Values(TagFields(c)) == [c.minute, c.second, c.centisecond]
    ensures Separators(TagSeps)
  {
    var fs := TagFields(c);
    assert fs[1..] == [Pad2(c.second), Pad2(c.centisecond)];
    assert fs[1..][1..] == [Pad2(c.centisecond)];
    assert fs[1..][1..][1..] == [];
    assert Values([Pad2(c.centisecond)]) == [c.centisecond] + Values([]);
    assert Values([Pad2(c.second), Pad2(c.centisecond)]) == [c.second] + Values([Pad2(c.centisecond)]);
  }

  /** Every LRC line reads back to the cue it was rendered from. */
  lemma ReadTagThen(c: Cue, rest: string)
    ensures ReadTag(TagThen(c, rest)) == Some(Cue(c.minute, c.second, c.centisecond, rest))
  {
    var tail := "]" + rest;
    TagFieldsFacts(c);
    ReadFieldsOf(TagFields(c), TagSeps, tail);
    assert TagThen(c, rest)[1..] == FieldsThen(TagFields(c), TagSeps, tail);
    assert StartsWith(tail, "]") && tail[1..] == rest;
  }

  /** The cues that produce a line: those whose text is not empty, in order. */
  function Spoken(cues: seq<Cue>): (r: seq<Cue>)
    ensures |r| <= |cues|
    ensures forall k :: 0 <= k < |r| ==> r[k].text != [] && r[k] in cues
  {
    if |cues| == 0 then []
    else (if cues[0].text == [] then [] else [cues[0]]) + Spoken(cues[1..])
  }

  /** No cue with text is dropped. */
  lemma {:induction false} SpokenKeeps(cues: seq<Cue>)
    ensures forall c :: c in cues && c.text != [] ==> c in Spoken(cues)
  {
    if |cues| > 0 {
      SpokenKeeps(cues[1..]);
      assert forall c :: c in cues ==> c == cues[0] || c in cues[1..];
    }
  }

  /** Keeping the cues with text commutes with concatenation, so their order is the transcript's. */
  lemma {:induction false} SpokenAppend(a: seq<Cue>, b: seq<Cue>)
    ensures Spoken(a + b) == Spoken(a) + Spoken(b)
    decreases |a|
  {
    if |a| == 0 {
      assert a + b == b;
    } else {
      SpokenAppend(a[1..], b);
      var head := if a[0].text == [] then [] else [a[0]];
      var ab := a + b;
      assert ab[1..] == a[1..] + b && ab[0] == a[0];
      calc {
        Spoken(ab);
        head + Spoken(ab[1..]);
        head + (Spoken(a[1..]) + Spoken(b));
        (head + Spoken(a[1..])) + Spoken(b);
        Spoken(a) + Spoken(b);
      }
    }
  }

  /**
   The lines written for a transcript, one per cue with text, in order, each made
   by `line`; cues whose text is empty are skipped.
   */
  function Emit(line: Cue -> string, cues: seq<Cue>): seq<string>
  {
    if |cues| == 0 then []
    else (if cues[0].text == [] then [] else [line(cues[0])]) + Emit(line, cues[1..])
  }

  /** The LRC lines of a transcript: `[MM:SS.cc]text` for each cue with text. */
  function Render(cues: seq<Cue>): seq<string>
  {
    Emit(LrcLine, cues)
  }

  /** The emitted lines are those of the spoken cues, index for index. */
  lemma {:induction false} EmitSpoken(line: Cue -> string, cues: seq<Cue>)
    ensures |Emit(line, cues)| == |Spoken(cues)|
    ensures forall k :: 0 <= k < |Emit(line, cues)| ==> Emit(line, cues)[k] == line(Spoken(cues)[k])
  {
    if |cues| > 0 {
      EmitSpoken(line, cues[1..]);
      var head := if cues[0].text == [] then [] else [line(cues[0])];
      var rest := Emit(line, cues[1..]);
      var spoken := (if cues[0].text == [] then [] else [cues[0]]) + Spoken(cues[1..]);
      assert Emit(line, cues) == head + rest;
      assert Spoken(cues) == spoken;
      forall k | 0 <= k < |head + rest| ensures (head + rest)[k] == line(spoken[k]) {
        if k >= |head| {
          assert (head + rest)[k] == rest[k - |head|];
          assert spoken[k] == Spoken(cues[1..])[k - |head|];
        }
      }
    }
  }

  /** Rendering is the LRC line of each cue that has text, in order. */
  lemma RenderSpoken(cues: seq<Cue>)
    ensures |Render(cues)| == |Spoken(cues)|
    ensures forall k :: 0 <= k < |Render(cues)| ==> Render(cues)[k] == LrcLine(Spoken(cues)[k])
  {
    EmitSpoken(LrcLine, cues);
  }

  /** Every rendered line reads back to its cue: decoding undoes rendering, cue by cue. */
  lemma RenderReadsBack(cues: seq<Cue>)
    ensures |Render(cues)| == |Spoken(cues)|
    ensures forall k :: 0 <= k < |Render(cues)| ==> ReadTag(Render(cues)[k]) == Some(Spoken(cues)[k])
  {
    RenderSpoken(cues);
    forall k | 0 <= k < |Render(cues)| ensures ReadTag(Render(cues)[k]) == Some(Spoken(cues)[k]) {
      ReadTagThen(Spoken(cues)[k], Spoken(cues)[k].text);
    }
  }

  /** Emitting distributes over concatenation of transcripts. */
  lemma {:induction false} EmitAppend(line: Cue -> string, a: seq<Cue>, b: seq<Cue>)
    ensures Emit(line, a + b) == Emit(line, a) + Emit(line, b)
    decreases |a|
  {
    if |a| == 0 {
      assert a + b == b;
    } else {
      EmitAppend(line, a[1..], b);
      var head := if a[0].text == [] then [] else [line(a[0])];
      assert (a + b)[1..] == a[1..] + b;
      assert (a + b)[0] == a[0];
      assert Emit(line, a + b) == head + (Emit(line, a[1..]) + Emit(line, b));
      assert head + (Emit(line, a[1..]) + Emit(line, b)) == (head + Emit(line, a[1..])) + Emit(line, b);
    }
  }

  /** Rendering distributes over concatenation of transcripts. */
  lemma RenderAppend(a: seq<Cue>, b: seq<Cue>)
    ensures Render(a + b) == Render(a) + Render(b)
  {
    EmitAppend(LrcLine, a, b);
  }

  /** A cue in front contributes its line, or nothing when its text is empty. */
  lemma RenderCons(c: Cue, rest: seq<Cue>)
    ensures Render([c] + rest) == (if c.text == [] then [] else [LrcLine(c)]) + Render(rest)
  {
    assert ([c] + rest)[1..] == rest;
  }

  /** A tag line starts with `[` and ends with the text that follows the tag. */
  lemma TagThenShape(c: Cue, rest: string)
    ensures |TagThen(c, rest)| > |rest|
    ensures TagThen(c, rest)[0] == '['
    ensures TagThen(c, rest)[|TagThen(c, rest)| - |rest|..] == rest
  {
    FieldsThenAppend(TagFields(c), TagSeps, "]" + rest);
    var p := "[" + FieldsThen(TagFields(c), TagSeps, []) + "]";
    assert TagThen(c, rest) == p + rest;
  }

  /** A tag line contains no newline besides those of its text. */
  lemma TagThenNoNewline(c: Cue, rest: string)
    requires '\n' !in rest
    ensures '\n' !in TagThen(c, rest)
  {
    var fs := TagFields(c);
    assert forall i :: 0 <= i < |fs| ==> IsNumeral(fs[i]);
    assert forall i :: 0 <= i < |fs| ==> '\n' !in fs[i];
    FieldsThenAvoids(fs, TagSeps, "]" + rest, '\n');
  }
}
