/**
 `vtt_to_lrc`: scan the lines of a WebVTT file; each timing line opens a cue whose
 payload runs to the next blank line; each cue with text becomes one LRC line.
 The file is given as the list of its lines (what `readlines` returns), and the
 scan is written over an index into that list, as the loop of `vtt_to_lrc` is.

 The scan is stated for any per-line cleaner `clean`; `VttToLrc` plugs in
 `clean_text` (`Markup.Cleaner`). What the scan needs of a cleaner is only that
 its output is trimmed, which `clean_text` guarantees.
 */
module Vtt {
  import opened Wrappers
  import opened Text
  import opened Markup
  import opened Timing
  import opened Lyrics

  /** `not line.strip()`: the line is empty or whitespace only (see `StripEmpty`). */
  predicate Blank(line: string)
  {
    Strip(line) == []
  }

  /** Index of the first blank line at or after `i`, or the end. */
  function BodyEnd(lines: seq<string>, i: nat): (j: nat)
    requires i <= |lines|
    ensures i <= j <= |lines|
    decreases |lines| - i
  {
    if i == |lines| || Blank(lines[i]) then i else BodyEnd(lines, i + 1)
  }

  /** The body ends at the first blank line: every line before it is non-blank. */
  lemma {:induction false} BodyEndFirstBlank(lines: seq<string>, i: nat)
    requires i <= |lines|
    ensures forall k :: i <= k < BodyEnd(lines, i) ==> !Blank(lines[k])
    ensures BodyEnd(lines, i) < |lines| ==> Blank(lines[BodyEnd(lines, i)])
    decreases |lines| - i
  {
    if i < |lines| && !Blank(lines[i]) {
      BodyEndFirstBlank(lines, i + 1);
    }
  }

  /** Conversely, the first blank line after a run of non-blank lines is where the body ends. */
  lemma {:induction false} BodyEndAt(lines: seq<string>, i: nat, j: nat)
    requires i <= j <= |lines|
    requires forall k :: i <= k < j ==> !Blank(lines[k])
    requires j < |lines| ==> Blank(lines[j])
    ensures BodyEnd(lines, i) == j
    decreases j - i
  {
    if i < j {
      BodyEndAt(lines, i + 1, j);
    }
  }

  /** The cleaner always returns trimmed text, as `clean_text` does. */
  ghost predicate TrimsOutput(clean: string -> string)
  {
    forall t :: Trimmed(clean(t))
  }

  /** The non-empty cleaned results of the stripped lines `lines[i..j]`, in order. */
  function CleanedLines(clean: string -> string, lines: seq<string>, i: nat, j: nat): seq<string>
    requires i <= j <= |lines|
    decreases j - i
  {
    if j == i then []
    else
      var c := clean(Strip(lines[j - 1]));
      CleanedLines(clean, lines, i, j - 1) + (if c == [] then [] else [c])
  }

  /**
   At most one item per line, every item non-empty, and every item trimmed when
   the cleaner trims.
   */
  lemma {:induction false} CleanedLinesFacts(clean: string -> string, lines: seq<string>, i: nat, j: nat)
    requires i <= j <= |lines|
    ensures |CleanedLines(clean, lines, i, j)| <= j - i
    ensures forall k :: 0 <= k < |CleanedLines(clean, lines, i, j)| ==> CleanedLines(clean, lines, i, j)[k] != []
    ensures TrimsOutput(clean) ==>
      forall k :: 0 <= k < |CleanedLines(clean, lines, i, j)| ==> Trimmed(CleanedLines(clean, lines, i, j)[k])
    decreases j - i
  {
    if j > i {
      var prev := CleanedLines(clean, lines, i, j - 1);
      CleanedLinesFacts(clean, lines, i, j - 1);
      var c := clean(Strip(lines[j - 1]));
      var last := if c == [] then [] else [c];
      assert CleanedLines(clean, lines, i, j) == prev + last;
      forall k | 0 <= k < |prev + last|
        ensures (prev + last)[k] != [] && (TrimsOutput(clean) ==> Trimmed((prev + last)[k]))
      {
        if k < |prev| {
          assert (prev + last)[k] == prev[k];
        } else {
          assert (prev + last)[k] == c;
        }
      }
    }
  }

  /** Joining non-empty items is empty exactly when there are no items. */
  lemma JoinEmpty(items: seq<string>, sep: string)
    requires forall k :: 0 <= k < |items| ==> items[k] != []
    ensures Join(items, sep) == [] <==> items == []
  {
    if |items| > 0 {
      JoinEnds(items, sep);
    }
  }

  /** `' '.join(text_lines).strip()` for the payload `lines[i..j]`. */
  function CueText(clean: string -> string, lines: seq<string>, i: nat, j: nat): (r: string)
    requires i <= j <= |lines|
    ensures Trimmed(r)
  {
    Strip(Join(CleanedLines(clean, lines, i, j), " "))
  }

  /**
   With a trimming cleaner the final strip removes nothing, and the text is empty
   exactly when no payload line survives cleaning.
   */
  lemma CueTextJoin(clean: string -> string, lines: seq<string>, i: nat, j: nat)
    requires i <= j <= |lines|
    requires TrimsOutput(clean)
    ensures CueText(clean, lines, i, j) == Join(CleanedLines(clean, lines, i, j), " ")
    ensures CueText(clean, lines, i, j) == [] <==> CleanedLines(clean, lines, i, j) == []
  {
    var items := CleanedLines(clean, lines, i, j);
    CleanedLinesFacts(clean, lines, i, j);
    JoinTrimmed(items, " ");
    StripTrimmed(Join(items, " "));
    JoinEmpty(items, " ");
  }

  /** The cue for a matched start time: minutes folded from hours, centiseconds truncated. */
  function CueAt(t: Timing, text: string): (c: Cue)
    ensures c.minute == t.hours * 60 + t.minutes && c.second == t.seconds
    ensures 10 * c.centisecond <= t.fraction < 10 * c.centisecond + 10
    ensures c.text == text
  {
    Cue(t.hours * 60 + t.minutes, t.seconds, t.fraction / 10, text)
  }

  /** `timestamp_re.match(line.strip())` succeeds. */
  predicate IsTimingLine(line: string)
  {
    ParseTiming(Strip(line)).Some?
  }

  /**
   The transcript from line `i` on: one cue per timing line, each with the text of the
   lines after it up to the next blank line; the scan resumes after that payload.
   */
  function ParseFrom(clean: string -> string, lines: seq<string>, i: nat): seq<Cue>
    requires i <= |lines|
    decreases |lines| - i
  {
    if i == |lines| then []
    else
      var t := ParseTiming(Strip(lines[i]));
      if t.None? then ParseFrom(clean, lines, i + 1)
      else
        var j := BodyEnd(lines, i + 1);
        [CueAt(t.value, CueText(clean, lines, i + 1, j))] + ParseFrom(clean, lines, j)
  }

  /** One step of the scan at line `i`: skip a non-timing line, or take a cue and its payload. */
  lemma ParseFromStep(clean: string -> string, lines: seq<string>, i: nat)
    requires i < |lines|
    ensures !IsTimingLine(lines[i]) ==> ParseFrom(clean, lines, i) == ParseFrom(clean, lines, i + 1)
    ensures IsTimingLine(lines[i]) ==>
      var j := BodyEnd(lines, i + 1);
      ParseFrom(clean, lines, i)
        == [CueAt(ParseTiming(Strip(lines[i])).value, CueText(clean, lines, i + 1, j))] + ParseFrom(clean, lines, j)
  {
  }

  /** The lines a timing line contributes: its cue's line, unless the cue has no text. */
  lemma RenderFromStep(clean: string -> string, lines: seq<string>, i: nat)
    requires i < |lines| && IsTimingLine(lines[i])
    ensures var j := BodyEnd(lines, i + 1);
      var cue := CueAt(ParseTiming(Strip(lines[i])).value, CueText(clean, lines, i + 1, j));
      Render(ParseFrom(clean, lines, i))
        == (if cue.text == [] then [] else [LrcLine(cue)]) + Render(ParseFrom(clean, lines, j))
  {
    var j := BodyEnd(lines, i + 1);
    var cue := CueAt(ParseTiming(Strip(lines[i])).value, CueText(clean, lines, i + 1, j));
    ParseFromStep(clean, lines, i);
    RenderCons(cue, ParseFrom(clean, lines, j));
  }

  /** Every cue's text is trimmed, and there are at most as many cues as lines. */
  lemma {:induction false} ParseFromFacts(clean: string -> string, lines: seq<string>, i: nat)
    requires i <= |lines|
    ensures |ParseFrom(clean, lines, i)| <= |lines| - i
    ensures forall c :: c in ParseFrom(clean, lines, i) ==> Trimmed(c.text)
    decreases |lines| - i
  {
    if i < |lines| {
      var t := ParseTiming(Strip(lines[i]));
      if t.None? {
        ParseFromFacts(clean, lines, i + 1);
      } else {
        var j := BodyEnd(lines, i + 1);
        ParseFromFacts(clean, lines, j);
      }
    }
  }

  /** The whole transcript. */
  function ParseCues(clean: string -> string, lines: seq<string>): (r: seq<Cue>)
    ensures |r| <= |lines|
    ensures forall c :: c in r ==> Trimmed(c.text)
  {
    ParseFromFacts(clean, lines, 0);
    ParseFrom(clean, lines, 0)
  }

  /** The newline-joined lines of cues with trimmed text start with `[` and end in text. */
  lemma LyricsShape(cues: seq<Cue>)
    requires forall c :: c in cues ==> Trimmed(c.text)
    ensures var j := Join(Render(cues), "\n");
      |j| > 0 ==> j[0] == '[' && !IsSpace(j[|j| - 1])
  {
    var out := Render(cues);
    RenderSpoken(cues);
    if |out| > 0 {
      JoinEnds(out, "\n");
      var first := Spoken(cues)[0];
      var last := Spoken(cues)[|out| - 1];
      TagThenShape(first, first.text);
      TagThenShape(last, last.text);
      var j := Join(out, "\n");
      assert j[0] == j[..|out[0]|][0];
      var lastLine := out[|out| - 1];
      assert j[|j| - 1] == j[|j| - |lastLine|..][|lastLine| - 1];
      assert lastLine[|lastLine| - 1] == lastLine[|lastLine| - |last.text|..][|last.text| - 1];
    }
  }

  /**
   `vtt_to_lrc`: the LRC lines of the transcript, cleaned with `clean_text`, joined
   by newlines. A non-empty result starts with a time tag and ends with cue text,
   so it has no trailing newline.
   */
  function VttToLrc(unescape: string -> string, lines: seq<string>): (r: string)
    ensures |r| > 0 ==> r[0] == '[' && !IsSpace(r[|r| - 1])
  {
    var cues := ParseCues(Cleaner(unescape), lines);
    LyricsShape(cues);
    Join(Render(cues), "\n")
  }

  /**
   Splitting a non-empty output at newlines gives back the LRC lines, one per cue
   with text, and each reads back to its cue. This needs the cue texts to be free of
   newlines: the input lines are stripped, but unescaping (`&#10;`) can produce one.
   */
  lemma OutputReadsBack(unescape: string -> string, lines: seq<string>)
    requires forall c :: c in ParseCues(Cleaner(unescape), lines) ==> '\n' !in c.text
    requires VttToLrc(unescape, lines) != []
    ensures Split(VttToLrc(unescape, lines), '\n') == Render(ParseCues(Cleaner(unescape), lines))
    ensures var out := Split(VttToLrc(unescape, lines), '\n');
      var spoken := Spoken(ParseCues(Cleaner(unescape), lines));
      |out| == |spoken| && forall k :: 0 <= k < |out| ==> ReadTag(out[k]) == Some(spoken[k])
  {
    var cues := ParseCues(Cleaner(unescape), lines);
    var out := Render(cues);
    RenderSpoken(cues);
    RenderReadsBack(cues);
    forall k | 0 <= k < |out| ensures '\n' !in out[k] {
      var c := Spoken(cues)[k];
      TagThenNoNewline(c, c.text);
    }
    SplitJoin(out, '\n');
  }

  /** `clean_text` is a trimming cleaner. */
  lemma CleanerTrims(unescape: string -> string)
    ensures TrimsOutput(Cleaner(unescape))
  {
    forall t ensures Trimmed(Cleaner(unescape)(t)) {
      assert Cleaner(unescape)(t) == CleanText(unescape, t);
    }
  }

  /** From a point past which no line is a timing line, no cue is produced. */
  lemma {:induction false} NoTimingFrom(clean: string -> string, lines: seq<string>, i: nat)
    requires i <= |lines|
    requires forall k :: i <= k < |lines| ==> !IsTimingLine(lines[k])
    ensures ParseFrom(clean, lines, i) == []
    decreases |lines| - i
  {
    if i < |lines| {
      NoTimingFrom(clean, lines, i + 1);
    }
  }

  /** An input with no timing line yields the empty string. */
  lemma NoTimingNoLyrics(unescape: string -> string, lines: seq<string>)
    requires forall k :: 0 <= k < |lines| ==> !IsTimingLine(lines[k])
    ensures VttToLrc(unescape, lines) == []
  {
    NoTimingFrom(Cleaner(unescape), lines, 0);
  }

  /** A blank line is never a timing line. */
  lemma BlankNotTiming(line: string)
    requires Blank(line)
    ensures !IsTimingLine(line)
  {
    assert DigitRun(Strip(line)) == 0;
  }

  /** A file of one cue: a timing line, one payload line, and a blank line. */
  lemma SingleCue(clean: string -> string, lines: seq<string>, t: Timing)
    requires |lines| == 3
    requires ParseTiming(Strip(lines[0])) == Some(t)
    requires !Blank(lines[1]) && Blank(lines[2])
    ensures BodyEnd(lines, 1) == 2
    ensures ParseFrom(clean, lines, 0) == [CueAt(t, CueText(clean, lines, 1, 2))]
  {
    ParseFromStep(clean, lines, 0);
    BlankNotTiming(lines[2]);
    ParseFromStep(clean, lines, 2);
    assert ParseFrom(clean, lines, 2) == [];
  }

  /** The inner loop of `vtt_to_lrc`: collect the cleaned payload lines up to the next blank line. */
  method CollectPayload(clean: string -> string, lines: seq<string>, start: nat)
    returns (textLines: seq<string>, next: nat)
    requires start <= |lines|
    ensures next == BodyEnd(lines, start)
    ensures textLines == CleanedLines(clean, lines, start, next)
  {
    next := start;
    textLines := [];
    while next < |lines| && Strip(lines[next]) != []
      invariant start <= next <= |lines|
      invariant BodyEnd(lines, next) == BodyEnd(lines, start)
      invariant textLines == CleanedLines(clean, lines, start, next)
      decreases |lines| - next
    {
      var cleaned := clean(Strip(lines[next]));
      if cleaned != [] {
        textLines := textLines + [cleaned];
      }
      next := next + 1;
    }
    assert BodyEnd(lines, next) == next;
  }

  /** The loop step at a timing line: append the cue's line, if any, and resume after its payload. */
  lemma TimingStep(clean: string -> string, lines: seq<string>, i: nat, t: Timing, next: nat, text: string,
                   lrc: seq<string>, total: seq<string>)
    requires i < |lines| && ParseTiming(Strip(lines[i])) == Some(t)
    requires next == BodyEnd(lines, i + 1) && text == CueText(clean, lines, i + 1, next)
    requires lrc + Render(ParseFrom(clean, lines, i)) == total
    ensures (if text == [] then lrc else lrc + [LrcLine(CueAt(t, text))]) + Render(ParseFrom(clean, lines, next)) == total
  {
    RenderFromStep(clean, lines, i);
    var rest := Render(ParseFrom(clean, lines, next));
    if text != [] {
      var line := LrcLine(CueAt(t, text));
      assert Render(ParseFrom(clean, lines, i)) == [line] + rest;
      assert (lrc + [line]) + rest == lrc + ([line] + rest);
    } else {
      assert Render(ParseFrom(clean, lines, i)) == rest;
    }
  }

  /** The loop step at any other line: nothing is appended. */
  lemma SkipStep(clean: string -> string, lines: seq<string>, i: nat, lrc: seq<string>, total: seq<string>)
    requires i < |lines| && ParseTiming(Strip(lines[i])).None?
    requires lrc + Render(ParseFrom(clean, lines, i)) == total
    ensures lrc + Render(ParseFrom(clean, lines, i + 1)) == total
  {
    assert ParseFrom(clean, lines, i) == ParseFrom(clean, lines, i + 1);
  }

  /**
   The while loop of `vtt_to_lrc`, index by index: the LRC lines it appends are the
   rendering of the parsed transcript.
   */
  method CollectLyrics(clean: string -> string, lines: seq<string>) returns (lrc: seq<string>)
    ensures lrc == Render(ParseFrom(clean, lines, 0))
  {
    ghost var total := Render(ParseFrom(clean, lines, 0));
    lrc := [];
    var i := 0;
    while i < |lines|
      invariant 0 <= i <= |lines|
      invariant lrc + Render(ParseFrom(clean, lines, i)) == total
      decreases |lines| - i
    {
      var t := ParseTiming(Strip(lines[i]));
      if t.Some? {
        var textLines, next := CollectPayload(clean, lines, i + 1);
        var text := Strip(Join(textLines, " "));
        TimingStep(clean, lines, i, t.value, next, text, lrc, total);
        if text != [] {
          lrc := lrc + [LrcLine(CueAt(t.value, text))];
        }
        i := next;
      } else {
        SkipStep(clean, lines, i, lrc, total);
        i := i + 1;
      }
    }
    assert ParseFrom(clean, lines, i) == [];
  }

  /** `vtt_to_lrc` as written, with its loop: it computes the same text as `VttToLrc`. */
  method VttToLrcLoop(unescape: string -> string, lines: seq<string>) returns (out: string)
    ensures out == VttToLrc(unescape, lines)
  {
    var lrc := CollectLyrics(Cleaner(unescape), lines);
    out := Join(lrc, "\n");
  }
}
