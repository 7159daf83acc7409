/**
 Worked examples of `vtt_to_lrc` and `clean_text` on concrete input, each derived
 from the general lemmas of the other modules. `html.unescape` stays abstract: the
 examples hold for every unescaping function that leaves text without `&` alone.
 */
module Examples {
  import opened Wrappers
  import opened Text
  import opened Markup
  import opened Timing
  import opened Lyrics
  import opened Vtt

  lemma HelloPieces()
    ensures "Hello " + ("<" + "i" + ">" + ("world" + ("</" + "i" + ">"))) == "Hello <i>world</i>"
    ensures "Hello " + "world" == "Hello world"
    ensures '&' !in "Hello <i>world</i>"
  {
  }

  lemma HelloPayload()
    ensures Strip("Hello <i>world</i>") == "Hello <i>world</i>" != []
  {
    var s := "Hello <i>world</i>";
    assert |s| == 18 && s[0] == 'H' && s[17] == '>';
    StripTrimmed(s);
  }

  /** Both tags of `Hello <i>world</i>` are deleted. */
  lemma StripHelloWorld()
    ensures StripTags("Hello <i>world</i>") == "Hello world"
  {
    StripTagPair("Hello ", "i", "world");
    HelloPieces();
  }

  lemma HelloWorldKept()
    ensures Strip(RemoveChar("Hello world", Note)) == "Hello world"
  {
    RemoveCharAbsent("Hello world", Note);
    var s := "Hello world";
    assert |s| == 11 && s[0] == 'H' && s[10] == 'd';
    StripTrimmed(s);
  }

  /** `clean_text("Hello <i>world</i>")` is `"Hello world"`. */
  lemma CleanHelloWorld(unescape: string -> string)
    requires KeepsPlain(unescape)
    ensures CleanText(unescape, "Hello <i>world</i>") == "Hello world"
  {
    HelloPieces();
    StripHelloWorld();
    HelloWorldKept();
  }

  /** A time tag is its three padded fields between the brackets and separators. */
  lemma LrcLineOf(c: Cue, mm: string, ss: string, cc: string)
    requires Pad2(c.minute) == mm && Pad2(c.second) == ss && Pad2(c.centisecond) == cc
    ensures LrcLine(c) == "[" + mm + ":" + ss + "." + cc + "]" + c.text
  {
    var fs := TagFields(c);
    assert fs[1..] == [ss, cc];
    assert fs[1..][1..] == [cc];
    assert TagSeps[1..] == ["."];
    assert TagSeps[1..][1..] == [];
  }

  lemma PadSmall()
    ensures Pad2(0) == "00" && Pad2(1) == "01" && Pad2(5) == "05" && Pad2(10) == "10"
  {
  }

  lemma PadTens()
    ensures Pad2(25) == "25" && Pad2(50) == "50" && Pad2(65) == "65"
  {
    assert Decimal(2) == "2" && Decimal(5) == "5" && Decimal(6) == "6";
  }

  lemma SmallValues()
    ensures Value("0") == 0 && Value("00") == 0 && Value("01") == 1 && Value("5") == 5
  {
    assert "00"[..1] == "0" && "01"[..1] == "0" && "0"[..0] == [] && "5"[..0] == [];
  }

  lemma TwoDigitValues()
    ensures Value("10") == 10 && Value("05") == 5
  {
    SmallValues();
    assert "10"[..1] == "1" && "1"[..0] == [] && "05"[..1] == "0";
  }

  lemma ThreeDigitValues()
    ensures Value("500") == 500 && Value("250") == 250
  {
    SmallValues();
    assert "500"[..2] == "50" && "50"[..1] == "5";
    assert "250"[..2] == "25" && "25"[..1] == "2" && "2"[..0] == [];
  }

  lemma HelloLine()
    ensures TimingLine(Clock("00", "00", "01", "500"), Clock("00", "00", "03", "000"), "")
      == "00:00:01.500 --> 00:00:03.000"
  {
    ClockText(Clock("00", "00", "03", "000"), "");
    ClockText(Clock("00", "00", "01", "500"), Arrow + "00:00:03.000");
  }

  lemma HelloStripped()
    ensures Strip("00:00:01.500 --> 00:00:03.000") == "00:00:01.500 --> 00:00:03.000"
  {
    var s := "00:00:01.500 --> 00:00:03.000";
    assert |s| == 29 && s[0] == '0' && s[28] == '0';
    StripTrimmed(s);
  }

  /** The start clock of `00:00:01.500 --> 00:00:03.000` is read, the end clock ignored. */
  lemma HelloTiming()
    ensures ParseTiming("00:00:01.500 --> 00:00:03.000") == Some(Timing(0, 0, 1, 500))
    ensures Strip("00:00:01.500 --> 00:00:03.000") == "00:00:01.500 --> 00:00:03.000"
  {
    HelloStripped();
    var start := Clock("00", "00", "01", "500");
    ParseTimingAccepts(start, Clock("00", "00", "03", "000"), "");
    HelloLine();
    SmallValues();
    ThreeDigitValues();
  }

  lemma FoldedLine()
    ensures TimingLine(Clock("01", "05", "10", "250"), Clock("01", "05", "12", "000"), "")
      == "01:05:10.250 --> 01:05:12.000"
  {
    ClockText(Clock("01", "05", "12", "000"), "");
    ClockText(Clock("01", "05", "10", "250"), Arrow + "01:05:12.000");
  }

  /** `01:05:10.250` gives the tag `[65:10.25]`: hours fold into minutes, the fraction is divided by ten. */
  lemma FoldedMinutes()
    ensures ParseTiming("01:05:10.250 --> 01:05:12.000") == Some(Timing(1, 5, 10, 250))
    ensures TimeTag(CueAt(Timing(1, 5, 10, 250), "")) == "[65:10.25]"
  {
    ParseTimingAccepts(Clock("01", "05", "10", "250"), Clock("01", "05", "12", "000"), "");
    FoldedLine();
    SmallValues();
    TwoDigitValues();
    ThreeDigitValues();
    FoldedTag();
  }

  lemma FoldedTag()
    ensures TimeTag(Cue(65, 10, 25, "")) == "[65:10.25]"
  {
    PadTens();
    PadSmall();
    LrcLineOf(Cue(65, 10, 25, ""), "65", "10", "25");
  }

  lemma ShortLine()
    ensures TimingLine(Clock("00", "00", "01", "5"), Clock("00", "00", "02", "0"), "")
      == "00:00:01.5 --> 00:00:02.0"
  {
    ClockText(Clock("00", "00", "02", "0"), "");
    ClockText(Clock("00", "00", "01", "5"), Arrow + "00:00:02.0");
  }

  /** A one-digit fraction is not padded before the division: `.5` gives `.00`, not `.50`. */
  lemma ShortFraction()
    ensures ParseTiming("00:00:01.5 --> 00:00:02.0") == Some(Timing(0, 0, 1, 5))
    ensures TimeTag(CueAt(Timing(0, 0, 1, 5), "")) == "[00:01.00]"
  {
    ParseTimingAccepts(Clock("00", "00", "01", "5"), Clock("00", "00", "02", "0"), "");
    ShortLine();
    SmallValues();
    ShortTag();
  }

  lemma ShortTag()
    ensures TimeTag(Cue(0, 1, 0, "")) == "[00:01.00]"
  {
    PadSmall();
    LrcLineOf(Cue(0, 1, 0, ""), "00", "01", "00");
  }

  lemma NoHoursPieces()
    ensures IsNumeral("00") && IsNumeral("01")
    ensures "00" + ":" + "01" + "." + "000 --> 00:02.000" == "00:01.000 --> 00:02.000"
  {
  }

  /** A timing line without the hours field does not match. */
  lemma NoHours()
    ensures ParseTiming("00:01.000 --> 00:02.000") == None
  {
    NoHoursPieces();
    MissingField("00", "01", "000 --> 00:02.000");
  }

  lemma HelloTag()
    ensures LrcLine(Cue(0, 1, 50, "Hello world")) == "[00:01.50]Hello world"
  {
    assert "[" + "00" + ":" + "01" + "." + "50" + "]" + "Hello world" == "[00:01.50]Hello world";
    PadSmall();
    PadTens();
    LrcLineOf(Cue(0, 1, 50, "Hello world"), "00", "01", "50");
  }

  /** The payload of the hello cue is its one line, cleaned. */
  lemma HelloCueText(unescape: string -> string, lines: seq<string>)
    requires KeepsPlain(unescape)
    requires |lines| == 3 && lines[1] == "Hello <i>world</i>"
    ensures CueText(Cleaner(unescape), lines, 1, 2) == "Hello world"
  {
    var clean := Cleaner(unescape);
    HelloPayload();
    CleanHelloWorld(unescape);
    assert clean(Strip(lines[1])) == "Hello world";
    assert CleanedLines(clean, lines, 1, 2) == ["Hello world"];
    var s := "Hello world";
    assert |s| == 11 && s[0] == 'H' && s[10] == 'd';
    StripTrimmed(s);
  }

  /** Start time 0:00:01.500 is minute 0, second 1, centisecond 50. */
  lemma HelloCue()
    ensures CueAt(Timing(0, 0, 1, 500), "Hello world") == Cue(0, 1, 50, "Hello world")
  {
  }

  /** Whatever the cleaner, the hello file is one cue at 1.5 s carrying the cleaned payload. */
  lemma HelloParse(clean: string -> string, lines: seq<string>)
    requires lines == ["00:00:01.500 --> 00:00:03.000", "Hello <i>world</i>", ""]
    ensures ParseFrom(clean, lines, 0) == [CueAt(Timing(0, 0, 1, 500), CueText(clean, lines, 1, 2))]
  {
    HelloTiming();
    HelloPayload();
    SingleCue(clean, lines, Timing(0, 0, 1, 500));
  }

  /** The transcript of the hello file is one cue at 1.5 s. */
  lemma HelloCues(unescape: string -> string, lines: seq<string>)
    requires KeepsPlain(unescape)
    requires lines == ["00:00:01.500 --> 00:00:03.000", "Hello <i>world</i>", ""]
    ensures ParseCues(Cleaner(unescape), lines) == [Cue(0, 1, 50, "Hello world")]
  {
    HelloParse(Cleaner(unescape), lines);
    HelloCueText(unescape, lines);
    HelloCue();
  }

  /** `["00:00:01.500 --> 00:00:03.000", "Hello <i>world</i>", ""]` becomes `"[00:01.50]Hello world"`. */
  lemma HelloWorldExample(unescape: string -> string)
    requires KeepsPlain(unescape)
    ensures VttToLrc(unescape, ["00:00:01.500 --> 00:00:03.000", "Hello <i>world</i>", ""])
      == "[00:01.50]Hello world"
  {
    var lines := ["00:00:01.500 --> 00:00:03.000", "Hello <i>world</i>", ""];
    var cue := Cue(0, 1, 50, "Hello world");
    HelloCues(unescape, lines);
    RenderCons(cue, []);
    HelloTag();
  }

  /** A payload line that looks like a timing line is payload: the scan resumes after the blank line. */
  lemma PayloadNotRescanned(clean: string -> string, lines: seq<string>)
    requires lines == ["00:00:01.500 --> 00:00:03.000", "00:00:01.500 --> 00:00:03.000", ""]
    ensures IsTimingLine(lines[1])
    ensures ParseFrom(clean, lines, 0) == [CueAt(Timing(0, 0, 1, 500), CueText(clean, lines, 1, 2))]
  {
    HelloTiming();
    SingleCue(clean, lines, Timing(0, 0, 1, 500));
  }

  lemma NotesFacts()
    ensures Strip("\U{266A} \U{266A}") == "\U{266A} \U{266A}" != []
    ensures '&' !in "\U{266A} \U{266A}" && '<' !in "\U{266A} \U{266A}"
    ensures RemoveChar("\U{266A} \U{266A}", Note) == " "
    ensures Strip(" ") == []
  {
    var s := "\U{266A} \U{266A}";
    assert |s| == 3 && s[0] == '\U{266A}' && s[2] == '\U{266A}';
    StripTrimmed(s);
    StripEmpty(" ");
  }

  /** `clean_text("♪ ♪")` is empty: the notes go, then the space is trimmed. */
  lemma CleanNotes(unescape: string -> string)
    requires KeepsPlain(unescape)
    ensures CleanText(unescape, "\U{266A} \U{266A}") == []
  {
    NotesFacts();
    StripTagsPlain("\U{266A} \U{266A}", []);
    assert "\U{266A} \U{266A}" + [] == "\U{266A} \U{266A}";
  }

  lemma NotesCueText(unescape: string -> string, lines: seq<string>)
    requires KeepsPlain(unescape)
    requires |lines| == 3 && lines[1] == "\U{266A} \U{266A}"
    ensures CueText(Cleaner(unescape), lines, 1, 2) == []
  {
    var clean := Cleaner(unescape);
    NotesFacts();
    CleanNotes(unescape);
    assert clean(Strip(lines[1])) == [];
    assert CleanedLines(clean, lines, 1, 2) == [];
    assert Strip([]) == [];
  }

  /** A cue whose payload is only music notes yields no line, so the whole file yields `""`. */
  lemma NotesOnlyExample(unescape: string -> string)
    requires KeepsPlain(unescape)
    ensures VttToLrc(unescape, ["00:00:01.500 --> 00:00:03.000", "\U{266A} \U{266A}", ""]) == []
  {
    var lines := ["00:00:01.500 --> 00:00:03.000", "\U{266A} \U{266A}", ""];
    var clean := Cleaner(unescape);
    HelloTiming();
    NotesFacts();
    SingleCue(clean, lines, Timing(0, 0, 1, 500));
    NotesCueText(unescape, lines);
    RenderCons(CueAt(Timing(0, 0, 1, 500), []), []);
  }
}
