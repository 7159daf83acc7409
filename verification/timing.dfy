/**
 Recognition of a WebVTT cue timing line by the pattern
 `(\d+):(\d+):(\d+)\.(\d+) --> (\d+):(\d+):(\d+)\.(\d+)`, applied with `re.match`:
 anchored at the start of the (already stripped) line but not at its end.
 */
module Timing {
  import opened Wrappers

  predicate IsDigit(c: char)
  {
    '0' <= c <= '9'
  }

  predicate AllDigits(s: string)
  {
    forall i :: 0 <= i < |s| ==> IsDigit(s[i])
  }

  /** A non-empty run of digits: what one `\d+` group captures. */
  predicate IsNumeral(s: string)
  {
    |s| > 0 && AllDigits(s)
  }

  /** Length of the digit run at the front of `s`; a greedy `\d+` takes exactly this much. */
  function DigitRun(s: string): (k: nat)
    ensures k <= |s|
    ensures AllDigits(s[..k])
    ensures k < |s| ==> !IsDigit(s[k])
  {
    if |s| == 0 || !IsDigit(s[0]) then 0 else 1 + DigitRun(s[1..])
  }

  lemma {:induction false} DigitRunOf(d: string, rest: string)
    requires AllDigits(d)
    requires |rest| == 0 || !IsDigit(rest[0])
    ensures DigitRun(d + rest) == |d|
  {
    if |d| > 0 {
      DigitRunOf(d[1..], rest);
      assert (d + rest)[1..] == d[1..] + rest;
    }
  }

  function DigitValue(c: char): nat
    requires IsDigit(c)
  {
    c as int - '0' as int
  }

  /** Python's `int(ds)` for a string of ASCII digits; leading zeros are allowed. */
  function Value(ds: string): nat
    requires AllDigits(ds)
  {
    if |ds| == 0 then 0 else 10 * Value(ds[..|ds| - 1]) + DigitValue(ds[|ds| - 1])
  }

  /** The start-time groups of a matched timing line, as integers. */
  datatype Timing = Timing(hours: nat, minutes: nat, seconds: nat, fraction: nat)

  predicate StartsWith(s: string, prefix: string)
  {
    |prefix| <= |s| && s[..|prefix|] == prefix
  }

  /** One `(\d+)` group followed by the literal `sep`: the group's value and the text after `sep`. */
  function Group(s: string, sep: string): (r: Option<(nat, string)>)
    ensures r.Some? ==> |r.value.1| < |s|
  {
    var k := DigitRun(s);
    if 0 < k && StartsWith(s[k..], sep) then Some((Value(s[..k]), s[k + |sep|..])) else None
  }

  /** `Group` reads a numeral followed by a separator that does not start with a digit. */
  lemma GroupOf(d: string, sep: string, rest: string)
    requires IsNumeral(d)
    requires |sep| > 0 && !IsDigit(sep[0])
    ensures Group(d + sep + rest, sep) == Some((Value(d), rest))
  {
    var s := d + sep + rest;
    assert s == d + (sep + rest);
    DigitRunOf(d, sep + rest);
    assert s[..|d|] == d;
    assert s[|d|..] == sep + rest;
    assert (sep + rest)[..|sep|] == sep;
  }

  /** Everything `Group` accepts is a numeral, the separator and the rest. */
  lemma GroupSplit(s: string, sep: string) returns (d: string, rest: string)
    requires Group(s, sep).Some?
    ensures IsNumeral(d)
    ensures s == d + sep + rest
    ensures Group(s, sep) == Some((Value(d), rest))
  {
    var k := DigitRun(s);
    d, rest := s[..k], s[k + |sep|..];
    assert s == s[..k] + s[k..k + |sep|] + s[k + |sep|..];
  }

  /**
   The groups `(\d+)sep0(\d+)sep1...(\d+)` at the front of `s`: their values and the text
   after the last group. Each group takes the maximal digit run; since every separator
   starts with a non-digit, a backtracking `\d+` never gives digits back, so this is
   what the regular expression matches.
   */
  function ReadFields(seps: seq<string>, s: string): (r: Option<(seq<nat>, string)>)
    ensures r.Some? ==> |r.value.0| == |seps| + 1
    decreases |seps|
  {
    if |seps| == 0 then
      var k := DigitRun(s);
      if k > 0 then Some(([Value(s[..k])], s[k..])) else None
    else
      var g := Group(s, seps[0]);
      if g.None? then None
      else
        var more := ReadFields(seps[1..], g.value.1);
        if more.None? then None
        else Some(([g.value.0] + more.value.0, more.value.1))
  }

  /** The separators inside one clock `H:M:S.F`. */
  const ClockSeps: seq<string> := [":", ":", "."]

  /** The literal between the start and end clocks of a timing line. */
  const Arrow: string := " --> "

  /**
   `timestamp_re.match(line)`: the four start groups if the line begins with
   `H:M:S.F --> H:M:S.F`; the end groups are matched but not returned.
   */
  function ParseTiming(line: string): Option<Timing>
  {
    var start := ReadFields(ClockSeps, line);
    if start.Some? && StartsWith(start.value.1, Arrow) && ReadFields(ClockSeps, start.value.1[|Arrow|..]).Some?
    then
      var v := start.value.0;
      Some(Timing(v[0], v[1], v[2], v[3]))
    else None
  }

  predicate AllNumerals(ds: seq<string>)
  {
    forall i :: 0 <= i < |ds| ==> IsNumeral(ds[i])
  }

  /** Every separator is non-empty and starts with a non-digit. */
  predicate Separators(seps: seq<string>)
  {
    forall i :: 0 <= i < |seps| ==> |seps[i]| > 0 && !IsDigit(seps[i][0])
  }

  function Values(ds: seq<string>): (r: seq<nat>)
    requires AllNumerals(ds)
    ensures |r| == |ds|
  {
    if |ds| == 0 then [] else [Value(ds[0])] + Values(ds[1..])
  }

  /** The numerals `ds` separated by `seps`, followed by `rest`. */
  function FieldsThen(ds: seq<string>, seps: seq<string>, rest: string): string
    requires |ds| == |seps| + 1
    decreases |seps|
  {
    if |seps| == 0 then ds[0] + rest else ds[0] + seps[0] + FieldsThen(ds[1..], seps[1..], rest)
  }

  /** The fields and separators come first, then `rest` unchanged. */
  lemma {:induction false} FieldsThenAppend(ds: seq<string>, seps: seq<string>, rest: string)
    requires |ds| == |seps| + 1
    ensures FieldsThen(ds, seps, rest) == FieldsThen(ds, seps, []) + rest
    decreases |seps|
  {
    if |seps| == 0 {
      assert ds[0] + [] == ds[0];
    } else {
      FieldsThenAppend(ds[1..], seps[1..], rest);
    }
  }

  /** A character absent from every field, every separator and `rest` is absent from the text. */
  lemma {:induction false} FieldsThenAvoids(ds: seq<string>, seps: seq<string>, rest: string, ch: char)
    requires |ds| == |seps| + 1
    requires forall i :: 0 <= i < |ds| ==> ch !in ds[i]
    requires forall i :: 0 <= i < |seps| ==> ch !in seps[i]
    requires ch !in rest
    ensures ch !in FieldsThen(ds, seps, rest)
    decreases |seps|
  {
    if |seps| > 0 {
      assert forall i :: 0 <= i < |ds[1..]| ==> ds[1..][i] == ds[i + 1];
      assert forall i :: 0 <= i < |seps[1..]| ==> seps[1..][i] == seps[i + 1];
      FieldsThenAvoids(ds[1..], seps[1..], rest, ch);
    }
  }

  /** Numerals and separators are read back; in full when `rest` does not start with a digit. */
  lemma {:induction false} ReadFieldsOf(ds: seq<string>, seps: seq<string>, rest: string)
    requires |ds| == |seps| + 1 && AllNumerals(ds) && Separators(seps)
    ensures ReadFields(seps, FieldsThen(ds, seps, rest)).Some?
    ensures |rest| == 0 || !IsDigit(rest[0]) ==>
      ReadFields(seps, FieldsThen(ds, seps, rest)) == Some((Values(ds), rest))
    decreases |seps|
  {
    var d := ds[0];
    assert IsNumeral(d);
    if |seps| == 0 {
      var s := d + rest;
      assert s[0] == d[0];
      assert FieldsThen(ds, seps, rest) == s;
      if |rest| == 0 || !IsDigit(rest[0]) {
        DigitRunOf(d, rest);
        assert s[..|d|] == d;
        assert s[|d|..] == rest;
        assert ReadFields(seps, s) == Some(([Value(d)], rest));
        assert Values(ds) == [Value(d)] + Values(ds[1..]);
        assert Values(ds) == [Value(d)];
      }
    } else {
      assert Values(ds) == [Value(d)] + Values(ds[1..]);
      assert Separators(seps[1..]) by {
        forall i | 0 <= i < |seps[1..]| ensures |seps[1..][i]| > 0 && !IsDigit(seps[1..][i][0]) {
          assert seps[1..][i] == seps[i + 1];
        }
      }
      assert AllNumerals(ds[1..]) by {
        forall i | 0 <= i < |ds[1..]| ensures IsNumeral(ds[1..][i]) {
          assert ds[1..][i] == ds[i + 1];
        }
      }
      GroupOf(d, seps[0], FieldsThen(ds[1..], seps[1..], rest));
      ReadFieldsOf(ds[1..], seps[1..], rest);
    }
  }

  /** Everything `ReadFields` accepts is numerals and separators followed by the rest. */
  lemma {:induction false} ReadFieldsSplit(seps: seq<string>, s: string) returns (ds: seq<string>)
    requires ReadFields(seps, s).Some?
    ensures |ds| == |seps| + 1 && AllNumerals(ds)
    ensures s == FieldsThen(ds, seps, ReadFields(seps, s).value.1)
    ensures ReadFields(seps, s).value.0 == Values(ds)
    decreases |seps|
  {
    if |seps| == 0 {
      var k := DigitRun(s);
      ds := [s[..k]];
      assert s == s[..k] + s[k..];
    } else {
      var d, r := GroupSplit(s, seps[0]);
      var more := ReadFieldsSplit(seps[1..], r);
      ds := [d] + more;
      assert ds[1..] == more;
    }
  }

  /** The text of one `H:M:S.F` clock, each field kept as written. */
  datatype Clock = Clock(h: string, m: string, s: string, f: string)

  function ClockFields(c: Clock): seq<string>
  {
    [c.h, c.m, c.s, c.f]
  }

  predicate WellFormed(c: Clock)
  {
    IsNumeral(c.h) && IsNumeral(c.m) && IsNumeral(c.s) && IsNumeral(c.f)
  }

  /** The clock's text `H:M:S.F` followed by `rest`. */
  function ClockThen(c: Clock, rest: string): string
  {
    FieldsThen(ClockFields(c), ClockSeps, rest)
  }

  /** The clock's text, spelled out. */
  lemma ClockText(c: Clock, rest: string)
    ensures ClockThen(c, rest) == c.h + ":" + c.m + ":" + c.s + "." + c.f + rest
  {
    var fs := ClockFields(c);
    assert fs[1..] == [c.m, c.s, c.f];
    assert fs[1..][1..] == [c.s, c.f];
    assert fs[1..][1..][1..] == [c.f];
    assert ClockSeps[1..] == [":", "."];
    assert ClockSeps[1..][1..] == ["."];
    assert ClockSeps[1..][1..][1..] == [];
  }

  function ClockValue(c: Clock): Timing
    requires WellFormed(c)
  {
    Timing(Value(c.h), Value(c.m), Value(c.s), Value(c.f))
  }

  /** A timing line: start clock, arrow, end clock, then anything (cue settings, more digits, ...). */
  function TimingLine(start: Clock, end: Clock, tail: string): string
  {
    ClockThen(start, Arrow + ClockThen(end, tail))
  }

  lemma ClockFacts(c: Clock)
    requires WellFormed(c)
    ensures AllNumerals(ClockFields(c))
    ensures Values(ClockFields(c)) == [Value(c.h), Value(c.m), Value(c.s), Value(c.f)]
    ensures Separators(ClockSeps)
  {
    var fs := ClockFields(c);
    assert fs[1..] == [c.m, c.s, c.f];
    assert fs[1..][1..] == [c.s, c.f];
    assert fs[1..][1..][1..] == [c.f];
    assert fs[1..][1..][1..][1..] == [];
    assert Values([c.f]) == [Value(c.f)] + Values([]);
    assert Values([c.s, c.f]) == [Value(c.s)] + Values([c.f]);
    assert Values([c.m, c.s, c.f]) == [Value(c.m)] + Values([c.s, c.f]);
  }

  /**
   Every well-formed timing line is recognised, whatever follows the end clock,
   and the result is the start clock's values only.
   */
  lemma ParseTimingAccepts(start: Clock, end: Clock, tail: string)
    requires WellFormed(start) && WellFormed(end)
    ensures ParseTiming(TimingLine(start, end, tail)) == Some(ClockValue(start))
  {
    var after := ClockThen(end, tail);
    var rest := Arrow + after;
    assert rest[0] == ' ';
    ClockFacts(start);
    ClockFacts(end);
    ReadFieldsOf(ClockFields(start), ClockSeps, rest);
    assert StartsWith(rest, Arrow);
    assert rest[|Arrow|..] == after;
    ReadFieldsOf(ClockFields(end), ClockSeps, tail);
  }

  /** The clock whose four fields are `ds`. */
  function ClockOf(ds: seq<string>): (c: Clock)
    requires |ds| == 4
    ensures ClockFields(c) == ds
    ensures AllNumerals(ds) ==> WellFormed(c)
  {
    Clock(ds[0], ds[1], ds[2], ds[3])
  }

  /** Whatever `ReadFields` accepts with the clock separators is a clock's text and the rest. */
  lemma ClockSplit(s: string) returns (c: Clock)
    requires ReadFields(ClockSeps, s).Some?
    ensures WellFormed(c)
    ensures s == ClockThen(c, ReadFields(ClockSeps, s).value.1)
    ensures ReadFields(ClockSeps, s).value.0 == [Value(c.h), Value(c.m), Value(c.s), Value(c.f)]
  {
    var ds := ReadFieldsSplit(ClockSeps, s);
    c := ClockOf(ds);
    ClockFacts(c);
  }

  /** Conversely, whatever is recognised is such a line, and the result is its start clock. */
  lemma ParseTimingSound(line: string) returns (start: Clock, end: Clock, tail: string)
    requires ParseTiming(line).Some?
    ensures WellFormed(start) && WellFormed(end)
    ensures line == TimingLine(start, end, tail)
    ensures ParseTiming(line) == Some(ClockValue(start))
  {
    var rest := ReadFields(ClockSeps, line).value.1;
    assert StartsWith(rest, Arrow);
    var after := rest[|Arrow|..];
    assert rest == Arrow + after;
    start := ClockSplit(line);
    end := ClockSplit(after);
    tail := ReadFields(ClockSeps, after).value.1;
  }

  /** A clock needs all four fields: a line whose second group is followed by `.` does not match. */
  lemma MissingField(m: string, s: string, rest: string)
    requires IsNumeral(m) && IsNumeral(s)
    ensures ParseTiming(m + ":" + s + "." + rest) == None
  {
    var after := s + "." + rest;
    GroupOf(m, ":", after);
    assert m + ":" + s + "." + rest == m + ":" + after;
    DigitRunOf(s, "." + rest);
    assert after == s + ("." + rest);
    assert after[DigitRun(after)..] == "." + rest;
    assert Group(after, ":") == None;
    assert ClockSeps[1..][0] == ":";
  }

  /** Only the start clock matters: changing the end clock or the tail does not change the result. */
  lemma OnlyStartMatters(start: Clock, end1: Clock, end2: Clock, tail1: string, tail2: string)
    requires WellFormed(start) && WellFormed(end1) && WellFormed(end2)
    ensures ParseTiming(TimingLine(start, end1, tail1)) == ParseTiming(TimingLine(start, end2, tail2))
  {
    ParseTimingAccepts(start, end1, tail1);
    ParseTimingAccepts(start, end2, tail2);
  }
}
