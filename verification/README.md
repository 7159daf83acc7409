# Subtitle-to-lyrics conversion and metadata embedding, modelled in Dafny

This project models the logic of `downdoad.py`, a script that downloads a track,
turns its WebVTT subtitles into line-synchronised LRC lyrics, and embeds the lyrics
and a cover image into the audio file's tags. It covers three parts:

- **`clean_text`**. It sanitises one caption line: it decodes HTML character
  references, deletes every match of the non-greedy pattern `<.*?>`, deletes the
  music note `♪` and trims whitespace. This is `Markup.CleanText`. Python's
  `str.strip`, `str.replace`, `str.join` and `str.split` are in module `Text`.
- **`vtt_to_lrc`**. It scans the lines of a WebVTT file.
  - A line that `timestamp_re.match`es after stripping opens a cue. The pattern is
    `H:M:S.F --> H:M:S.F`, anchored at the start only (module `Timing`).
  - The cue's payload runs to the next blank line. Each payload line is cleaned,
    empty results are dropped, and the rest are joined with spaces.
  - Each cue with text becomes `[MM:SS.cc]text` (module `Lyrics`). Minutes are
    `h*60+m`, centiseconds are the fraction's integer value divided by ten, and each
    field is zero-padded to at least two digits.
  - The lines are joined with `"\n"` (module `Vtt`).
  - The scan has two forms. One is a recursive transcript parser (`Vtt.ParseFrom`)
    with rendering (`Lyrics.Render`). The other is the two-level while loop of
    `vtt_to_lrc` (`Vtt.CollectLyrics`, `Vtt.VttToLrcLoop`), proved equal to the first.
- **`embed_metadata`**. It chooses MP4, MP3 or FLAC from the lower-cased text after
  the last dot, and returns `False` for anything else. It loads the tags, sets the
  cover and the lyrics when their source files exist, and saves. Any exception
  returns `False`.
  - The tags are modelled abstractly (module `Embed`): MP4 atoms as a map to value
    lists, ID3 frames as a list, and FLAC comments as a map plus a picture list.
  - The file system, the tag library's parsing, UTF-8 decoding and the success of
    saving are fields of `Embed.Env`.

`html.unescape` is a parameter `unescape: string -> string` wherever it is used.
`Markup.KeepsPlain` is the only property assumed of it: text without `&` comes back
unchanged. The worked examples in module `Examples` hold for every such function.
The transcript scan is stated for any per-line cleaner, and `Vtt.VttToLrc` plugs in
`clean_text`.

Some details of the code worth stating plainly:

- The code does not left-pad a fraction to milliseconds: `.5` is 5, so it gives 0 centiseconds.
- The MP3 branch does not delete earlier frames itself; it only calls `tags.add`.
- Nothing re-reads the written tags to confirm them.
- The FLAC lyrics key is lower-case `lyrics`. Vorbis comment names are case-insensitive, so setting `lyrics` also removes a loaded `LYRICS`, `Lyrics` or any other case variant.
- Seconds are not checked to be below 60; they are rendered as matched.

## Model

| member | source | states |
|---|---|---|
| Text.Strip | downdoad.py:120 | `str.strip()` returns text that neither starts nor ends with whitespace (Python's `isspace` set) |
| Text.StripCore | downdoad.py:120 | the stripped text is the original minus a whitespace-only prefix and a whitespace-only suffix |
| Text.StripEmpty | downdoad.py:141 | `line.strip() != ''` fails exactly for lines made only of whitespace |
| Text.StripIdempotent | downdoad.py:146 | stripping twice is stripping once |
| Text.RemoveChar | downdoad.py:120 | `replace('♪', '')` leaves no note in the result |
| Text.RemoveCharCounts | downdoad.py:120 | `replace(c, '')` deletes every `c` and keeps every other character as often as before |
| Text.RemoveCharAppend | downdoad.py:120 | `replace(c, '')` works piece by piece, so the remaining characters keep their order |
| Text.JoinTrimmed | downdoad.py:146 | joining trimmed, non-empty items gives trimmed text |
| Text.SplitJoin | downdoad.py:34 | `split(sep)` undoes `sep.join` over items without the separator |
| Text.SplitLast | downdoad.py:34 | the last piece of `split('.')` is the text after the last dot |
| Markup.FindClose | downdoad.py:119 | where `.*?>` ends: at the first `>`, and only if no newline comes before it; no match exactly when every `>` is preceded by a newline |
| Markup.StripTagsTagless | downdoad.py:119 | after `re.sub(r'<.*?>', '', s)` no match of the pattern is left |
| Markup.StripTagsFixedPoint | downdoad.py:119 | the substitution leaves a string unchanged exactly when it has no match, so applying it twice is applying it once |
| Markup.TaglessIsNoTagPair | downdoad.py:119 | having no match means that between every `<` and any later `>` there is a newline |
| Markup.StripTagsTag | downdoad.py:119 | a one-line tag `<inner>` is deleted and the scan resumes after its `>` |
| Markup.StripTagsPlain | downdoad.py:119 | text before the first `<` is kept unchanged |
| Markup.StripTagPair | downdoad.py:119 | `before<t>inside</t>` becomes `beforeinside` |
| Markup.FindCloseRemoveChar | downdoad.py:120 | deleting the note does not create or destroy a match of `<.*?>` |
| Markup.CleanText | downdoad.py:117-121 | `clean_text` output has no `♪`, no leading or trailing whitespace, and no `<` followed on its line by a `>` |
| Markup.UnescapedTagRemoved | downdoad.py:118-119 | tags are stripped after unescaping, so markup that appears only after unescaping (`&lt;i&gt;`) is removed too |
| Timing.DigitRun | downdoad.py:126 | a greedy `\d+` takes the maximal run of digits and stops at the first non-digit |
| Timing.GroupOf | downdoad.py:126 | a group `(\d+)` followed by its separator reads the numeral's value and the text after the separator |
| Timing.ReadFieldsOf | downdoad.py:126 | every sequence of numerals with non-digit separators is matched, giving the numerals' values and the rest of the text, when the rest does not start with a digit (otherwise the greedy last group would take those digits) |
| Timing.ReadFieldsSplit | downdoad.py:126 | conversely, whatever is matched is numerals and separators followed by the rest |
| Timing.ParseTimingAccepts | downdoad.py:133-135 | every `H:M:S.F --> H:M:S.F` line matches whatever follows the end clock, and the result is the start clock's four values |
| Timing.ParseTimingSound | downdoad.py:133-135 | every matched line is a start clock, the arrow, an end clock and a tail, and the result is the start clock's values |
| Timing.OnlyStartMatters | downdoad.py:135 | the end clock and the trailing text never change the result |
| Timing.MissingField | downdoad.py:126 | a line whose second group is followed by `.` (no hours field) does not match |
| Lyrics.Decimal | downdoad.py:138 | `str(n)` is a numeral of value `n` without leading zeros |
| Lyrics.Pad2 | downdoad.py:138 | `{n:02d}` is a numeral of value `n` of at least two digits, and longer only without a leading zero, so it is never clamped |
| Lyrics.ReadTagThen | downdoad.py:138 | a time tag and its text read back to the minute, second, centisecond and text it was built from |
| Lyrics.Spoken | downdoad.py:147 | the kept cues all have text and come from the transcript, and there are no more of them than cues |
| Lyrics.SpokenKeeps | downdoad.py:147-148 | no cue with text is dropped |
| Lyrics.SpokenAppend | downdoad.py:147-148 | keeping the cues with text commutes with concatenation, so the kept cues stay in transcript order |
| Lyrics.EmitSpoken | downdoad.py:147-148 | one line per cue with text, in order, made from that cue |
| Lyrics.RenderSpoken | downdoad.py:147-148 | line `k` of the LRC output is the `[MM:SS.cc]text` line of the `k`-th cue with text; cues with empty text give nothing |
| Lyrics.RenderReadsBack | downdoad.py:148 | every emitted line reads back to its cue: reading inverts rendering |
| Lyrics.EmitAppend | downdoad.py:148 | emitting distributes over concatenation of transcripts |
| Lyrics.RenderAppend | downdoad.py:148 | rendering distributes over concatenation of transcripts |
| Lyrics.TagThenShape | downdoad.py:148 | an LRC line starts with `[` and ends with the cue's text |
| Lyrics.TagThenNoNewline | downdoad.py:148 | an LRC line contains a newline only if its text does |
| Vtt.BodyEndFirstBlank | downdoad.py:141 | the payload stops at the first blank line, or at the end of input, and every line before it is non-blank |
| Vtt.BodyEndAt | downdoad.py:141 | conversely, the first blank line after non-blank lines is where the payload ends |
| Vtt.CleanedLinesFacts | downdoad.py:142-144 | at most one item per payload line, no empty item, each item trimmed when the cleaner trims |
| Vtt.CueTextJoin | downdoad.py:146 | with `clean_text` the final strip changes nothing, and the text is empty exactly when no payload line survives cleaning |
| Vtt.CueAt | downdoad.py:135-137 | minutes are `h*60+m`, seconds are `s`, centiseconds are the fraction divided by ten and truncated |
| Vtt.ParseFromFacts | downdoad.py:130-150 | every cue's text is trimmed, and there are no more cues than lines |
| Vtt.ParseCues | downdoad.py:130-150 | the transcript has no more cues than the file has lines, and every cue's text is trimmed |
| Vtt.LyricsShape | downdoad.py:151 | the newline-joined lines of cues with trimmed text start with `[` and end with a non-whitespace character |
| Vtt.VttToLrc | downdoad.py:124-151 | a non-empty result starts with `[` and ends with a non-whitespace character, so there is no trailing newline |
| Vtt.OutputReadsBack | downdoad.py:147-151 | when no cue text holds a newline, splitting a non-empty result at newlines gives exactly the LRC lines, one per cue with text in order, and each reads back to its cue |
| Vtt.CleanerTrims | downdoad.py:120 | `clean_text` always returns trimmed text |
| Vtt.NoTimingFrom | downdoad.py:149-150 | past the last timing line no cue is produced |
| Vtt.NoTimingNoLyrics | downdoad.py:130-151 | an input without a timing line yields `""` |
| Vtt.BlankNotTiming | downdoad.py:133 | a blank line never matches the timing pattern |
| Vtt.SingleCue | downdoad.py:130-150 | a timing line, one non-blank payload line and a blank line give exactly one cue with that payload's text |
| Vtt.CollectPayload | downdoad.py:139-145 | the inner loop stops at the payload's end and collects the non-empty cleaned lines in order |
| Vtt.TimingStep | downdoad.py:134-148 | one outer-loop step at a timing line keeps the collected lines plus the rest of the rendering equal to the full rendering |
| Vtt.SkipStep | downdoad.py:149-150 | one outer-loop step at any other line appends nothing |
| Vtt.CollectLyrics | downdoad.py:130-150 | the while loop appends exactly the LRC lines of the parsed transcript |
| Vtt.VttToLrcLoop | downdoad.py:124-151 | the loop form returns the same text as the transcript form |
| Embed.Lower | downdoad.py:34 | `lower()` keeps the length and lower-cases character by character |
| Embed.LastPiece | downdoad.py:34 | `split('.')[-1]` contains no dot |
| Embed.LastPieceOf | downdoad.py:34 | `split('.')[-1]` is the text after the last dot |
| Embed.ExtensionOf | downdoad.py:34 | the extension is the lower-cased text after the last dot |
| Embed.ExtensionNoDot | downdoad.py:34 | a path without a dot is its own extension, lower-cased |
| Embed.Load | downdoad.py:37 | a successfully loaded file exists and has the tag kind of the branch that loaded it |
| Embed.TagMp4 | downdoad.py:38-45 | `covr` and `©lyr` are each set to a one-element list when their source is present; every other atom is unchanged |
| Embed.TagMp3 | downdoad.py:54-70 | the APIC and USLT frames are present when their sources are, and every frame is an old one or one of them |
| Embed.TagFlac | downdoad.py:75-86 | with a cover the picture list is exactly the new picture, without one it is unchanged; when lyrics are given the `lyrics` key holds exactly them and no other case variant of it remains; every key whose lower-case form is not `lyrics` is unchanged |
| Embed.SetComment | downdoad.py:86 | assigning a Vorbis comment leaves exactly the new value under the key, removes every case variant of the key, and keeps every field of another name |
| Embed.SetCommentTwice | downdoad.py:86 | assigning the same comment twice is assigning it once, to the later value |
| Embed.FlacUpperCaseLyrics | downdoad.py:86 | a loaded `LYRICS` comment is replaced by the new `lyrics` one, not kept beside it |
| Embed.Tag | downdoad.py:36-87 | tagging keeps the container kind, and an MP3 file always ends with a tag |
| Embed.Embed | downdoad.py:33-96 | an unsupported extension, a load the tag library rejects, or a lyrics decoding failure gives `False` with nothing saved; a supported file that loads and whose lyrics decode is always written; what is saved is the loaded tags with the present cover and lyrics set, in the container the extension names; `True` exactly when that save succeeded |
| Embed.RetagReplaces | downdoad.py:41-86 | MP4 and FLAC values are replaced, not appended: tagging twice is tagging once with the later values, and tagging again with the same cover and lyrics changes nothing |
| Embed.TagNothing | downdoad.py:38-83 | with no cover and no lyrics nothing changes, except that an MP3 file gains an empty tag |
| Embed.EmbedMp4 | downdoad.py:36-46 | for an MP4 file what is saved has the cover and lyrics atoms set from the present sources, and the loaded atoms if neither is present |
| Embed.EmbedMp3 | downdoad.py:48-71 | for an MP3 file what is saved has a tag holding the new cover and lyrics frames |
| Embed.EmbedFlac | downdoad.py:73-87 | for a FLAC file what is saved has at most the one new picture and the lyrics key overwritten; absent sources leave their part as loaded |
| Embed.UpperCaseExtension | downdoad.py:34-36 | `Song.Title.M4A` is handled as MP4 |
| Embed.UnsupportedExample | downdoad.py:89-91 | `notes.txt` takes the unsupported branch |
| Embed.TrailingDot | downdoad.py:34 | `song.flac.` has an empty extension and is unsupported |
| Examples.StripHelloWorld | downdoad.py:119 | `Hello <i>world</i>` loses both tags |
| Examples.CleanHelloWorld | downdoad.py:117-121 | `clean_text("Hello <i>world</i>")` is `Hello world` |
| Examples.HelloTiming | downdoad.py:133-135 | `00:00:01.500 --> 00:00:03.000` matches with start 0, 0, 1, 500 |
| Examples.FoldedMinutes | downdoad.py:135-138 | `01:05:10.250` gives the tag `[65:10.25]`: hours fold into minutes and the minutes field is not clamped |
| Examples.ShortFraction | downdoad.py:135-137 | `00:00:01.5` has fraction 5, so 0 centiseconds: the fraction is not left-padded |
| Examples.ShortTag | downdoad.py:138 | that cue's tag is `[00:01.00]` |
| Examples.NoHours | downdoad.py:126 | `00:01.000 --> 00:02.000` does not match the timing pattern |
| Examples.HelloTag | downdoad.py:138 | the cue minute 0, second 1, centisecond 50 renders as `[00:01.50]Hello world` |
| Examples.HelloWorldExample | downdoad.py:124-151 | the lines `00:00:01.500 --> 00:00:03.000`, `Hello <i>world</i>`, `""` yield `[00:01.50]Hello world` |
| Examples.PayloadNotRescanned | downdoad.py:139-145 | a payload line that itself looks like a timing line is payload: one cue, not two |
| Examples.CleanNotes | downdoad.py:120 | `clean_text("♪ ♪")` is empty |
| Examples.NotesOnlyExample | downdoad.py:143-148 | a cue whose payload is only notes yields no line, so the file yields `""` |

## Left out

- File reading is left out. `vtt_to_lrc` receives the list of lines that `readlines` returns, with the same line endings. The UTF-8 decoding and newline translation of text mode are assumed done. Every line is stripped before use, so the line endings never matter.
- Printing is left out: the warning for an unsupported format and the error message in the exception handler.
- The table behind `html.unescape` is left out. It is a library call, so `unescape` is a parameter. The examples assume only `Markup.KeepsPlain`.
- Timing.DigitRun: `\d` is modelled as the ASCII digits. Python's `\d` on `str` also matches other Unicode decimal digits, which `int()` would accept too.
- Vtt.CueAt: `int(ms / 10)` is float division in Python. It is modelled as exact integer division, which agrees for every fraction of fewer than 16 digits.
- Timing.ParseTimingAccepts: the four start numerals are assumed shorter than Python's integer string-conversion limit (4300 digits on CPython 3.11 and later), and so are the formatted minute, second and hundredths fields. Past it `int()` and `{:02d}` raise `ValueError`, which `vtt_to_lrc` does not catch; the model has no such error.
- Embed.Lower: only ASCII letters are lower-cased. This is exact for deciding among `m4a`, `mp4`, `mp3` and `flac`, but not for what `lower()` does to other characters.
- Embed.TagMp3: `tags.add` is modelled as appending the frame. Whether mutagen replaces an earlier APIC or USLT frame depends on its frame-key rules, which are not part of this model. So the contract claims only that the new frames are present and that no other frame appears; it does not claim one lyrics frame.
- The binary encoding of MP4 atoms, ID3 frames and FLAC blocks is left out. So is what `audio.save()` writes. Saving is the predicate `Env.saves`, and its failure is an exception, which gives `False`.
- Exceptions other than these are left out: a failed load, a failed lyrics decoding and a failed save. Reading the cover's bytes is taken to succeed once the file exists. `os.path.exists` is membership in `Env.files`.
- `MP4Cover.FORMAT_JPEG` is modelled as the tag `Jpeg` of `Embed.ImageFormat`.
- The rest of the script is not part of this model. That covers the download, the thumbnail conversion, finding, moving and cleaning up files, command-line parsing and configuration. Each is I/O around library calls and has no logic of its own to model.
