/**
 `embed_metadata`: pick the tag container from the file's extension, load the
 file's tags, set the cover and the lyrics when their source files exist, save.
 Tags are modelled abstractly, as the maps and lists the tag library exposes; the
 file system and the library's decoding, encoding and saving are parameters.
 */
module Embed {
  import opened Wrappers
  import opened Text

  newtype byte = x: int | 0 <= x < 256

  /** Python's `str.lower()` on one character, for the ASCII letters. */
  function LowerChar(c: char): char
  {
    if 'A' <= c <= 'Z' then (c as int + 32) as char else c
  }

  /** Python's `s.lower()`, character by character. */
  function Lower(s: string): (r: string)
    ensures |r| == |s|
    ensures forall i :: 0 <= i < |s| ==> r[i] == LowerChar(s[i])
  {
    if |s| == 0 then [] else [LowerChar(s[0])] + Lower(s[1..])
  }

  /** `path.split('.')[-1]`: the text after the last dot, or all of `path` if there is none. */
  function LastPiece(path: string): (r: string)
    ensures '.' !in r
  {
    var pieces := Split(path, '.');
    pieces[|pieces| - 1]
  }

  /** `file_path.split('.')[-1].lower()`: the lower-cased extension. */
  function Extension(path: string): (r: string)
    ensures '.' !in r
  {
    var last := LastPiece(path);
    var r := Lower(last);
    assert forall i :: 0 <= i < |r| ==> r[i] != '.' by {
      forall i | 0 <= i < |r| ensures r[i] != '.' {
        assert last[i] != '.';
      }
    }
    r
  }

  lemma LastPieceOf(stem: string, ext: string)
    requires '.' !in ext
    ensures LastPiece(stem + "." + ext) == ext
  {
    SplitLast(stem, ext, '.');
  }

  /** The extension is whatever follows the last dot. */
  lemma ExtensionOf(stem: string, ext: string)
    requires '.' !in ext
    ensures Extension(stem + "." + ext) == Lower(ext)
  {
    LastPieceOf(stem, ext);
  }

  /** A path without a dot is its own extension. */
  lemma ExtensionNoDot(path: string)
    requires '.' !in path
    ensures Extension(path) == Lower(path)
  {
    SplitNoSep(path, '.');
  }

  /** The three tag containers the embedder handles. */
  datatype Container = Mp4 | Mp3 | Flac

  /** The branch taken for an extension; `None` is the unsupported-format branch. */
  function ContainerOf(ext: string): Option<Container>
  {
    if ext == "m4a" || ext == "mp4" then Some(Mp4)
    else if ext == "mp3" then Some(Mp3)
    else if ext == "flac" then Some(Flac)
    else None
  }

  /** The image format flag of an MP4 cover; the embedder only writes JPEG. */
  datatype ImageFormat = Jpeg

  /** A value of an MP4 atom: a cover image or a text. */
  datatype Mp4Value = Mp4Cover(data: seq<byte>, format: ImageFormat) | Mp4Text(text: string)

  /** An ID3 frame: attached picture, unsynchronised lyrics, or any other frame. */
  datatype Id3Frame =
    | Apic(encoding: nat, mime: string, pictureType: nat, desc: string, data: seq<byte>)
    | Uslt(encoding: nat, lang: string, desc: string, text: string)
    | OtherFrame(id: string, payload: seq<byte>)

  /** A FLAC picture block. */
  datatype Picture = Picture(pictureType: nat, mime: string, data: seq<byte>)

  /**
   The tags of a loaded file: MP4 atoms; an MP3's ID3 frames, `None` when the file has
   no ID3 tag yet; a FLAC file's Vorbis comments and picture blocks.
   */
  datatype AudioFile =
    | Mp4File(atoms: map<string, seq<Mp4Value>>)
    | Mp3File(frames: Option<seq<Id3Frame>>)
    | FlacFile(comments: map<string, seq<string>>, pictures: seq<Picture>)

  function KindOf(a: AudioFile): Container
  {
    match a
    case Mp4File(_) => Mp4
    case Mp3File(_) => Mp3
    case FlacFile(_, _) => Flac
  }

  /**
   What the embedder depends on but cannot see: the readable files and their bytes,
   the tag library's parsing of each container (`None` when it raises), UTF-8 text
   decoding (`None` when it raises), and whether saving given tags succeeds.
   */
  datatype Env = Env(
    files: map<string, seq<byte>>,
    loadMp4: seq<byte> -> Option<map<string, seq<Mp4Value>>>,
    loadMp3: seq<byte> -> Option<Option<seq<Id3Frame>>>,
    loadFlac: seq<byte> -> Option<(map<string, seq<string>>, seq<Picture>)>,
    decode: seq<byte> -> Option<string>,
    saves: AudioFile -> bool)

  /** `p and os.path.exists(p)`: the optional path is given, non-empty, and names a file. */
  predicate Present(env: Env, p: Option<string>)
  {
    p.Some? && p.value != [] && p.value in env.files
  }

  /** `MP4(path)`, `MP3(path, ID3=ID3)` or `FLAC(path)`; `None` when the call raises. */
  function Load(env: Env, c: Container, path: string): (r: Option<AudioFile>)
    ensures r.Some? ==> path in env.files && KindOf(r.value) == c
  {
    if path !in env.files then None
    else
      var bytes := env.files[path];
      match c
      case Mp4 => (match env.loadMp4(bytes) case None => None case Some(atoms) => Some(Mp4File(atoms)))
      case Mp3 => (match env.loadMp3(bytes) case None => None case Some(frames) => Some(Mp3File(frames)))
      case Flac => (match env.loadFlac(bytes) case None => None case Some(t) => Some(FlacFile(t.0, t.1)))
  }

  /** The cover's bytes when its file is present, otherwise the step is skipped. */
  function ReadCover(env: Env, jpg: Option<string>): Option<seq<byte>>
  {
    if Present(env, jpg) then Some(env.files[jpg.value]) else None
  }

  /** The outcome of reading the lyrics file: skipped, read, or raised while decoding. */
  datatype Fetch = Skipped | Read(text: string) | Failed

  function ReadLyrics(env: Env, lrc: Option<string>): Fetch
  {
    if !Present(env, lrc) then Skipped
    else
      match env.decode(env.files[lrc.value])
      case None => Failed
      case Some(text) => Read(text)
  }

  function LyricsText(f: Fetch): Option<string>
  {
    if f.Read? then Some(f.text) else None
  }

  const CoverAtom: string := "covr"
  const LyricsAtom: string := "\U{A9}lyr"

  /** `audio["covr"] = [cover]` and `audio["©lyr"] = [lyrics]`, each only when its source is present. */
  function TagMp4(atoms: map<string, seq<Mp4Value>>, cover: Option<seq<byte>>, lyrics: Option<string>)
    : (r: map<string, seq<Mp4Value>>)
    ensures cover.Some? ==> CoverAtom in r && r[CoverAtom] == [Mp4Cover(cover.value, Jpeg)]
    ensures lyrics.Some? ==> LyricsAtom in r && r[LyricsAtom] == [Mp4Text(lyrics.value)]
    ensures forall k :: (k != CoverAtom || cover.None?) && (k != LyricsAtom || lyrics.None?) ==>
      (k in r <==> k in atoms) && (k in atoms ==> r[k] == atoms[k])
  {
    var withCover := if cover.Some? then atoms[CoverAtom := [Mp4Cover(cover.value, Jpeg)]] else atoms;
    if lyrics.Some? then withCover[LyricsAtom := [Mp4Text(lyrics.value)]] else withCover
  }

  /** The front-cover frame the MP3 branch adds. */
  function CoverFrame(data: seq<byte>): Id3Frame
  {
    Apic(3, "image/jpeg", 3, "Cover", data)
  }

  /** The lyrics frame the MP3 branch adds. */
  function LyricsFrame(text: string): Id3Frame
  {
    Uslt(3, "eng", "Lyrics", text)
  }

  /** `audio.add_tags()`, whose error for an existing tag is swallowed: afterwards there is a tag. */
  function AddTags(frames: Option<seq<Id3Frame>>): seq<Id3Frame>
  {
    if frames.None? then [] else frames.value
  }

  /**
   `audio.tags.add(APIC(...))` and `audio.tags.add(USLT(...))`, each only when its
   source is present, modelled as appending the frame.
   */
  function TagMp3(frames: seq<Id3Frame>, cover: Option<seq<byte>>, lyrics: Option<string>): (r: seq<Id3Frame>)
    ensures cover.Some? ==> CoverFrame(cover.value) in r
    ensures lyrics.Some? ==> LyricsFrame(lyrics.value) in r
    ensures forall f :: f in r ==>
      f in frames || (cover.Some? && f == CoverFrame(cover.value)) || (lyrics.Some? && f == LyricsFrame(lyrics.value))
  {
    var withCover := if cover.Some? then frames + [CoverFrame(cover.value)] else frames;
    if lyrics.Some? then withCover + [LyricsFrame(lyrics.value)] else withCover
  }

  /** The Vorbis comment key the FLAC branch writes the lyrics under. */
  const FlacLyricsKey: string := "lyrics"

  /** The picture block the FLAC branch adds. */
  function CoverPicture(data: seq<byte>): Picture
  {
    Picture(3, "image/jpeg", data)
  }

  /** The lyrics key is its own lower-case form. */
  lemma LyricsKeyFolded()
    ensures Lower(FlacLyricsKey) == FlacLyricsKey
  {
    var k := FlacLyricsKey;
    assert |Lower(k)| == |k| == 6;
    assert forall i :: 0 <= i < 6 ==> Lower(k)[i] == k[i];
  }

  /**
   `audio[key] = value` on Vorbis comments. Field names are case-insensitive, so
   every field whose name lower-cases to `key`'s is removed, whatever its case, and
   the one new field `key` is added.
   */
  function SetComment(comments: map<string, seq<string>>, key: string, value: string): (r: map<string, seq<string>>)
    ensures key in r && r[key] == [value]
    ensures forall k :: k in r && Lower(k) == Lower(key) ==> k == key
    ensures forall k :: Lower(k) != Lower(key) ==>
      (k in r <==> k in comments) && (k in comments ==> r[k] == comments[k])
  {
    var others := map k | k in comments && Lower(k) != Lower(key) :: comments[k];
    others[key := [value]]
  }

  /** Setting a comment twice is setting it once, to the later value. */
  lemma SetCommentTwice(comments: map<string, seq<string>>, key: string, v1: string, v2: string)
    ensures SetComment(SetComment(comments, key, v1), key, v2) == SetComment(comments, key, v2)
  {
    var twice := SetComment(SetComment(comments, key, v1), key, v2);
    var once := SetComment(comments, key, v2);
    assert twice.Keys == once.Keys;
  }

  /**
   `audio.clear_pictures(); audio.add_picture(pic)` when the cover is present, and
   `audio['lyrics'] = lyrics` when the lyrics are.
   */
  function TagFlac(comments: map<string, seq<string>>, pictures: seq<Picture>,
                   cover: Option<seq<byte>>, lyrics: Option<string>): (r: (map<string, seq<string>>, seq<Picture>))
    ensures cover.Some? ==> r.1 == [CoverPicture(cover.value)]
    ensures cover.None? ==> r.1 == pictures
    ensures lyrics.Some? ==> FlacLyricsKey in r.0 && r.0[FlacLyricsKey] == [lyrics.value]
    ensures lyrics.Some? ==> forall k :: k in r.0 && Lower(k) == FlacLyricsKey ==> k == FlacLyricsKey
    ensures forall k :: (Lower(k) != FlacLyricsKey || lyrics.None?) ==>
      (k in r.0 <==> k in comments) && (k in comments ==> r.0[k] == comments[k])
  {
    LyricsKeyFolded();
    var pics := if cover.Some? then [CoverPicture(cover.value)] else pictures;
    var cm := if lyrics.Some? then SetComment(comments, FlacLyricsKey, lyrics.value) else comments;
    (cm, pics)
  }

  /** The cover and lyrics steps of the branch matching the loaded file. */
  function Tag(a: AudioFile, cover: Option<seq<byte>>, lyrics: Option<string>): (r: AudioFile)
    ensures KindOf(r) == KindOf(a)
    ensures r.Mp3File? ==> r.frames.Some?
  {
    match a
    case Mp4File(atoms) => Mp4File(TagMp4(atoms, cover, lyrics))
    case Mp3File(frames) => Mp3File(Some(TagMp3(AddTags(frames), cover, lyrics)))
    case FlacFile(comments, pictures) =>
      var t := TagFlac(comments, pictures, cover, lyrics);
      FlacFile(t.0, t.1)
  }

  /** The returned flag, and the tags handed to `audio.save()` if the branch got that far. */
  datatype Outcome = Outcome(ok: bool, written: Option<AudioFile>)

  /**
   `embed_metadata(file_path, jpg_path, lrc_path)`. An unsupported extension returns
   `False` before anything is loaded; any exception (loading, decoding the lyrics,
   saving) returns `False`; otherwise the result is `True` and the tags were saved.
   */
  function Embed(env: Env, path: string, jpg: Option<string>, lrc: Option<string>): (r: Outcome)
    ensures ContainerOf(Extension(path)).None? ==> r == Outcome(false, None)
    ensures ReadLyrics(env, lrc).Failed? ==> r == Outcome(false, None)
    ensures r.ok <==> r.written.Some? && env.saves(r.written.value)
    ensures ContainerOf(Extension(path)).Some? && Load(env, ContainerOf(Extension(path)).value, path).None? ==>
      r == Outcome(false, None)
    ensures && ContainerOf(Extension(path)).Some?
            && Load(env, ContainerOf(Extension(path)).value, path).Some?
            && !ReadLyrics(env, lrc).Failed?
            ==> r.written.Some?
    ensures r.written.Some? ==>
      path in env.files && ContainerOf(Extension(path)) == Some(KindOf(r.written.value))
    ensures r.written.Some? ==>
      && Load(env, KindOf(r.written.value), path).Some?
      && r.written.value
         == Tag(Load(env, KindOf(r.written.value), path).value, ReadCover(env, jpg), LyricsText(ReadLyrics(env, lrc)))
  {
    match ContainerOf(Extension(path))
    case None => Outcome(false, None)
    case Some(c) =>
      var loaded := Load(env, c, path);
      var lyrics := ReadLyrics(env, lrc);
      if loaded.None? || lyrics.Failed? then Outcome(false, None)
      else
        var tagged := Tag(loaded.value, ReadCover(env, jpg), LyricsText(lyrics));
        Outcome(env.saves(tagged), Some(tagged))
  }

  /** The later of two optional values, falling back to the earlier. */
  function Latest<T>(earlier: Option<T>, later: Option<T>): Option<T>
  {
    if later.Some? then later else earlier
  }

  /**
   MP4 and FLAC tags are replaced, not appended: tagging twice is tagging once with
   the later cover and lyrics wherever they were given. In particular tagging again
   with the same cover and lyrics changes nothing.
   */
  lemma RetagReplaces(a: AudioFile, cover1: Option<seq<byte>>, lyrics1: Option<string>,
                      cover2: Option<seq<byte>>, lyrics2: Option<string>)
    requires !a.Mp3File?
    ensures Tag(Tag(a, cover1, lyrics1), cover2, lyrics2) == Tag(a, Latest(cover1, cover2), Latest(lyrics1, lyrics2))
    ensures Tag(Tag(a, cover1, lyrics1), cover1, lyrics1) == Tag(a, cover1, lyrics1)
  {
    if a.Mp4File? {
      var once := TagMp4(a.atoms, cover1, lyrics1);
      var twice := TagMp4(once, cover2, lyrics2);
      var direct := TagMp4(a.atoms, Latest(cover1, cover2), Latest(lyrics1, lyrics2));
      assert twice.Keys == direct.Keys;
      assert twice == direct;
    } else {
      if lyrics1.Some? && lyrics2.Some? {
        SetCommentTwice(a.comments, FlacLyricsKey, lyrics1.value, lyrics2.value);
      }
      if lyrics1.Some? {
        SetCommentTwice(a.comments, FlacLyricsKey, lyrics1.value, lyrics1.value);
      }
    }
  }

  /** With neither source present nothing changes, except that an MP3 file gains an empty tag. */
  lemma TagNothing(a: AudioFile)
    ensures a.Mp3File? ==> Tag(a, None, None) == Mp3File(Some(AddTags(a.frames)))
    ensures !a.Mp3File? ==> Tag(a, None, None) == a
  {
    if a.Mp4File? {
      assert TagMp4(a.atoms, None, None).Keys == a.atoms.Keys;
    } else if a.FlacFile? {
      assert TagFlac(a.comments, a.pictures, None, None).0.Keys == a.comments.Keys;
    }
  }

  /** What reaches `audio.save()` for an `.m4a`/`.mp4` file whose tags load and whose lyrics decode. */
  lemma EmbedMp4(env: Env, path: string, jpg: Option<string>, lrc: Option<string>)
    requires ContainerOf(Extension(path)) == Some(Mp4)
    requires path in env.files && env.loadMp4(env.files[path]).Some?
    requires !ReadLyrics(env, lrc).Failed?
    ensures var r := Embed(env, path, jpg, lrc);
      var atoms := env.loadMp4(env.files[path]).value;
      && r.written.Some? && r.written.value.Mp4File?
      && (Present(env, jpg) ==> r.written.value.atoms[CoverAtom] == [Mp4Cover(env.files[jpg.value], Jpeg)])
      && (Present(env, lrc) ==>
            r.written.value.atoms[LyricsAtom] == [Mp4Text(env.decode(env.files[lrc.value]).value)])
      && (!Present(env, jpg) && !Present(env, lrc) ==> r.written.value.atoms == atoms)
  {
    TagNothing(Mp4File(env.loadMp4(env.files[path]).value));
  }

  /** What reaches `audio.save()` for a `.flac` file: at most one picture, the lyrics key overwritten. */
  lemma EmbedFlac(env: Env, path: string, jpg: Option<string>, lrc: Option<string>)
    requires ContainerOf(Extension(path)) == Some(Flac)
    requires path in env.files && env.loadFlac(env.files[path]).Some?
    requires !ReadLyrics(env, lrc).Failed?
    ensures var r := Embed(env, path, jpg, lrc);
      var loaded := env.loadFlac(env.files[path]).value;
      && r.written.Some? && r.written.value.FlacFile?
      && (Present(env, jpg) ==> r.written.value.pictures == [CoverPicture(env.files[jpg.value])])
      && (!Present(env, jpg) ==> r.written.value.pictures == loaded.1)
      && (Present(env, lrc) ==>
            r.written.value.comments[FlacLyricsKey] == [env.decode(env.files[lrc.value]).value])
      && (!Present(env, lrc) ==> r.written.value.comments == loaded.0)
  {
    if !Present(env, lrc) {
      var loaded := env.loadFlac(env.files[path]).value;
      var t := TagFlac(loaded.0, loaded.1, ReadCover(env, jpg), None);
      assert t.0.Keys == loaded.0.Keys;
    }
  }

  /** What reaches `audio.save()` for an `.mp3` file: every old frame survives, and the new frames are there. */
  lemma EmbedMp3(env: Env, path: string, jpg: Option<string>, lrc: Option<string>)
    requires ContainerOf(Extension(path)) == Some(Mp3)
    requires path in env.files && env.loadMp3(env.files[path]).Some?
    requires !ReadLyrics(env, lrc).Failed?
    ensures var r := Embed(env, path, jpg, lrc);
      && r.written.Some? && r.written.value.Mp3File? && r.written.value.frames.Some?
      && (Present(env, jpg) ==> CoverFrame(env.files[jpg.value]) in r.written.value.frames.value)
      && (Present(env, lrc) ==>
            LyricsFrame(env.decode(env.files[lrc.value]).value) in r.written.value.frames.value)
  {
  }

  /** `"Song.Title.M4A"` is handled as an MP4 file: the extension is lower-cased first. */
  lemma UpperCaseExtension()
    ensures ContainerOf(Extension("Song.Title.M4A")) == Some(Mp4)
  {
    ExtensionOf("Song.Title", "M4A");
    assert "Song.Title" + "." + "M4A" == "Song.Title.M4A";
    assert Lower("M4A") == "m4a";
  }

  /** `"notes.txt"` is unsupported. */
  lemma UnsupportedExample()
    ensures ContainerOf(Extension("notes.txt")) == None
  {
    ExtensionOf("notes", "txt");
    assert "notes" + "." + "txt" == "notes.txt";
  }

  /** A trailing dot leaves an empty extension: `"song.flac."` is unsupported. */
  lemma TrailingDot()
    ensures ContainerOf(Extension("song.flac.")) == None
  {
    ExtensionOf("song.flac", "");
    assert "song.flac" + "." + "" == "song.flac.";
  }

  /** A loaded `LYRICS` comment is replaced, not kept beside the new `lyrics` one. */
  lemma FlacUpperCaseLyrics()
    ensures TagFlac(map["LYRICS" := ["old"]], [], None, Some("new")).0 == map["lyrics" := ["new"]]
  {
    var r := TagFlac(map["LYRICS" := ["old"]], [], None, Some("new")).0;
    assert Lower("LYRICS") == "lyrics";
    assert r.Keys == {"lyrics"};
  }
}
