/**
 The cue-text sanitiser `clean_text`: decode HTML character references, delete
 every match of the non-greedy pattern `<.*?>`, delete the music note, trim.
 */
module Markup {
  import opened Wrappers
  import opened Text

  /** The decorative glyph `♪` that `clean_text` deletes. */
  const Note: char := '\U{266A}'

  /** No character of `s` is a `>` or a newline. */
  predicate PlainRun(s: string)
  {
    forall k :: 0 <= k < |s| ==> s[k] != '>' && s[k] != '\n'
  }

  /**
   Where the pattern `.*?>` matching from the start of `s` ends: the first `>`,
   provided no newline comes before it (without DOTALL, `.` does not match a newline).
   */
  function FindClose(s: string): (r: Option<nat>)
    ensures r.Some? ==> r.value < |s| && s[r.value] == '>' && PlainRun(s[..r.value])
    ensures r.None? <==> forall j :: 0 <= j < |s| && s[j] == '>' ==> '\n' in s[..j]
  {
    if |s| == 0 then None
    else if s[0] == '>' then Some(0)
    else if s[0] == '\n' then None
    else
      match FindClose(s[1..])
      case None =>
        assert forall j :: 1 <= j < |s| && s[j] == '>' ==> '\n' in s[..j] by {
          forall j | 1 <= j < |s| && s[j] == '>' ensures '\n' in s[..j] {
            assert s[1..][j - 1] == '>';
            var k :| 0 <= k < j - 1 && s[1..][..j - 1][k] == '\n';
            assert s[..j][k + 1] == '\n';
          }
        }
        None
      case Some(j) =>
        assert s[..j + 1] == [s[0]] + s[1..][..j];
        Some(j + 1)
  }

  /**
   No `<` of `s` would start a match of `<.*?>`: after every `<`, a newline
   comes before any `>`.
   */
  predicate Tagless(s: string)
    decreases |s|
  {
    |s| == 0 || ((s[0] == '<' ==> FindClose(s[1..]).None?) && Tagless(s[1..]))
  }

  /** Python's `re.sub(r'<.*?>', '', s)`: scan left to right, deleting each match. */
  function StripTags(s: string): (r: string)
    ensures |r| <= |s|
    decreases |s|
  {
    if |s| == 0 then []
    else if s[0] == '<' && FindClose(s[1..]).Some? then StripTags(s[FindClose(s[1..]).value + 2..])
    else [s[0]] + StripTags(s[1..])
  }

  /** A `<` with no reachable `>` stays a non-match after the rest is stripped. */
  lemma {:induction false} FindCloseNoneKept(s: string)
    requires FindClose(s).None?
    ensures FindClose(StripTags(s)).None?
    decreases |s|
  {
    if |s| > 0 && s[0] != '\n' {
      assert FindClose(s[1..]).None?;
      FindCloseNoneKept(s[1..]);
      assert StripTags(s) == [s[0]] + StripTags(s[1..]);
      assert StripTags(s)[1..] == StripTags(s[1..]);
    } else if |s| > 0 {
      assert StripTags(s) == [s[0]] + StripTags(s[1..]);
    }
  }

  /** After `re.sub(r'<.*?>', '', s)`, no match of the pattern is left. */
  lemma {:induction false} StripTagsTagless(s: string)
    ensures Tagless(StripTags(s))
    decreases |s|
  {
    if |s| == 0 {
    } else if s[0] == '<' && FindClose(s[1..]).Some? {
      StripTagsTagless(s[FindClose(s[1..]).value + 2..]);
    } else {
      StripTagsTagless(s[1..]);
      var r := StripTags(s);
      assert r == [s[0]] + StripTags(s[1..]);
      assert r[1..] == StripTags(s[1..]);
      if s[0] == '<' {
        FindCloseNoneKept(s[1..]);
      }
    }
  }

  /** `.*?>` from the start of `inner + ">" + rest` stops at that `>` when `inner` is plain. */
  lemma {:induction false} FindCloseOf(inner: string, rest: string)
    requires PlainRun(inner)
    ensures FindClose(inner + ">" + rest) == Some(|inner|)
  {
    if |inner| > 0 {
      FindCloseOf(inner[1..], rest);
      assert (inner + ">" + rest)[1..] == inner[1..] + ">" + rest;
    }
  }

  /** A tag `<inner>` on one line is deleted. */
  lemma StripTagsTag(inner: string, rest: string)
    requires PlainRun(inner)
    ensures StripTags("<" + inner + ">" + rest) == StripTags(rest)
  {
    var s := "<" + inner + ">" + rest;
    assert s[1..] == inner + ">" + rest;
    FindCloseOf(inner, rest);
    assert s[|inner| + 2..] == rest;
  }

  /** Text before the first `<` is kept as it is. */
  lemma {:induction false} StripTagsPlain(p: string, rest: string)
    requires '<' !in p
    ensures StripTags(p + rest) == p + StripTags(rest)
  {
    if |p| > 0 {
      StripTagsPlain(p[1..], rest);
      assert (p + rest)[1..] == p[1..] + rest;
      assert [p[0]] + (p[1..] + StripTags(rest)) == p + StripTags(rest);
    } else {
      assert p + rest == rest;
    }
  }

  /** Markup `<t>inside</t>` around plain text leaves only the text. */
  lemma StripTagPair(before: string, t: string, inside: string)
    requires '<' !in before && '<' !in inside
    requires PlainRun(t)
    ensures StripTags(before + ("<" + t + ">" + (inside + ("</" + t + ">")))) == before + inside
  {
    var tail := inside + ("</" + t + ">");
    StripClosing(inside, t);
    StripTagsTag(t, tail);
    StripTagsPlain(before, "<" + t + ">" + tail);
  }

  /** A closing tag after plain text is deleted. */
  lemma StripClosing(inside: string, t: string)
    requires '<' !in inside
    requires PlainRun(t)
    ensures StripTags(inside + ("</" + t + ">")) == inside
  {
    var close := "</" + t + ">";
    assert PlainRun("/" + t) by {
      assert forall k :: 0 < k < |"/" + t| ==> ("/" + t)[k] == t[k - 1];
    }
    StripTagsTag("/" + t, []);
    assert close == "<" + ("/" + t) + ">" + [];
    StripTagsPlain(inside, close);
    assert inside + [] == inside;
  }

  /** Text with no match of `<.*?>` passes through the strip unchanged. */
  lemma {:induction false} StripTagsOfTagless(s: string)
    requires Tagless(s)
    ensures StripTags(s) == s
    decreases |s|
  {
    if |s| > 0 {
      StripTagsOfTagless(s[1..]);
      assert [s[0]] + s[1..] == s;
    }
  }

  /** The strip is the identity exactly on tagless text, hence idempotent. */
  lemma StripTagsFixedPoint(s: string)
    ensures StripTags(s) == s <==> Tagless(s)
    ensures StripTags(StripTags(s)) == StripTags(s)
  {
    StripTagsTagless(s);
    if Tagless(s) {
      StripTagsOfTagless(s);
    }
    StripTagsOfTagless(StripTags(s));
  }

  /** Pairwise reading of `Tagless`: between any `<` and a later `>` there is a newline. */
  ghost predicate NoTagPair(s: string)
  {
    forall i, j :: 0 <= i < j < |s| && s[i] == '<' && s[j] == '>' ==> '\n' in s[i + 1..j]
  }

  lemma {:induction false} TaglessIsNoTagPair(s: string)
    ensures Tagless(s) <==> NoTagPair(s)
    decreases |s|
  {
    if |s| > 0 {
      TaglessIsNoTagPair(s[1..]);
      if NoTagPair(s) {
        NoTagPairTail(s);
      }
      if NoTagPair(s[1..]) && (s[0] == '<' ==> FindClose(s[1..]).None?) {
        NoTagPairCons(s);
      }
    }
  }

  /** The pairs of `s[1..]` are pairs of `s` shifted by one; those starting at 0 are `FindClose`'s. */
  lemma NoTagPairTail(s: string)
    requires |s| > 0 && NoTagPair(s)
    ensures NoTagPair(s[1..]) && (s[0] == '<' ==> FindClose(s[1..]).None?)
  {
    var t := s[1..];
    forall i, j | 0 <= i < j < |t| && t[i] == '<' && t[j] == '>'
      ensures '\n' in t[i + 1..j]
    {
      assert s[i + 1] == '<' && s[j + 1] == '>';
      assert t[i + 1..j] == s[i + 2..j + 1];
    }
    if s[0] == '<' {
      forall j | 0 <= j < |t| && t[j] == '>' ensures '\n' in t[..j] {
        assert s[j + 1] == '>';
        assert s[1..j + 1] == t[..j];
      }
    }
  }

  /** Conversely, the pairs of `s` come from `s[1..]` or start at 0. */
  lemma NoTagPairCons(s: string)
    requires |s| > 0 && NoTagPair(s[1..]) && (s[0] == '<' ==> FindClose(s[1..]).None?)
    ensures NoTagPair(s)
  {
    var t := s[1..];
    forall i, j | 0 <= i < j < |s| && s[i] == '<' && s[j] == '>'
      ensures '\n' in s[i + 1..j]
    {
      if i == 0 {
        assert t[j - 1] == '>';
        assert '\n' in t[..j - 1];
        assert s[1..j] == t[..j - 1];
      } else {
        assert t[i - 1] == '<' && t[j - 1] == '>';
        assert '\n' in t[i..j - 1];
        var inner := t[i..j - 1];
        assert forall k :: 0 <= k < |inner| ==> inner[k] == s[i + 1 + k];
        assert s[i + 1..j] == inner;
      }
    }
  }

  /** A prefix has no more `.*?>` matches than the whole. */
  lemma FindClosePrefix(s: string, k: nat)
    requires k <= |s|
    requires FindClose(s).None?
    ensures FindClose(s[..k]).None?
  {
    var p := s[..k];
    forall j | 0 <= j < |p| && p[j] == '>' ensures '\n' in p[..j] {
      assert s[j] == '>';
      assert p[..j] == s[..j];
    }
  }

  lemma {:induction false} TaglessPrefix(s: string, k: nat)
    requires k <= |s|
    requires Tagless(s)
    ensures Tagless(s[..k])
    decreases |s|
  {
    if k > 0 {
      TaglessPrefix(s[1..], k - 1);
      assert s[..k][1..] == s[1..][..k - 1];
      if s[0] == '<' {
        FindClosePrefix(s[1..], k - 1);
      }
    }
  }

  lemma {:induction false} TaglessSuffix(s: string, k: nat)
    requires k <= |s|
    requires Tagless(s)
    ensures Tagless(s[k..])
    decreases k
  {
    if k > 0 {
      TaglessSuffix(s[1..], k - 1);
      assert s[1..][k - 1..] == s[k..];
    }
  }

  /** Deleting a character that is neither `>` nor a newline does not change whether `.*?>` matches. */
  lemma {:induction false} FindCloseRemoveChar(s: string, c: char)
    requires c != '>' && c != '\n'
    ensures FindClose(RemoveChar(s, c)).None? <==> FindClose(s).None?
    decreases |s|
  {
    if |s| > 0 {
      FindCloseRemoveChar(s[1..], c);
      if s[0] != c {
        assert ([s[0]] + RemoveChar(s[1..], c))[1..] == RemoveChar(s[1..], c);
      }
    }
  }

  lemma {:induction false} TaglessRemoveChar(s: string, c: char)
    requires c != '>' && c != '\n'
    requires Tagless(s)
    ensures Tagless(RemoveChar(s, c))
    decreases |s|
  {
    if |s| > 0 {
      TaglessRemoveChar(s[1..], c);
      if s[0] != c {
        assert ([s[0]] + RemoveChar(s[1..], c))[1..] == RemoveChar(s[1..], c);
        FindCloseRemoveChar(s[1..], c);
      }
    }
  }

  /** Stripping whitespace keeps the note out and keeps the text tagless. */
  lemma StripKeeps(s: string)
    requires Note !in s
    requires Tagless(s)
    ensures Note !in Strip(s)
    ensures Tagless(Strip(s))
  {
    StripSubset(s);
    var r := Strip(s);
    var pre := StripCore(s);
    TaglessPrefix(s, pre + |r|);
    TaglessSuffix(s[..pre + |r|], pre);
    assert s[..pre + |r|][pre..] == r;
  }

  /**
   Python's `clean_text`. `html.unescape` is a library call outside the model, so it
   is the parameter `unescape`; tags are stripped after unescaping.
   */
  function CleanText(unescape: string -> string, text: string): (r: string)
    ensures Note !in r
    ensures Trimmed(r)
    ensures Tagless(r)
  {
    var stripped := StripTags(unescape(text));
    var noNotes := RemoveChar(stripped, Note);
    StripTagsTagless(unescape(text));
    TaglessRemoveChar(stripped, Note);
    StripKeeps(noNotes);
    Strip(noNotes)
  }

  /** `clean_text` with the unescaping fixed, as a per-line cleaner. */
  function Cleaner(unescape: string -> string): string -> string
  {
    t => CleanText(unescape, t)
  }

  /** What `html.unescape` guarantees without its entity table: text with no `&` comes back unchanged. */
  ghost predicate KeepsPlain(unescape: string -> string)
  {
    forall t :: '&' !in t ==> unescape(t) == t
  }

  /**
   Tags are stripped after unescaping, so markup written with character references
   (`&lt;i&gt;`) is removed as well.
   */
  lemma UnescapedTagRemoved(unescape: string -> string, text: string, t: string, rest: string)
    requires unescape(text) == "<" + t + ">" + rest
    requires PlainRun(t) && '<' !in rest && Note !in rest && Trimmed(rest)
    ensures CleanText(unescape, text) == rest
  {
    StripTagsTag(t, rest);
    StripTagsPlain(rest, []);
    assert rest + [] == rest;
    RemoveCharAbsent(rest, Note);
    StripTrimmed(rest);
  }
}
