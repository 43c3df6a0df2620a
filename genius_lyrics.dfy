/** The lyric clean-up of the Genius scraper (`extract_lyrics`): the lyric
    fragments of a song page lose their bracketed section tags and their
    blank lines and are joined into one text. Fetching and parsing the page
    are left out; the page is given as the outcome of the fetch and, when it
    was fetched, the text of each lyric fragment in document order. */
module GeniusLyrics {
  import opened Wrappers
  import opened Builtins
  import HtmlText

  // ---------------------------------------------------------------------
  // meta_matcher.sub('', ...) with meta_matcher = (\[.*?\])*

  /** The offset of the first `]` in `t` that comes before any newline:
      where a tag opened just before `t` closes, if it closes on its line. */
  function FindClose(t: string): (r: Option<nat>)
    ensures r.Some? ==> r.value < |t| && t[r.value] == ']'
    ensures r.Some? ==> forall j | 0 <= j < r.value :: t[j] != ']' && t[j] != '\n'
    ensures r.None? ==> forall j | 0 <= j < |t| && t[j] == ']' :: exists m :: 0 <= m < j && t[m] == '\n'
  {
    if t == [] then None
    else if t[0] == ']' then Some(0)
    else if t[0] == '\n' then None
    else
      match FindClose(t[1..])
      case None =>
        assert forall j | 1 <= j < |t| :: t[j] == t[1..][j - 1];
        None
      case Some(k) =>
        assert forall j | 1 <= j < |t| :: t[j] == t[1..][j - 1];
        Some(k + 1)
  }

  /** The text with every tag removed: a `[` and the shortest stretch up to
      the next `]` on the same line. A `[` whose line holds no later `]` is
      kept, and so is everything outside tags, in order. */
  function StripTags(s: string): string
    decreases |s|
  {
    if s == [] then []
    else if s[0] == '[' && FindClose(s[1..]).Some? then
      StripTags(s[FindClose(s[1..]).value + 2..])
    else [s[0]] + StripTags(s[1..])
  }

  /** No tag is left: every `[` has no `]` after it on its line. */
  predicate NoTags(s: string) {
    forall i | 0 <= i < |s| && s[i] == '[' :: FindClose(s[i + 1..]).None?
  }

  /** Removing tags never creates a `]` before the first newline. */
  lemma {:induction false} StripKeepsUnclosed(t: string)
    requires FindClose(t).None?
    ensures FindClose(StripTags(t)).None?
    decreases |t|
  {
    if t != [] && t[0] != '\n' {
      assert FindClose(t[1..]).None?;
      StripKeepsUnclosed(t[1..]);
      assert StripTags(t) == [t[0]] + StripTags(t[1..]);
      assert StripTags(t)[1..] == StripTags(t[1..]);
    } else if t != [] {
      assert StripTags(t) == [t[0]] + StripTags(t[1..]);
    }
  }

  /** `meta_matcher.sub('', s)` leaves no tag behind. */
  lemma {:induction false} StripTagsLeavesNoTags(s: string)
    ensures NoTags(StripTags(s))
    decreases |s|
  {
    if s != [] {
      if s[0] == '[' && FindClose(s[1..]).Some? {
        StripTagsLeavesNoTags(s[FindClose(s[1..]).value + 2..]);
      } else {
        StripTagsLeavesNoTags(s[1..]);
        var r := StripTags(s);
        var rest := StripTags(s[1..]);
        assert r == [s[0]] + rest;
        forall i | 0 <= i < |r| && r[i] == '[' ensures FindClose(r[i + 1..]).None? {
          if i == 0 {
            assert r[1..] == rest;
            StripKeepsUnclosed(s[1..]);
          } else {
            assert r[i + 1..] == rest[i..];
            assert rest[i - 1] == '[';
          }
        }
      }
    }
  }

  /** A text without tags is left alone. */
  lemma {:induction false} StripTagsKeepsTagFree(s: string)
    requires NoTags(s)
    ensures StripTags(s) == s
    decreases |s|
  {
    if s != [] {
      assert s[0] == '[' ==> FindClose(s[1..]).None?;
      forall i | 0 <= i < |s[1..]| && s[1..][i] == '[' ensures FindClose(s[1..][i + 1..]).None? {
        assert s[1..][i + 1..] == s[i + 2..];
        assert s[i + 1] == '[';
      }
      StripTagsKeepsTagFree(s[1..]);
    }
  }

  /** Removing tags twice is the same as removing them once. */
  lemma StripTagsIdempotent(s: string)
    ensures StripTags(StripTags(s)) == StripTags(s)
  {
    StripTagsLeavesNoTags(s);
    StripTagsKeepsTagFree(StripTags(s));
  }

  /** A section header is removed up to its `]`, and the line break after
      it stays. */
  lemma StripTagsRemovesHeader()
    ensures StripTags("[Hook]\nyo") == "\nyo"
  {
    assert FindClose("]\nyo") == Some(0);
    assert FindClose("k]\nyo") == Some(1) by { assert "k]\nyo"[1..] == "]\nyo"; }
    assert FindClose("ok]\nyo") == Some(2) by { assert "ok]\nyo"[1..] == "k]\nyo"; }
    assert FindClose("ook]\nyo") == Some(3) by { assert "ook]\nyo"[1..] == "ok]\nyo"; }
    assert FindClose("Hook]\nyo") == Some(4) by { assert "Hook]\nyo"[1..] == "ook]\nyo"; }
    assert "[Hook]\nyo"[1..] == "Hook]\nyo";
    assert "[Hook]\nyo"[6..] == "\nyo";
    assert StripTags("o") == "o";
    assert StripTags("yo") == "yo" by { assert "yo"[1..] == "o"; }
    assert StripTags("\nyo") == "\nyo" by { assert "\nyo"[1..] == "yo"; }
  }

  /** A tag does not reach across a line break: a `[` with no `]` after
      it on its line is kept, and removal goes on after it. */
  lemma StripTagsStopsAtLineEnd(t: string)
    requires FindClose(t).None?
    ensures StripTags("[" + t) == "[" + StripTags(t)
  {
    assert ("[" + t)[1..] == t;
  }

  /** The shortest tag wins: a tag ends at its first `]`, even past another
      `[`, and removal goes on after that `]`. */
  lemma StripTagsShortest(t: string, v: string)
    requires ']' !in t && '\n' !in t
    ensures StripTags("[" + t + "]" + v) == StripTags(v)
  {
    var s := "[" + t + "]" + v;
    assert s[1..] == t + "]" + v;
    FindCloseFirst(t, v);
    assert s[|t| + 2..] == v;
  }

  /** A `]` preceded on its line only by other characters is where the tag
      closes. */
  lemma {:induction false} FindCloseFirst(t: string, v: string)
    requires ']' !in t && '\n' !in t
    ensures FindClose(t + "]" + v) == Some(|t|)
  {
    if t != [] {
      FindCloseFirst(t[1..], v);
      assert (t + "]" + v)[1..] == t[1..] + "]" + v;
    }
  }

  // ---------------------------------------------------------------------
  // Blank lines

  /** `'\n'.join(filter(lambda s: bool(s.strip()), text.split('\n')))`. */
  function CleanLines(text: string): string {
    Join("\n", Filter(NotBlank, Split(text, '\n')))
  }

  /** The cleaned text's lines are exactly the non-blank lines of the
      input, in order; when there are none the text is empty. */
  lemma CleanLinesAreTheNonBlankLines(text: string)
    ensures var kept := Filter(NotBlank, Split(text, '\n'));
      && (kept == [] ==> CleanLines(text) == "")
      && (kept != [] ==> Split(CleanLines(text), '\n') == kept)
  {
    var kept := Filter(NotBlank, Split(text, '\n'));
    if kept != [] {
      forall k | 0 <= k < |kept| ensures '\n' !in kept[k] {
        assert kept[k] in Split(text, '\n');
      }
      SplitJoin(kept, '\n');
    }
  }

  /** Cleaning an already cleaned text changes nothing. */
  lemma CleanLinesIdempotent(text: string)
    ensures CleanLines(CleanLines(text)) == CleanLines(text)
  {
    var kept := Filter(NotBlank, Split(text, '\n'));
    CleanLinesAreTheNonBlankLines(text);
    if kept == [] {
      assert Split("", '\n') == [""];
      assert !NotBlank("");
    } else {
      assert forall k | 0 <= k < |kept| :: NotBlank(kept[k]);
      FilterKeepsAll(NotBlank, kept);
    }
  }

  /** A line break before any `]` stops the search for a closing `]`. */
  lemma {:induction false} FindCloseBlocked(u: string, v: string)
    requires ']' !in u
    ensures FindClose(u + "\n" + v).None?
  {
    if u != [] {
      FindCloseBlocked(u[1..], v);
      assert (u + "\n" + v)[1..] == u[1..] + "\n" + v;
    }
  }

  /** A `]` that closes a tag in `t` still closes it when text follows. */
  lemma {:induction false} FindCloseExtend(t: string, v: string)
    ensures FindClose(t).Some? ==> FindClose(t + v) == FindClose(t)
  {
    if t != [] && t[0] != ']' && t[0] != '\n' {
      FindCloseExtend(t[1..], v);
      assert (t + v)[1..] == t[1..] + v;
    }
  }

  /** The beginning and the end of a tag-free text are tag-free. */
  lemma NoTagsSplit(u: string, v: string)
    requires NoTags(u + v)
    ensures NoTags(u) && NoTags(v)
  {
    forall i | 0 <= i < |u| && u[i] == '[' ensures FindClose(u[i + 1..]).None? {
      assert (u + v)[i] == '[';
      assert (u + v)[i + 1..] == u[i + 1..] + v;
      FindCloseExtend(u[i + 1..], v);
    }
    forall i | 0 <= i < |v| && v[i] == '[' ensures FindClose(v[i + 1..]).None? {
      assert (u + v)[|u| + i] == '[';
      assert (u + v)[|u| + i + 1..] == v[i + 1..];
    }
  }

  /** Every piece of a tag-free text joined by line breaks is tag-free. */
  lemma {:induction false} NoTagsParts(parts: seq<string>)
    requires NoTags(Join("\n", parts))
    ensures forall k | 0 <= k < |parts| :: NoTags(parts[k])
  {
    if |parts| > 1 {
      var rest := Join("\n", parts[1..]);
      assert Join("\n", parts) == parts[0] + ("\n" + rest);
      NoTagsSplit(parts[0], "\n" + rest);
      NoTagsSplit("\n", rest);
      NoTagsParts(parts[1..]);
      assert forall k | 1 <= k < |parts| :: parts[k] == parts[1..][k - 1];
    }
  }

  /** Lines without line breaks and without tags, joined by line breaks,
      give a tag-free text: no tag spans two lines. */
  lemma {:induction false} NoTagsJoin(parts: seq<string>)
    requires forall k | 0 <= k < |parts| :: '\n' !in parts[k] && NoTags(parts[k])
    ensures NoTags(Join("\n", parts))
  {
    if |parts| > 1 {
      var p := parts[0];
      var rest := Join("\n", parts[1..]);
      var s := Join("\n", parts);
      assert s == p + "\n" + rest;
      NoTagsJoin(parts[1..]);
      forall i | 0 <= i < |s| && s[i] == '[' ensures FindClose(s[i + 1..]).None? {
        if i < |p| {
          assert p[i] == '[';
          var q := p[i + 1..];
          assert FindClose(q).None?;
          forall j | 0 <= j < |q| ensures q[j] != ']' {
            assert q[j] in p;
          }
          assert s[i + 1..] == q + "\n" + rest;
          FindCloseBlocked(q, rest);
        } else {
          assert i > |p|;
          assert rest[i - |p| - 1] == '[';
          assert s[i + 1..] == rest[i - |p|..];
        }
      }
    }
  }

  /** Dropping blank lines keeps a tag-free text tag-free. */
  lemma CleanLinesKeepsTagFree(text: string)
    requires NoTags(text)
    ensures NoTags(CleanLines(text))
  {
    var lines := Split(text, '\n');
    JoinSplit(text, '\n');
    NoTagsParts(lines);
    var kept := Filter(NotBlank, lines);
    forall k | 0 <= k < |kept| ensures '\n' !in kept[k] && NoTags(kept[k]) {
      var j :| 0 <= j < |lines| && lines[j] == kept[k];
    }
    NoTagsJoin(kept);
  }

  // ---------------------------------------------------------------------
  // extract_lyrics

  /** The outcome of fetching the song's page: no `path` in the song, a
      failed request, or the text of each lyric fragment. */
  datatype SongPage =
    | NoPath
    | FetchFailed
    | Fetched(fragments: seq<string>)

  /** One fragment after the loop body: non-breaking spaces normalised,
      tags removed, blank lines dropped. */
  function CleanFragment(fragment: string): string {
    CleanLines(StripTags(HtmlText.ReplaceSpace(fragment)))
  }

  /** A cleaned fragment has no blank line and no section tag left. */
  lemma CleanFragmentLines(fragment: string)
    ensures var c := CleanFragment(fragment);
      && NoTags(c)
      && (c == "" || forall k | 0 <= k < |Split(c, '\n')| :: NotBlank(Split(c, '\n')[k]))
  {
    var text := StripTags(HtmlText.ReplaceSpace(fragment));
    CleanLinesAreTheNonBlankLines(text);
    StripTagsLeavesNoTags(HtmlText.ReplaceSpace(fragment));
    CleanLinesKeepsTagFree(text);
  }

  /** `extract_lyrics`: without a `path` the missing page reaches the HTML
      parser, which raises; a failed fetch gives `""`; a page without lyric
      fragments gives `"NO LYRICS"`; otherwise the cleaned fragments, in
      document order, joined by a blank line. */
  method ExtractLyrics(page: SongPage) returns (r: Result<string, Exception>)
    ensures page.NoPath? ==> r.Err? && r.error.TypeError?
    ensures page.FetchFailed? ==> r == Ok("")
    ensures page.Fetched? && page.fragments == [] ==> r == Ok("NO LYRICS")
    ensures page.Fetched? && page.fragments != [] ==>
      r == Ok(Join("\n\n", MapSeq(CleanFragment, page.fragments)))
  {
    match page
    case NoPath =>
      return Err(TypeError("expected string or bytes-like object"));
    case FetchFailed =>
      return Ok("");
    case Fetched(results) =>
      if results == [] {
        return Ok("NO LYRICS");
      }
      var final := new string[|results|](i requires 0 <= i < |results| => HtmlText.ReplaceSpace(results[i]));
      CleanFragments(final, results);
      return Ok(Join("\n\n", final[..]));
  }

  /** The `for i in range(len(final))` loop: each normalised fragment is
      rewritten in place, tags first, then blank lines. */
  method CleanFragments(final: array<string>, ghost results: seq<string>)
    requires final.Length == |results|
    requires forall k | 0 <= k < final.Length :: final[k] == HtmlText.ReplaceSpace(results[k])
    modifies final
    ensures final[..] == MapSeq(CleanFragment, results)
  {
    for i := 0 to final.Length
      invariant forall k | 0 <= k < i :: final[k] == CleanFragment(results[k])
      invariant forall k | i <= k < final.Length :: final[k] == HtmlText.ReplaceSpace(results[k])
    {
      ghost var before := final[..];
      final[i] := StripTags(final[i]);
      final[i] := CleanLines(final[i]);
      assert final[i] == CleanFragment(results[i]);
      assert forall k | 0 <= k < final.Length && k != i :: final[k] == before[k];
    }
    assert forall k | 0 <= k < final.Length :: final[..][k] == MapSeq(CleanFragment, results)[k];
  }
}
