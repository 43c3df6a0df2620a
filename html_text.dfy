/** The small string and list helpers of the HTML parser: quote removal,
    non-breaking-space normalisation of a cell's text, and the order-keeping
    link filter. An element's `text_content()` is taken as an already
    extracted string and a compiled regular expression as a predicate on
    strings. */
module HtmlText {
  import opened Builtins

  const DoubleQuote: char := '"'
  const SingleQuote: char := '\''
  const NoBreakSpace: char := '\U{00A0}'

  /** `s.replace(c, '')`. */
  function RemoveChar(s: string, c: char): string {
    Filter(x => x != c, s)
  }

  /** `replace_quotes`: first every `"` is removed, then every `'`. */
  function ReplaceQuotes(s: string): (r: string)
    ensures |r| <= |s|
    ensures forall i | 0 <= i < |r| :: r[i] != DoubleQuote && r[i] != SingleQuote
  {
    RemoveChar(RemoveChar(s, DoubleQuote), SingleQuote)
  }

  predicate IsQuote(c: char) {
    c == DoubleQuote || c == SingleQuote
  }

  /** The two removal passes amount to one pass that keeps every character
      that is not a quote. */
  lemma {:induction false} ReplaceQuotesIsOneFilter(s: string)
    ensures ReplaceQuotes(s) == Filter(c => !IsQuote(c), s)
  {
    if s != [] {
      ReplaceQuotesIsOneFilter(s[1..]);
      var first := RemoveChar(s, DoubleQuote);
      assert first == (if s[0] != DoubleQuote then [s[0]] else []) + RemoveChar(s[1..], DoubleQuote);
      FilterAppend(x => x != SingleQuote, if s[0] != DoubleQuote then [s[0]] else [], RemoveChar(s[1..], DoubleQuote));
    }
  }

  /** `replace_quotes` deletes every quote and keeps every other character
      as often as it occurs, in order. */
  lemma ReplaceQuotesKeepsOthers(s: string, c: char)
    ensures DoubleQuote !in ReplaceQuotes(s) && SingleQuote !in ReplaceQuotes(s)
    ensures !IsQuote(c) ==> multiset(ReplaceQuotes(s))[c] == multiset(s)[c]
    ensures IsQuote(c) ==> multiset(ReplaceQuotes(s))[c] == 0
  {
    ReplaceQuotesIsOneFilter(s);
    FilterMultiset(x => !IsQuote(x), s, c);
    FilterMultiset(x => !IsQuote(x), s, DoubleQuote);
    FilterMultiset(x => !IsQuote(x), s, SingleQuote);
  }

  /** Removing quotes twice is the same as removing them once. */
  lemma ReplaceQuotesIdempotent(s: string)
    ensures ReplaceQuotes(ReplaceQuotes(s)) == ReplaceQuotes(s)
  {
    var r := ReplaceQuotes(s);
    ReplaceQuotesIsOneFilter(s);
    ReplaceQuotesIsOneFilter(r);
    FilterKeepsAll(c => !IsQuote(c), r);
  }

  /** `replace_space`: the element's text with every U+00A0 turned into an
      ordinary space; nothing else changes. */
  function ReplaceSpace(text: string): (r: string)
    ensures |r| == |text|
    ensures NoBreakSpace !in r
    ensures forall i | 0 <= i < |text| ::
      r[i] == (if text[i] == NoBreakSpace then ' ' else text[i])
  {
    MapSeq(c => if c == NoBreakSpace then ' ' else c, text)
  }

  /** A normalised text is left alone by a second normalisation. */
  lemma ReplaceSpaceIdempotent(text: string)
    ensures ReplaceSpace(ReplaceSpace(text)) == ReplaceSpace(text)
  {
  }

  /** `extract_links_match_obj`: the links the matcher finds a match in,
      in input order, duplicates kept. */
  method ExtractLinksMatchObj(links: seq<string>, matches: string -> bool)
    returns (toReturn: seq<string>)
    ensures toReturn == Filter(matches, links)
    ensures forall l :: multiset(toReturn)[l] == if matches(l) then multiset(links)[l] else 0
  {
    toReturn := [];
    for i := 0 to |links|
      invariant toReturn == Filter(matches, links[..i])
    {
      var l := links[i];
      if matches(l) {
        toReturn := toReturn + [l];
      }
      FilterAppend(matches, links[..i], [l]);
      assert links[..i + 1] == links[..i] + [l];
    }
    assert links[..|links|] == links;
    forall l ensures multiset(toReturn)[l] == if matches(l) then multiset(links)[l] else 0 {
      FilterMultiset(matches, links, l);
    }
  }
}
