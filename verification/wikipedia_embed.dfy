/** The address the article viewer loads: the article URL, followed by a text-fragment
    directive (`#:~:text=`, WICG Text Fragments draft) naming the text to highlight,
    percent-encoded as JavaScript's `encodeURIComponent` does (section 2.1 of RFC 3986). */
module WikipediaEmbed {
  import opened Text
  import opened PercentEncoding

  const TextDirective: string := "#:~:text="

  /** The encoded text decodes back to the text, and holds no raw character that would end
      the fragment or split it. */
  lemma EncodedTextFacts(text: string)
    ensures Unquote(EncodeUriComponent(text)) == text
    ensures forall k :: 0 <= k < |EncodeUriComponent(text)| ==>
              IsEncodedChar(EncodeUriComponent(text)[k], IsUriComponentSafe)
    ensures ' ' !in EncodeUriComponent(text) && '#' !in EncodeUriComponent(text) && '&' !in EncodeUriComponent(text)
  {
    UnquoteEncode(text, IsUriComponentSafe);
    EncodedNoDelimiters(EncodeUriComponent(text));
  }

  lemma EncodedNoDelimiters(e: string)
    requires forall k :: 0 <= k < |e| ==> IsEncodedChar(e[k], IsUriComponentSafe)
    ensures ' ' !in e && '#' !in e && '&' !in e
  {
    forall k | 0 <= k < |e| ensures e[k] != ' ' && e[k] != '#' && e[k] != '&' {
      assert IsEncodedChar(e[k], IsUriComponentSafe);
    }
  }

  /** Where the three parts of `a + b + c` sit. */
  lemma ThreeParts(a: string, b: string, c: string)
    ensures (a + b + c)[..|a|] == a && (a + b + c)[|a|..|a| + |b|] == b && (a + b + c)[|a| + |b|..] == c
    ensures forall k :: |a| + |b| <= k < |a + b + c| ==> (a + b + c)[k] == c[k - |a| - |b|]
  {
  }

  /** `getHighlightedUrl`: the URL unchanged for empty text, otherwise the URL followed by
      the directive and the encoded text. */
  function GetHighlightedUrl(url: string, text: string): (r: string)
    ensures StartsWith(r, url)
    ensures text == [] ==> r == url
    ensures text != [] ==> |r| > |url| + |TextDirective|
                           && r[|url|..|url| + |TextDirective|] == TextDirective
                           && Unquote(r[|url| + |TextDirective|..]) == text
    ensures text != [] ==> forall k :: |url| + |TextDirective| <= k < |r| ==>
                             IsEncodedChar(r[k], IsUriComponentSafe) && r[k] != ' ' && r[k] != '#' && r[k] != '&'
  {
    if text == [] then url
    else
      EncodedTextFacts(text);
      ThreeParts(url, TextDirective, EncodeUriComponent(text));
      url + TextDirective + EncodeUriComponent(text)
  }

  /** `finalUrl`, which both the frame and the "open in new tab" button use: the plain
      article URL when there is no text to highlight (absent or empty). */
  function FinalUrl(wikiUrl: string, highlightText: Option<string>): (r: string)
    ensures StartsWith(r, wikiUrl)
    ensures highlightText.None? || highlightText.value == [] ==> r == wikiUrl
    ensures highlightText.Some? ==> r == GetHighlightedUrl(wikiUrl, highlightText.value)
  {
    if highlightText.Some? && highlightText.value != [] then GetHighlightedUrl(wikiUrl, highlightText.value)
    else wikiUrl
  }

  /** The highlighted text can be read back from the final address. */
  lemma FinalUrlCarriesText(wikiUrl: string, text: string)
    requires text != []
    ensures var r := FinalUrl(wikiUrl, Some(text));
            r[..|wikiUrl|] == wikiUrl && r[|wikiUrl|..|wikiUrl| + |TextDirective|] == TextDirective
            && Unquote(r[|wikiUrl| + |TextDirective|..]) == text
  {
  }
}
