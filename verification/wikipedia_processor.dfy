/** The offline processor that turns a claim/evidence item into two saved Wikipedia pages
    with the relevant text highlighted. Downloads, file reads and the link rewriting of the
    page are handed in by the caller as functions. */
module WikipediaProcessor {
  import opened Text
  import opened PercentEncoding
  import opened UrlMapping
  import opened FlexPattern

  // ---------------------------------------------------------------------------
  // Page names and local paths

  const WikipediaDomain: string := "wikipedia.org"

  /** `extract_page_name`: "" for an empty URL or one not mentioning `wikipedia.org`;
      otherwise the page of an `http(s)://en.wikipedia.org/wiki/...` URL without its query
      and fragment, or "" when the URL does not have that form. */
  function ExtractPageName(url: string): (r: string)
    ensures r != [] ==> Contains(url, WikipediaDomain)
    ensures r != [] ==> StartsWith(url, HttpsPrefix + r) || StartsWith(url, HttpPrefix + r)
    ensures '#' !in r && '?' !in r && '\n' !in r
  {
    if url == [] || !Contains(url, WikipediaDomain) then []
    else ExtractWikipediaPageFromUrl(url)
  }

  lemma PrefixContains(url: string, pre: string, w: string, k: nat)
    requires StartsWith(url, pre) && OccursAt(pre, w, k)
    ensures Contains(url, w)
  {
    assert url[k..k + |w|] == pre[k..k + |w|];
    ContainsAt(url, w, k);
  }

  lemma DomainInPrefixes()
    ensures OccursAt(HttpsPrefix, WikipediaDomain, 11) && OccursAt(HttpPrefix, WikipediaDomain, 10)
  {
    DomainInHttps();
    DomainInHttp();
  }

  lemma DomainInHttps()
    ensures OccursAt(HttpsPrefix, WikipediaDomain, 11)
  {
    assert HttpsPrefix[11..24] == WikipediaDomain;
  }

  lemma DomainInHttp()
    ensures OccursAt(HttpPrefix, WikipediaDomain, 10)
  {
    assert HttpPrefix[10..23] == WikipediaDomain;
  }

  /** The `wikipedia.org` guard is redundant: the processor extracts the same page name as
      the URL-mapping helper, for every URL. */
  lemma ExtractPageNameAgrees(url: string)
    ensures ExtractPageName(url) == ExtractWikipediaPageFromUrl(url)
  {
    var p := ExtractWikipediaPageFromUrl(url);
    if p != [] {
      DomainInPrefixes();
      if StartsWith(url, HttpsPrefix + p) {
        StartsWithTrans(url, HttpsPrefix + p, HttpsPrefix);
        PrefixContains(url, HttpsPrefix, WikipediaDomain, 11);
      } else {
        StartsWithTrans(url, HttpPrefix + p, HttpPrefix);
        PrefixContains(url, HttpPrefix, WikipediaDomain, 10);
      }
    }
  }

  /** The processor's `saved_dir`. */
  const SavedDir: string := "saved_site"

  /** `get_local_path`: `saved_dir / "en.wikipedia.org" / "wiki" / f"{unquote(name)}.html"`. */
  function GetLocalPath(pageName: string): (r: string)
    ensures EndsWith(r, ".html")
  {
    var dir := JoinPath(JoinPath(SavedDir, "en.wikipedia.org"), "wiki");
    var path := JoinPath(dir, Unquote(pageName) + ".html");
    assert path[|path| - 5..] == ".html";
    path
  }

  /** The processor stores a page exactly where the server looks for it. */
  lemma GetLocalPathAgrees(pageName: string)
    ensures GetLocalPath(pageName) == LocalUrlToFilePath(pageName)
  {
    assert JoinPath(SavedDir, "en.wikipedia.org") == SavedDir + "/" + "en.wikipedia.org";
    assert JoinPath(JoinPath(SavedDir, "en.wikipedia.org"), "wiki") == SavedPagesDir;
  }

  /** `download_page`: false for a URL without a page name, true when the page is already
      saved, and otherwise whatever the download reports. */
  function DownloadPage(url: string, saved: string -> bool, fetch: string -> bool): (ok: bool)
    ensures ExtractPageName(url) == [] ==> !ok
    ensures ExtractPageName(url) != [] && saved(GetLocalPath(ExtractPageName(url))) ==> ok
    ensures ExtractPageName(url) != [] && !saved(GetLocalPath(ExtractPageName(url))) ==> ok == fetch(url)
  {
    var name := ExtractPageName(url);
    if name == [] then false
    else if saved(GetLocalPath(name)) then true
    else fetch(url)
  }

  // ---------------------------------------------------------------------------
  // The replacement template of `re.sub`

  /** The character of a one-letter escape in a replacement template, if it is one. */
  function EscapeChar(c: char): Option<char> {
    if c == 'a' then Some('\U{7}')
    else if c == 'b' then Some('\U{8}')
    else if c == 'f' then Some('\U{C}')
    else if c == 'n' then Some('\n')
    else if c == 'r' then Some('\r')
    else if c == 't' then Some('\t')
    else if c == 'v' then Some('\U{B}')
    else if c == '\\' then Some('\\')
    else None
  }

  predicate IsOctDigit(c: char) { '0' <= c <= '7' }

  function OctValue(c: char): (v: nat)
    requires IsOctDigit(c)
    ensures v < 8
  {
    (c as int) - ('0' as int)
  }

  predicate IsAsciiLetter(c: char) { 'a' <= c <= 'z' || 'A' <= c <= 'Z' }

  function Prepend(p: string, o: Option<string>): (r: Option<string>)
    ensures r.Some? <==> o.Some?
    ensures r.Some? ==> r.value == p + o.value
  {
    match o
    case None => None
    case Some(x) => Some(p + x)
  }

  /** The end of the run of `0` characters in `t` from `j` on. */
  function ZeroRunEnd(t: string, j: nat): (k: nat)
    requires j <= |t|
    ensures j <= k <= |t| && (k < |t| ==> t[k] != '0')
    ensures forall i :: j <= i < k ==> t[i] == '0'
    decreases |t| - j
  {
    if j < |t| && t[j] == '0' then ZeroRunEnd(t, j + 1) else j
  }

  /** For a template `t` starting with `\g`: where the reference ends when it names group 0
      (`\g<0>`, `\g<00>`, ...), the only group a pattern without groups has; None for any
      other name, an empty one or a missing `<` or `>`, all of which make `re.sub` raise. */
  function GroupZeroRef(t: string): (r: Option<nat>)
    requires |t| >= 2
    ensures r.Some? <==> |t| > 4 && t[2] == '<' && ZeroRunEnd(t, 3) > 3
                         && ZeroRunEnd(t, 3) < |t| && t[ZeroRunEnd(t, 3)] == '>'
    ensures r.Some? ==> 4 < r.value <= |t| && t[r.value - 1] == '>'
                        && forall i :: 3 <= i < r.value - 1 ==> t[i] == '0'
  {
    if |t| > 2 && t[2] == '<' then
      var k := ZeroRunEnd(t, 3);
      if 3 < k < |t| && t[k] == '>' then Some(k + 1) else None
    else None
  }

  /** The text `re.sub` inserts for a replacement string `t` when the pattern has no groups
      and the match is `m`, or None when `re.sub` raises: backslash escapes are expanded,
      octal escapes give their character, a reference to group 0 (`\g<0>`) gives the match,
      any other group reference or an unknown escape of an ASCII letter is an error, and any
      other escaped character is kept with its backslash. */
  function ExpandTemplate(t: string, m: string): (r: Option<string>)
    ensures '\\' !in t ==> r == Some(t)
    decreases |t|
  {
    if t == [] then Some([])
    else if t[0] != '\\' then
      assert t == [t[0]] + t[1..];
      Prepend([t[0]], ExpandTemplate(t[1..], m))
    else if |t| == 1 then None
    else
      var c := t[1];
      if EscapeChar(c).Some? then Prepend([EscapeChar(c).value], ExpandTemplate(t[2..], m))
      else if c == '0' then
        if |t| > 2 && IsOctDigit(t[2]) then
          if |t| > 3 && IsOctDigit(t[3]) then
            Prepend([(OctValue(t[2]) * 8 + OctValue(t[3])) as char], ExpandTemplate(t[4..], m))
          else Prepend([OctValue(t[2]) as char], ExpandTemplate(t[3..], m))
        else Prepend(['\0'], ExpandTemplate(t[2..], m))
      else if '1' <= c <= '9' then
        if |t| > 3 && IsOctDigit(c) && IsOctDigit(t[2]) && IsOctDigit(t[3]) then
          var v := OctValue(c) * 64 + OctValue(t[2]) * 8 + OctValue(t[3]);
          if v > 255 then None else Prepend([v as char], ExpandTemplate(t[4..], m))
        else None
      else if c == 'g' then
        match GroupZeroRef(t)
        case Some(k) => Prepend(m, ExpandTemplate(t[k..], m))
        case None => None
      else if IsAsciiLetter(c) then None
      else Prepend(['\\', c], ExpandTemplate(t[2..], m))
  }

  /** The template is checked before any match is known: whether `re.sub` raises does not
      depend on the match. */
  lemma {:induction false} RaisesWhateverMatch(t: string, m: string, m': string)
    ensures ExpandTemplate(t, m).None? <==> ExpandTemplate(t, m').None?
    decreases |t|
  {
    if t == [] {
    } else if t[0] != '\\' {
      RaisesWhateverMatch(t[1..], m, m');
    } else if |t| > 1 {
      var c := t[1];
      if EscapeChar(c).Some? || (c == '0' && !(|t| > 2 && IsOctDigit(t[2]))) || (c != '0' && !('1' <= c <= '9') && c != 'g' && !IsAsciiLetter(c)) {
        RaisesWhateverMatch(t[2..], m, m');
      } else if c == '0' {
        if |t| > 3 && IsOctDigit(t[3]) { RaisesWhateverMatch(t[4..], m, m'); }
        else { RaisesWhateverMatch(t[3..], m, m'); }
      } else if '1' <= c <= '9' {
        if |t| > 3 { RaisesWhateverMatch(t[4..], m, m'); }
      } else if c == 'g' {
        match GroupZeroRef(t)
        case Some(k) => RaisesWhateverMatch(t[k..], m, m');
        case None =>
      }
    }
  }

  lemma ExpandPlainHead(s: string, m: string)
    requires s != [] && s[0] != '\\'
    ensures ExpandTemplate(s, m) == Prepend([s[0]], ExpandTemplate(s[1..], m))
  {
  }

  lemma PrependTwice(a: string, b: string, o: Option<string>)
    ensures Prepend(a, Prepend(b, o)) == Prepend(a + b, o)
  {
    if o.Some? {
      assert a + (b + o.value) == (a + b) + o.value;
    }
  }

  /** The first character of a backslash-free prefix, and the rest. */
  lemma PlainSplit(p: string, t: string)
    requires '\\' !in p && p != []
    ensures (p + t)[0] == p[0] != '\\'
    ensures (p + t)[1..] == p[1..] + t
    ensures '\\' !in p[1..]
    ensures [p[0]] + p[1..] == p
  {
    assert p[0] in p;
    forall k | 0 <= k < |p[1..]| ensures p[1..][k] != '\\' { assert p[1..][k] == p[k + 1]; }
  }

  /** A backslash-free prefix is copied as it is. */
  lemma {:induction false} ExpandPlainPrefix(p: string, t: string, m: string)
    requires '\\' !in p
    ensures ExpandTemplate(p + t, m) == Prepend(p, ExpandTemplate(t, m))
  {
    if p == [] {
      assert p + t == t;
      match ExpandTemplate(t, m)
      case None =>
      case Some(x) => assert p + x == x;
    } else {
      PlainSplit(p, t);
      ExpandPlainHead(p + t, m);
      ExpandPlainPrefix(p[1..], t, m);
      PrependTwice([p[0]], p[1..], ExpandTemplate(t, m));
    }
  }

  // ---------------------------------------------------------------------------
  // Highlighting one occurrence

  const HighlightClass: string := "wikifix-highlight"
  const SpanHead: string := "<span class=\""
  const SpanTail: string := "\" id=\"highlighted-text\">"
  const SpanClose: string := "</span>"
  const HeadTag: string := "<head>"

  /** The element wrapped around the highlighted text. */
  function Span(t: string): string { SpanHead + HighlightClass + SpanTail + t + SpanClose }

  lemma ContainsItself(b: string)
    ensures Contains(b, b)
  {
    assert b[0..|b|] == b;
    ContainsAt(b, b, 0);
  }

  lemma SpanHasClass(t: string)
    ensures Contains(Span(t), HighlightClass)
  {
    ContainsItself(HighlightClass);
    ContainsInConcat(SpanHead, HighlightClass, SpanTail + t + SpanClose, HighlightClass);
    assert Span(t) == SpanHead + HighlightClass + (SpanTail + t + SpanClose);
  }

  /** `re.sub(pattern, rep, html, count=1)` for the pattern built from `text`: the leftmost
      match, if any, is replaced by `rep`. */
  function SubstituteFirst(html: string, text: string, rep: string): (r: string)
    ensures Search(html, text).None? ==> r == html
  {
    match Search(html, text)
    case None => html
    case Some((b, e)) => html[..b] + rep + html[e..]
  }

  /** The replaced stretch is the leftmost match of the pattern. */
  lemma SubstituteFirstAt(html: string, text: string, rep: string)
    requires Search(html, text).Some?
    ensures var (b, e) := Search(html, text).value;
      b <= e <= |html| && Agrees(html[b..e], text)
      && SubstituteFirst(html, text, rep) == html[..b] + rep + html[e..]
      && forall b': nat, e': nat :: b' <= e' <= |html| && Agrees(html[b'..e'], text) ==> b <= b'
  {
    var (b, e) := Search(html, text).value;
    forall b': nat, e': nat | b' <= e' <= |html| && Agrees(html[b'..e'], text)
      ensures b <= b'
    {
      SearchLeftmost(html, text, 0, b', e');
    }
  }

  /** There is no match exactly when the pattern agrees with no stretch of the page. */
  lemma NoMatchIff(html: string, text: string)
    ensures Search(html, text).None? <==>
      forall b: nat, e: nat :: b <= e <= |html| ==> !Agrees(html[b..e], text)
  {
    if Search(html, text).None? {
      forall b: nat, e: nat | b <= e <= |html|
        ensures !Agrees(html[b..e], text)
      {
        if Agrees(html[b..e], text) {
          SearchLeftmost(html, text, 0, b, e);
        }
      }
    }
  }

  /** The style/script block goes right after the first `<head>`, or in front of the page. */
  function InsertCss(h: string, css: string): (r: string)
    ensures |r| == |h| + |css|
  {
    if Contains(h, HeadTag) then
      ReplaceFirstAfter(h, HeadTag, css);
      ReplaceFirst(h, HeadTag, HeadTag + css)
    else css + h
  }

  lemma InsertCssAt(h: string, css: string)
    ensures Contains(h, HeadTag) ==>
      var p := IndexOfFrom(h, HeadTag, 0).value + |HeadTag|;
      p <= |h| && InsertCss(h, css) == h[..p] + css + h[p..]
    ensures !Contains(h, HeadTag) ==> InsertCss(h, css) == css + h
  {
    if Contains(h, HeadTag) {
      ReplaceFirstAfter(h, HeadTag, css);
    }
  }

  lemma OccurrenceChar(h: string, w: string, k: nat, j: nat)
    requires OccursAt(h, w, k) && k <= j < k + |w|
    ensures h[j] == w[j - k]
  {
    assert h[k..k + |w|][j - k] == h[j];
  }

  /** Inserting after a character that does not occur in `w` keeps an occurrence of `w`. */
  lemma SpliceKeeps(h: string, x: string, p: nat, w: string)
    requires 0 < p <= |h| && Contains(h, w)
    requires forall j :: 0 <= j < |w| ==> w[j] != h[p - 1]
    ensures Contains(h[..p] + x + h[p..], w)
  {
    var k := IndexOfFrom(h, w, 0).value;
    var n := h[..p] + x + h[p..];
    if k + |w| <= p {
      assert n[k..k + |w|] == h[k..k + |w|];
      ContainsAt(n, w, k);
    } else {
      assert p <= k by {
        if k < p { OccurrenceChar(h, w, k, p - 1); }
      }
      assert n[k + |x|..k + |x| + |w|] == h[k..k + |w|];
      ContainsAt(n, w, k + |x|);
    }
  }

  /** The style block never breaks up an occurrence of a word without `>`. */
  lemma InsertCssKeeps(h: string, css: string, w: string)
    requires Contains(h, w)
    requires forall j :: 0 <= j < |w| ==> w[j] != '>'
    ensures Contains(InsertCss(h, css), w)
  {
    InsertCssAt(h, css);
    if Contains(h, HeadTag) {
      var i := IndexOfFrom(h, HeadTag, 0).value;
      HeadTagEnds(h, i);
      SpliceKeeps(h, css, i + |HeadTag|, w);
    } else {
      ContainsInConcat(css, h, [], w);
      assert css + h + [] == css + h;
    }
  }

  /** An occurrence of `<head>` ends with `>`. */
  lemma HeadTagEnds(h: string, i: nat)
    requires OccursAt(h, HeadTag, i)
    ensures h[i + |HeadTag| - 1] == '>'
  {
    var p := i + |HeadTag|;
    assert h[i..p] == HeadTag;
    assert h[i..p][5] == h[p - 1];
  }

  /** `highlight_text_in_html`, with the text inserted verbatim into the span: the page and
      whether it now carries the highlight class. */
  function HighlightTextInHtml(html: string, text: string, css: string): (r: (string, bool))
    ensures text == [] || html == [] ==> r == (html, false)
  {
    if text == [] || html == [] then (html, false)
    else
      var highlighted := SubstituteFirst(html, text, Span(text));
      var success := Contains(highlighted, HighlightClass);
      if success then (InsertCss(highlighted, css), true) else (highlighted, false)
  }

  /** A match is replaced by the span holding the text itself, which reports success. */
  lemma HighlightFound(html: string, text: string, css: string)
    requires text != [] && html != [] && Search(html, text).Some?
    ensures var (b, e) := Search(html, text).value;
      b <= e <= |html| && Agrees(html[b..e], text)
      && HighlightTextInHtml(html, text, css) == (InsertCss(html[..b] + Span(text) + html[e..], css), true)
  {
    SubstituteFirstAt(html, text, Span(text));
    var (b, e) := Search(html, text).value;
    SpanHasClass(text);
    ContainsInConcat(html[..b], Span(text), html[e..], HighlightClass);
  }

  /** Success means the class is on the page afterwards: a match, or a page that had it. */
  lemma HighlightSuccessIff(html: string, text: string, css: string)
    ensures HighlightTextInHtml(html, text, css).1 <==>
      text != [] && html != []
      && ((exists b: nat, e: nat :: b <= e <= |html| && Agrees(html[b..e], text)) || Contains(html, HighlightClass))
  {
    if text != [] && html != [] {
      NoMatchIff(html, text);
      if Search(html, text).Some? {
        HighlightFound(html, text, css);
        var (b, e) := Search(html, text).value;
        assert b <= e <= |html| && Agrees(html[b..e], text);
      }
    }
  }

  lemma ClassHasNoAngle()
    ensures forall j :: 0 <= j < |HighlightClass| ==> HighlightClass[j] != '>'
  {
  }

  /** A page reported as highlighted carries the highlight class. */
  lemma HighlightedKeepsClass(html: string, text: string, css: string)
    ensures HighlightTextInHtml(html, text, css).1 ==> Contains(HighlightTextInHtml(html, text, css).0, HighlightClass)
  {
    if HighlightTextInHtml(html, text, css).1 {
      var h := SubstituteFirst(html, text, Span(text));
      ClassHasNoAngle();
      InsertCssKeeps(h, css, HighlightClass);
    }
  }

  /** On failure the page is returned as the substitution left it, which is the input page. */
  lemma HighlightFailure(html: string, text: string, css: string)
    requires !HighlightTextInHtml(html, text, css).1
    ensures HighlightTextInHtml(html, text, css).0 == html
    ensures text != [] && html != [] ==> HighlightTextInHtml(html, text, css).0 == SubstituteFirst(html, text, Span(text))
    ensures !Contains(html, HighlightClass) || text == [] || html == []
  {
    if text != [] && html != [] && Search(html, text).Some? {
      HighlightFound(html, text, css);
    }
  }

  /** The stretch of the page the pattern matches first, or nothing without a match. */
  function MatchedText(html: string, text: string): (m: string)
    ensures Search(html, text).Some? ==> m == html[Search(html, text).value.0..Search(html, text).value.1]
  {
    match Search(html, text)
    case None => []
    case Some((b, e)) => html[b..e]
  }

  /** `highlight_text_in_html` as written: the span is handed to `re.sub` as a replacement
      template, so backslash escapes in the text are expanded, `\g<0>` becomes the matched
      stretch of the page, and an invalid escape makes `re.sub` raise (None). */
  function HighlightTextInHtmlAsWritten(html: string, text: string, css: string): (r: Option<(string, bool)>)
    ensures text == [] || html == [] ==> r == Some((html, false))
    ensures text != [] && html != [] ==>
      (r.None? <==> ExpandTemplate(Span(text), MatchedText(html, text)).None?)
  {
    if text == [] || html == [] then Some((html, false))
    else
      match ExpandTemplate(Span(text), MatchedText(html, text))
      case None => None
      case Some(rep) =>
        var highlighted := SubstituteFirst(html, text, rep);
        var success := Contains(highlighted, HighlightClass);
        Some(if success then (InsertCss(highlighted, css), true) else (highlighted, false))
  }

  lemma SpanPartsPlain()
    ensures '\\' !in SpanHead + HighlightClass + SpanTail && '\\' !in SpanClose
  {
  }

  /** Without a backslash in the text, the two agree. */
  lemma AsWrittenAgrees(html: string, text: string, css: string)
    requires '\\' !in text
    ensures HighlightTextInHtmlAsWritten(html, text, css) == Some(HighlightTextInHtml(html, text, css))
  {
    SpanPartsPlain();
    ExpandPlainPrefix(SpanHead + HighlightClass + SpanTail + text, SpanClose, MatchedText(html, text));
  }

  /** An escape of an ASCII letter that is not one of `\a \b \f \n \r \t \v` and not a
      `\g` group reference (say `\d`, from a Windows path or a formula) makes the template
      invalid. */
  lemma BadEscape(t: string, m: string)
    requires |t| >= 2 && t[0] == '\\' && IsAsciiLetter(t[1]) && EscapeChar(t[1]).None? && t[1] != 'g'
    ensures ExpandTemplate(t, m).None?
  {
  }

  /** A text starting with such an escape makes `re.sub` raise, whatever the page. */
  lemma AsWrittenRaises(html: string, text: string, css: string)
    requires html != [] && |text| >= 2 && text[0] == '\\' && IsAsciiLetter(text[1])
    requires EscapeChar(text[1]).None? && text[1] != 'g'
    ensures HighlightTextInHtmlAsWritten(html, text, css).None?
  {
    SpanPartsPlain();
    var pre := SpanHead + HighlightClass + SpanTail;
    var t := text + SpanClose;
    assert Span(text) == pre + t;
    assert t[0] == text[0] && t[1] == text[1];
    BadEscape(t, MatchedText(html, text));
    ExpandPlainPrefix(pre, t, MatchedText(html, text));
  }

  /** A template that is a reference to group 0 followed by plain text expands to the
      match followed by that text. */
  lemma GroupZeroThenPlain(z: string, tail: string, m: string)
    requires |z| >= 5 && z[0] == '\\' && z[1] == 'g' && z[2] == '<' && z[|z| - 1] == '>'
    requires forall i :: 3 <= i < |z| - 1 ==> z[i] == '0'
    requires '\\' !in tail
    ensures ExpandTemplate(z + tail, m) == Some(m + tail)
  {
    var t := z + tail;
    assert t[..|z|] == z;
    var k := ZeroRunEnd(t, 3);
    assert t[|z| - 1] == '>';
    assert k == |z| - 1;
    assert GroupZeroRef(t) == Some(|z|);
    assert t[|z|..] == tail;
  }

  /** The text `\g<0>` is highlighted as written: the span holds the matched stretch of the
      page, so no error is raised. */
  lemma AsWrittenGroupZero(html: string, css: string)
    requires Search(html, GroupZeroText).Some?
    ensures var (b, e) := Search(html, GroupZeroText).value;
      b <= e <= |html|
      && HighlightTextInHtmlAsWritten(html, GroupZeroText, css)
         == Some((InsertCss(html[..b] + Span(html[b..e]) + html[e..], css), true))
  {
    var (b, e) := Search(html, GroupZeroText).value;
    assert html[b..e] != [];
    var m := html[b..e];
    SpanPartsPlain();
    var pre := SpanHead + HighlightClass + SpanTail;
    assert Span(GroupZeroText) == pre + (GroupZeroText + SpanClose);
    GroupZeroThenPlain(GroupZeroText, SpanClose, m);
    ExpandPlainPrefix(pre, GroupZeroText + SpanClose, m);
    assert pre + (m + SpanClose) == Span(m);
    SubstituteFirstAt(html, GroupZeroText, Span(m));
    SpanHasClass(m);
    ContainsInConcat(html[..b], Span(m), html[e..], HighlightClass);
  }

  /** The text of a group-0 reference. */
  const GroupZeroText: string := "\\g<0>"

  // ---------------------------------------------------------------------------
  // Processing one item

  /** The four fields of an item the processor needs. */
  datatype Item = Item(documentUrl: string, evidenceUrl: string, claimTextSpan: string, evidenceSentence: string)

  /** What `process_single_task` hands on: a side's page only when that side highlighted. */
  datatype Processed = Processed(item: Item, claimHtml: Option<string>, evidenceHtml: Option<string>,
                                 claimSuccess: bool, evidenceSuccess: bool)

  /** Read, rewrite and highlight one side; None when reading fails. */
  function ProcessSide(url: string, text: string, read: string -> Option<string>,
                       fixUrls: (string, string) -> string, css: string): (r: Option<(string, bool)>)
    ensures r.Some? <==> read(GetLocalPath(ExtractPageName(url))).Some?
    ensures r.Some? ==> r.value == HighlightTextInHtml(fixUrls(read(GetLocalPath(ExtractPageName(url))).value,
                                                             ExtractPageName(url)), text, css)
    ensures r.Some? && r.value.1 ==> Contains(r.value.0, HighlightClass)
  {
    var page := ExtractPageName(url);
    match read(GetLocalPath(page))
    case None => None
    case Some(raw) =>
      var h := HighlightTextInHtml(fixUrls(raw, page), text, css);
      HighlightedKeepsClass(fixUrls(raw, page), text, css);
      Some(h)
  }

  /** `process_single_task`: None when a field is missing, a download fails, a saved page
      cannot be read, or neither side highlighted. */
  function ProcessSingleTask(item: Item, saved: string -> bool, fetch: string -> bool,
                             read: string -> Option<string>, fixUrls: (string, string) -> string,
                             css: string): (r: Option<Processed>)
    ensures r.Some? ==> item.documentUrl != [] && item.evidenceUrl != []
                        && item.claimTextSpan != [] && item.evidenceSentence != []
    ensures r.Some? ==> DownloadPage(item.documentUrl, saved, fetch) && DownloadPage(item.evidenceUrl, saved, fetch)
    ensures r.Some? ==> r.value.item == item && (r.value.claimSuccess || r.value.evidenceSuccess)
    ensures r.Some? ==> (r.value.claimHtml.Some? <==> r.value.claimSuccess)
                        && (r.value.evidenceHtml.Some? <==> r.value.evidenceSuccess)
    ensures r.Some? && r.value.claimHtml.Some? ==> Contains(r.value.claimHtml.value, HighlightClass)
    ensures r.Some? && r.value.evidenceHtml.Some? ==> Contains(r.value.evidenceHtml.value, HighlightClass)
    // the pages kept are the highlighted pages of the two sides
    ensures r.Some? ==> ProcessSide(item.documentUrl, item.claimTextSpan, read, fixUrls, css).Some?
                        && ProcessSide(item.evidenceUrl, item.evidenceSentence, read, fixUrls, css).Some?
    ensures r.Some? ==>
      var claim := ProcessSide(item.documentUrl, item.claimTextSpan, read, fixUrls, css).value;
      var evidence := ProcessSide(item.evidenceUrl, item.evidenceSentence, read, fixUrls, css).value;
      r.value.claimSuccess == claim.1 && r.value.evidenceSuccess == evidence.1
      && (claim.1 ==> r.value.claimHtml == Some(claim.0))
      && (evidence.1 ==> r.value.evidenceHtml == Some(evidence.0))
    // and the converse: with every field present, both downloads done, both pages readable
    // and one side highlighted, the item is processed
    ensures item.documentUrl != [] && item.evidenceUrl != [] && item.claimTextSpan != [] && item.evidenceSentence != []
            && DownloadPage(item.documentUrl, saved, fetch) && DownloadPage(item.evidenceUrl, saved, fetch)
            && read(GetLocalPath(ExtractPageName(item.documentUrl))).Some?
            && read(GetLocalPath(ExtractPageName(item.evidenceUrl))).Some?
            && (ProcessSide(item.documentUrl, item.claimTextSpan, read, fixUrls, css).value.1
                || ProcessSide(item.evidenceUrl, item.evidenceSentence, read, fixUrls, css).value.1)
            ==> r.Some?
  {
    if item.documentUrl == [] || item.evidenceUrl == [] || item.claimTextSpan == [] || item.evidenceSentence == [] then None
    else if !DownloadPage(item.documentUrl, saved, fetch) || !DownloadPage(item.evidenceUrl, saved, fetch) then None
    else
      match ProcessSide(item.documentUrl, item.claimTextSpan, read, fixUrls, css)
      case None => None
      case Some((claimPage, claimOk)) =>
        match ProcessSide(item.evidenceUrl, item.evidenceSentence, read, fixUrls, css)
        case None => None
        case Some((evidencePage, evidenceOk)) =>
          if !(claimOk || evidenceOk) then None
          else Some(Processed(item, if claimOk then Some(claimPage) else None,
                              if evidenceOk then Some(evidencePage) else None, claimOk, evidenceOk))
  }
}
