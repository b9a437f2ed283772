/** Mapping English Wikipedia URLs to the locally served copies of their pages, with the
    `highlight`/`context` query parameters and the original fragment carried along.
    Whether a saved page exists is a predicate on file paths handed in by the caller. */
module UrlMapping {
  import opened Text
  import opened PercentEncoding

  /** Where the locally saved pages are served. */
  const LocalWikipediaBase: string := "/api/wiki"

  /** The directory holding the saved pages. */
  const SavedPagesDir: string := "saved_site/en.wikipedia.org/wiki"

  const HttpsPrefix: string := "https://en.wikipedia.org/wiki/"
  const HttpPrefix: string := "http://en.wikipedia.org/wiki/"

  /** `url.split('#')[0].split('?')[0]`: the URL without its fragment and query. */
  function CutUrl(url: string): (r: string)
    ensures StartsWith(url, r) && '#' !in r && '?' !in r
    ensures '#' !in url && '?' !in url ==> r == url
  {
    var a := BeforeFirst(url, '#');
    var b := BeforeFirst(a, '?');
    assert forall k :: 0 <= k < |b| ==> b[k] == a[k] == url[k];
    assert '#' !in b by {
      forall k | 0 <= k < |b| ensures b[k] != '#' { assert a[k] in a; }
    }
    b
  }

  /** Group 1 of the match when `u` starts with `pre`: `.` stops at a newline, so the group is
      the longest newline-free run after the prefix, and the match fails if that is empty. */
  function PageAfter(u: string, pre: string): (r: Option<string>)
    ensures r.Some? ==> r.value != [] && '\n' !in r.value
  {
    if StartsWith(u, pre) then
      var g := BeforeFirst(u[|pre|..], '\n');
      if g == [] then None else Some(g)
    else None
  }

  /** `re.match(r'https?://en\.wikipedia\.org/wiki/(.+)', u)` and its group 1. */
  function MatchWikiPage(u: string): Option<string> {
    if StartsWith(u, HttpsPrefix) then PageAfter(u, HttpsPrefix) else PageAfter(u, HttpPrefix)
  }

  /** A URL of an English Wikipedia page: a prefix, then at least one character that is not a
      newline. */
  predicate IsWikiPageUrl(u: string) {
    (StartsWith(u, HttpsPrefix) && |HttpsPrefix| < |u| && u[|HttpsPrefix|] != '\n')
    || (StartsWith(u, HttpPrefix) && |HttpPrefix| < |u| && u[|HttpPrefix|] != '\n')
  }

  /** The group is a slice of `u` right after the prefix. */
  lemma PageAfterSlice(u: string, pre: string)
    requires PageAfter(u, pre).Some?
    ensures StartsWith(u, pre + PageAfter(u, pre).value)
  {
    var p := PageAfter(u, pre).value;
    var t := u[|pre|..];
    assert t[..|p|] == p;
    assert u[..|pre| + |p|] == pre + p;
  }

  lemma PageAfterIff(u: string, pre: string)
    ensures PageAfter(u, pre).Some? <==> StartsWith(u, pre) && |pre| < |u| && u[|pre|] != '\n'
  {
    if StartsWith(u, pre) {
      var t := u[|pre|..];
      if t != [] && t[0] != '\n' {
        assert FindFrom(t, '\n', 0) != Some(0);
      }
    }
  }

  /** Lower-case letters, `:`, `/` and `.` only. */
  predicate IsPlainUrl(s: string) {
    forall k :: 0 <= k < |s| ==> s[k] == '/' || s[k] == ':' || s[k] == '.' || 'a' <= s[k] <= 'z'
  }

  lemma PrefixesPlain()
    ensures IsPlainUrl(HttpsPrefix) && IsPlainUrl(HttpPrefix) && IsPlainUrl(LocalWikipediaBase)
  {
  }

  lemma PlainHasNoDelimiters(s: string)
    requires IsPlainUrl(s)
    ensures '#' !in s && '?' !in s && '\n' !in s
  {
  }

  lemma PrefixChars()
    ensures '#' !in HttpsPrefix && '?' !in HttpsPrefix && '\n' !in HttpsPrefix
    ensures '#' !in HttpPrefix && '?' !in HttpPrefix && '\n' !in HttpPrefix
    ensures '#' !in LocalWikipediaBase && '?' !in LocalWikipediaBase
  {
    PrefixesPlain();
    PlainHasNoDelimiters(HttpsPrefix);
    PlainHasNoDelimiters(HttpPrefix);
    PlainHasNoDelimiters(LocalWikipediaBase);
  }

  /** No URL starts with both prefixes: they differ at index 4. */
  lemma PrefixesDiffer(u: string)
    ensures StartsWith(u, HttpsPrefix) ==> !StartsWith(u, HttpPrefix)
  {
    if StartsWith(u, HttpsPrefix) {
      assert u[4] == HttpsPrefix[4] == 's';
    }
  }

  lemma StartsWithTrans(a: string, b: string, c: string)
    requires StartsWith(a, b) && StartsWith(b, c)
    ensures StartsWith(a, c)
  {
    assert a[..|c|] == b[..|c|];
  }

  lemma NotInPrefix(a: string, b: string, c: char)
    requires StartsWith(a, b) && c !in a
    ensures c !in b
  {
    forall k | 0 <= k < |b| ensures b[k] != c {
      assert b[k] == a[k];
    }
  }

  /** `extract_wikipedia_page_from_url`: the page name, or "" when there is none. */
  function ExtractWikipediaPageFromUrl(url: string): (r: string)
    ensures r != [] <==> url != [] && IsWikiPageUrl(CutUrl(url))
    ensures '#' !in r && '?' !in r && '\n' !in r
    ensures r != [] ==> StartsWith(url, HttpsPrefix + r) || StartsWith(url, HttpPrefix + r)
  {
    if url == [] then []
    else
      var u := CutUrl(url);
      PageAfterIff(u, HttpsPrefix);
      PageAfterIff(u, HttpPrefix);
      PrefixesDiffer(u);
      match MatchWikiPage(u)
      case None => []
      case Some(p) =>
        var pre := if StartsWith(u, HttpsPrefix) then HttpsPrefix else HttpPrefix;
        PageAfterSlice(u, pre);
        StartsWithTrans(url, u, pre + p);
        NotInPrefix(u, pre + p, '#');
        NotInPrefix(u, pre + p, '?');
        assert p == (pre + p)[|pre|..];
        p
  }

  /** Extracting from the URL of page `p` behind either prefix, with or without a query or
      fragment, gives `p`. */
  lemma ExtractPage(p: string, tail: string, secure: bool)
    requires p != [] && '#' !in p && '?' !in p && '\n' !in p
    requires tail == [] || tail[0] == '#' || tail[0] == '?'
    ensures ExtractWikipediaPageFromUrl((if secure then HttpsPrefix else HttpPrefix) + p + tail) == p
  {
    var pre := if secure then HttpsPrefix else HttpPrefix;
    PrefixChars();
    var u := pre + p;
    assert '#' !in u && '?' !in u;
    CutAt(u, tail);
    assert u[..|pre|] == pre;
    PrefixesDiffer(u);
    PageAfterOf(pre, p);
    assert MatchWikiPage(u) == Some(p);
  }

  lemma PageAfterOf(pre: string, p: string)
    requires p != [] && '\n' !in p
    ensures PageAfter(pre + p, pre) == Some(p)
  {
    assert (pre + p)[..|pre|] == pre;
    assert (pre + p)[|pre|..] == p;
    FindNone(p, '\n');
  }

  /** Cutting a URL whose fragment or query starts at `tail` leaves the part before it. */
  lemma CutAt(head: string, tail: string)
    requires '#' !in head && '?' !in head
    requires tail == [] || tail[0] == '#' || tail[0] == '?'
    ensures CutUrl(head + tail) == head
  {
    var url := head + tail;
    assert url[..|head|] == head;
    if tail == [] {
      assert url == head;
    } else if tail[0] == '#' {
      FindFirstAt(url, '#', |head|);
      FindNone(head, '?');
    } else {
      var a := BeforeFirst(url, '#');
      assert StartsWith(a, head) && |head| < |a| && a[|head|] == '?' by {
        match FindFrom(url, '#', 0)
        case None =>
        case Some(k) =>
          assert url[|head|] != '#';
          assert |head| < k;
      }
      assert a[..|head|] == head;
      FindFirstAt(a, '?', |head|);
    }
  }

  /** `Path(dir) / name`: joining an absolute name replaces the directory. */
  function JoinPath(dir: string, name: string): (r: string)
    ensures name != [] && name[0] == '/' ==> r == name
    ensures name == [] || name[0] != '/' ==> r == dir + "/" + name
  {
    if name != [] && name[0] == '/' then name else dir + "/" + name
  }

  /** `local_url_to_file_path`: the saved page of a (percent-encoded) page name. A name that
      decodes to an absolute path escapes the saved-pages directory, as in `pathlib`. */
  function LocalUrlToFilePath(pageName: string): (r: string)
    ensures EndsWith(r, ".html")
  {
    var path := JoinPath(SavedPagesDir, Unquote(pageName) + ".html");
    assert path[|path| - 5..] == ".html";
    path
  }

  /** The file of a name is the decoded name under the saved-pages directory, unless it
      decodes to an absolute path. */
  lemma FilePathOf(name: string)
    ensures Unquote(name) == [] || Unquote(name)[0] != '/' ==>
      LocalUrlToFilePath(name) == SavedPagesDir + "/" + Unquote(name) + ".html"
    ensures Unquote(name) != [] && Unquote(name)[0] == '/' ==> LocalUrlToFilePath(name) == Unquote(name) + ".html"
  {
    var d := Unquote(name);
    if d != [] {
      assert (d + ".html")[0] == d[0];
    }
  }

  /** The saved page of a quoted name is stored under the name itself. */
  lemma FilePathOfQuoted(name: string)
    requires name == [] || name[0] != '/'
    ensures LocalUrlToFilePath(Quote(name)) == SavedPagesDir + "/" + name + ".html"
  {
    UnquoteQuote(name);
    FilePathOf(Quote(name));
  }

  /** A name without `%` is used as it is. */
  lemma FilePathOfPlain(name: string)
    requires '%' !in name && (name == [] || name[0] != '/')
    ensures LocalUrlToFilePath(name) == SavedPagesDir + "/" + name + ".html"
  {
    FilePathOf(name);
  }

  /** `local_file_exists`: an empty name has no saved page. */
  predicate LocalFileExists(pageName: string, saved: string -> bool) {
    pageName != [] && saved(LocalUrlToFilePath(pageName))
  }

  /** `wikipedia_url_exists_locally`. */
  predicate WikipediaUrlExistsLocally(url: string, saved: string -> bool)
    ensures WikipediaUrlExistsLocally(url, saved) ==>
      var page := ExtractWikipediaPageFromUrl(url);
      page != [] && saved(LocalUrlToFilePath(page))
      && (StartsWith(url, HttpsPrefix + page) || StartsWith(url, HttpPrefix + page))
  {
    var page := ExtractWikipediaPageFromUrl(url);
    page != [] && LocalFileExists(page, saved)
  }

  /** The parameters `add_highlight_and_context_parameters` collects, highlight first. An
      absent argument and an empty one are alike falsy in Python and are both `[]` here. */
  function Params(text: string, context: string): (r: seq<string>)
    ensures |r| == (if text != [] then 1 else 0) + (if context != [] then 1 else 0)
    ensures forall k :: 0 <= k < |r| ==> '&' !in r[k] && '#' !in r[k]
  {
    QuoteHasNoDelimiters(text);
    QuoteHasNoDelimiters(context);
    ParamKeys();
    var h := "highlight=" + Quote(text);
    var c := "context=" + Quote(context);
    NotInConcat("highlight=", Quote(text));
    NotInConcat("context=", Quote(context));
    (if text != [] then [h] else []) + (if context != [] then [c] else [])
  }

  lemma ParamKeys()
    ensures '&' !in "highlight=" && '#' !in "highlight=" && '&' !in "context=" && '#' !in "context="
  {
  }

  lemma NotInConcat(a: string, b: string)
    requires '&' !in a && '#' !in a && '&' !in b && '#' !in b
    ensures '&' !in a + b && '#' !in a + b
  {
  }

  /** `add_highlight_and_context_parameters`: the URL is kept as it is when there is nothing
      to add; otherwise the parameters follow it after `&` when it has a query, after `?`
      when it has none. */
  function AddHighlightAndContextParameters(localUrl: string, text: string, context: string): (r: string)
    ensures text == [] && context == [] ==> r == localUrl
    ensures text != [] || context != [] ==>
      |localUrl| < |r| && r[..|localUrl|] == localUrl
      && r[|localUrl|] == (if '?' in localUrl then '&' else '?')
  {
    if text == [] && context == [] then localUrl
    else
      var separator := if '?' in localUrl then '&' else '?';
      var r := localUrl + [separator] + Join(Params(text, context), '&');
      assert r[..|localUrl|] == localUrl;
      r
  }

  /** The query that was appended splits at `&` into the parameters, highlight first, and each
      value decodes back to the argument. */
  lemma {:induction false} AddedParameters(localUrl: string, text: string, context: string)
    requires text != [] || context != []
    ensures
      var q := Split(AddHighlightAndContextParameters(localUrl, text, context)[|localUrl| + 1..], '&');
      && |q| == (if text != [] then 1 else 0) + (if context != [] then 1 else 0)
      && (text != [] ==> q[0] == "highlight=" + Quote(text) && Unquote(q[0][10..]) == text)
      && (context != [] ==> q[|q| - 1] == "context=" + Quote(context) && Unquote(q[|q| - 1][8..]) == context)
  {
    var ps := Params(text, context);
    AddedQuery(localUrl, text, context);
    SplitJoin(ps, '&');
    ParamValues(text, context);
  }

  /** After the separator comes the join of the parameters. */
  lemma AddedQuery(localUrl: string, text: string, context: string)
    requires text != [] || context != []
    ensures AddHighlightAndContextParameters(localUrl, text, context)[|localUrl| + 1..]
            == Join(Params(text, context), '&')
  {
    var separator := if '?' in localUrl then '&' else '?';
    var r := localUrl + [separator] + Join(Params(text, context), '&');
    assert r[|localUrl| + 1..] == Join(Params(text, context), '&');
  }

  /** The parameters are `highlight=` and `context=` followed by the quoted values. */
  lemma ParamValues(text: string, context: string)
    ensures var ps := Params(text, context);
      && (text != [] ==> ps[0] == "highlight=" + Quote(text) && Unquote(ps[0][10..]) == text)
      && (context != [] ==> ps[|ps| - 1] == "context=" + Quote(context) && Unquote(ps[|ps| - 1][8..]) == context)
  {
    var ps := Params(text, context);
    UnquoteQuote(text);
    UnquoteQuote(context);
    if text != [] {
      assert ps[0] == "highlight=" + Quote(text);
      assert ps[0][10..] == Quote(text);
    }
    if context != [] {
      assert ps[|ps| - 1] == "context=" + Quote(context);
      assert ps[|ps| - 1][8..] == Quote(context);
    }
  }

  /** The appended parameters bring no `#`: the URL's fragment, if any, stays where it was. */
  lemma AddedNoFragment(localUrl: string, text: string, context: string)
    ensures '#' !in localUrl ==> '#' !in AddHighlightAndContextParameters(localUrl, text, context)
  {
    if text != [] || context != [] {
      var ps := Params(text, context);
      JoinAvoids(ps, '&', '#');
    }
  }

  /** A join holds `c` only where a part does (and `c` is not the separator). */
  lemma {:induction false} JoinAvoids(parts: seq<string>, sep: char, c: char)
    requires sep != c
    requires forall k :: 0 <= k < |parts| ==> c !in parts[k]
    ensures c !in Join(parts, sep)
    decreases |parts|
  {
    if |parts| > 1 {
      JoinAvoids(parts[1..], sep, c);
    }
  }

  /** The segment between the first and the second `#` of a URL: `url.split('#')[1]`. */
  function Fragment(url: string): (r: string)
    requires '#' in url
    ensures '#' !in r
  {
    Split(url, '#')[1]
  }

  /** `add_fragment_to_local_url`: the original URL's fragment is appended when it is
      non-empty and the local URL has none; otherwise the local URL is kept. */
  function AddFragmentToLocalUrl(localUrl: string, originalUrl: string): (r: string)
    ensures r == localUrl || ('#' !in localUrl && '#' in originalUrl
                              && r == localUrl + "#" + Fragment(originalUrl) && Fragment(originalUrl) != [])
    ensures '#' !in localUrl && '#' in originalUrl && Fragment(originalUrl) != [] ==> r != localUrl
  {
    if '#' in originalUrl then
      var fragment := Split(originalUrl, '#')[1];
      if fragment != [] && '#' !in localUrl then localUrl + "#" + fragment else localUrl
    else localUrl
  }

  /** A fragment carried over from `base#frag` is `frag` itself. */
  lemma FragmentOf(base: string, frag: string)
    requires '#' !in base && '#' !in frag
    ensures Fragment(base + "#" + frag) == frag
  {
    var url := base + "#" + frag;
    assert url[..|base|] == base;
    FindFirstAt(url, '#', |base|);
    assert url[|base| + 1..] == frag;
    FindNone(frag, '#');
  }

  /** `convert_url_if_local_exists`: a local URL only gets the parameters, a Wikipedia URL
      whose page is saved becomes the local URL of that page with the parameters, and
      anything else is returned unchanged. */
  function ConvertUrlIfLocalExists(url: string, text: string, context: string, saved: string -> bool): (r: string)
    ensures url == [] ==> r == url
    ensures url != [] && StartsWith(url, LocalWikipediaBase) ==>
      r == AddHighlightAndContextParameters(url, text, context)
    ensures url != [] && !StartsWith(url, LocalWikipediaBase) && WikipediaUrlExistsLocally(url, saved) ==>
      r == AddHighlightAndContextParameters(LocalWikipediaBase + "/" + ExtractWikipediaPageFromUrl(url), text, context)
    ensures !StartsWith(url, LocalWikipediaBase) && !WikipediaUrlExistsLocally(url, saved) ==> r == url
  {
    if url == [] then url
    else if StartsWith(url, LocalWikipediaBase) then
      if text != [] || context != [] then AddHighlightAndContextParameters(url, text, context) else url
    else if WikipediaUrlExistsLocally(url, saved) then
      var page := ExtractWikipediaPageFromUrl(url);
      var localUrl := LocalWikipediaBase + "/" + page;
      if text != [] || context != [] then AddHighlightAndContextParameters(localUrl, text, context) else localUrl
    else url
  }

  /** `convert_task_url_with_text_span`: the conversion above, then the fragment carried over. */
  function ConvertTaskUrlWithTextSpan(url: string, text: string, context: string, saved: string -> bool): (r: string)
    ensures url == [] ==> r == []
    ensures StartsWith(r, ConvertUrlIfLocalExists(url, text, context, saved))
    ensures url != [] ==> r == AddFragmentToLocalUrl(ConvertUrlIfLocalExists(url, text, context, saved), url)
    // the original fragment is carried over exactly when the converted URL has none of its own
    ensures url != [] && '#' in url && Fragment(url) != []
              && '#' !in ConvertUrlIfLocalExists(url, text, context, saved)
            ==> r == ConvertUrlIfLocalExists(url, text, context, saved) + "#" + Fragment(url)
    ensures url != [] && !('#' in url && Fragment(url) != []
                           && '#' !in ConvertUrlIfLocalExists(url, text, context, saved))
            ==> r == ConvertUrlIfLocalExists(url, text, context, saved)
  {
    if url == [] then url
    else
      var r := AddFragmentToLocalUrl(ConvertUrlIfLocalExists(url, text, context, saved), url);
      var c := ConvertUrlIfLocalExists(url, text, context, saved);
      assert r[..|c|] == c;
      r
  }

  /** A Wikipedia URL with a fragment whose page is saved becomes the local URL of the page,
      with the parameters, then the fragment. */
  lemma TaskUrlOfSavedPage(p: string, frag: string, text: string, context: string, saved: string -> bool)
    requires p != [] && '#' !in p && '?' !in p && '\n' !in p && '#' !in frag && frag != []
    requires saved(LocalUrlToFilePath(p))
    ensures ConvertTaskUrlWithTextSpan(HttpsPrefix + p + "#" + frag, text, context, saved)
         == AddHighlightAndContextParameters(LocalWikipediaBase + "/" + p, text, context) + "#" + frag
  {
    var base := HttpsPrefix + p;
    var url := base + "#" + frag;
    PrefixChars();
    assert '#' !in base;
    assert url == base + ("#" + frag);
    ExtractPage(p, "#" + frag, true);
    assert url[0] == HttpsPrefix[0] == 'h';
    SavedPageExists(url, p, saved);
    var localUrl := LocalWikipediaBase + "/" + p;
    assert '#' !in localUrl;
    AddedNoFragment(localUrl, text, context);
    FragmentOf(base, frag);
    assert '#' in url by { assert url[|base|] == '#'; }
  }

  lemma SavedPageExists(url: string, p: string, saved: string -> bool)
    requires ExtractWikipediaPageFromUrl(url) == p && p != [] && saved(LocalUrlToFilePath(p))
    requires url[0] == 'h'
    ensures WikipediaUrlExistsLocally(url, saved) && !StartsWith(url, LocalWikipediaBase)
  {
    assert LocalWikipediaBase[0] == '/';
  }

  /** A URL that is neither local nor a saved Wikipedia page comes back unchanged, fragment and all. */
  lemma TaskUrlUnavailable(url: string, text: string, context: string, saved: string -> bool)
    requires !StartsWith(url, LocalWikipediaBase) && !WikipediaUrlExistsLocally(url, saved)
    ensures ConvertTaskUrlWithTextSpan(url, text, context, saved) == url
  {
  }
}
