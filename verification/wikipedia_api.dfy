/** The deterministic parts of the page-serving API: text normalisation for matching, the
    early exits, exact stage and keyword stage of the best-match search, insertion of the
    highlight style/script block into `<head>`, the upload-image rewrite, and the request
    checks of the two file-serving endpoints. */
module WikipediaApi {
  import opened Text
  import opened PercentEncoding
  import opened UrlMapping
  import opened FlexPattern

  // ---------------------------------------------------------------------------
  // Removing markup

  const SupOpen: string := "<sup"
  const SupClose: string := "</sup>"

  /** End of a `<sup[^>]*>.*?</sup>` match at the start of `s`: the first `>` after `<sup`,
      then the first `</sup>` after that. */
  function SupEnd(s: string): (r: Option<nat>)
    requires StartsWith(s, SupOpen)
    ensures r.Some? ==> |SupOpen| < r.value <= |s|
  {
    match FindFrom(s, '>', |SupOpen|)
    case None => None
    case Some(gt) =>
      match IndexOfFrom(s, SupClose, gt + 1)
      case None => None
      case Some(c) => Some(c + |SupClose|)
  }

  /** `re.sub(r'<sup[^>]*>.*?</sup>', '', s, flags=re.DOTALL)`: footnote markers go. */
  function RemoveSups(s: string): (r: string)
    ensures |r| <= |s|
    ensures '<' !in s ==> r == s
    decreases |s|
  {
    if s == [] then []
    else if StartsWith(s, SupOpen) && SupEnd(s).Some? then
      assert s[0] == SupOpen[0] == '<';
      RemoveSups(s[SupEnd(s).value..])
    else [s[0]] + RemoveSups(s[1..])
  }

  /** `re.sub(r'\[[^\]]*\]', '', s)`: bracketed citations go, and afterwards no `[` has a
      `]` anywhere after it, so the pattern no longer matches. */
  function RemoveBrackets(s: string): (r: string)
    ensures |r| <= |s|
    ensures ']' !in s ==> r == s
    ensures forall i, j :: 0 <= i < j < |r| && r[i] == '[' ==> r[j] != ']'
    decreases |s|
  {
    if s == [] then []
    else if s[0] == '[' && FindFrom(s, ']', 1).Some? then RemoveBrackets(s[FindFrom(s, ']', 1).value + 1..])
    else [s[0]] + RemoveBrackets(s[1..])
  }

  /** `re.sub(r'<[^>]+>', rep, s)`: every tag becomes `rep`. When `rep` holds no angle
      bracket, the pattern no longer matches afterwards: a `<` with a `>` somewhere after
      it is directly followed by that `>`. */
  function ReplaceTags(s: string, rep: string): (r: string)
    ensures '<' !in s ==> r == s
    ensures s != [] && s[0] != '<' ==> r != [] && r[0] == s[0]
    ensures '>' !in s && '>' !in rep ==> '>' !in r
    ensures '<' !in rep && '>' !in rep ==>
      forall i, j :: 0 <= i < j < |r| && r[i] == '<' && r[j] == '>' ==> r[i + 1] == '>'
    decreases |s|
  {
    if s == [] then []
    else if s[0] == '<' && |s| >= 2 && s[1] != '>' && FindFrom(s, '>', 2).Some? then
      rep + ReplaceTags(s[FindFrom(s, '>', 2).value + 1..], rep)
    else [s[0]] + ReplaceTags(s[1..], rep)
  }

  // ---------------------------------------------------------------------------
  // Normalisation for matching

  /** The spaces replaced by a plain space. */
  predicate IsOddSpace(c: char) {
    c == '\U{A0}' || ('\U{2000}' <= c <= '\U{200B}') || c == '\U{202F}' || c == '\U{205F}' || c == '\U{3000}'
  }

  /** The dashes and minus signs replaced by a hyphen-minus. */
  predicate IsDash(c: char) { ('\U{2010}' <= c <= '\U{2015}') || c == '\U{2212}' || c == '-' }

  predicate IsSingleQuote(c: char) {
    c == '\U{2018}' || c == '\U{2019}' || c == '\U{201A}' || c == '\U{201B}' || c == '\U{2032}' || c == '\U{2035}'
  }

  predicate IsDoubleQuote(c: char) {
    c == '\U{201C}' || c == '\U{201D}' || c == '\U{201E}' || c == '\U{201F}' || c == '\U{2033}' || c == '\U{2036}'
  }

  /** The four character substitutions, which never turn a word character into anything
      else nor anything else into a word character. */
  function UnifyChar(c: char): (d: char)
    ensures IsWordChar(d) <==> IsWordChar(c)
    ensures IsWordChar(c) ==> d == c
  {
    if IsOddSpace(c) then ' '
    else if IsDash(c) then '-'
    else if IsSingleQuote(c) then '\''
    else if IsDoubleQuote(c) then '"'
    else c
  }

  function Unify(s: string): (r: string)
    ensures |r| == |s|
    ensures forall k :: 0 <= k < |s| ==> r[k] == UnifyChar(s[k])
  {
    seq(|s|, k requires 0 <= k < |s| => UnifyChar(s[k]))
  }

  /** `[\w\s]`, what the punctuation removal keeps. */
  predicate IsWordOrSpace(c: char) { IsWordChar(c) || IsPySpace(c) }

  predicate IsNotSpaceChar(c: char) { c != ' ' }

  /** The markup removals, applied to the lowercased text. */
  function Cleaned(lowered: string): string {
    ReplaceTags(RemoveBrackets(RemoveSups(lowered)), "")
  }

  /** `normalize_text_for_matching`; `unescape` is `html.unescape`. The result is made of
      word characters only. It need not be lowercase: entities are decoded after lowering. */
  function NormalizeTextForMatching(text: string, unescape: string -> string): (r: string)
    ensures text == [] ==> r == []
    ensures forall k :: 0 <= k < |r| ==> IsWordChar(r[k])
  {
    if text == [] then []
    else
      var unified := Unify(unescape(Cleaned(AsciiLowerStr(text))));
      var kept := Filter(unified, IsWordOrSpace);
      WordsOnly(unified);
      Filter(PyStrip(CollapseWs(kept)), IsNotSpaceChar)
  }

  /** A word character is never whitespace. */
  lemma WordNotSpace(x: char)
    ensures IsWordChar(x) ==> !IsPySpace(x)
  {
  }

  /** The non-whitespace characters of the kept text are its word characters. */
  lemma WordsOfKept(e: string)
    ensures NonWs(Filter(e, IsWordOrSpace)) == Filter(e, IsWordChar)
  {
    forall k | 0 <= k < |e| ensures IsWordChar(e[k]) == (IsWordOrSpace(e[k]) && IsNotPySpace(e[k])) {
      WordNotSpace(e[k]);
    }
    FilterFilter(e, IsWordOrSpace, IsNotPySpace, IsWordChar);
  }

  /** In text of word characters and spaces, deleting spaces deletes all whitespace. */
  lemma SpacesAreAllWhitespace(s: string)
    requires forall k :: 0 <= k < |s| ==> s[k] == ' ' || IsWordChar(s[k])
    ensures Filter(s, IsNotSpaceChar) == NonWs(s)
  {
    forall k | 0 <= k < |s| ensures IsNotSpaceChar(s[k]) == IsNotPySpace(s[k]) {
      WordNotSpace(s[k]);
    }
    FilterAgree(s, IsNotSpaceChar, IsNotPySpace);
  }

  /** Stripping text of word characters and spaces leaves such text. */
  lemma StripWordsAndSpaces(c: string)
    requires forall k :: 0 <= k < |c| ==> c[k] == ' ' || IsWordChar(c[k])
    ensures forall k :: 0 <= k < |PyStrip(c)| ==> PyStrip(c)[k] == ' ' || IsWordChar(PyStrip(c)[k])
  {
    var a, b := StripSlice(c, IsPySpace);
    var sp := PyStrip(c);
    forall k | 0 <= k < |sp| ensures sp[k] == ' ' || IsWordChar(sp[k]) {
      assert sp[k] == c[a + k];
    }
  }

  /** Dropping punctuation, collapsing and stripping whitespace and then deleting spaces
      leaves exactly the word characters. */
  lemma WordsOnly(e: string)
    ensures Filter(PyStrip(CollapseWs(Filter(e, IsWordOrSpace))), IsNotSpaceChar) == Filter(e, IsWordChar)
  {
    var kept := Filter(e, IsWordOrSpace);
    var c := CollapseWs(kept);
    CollapseKeeps(kept, IsWordChar);
    StripWordsAndSpaces(c);
    SpacesAreAllWhitespace(PyStrip(c));
    NonWsStrip(c);
    NonWsCollapse(kept);
    WordsOfKept(e);
  }

  /** The space, dash and quote substitutions cannot change the outcome. */
  lemma {:induction false} UnifyInvisible(e: string)
    ensures Filter(Unify(e), IsWordChar) == Filter(e, IsWordChar)
  {
    if e != [] {
      assert Unify(e)[1..] == Unify(e[1..]);
      UnifyInvisible(e[1..]);
    }
  }

  /** What normalisation computes: the word characters of the unescaped text after the
      footnotes, bracketed citations and tags of its lowercase form are removed. */
  lemma NormalizeCharacterisation(text: string, unescape: string -> string)
    requires text != []
    ensures NormalizeTextForMatching(text, unescape)
         == Filter(unescape(Cleaned(AsciiLowerStr(text))), IsWordChar)
  {
    var e := unescape(Cleaned(AsciiLowerStr(text)));
    WordsOnly(Unify(e));
    UnifyInvisible(e);
  }

  // ---------------------------------------------------------------------------
  // Best-match search

  datatype MatchKind = Exact | SentenceMatch | Fuzzy | ContextMatch | Keyword | Paragraph

  datatype TextMatch = TextMatch(text: string, kind: MatchKind)

  /** The possible outcomes of the sentence, fuzzy and context stages. */
  predicate IsFuzzyStage(m: Option<TextMatch>) {
    m.None? || m.value.kind.SentenceMatch? || m.value.kind.Fuzzy? || m.value.kind.ContextMatch?
  }

  /** The page text the search runs on: tags become spaces, whitespace collapses, strip. */
  function TextContent(html: string): (r: string)
    ensures IsPyStripped(r)
    ensures forall k :: 0 <= k < |r| ==> IsPySpace(r[k]) ==> r[k] == ' '
    ensures forall k :: 0 <= k < |r| - 1 ==> !(IsPySpace(r[k]) && IsPySpace(r[k + 1]))
    ensures '<' !in html ==> r == PyStrip(CollapseWs(html))
  {
    var c := CollapseWs(ReplaceTags(html, " "));
    CollapsedStrip(c);
    PyStrip(c)
  }

  /** Stripping keeps whitespace single spaces, never two in a row. */
  lemma CollapsedStrip(s: string)
    requires forall k :: 0 <= k < |s| ==> IsPySpace(s[k]) ==> s[k] == ' '
    requires forall k :: 0 <= k < |s| - 1 ==> !(IsPySpace(s[k]) && IsPySpace(s[k + 1]))
    ensures forall k :: 0 <= k < |PyStrip(s)| ==> IsPySpace(PyStrip(s)[k]) ==> PyStrip(s)[k] == ' '
    ensures forall k :: 0 <= k < |PyStrip(s)| - 1 ==> !(IsPySpace(PyStrip(s)[k]) && IsPySpace(PyStrip(s)[k + 1]))
  {
    var a, e := StripSlice(s, IsPySpace);
    assert forall k :: 0 <= k < e - a ==> s[a..e][k] == s[a + k];
  }

  /** The target text, stripped and with its whitespace collapsed: its only whitespace is
      single spaces. */
  function CleanTarget(target: string): (r: string)
    ensures forall k :: 0 <= k < |r| ==> IsPySpace(r[k]) ==> r[k] == ' '
  {
    CollapseWs(PyStrip(target))
  }

  /** The exact stage: when the target occurs in the text ignoring case, the first match
      of the flexible-space pattern. */
  function ExactMatch(content: string, clean: string): (r: Option<string>)
    ensures r.Some? ==> Agrees(r.value, clean)
  {
    if Contains(AsciiLowerStr(content), AsciiLowerStr(clean)) then
      match Search(content, clean)
      case Some((b, e)) => Some(content[b..e])
      case None => None
    else None
  }

  /** Once the case-insensitive containment test passes the pattern search always finds
      a match, so the exact stage never falls through after it. */
  lemma ExactStageMatches(content: string, clean: string)
    requires forall k :: 0 <= k < |clean| ==> IsPySpace(clean[k]) ==> clean[k] == ' '
    requires Contains(AsciiLowerStr(content), AsciiLowerStr(clean))
    ensures ExactMatch(content, clean).Some?
  {
    var k := IndexOfFrom(AsciiLowerStr(content), AsciiLowerStr(clean), 0).value;
    var w := content[k..k + |clean|];
    forall m | 0 <= m < |clean| ensures CaseEq(w[m], clean[m]) && (clean[m] == ' ' ==> IsPySpace(w[m])) {
      assert AsciiLowerStr(content)[k + m] == AsciiLowerStr(clean)[m];
    }
    LiteralAgrees(w, clean);
    SearchLeftmost(content, clean, 0, k, k + |clean|);
  }

  /** A non-empty run of characters outside `ws`. */
  predicate IsRun(w: string, ws: char -> bool) {
    w != [] && forall m :: 0 <= m < |w| ==> !ws(w[m])
  }

  /** The maximal runs of characters outside `ws`; `nws` is the complement of `ws`. */
  function SplitBy(s: string, ws: char -> bool, nws: char -> bool): (r: seq<string>)
    requires forall c :: nws(c) == !ws(c)
    ensures forall k :: 0 <= k < |r| ==> IsRun(r[k], ws)
    decreases |s|
  {
    var a := LeadingCount(s, ws);
    if a == |s| then []
    else
      var t := s[a..];
      var n := LeadingCount(t, nws);
      assert IsRun(t[..n], ws);
      [t[..n]] + SplitBy(t[n..], ws, nws)
  }

  /** The runs hold every character outside `ws`, in order. */
  lemma {:induction false} SplitByKeeps(s: string, ws: char -> bool, nws: char -> bool)
    requires forall c :: nws(c) == !ws(c)
    ensures Concat(SplitBy(s, ws, nws)) == Filter(s, nws)
    decreases |s|
  {
    var a := LeadingCount(s, ws);
    if a == |s| {
      FilterNone(s, nws);
    } else {
      var t := s[a..];
      var n := LeadingCount(t, nws);
      assert Concat(SplitBy(s, ws, nws)) == t[..n] + Concat(SplitBy(t[n..], ws, nws)) by {
        assert SplitBy(s, ws, nws) == [t[..n]] + SplitBy(t[n..], ws, nws);
        ConcatCons(t[..n], SplitBy(t[n..], ws, nws));
      }
      SplitByKeeps(t[n..], ws, nws);
      FilterSkip(s, a, nws);
      FilterRun(t, n, nws);
    }
  }

  /** `s.split()`: the maximal runs of non-whitespace. */
  function SplitWs(s: string): (r: seq<string>)
    ensures forall k :: 0 <= k < |r| ==> r[k] != []
    ensures forall k, m :: 0 <= k < |r| && 0 <= m < |r[k]| ==> !IsPySpace(r[k][m])
  {
    var r := SplitBy(s, IsPySpace, IsNotPySpace);
    assert forall k :: 0 <= k < |r| ==> IsRun(r[k], IsPySpace);
    r
  }

  /** The words hold every non-whitespace character, in order. */
  lemma SplitWsKeeps(s: string)
    ensures Concat(SplitWs(s)) == NonWs(s)
  {
    SplitByKeeps(s, IsPySpace, IsNotPySpace);
  }

  const StopWords: seq<string> :=
    ["this", "that", "with", "from", "they", "them", "were", "been", "have", "will", "would", "could", "should"]

  /** A keyword is longer than four characters and, lowercased, not a stop word. */
  predicate IsKeyword(w: string) { |w| > 4 && AsciiLowerStr(w) !in StopWords }

  function KeepKeywords(words: seq<string>): (r: seq<string>)
    ensures |r| <= |words|
    ensures forall k :: 0 <= k < |r| ==> |r[k]| > 4 && AsciiLowerStr(r[k]) !in StopWords
  {
    if words == [] then []
    else (if IsKeyword(words[0]) then [words[0]] else []) + KeepKeywords(words[1..])
  }

  /** The keyword filter keeps exactly the words that are keywords. */
  lemma {:induction false} KeepKeywordsIff(words: seq<string>, w: string)
    ensures w in KeepKeywords(words) <==> w in words && IsKeyword(w)
  {
    if words != [] {
      KeepKeywordsIff(words[1..], w);
      assert words == [words[0]] + words[1..];
    }
  }

  /** The keywords of the cleaned target, in order. */
  function Keywords(clean: string): (r: seq<string>)
    ensures forall k :: 0 <= k < |r| ==> |r[k]| > 4 && AsciiLowerStr(r[k]) !in StopWords
    ensures forall w :: w in r <==> w in SplitWs(clean) && IsKeyword(w)
  {
    var words := SplitWs(clean);
    forall w ensures w in KeepKeywords(words) <==> w in words && IsKeyword(w) {
      KeepKeywordsIff(words, w);
    }
    KeepKeywords(words)
  }

  predicate IsEndMark(c: char) { c == '.' || c == '!' || c == '?' }

  predicate IsNotEndMark(c: char) { !IsEndMark(c) }

  /** `re.split(r'[.!?]+', s)`: the pieces between runs of sentence punctuation. */
  function SplitSentences(s: string): (r: seq<string>)
    ensures |r| >= 1
    ensures forall k, m :: 0 <= k < |r| && 0 <= m < |r[k]| ==> !IsEndMark(r[k][m])
    decreases |s|
  {
    var n := LeadingCount(s, IsNotEndMark);
    if n == |s| then [s]
    else
      var rest := s[n..];
      [s[..n]] + SplitSentences(rest[LeadingCount(rest, IsEndMark)..])
  }

  /** Splitting loses nothing but the punctuation. */
  lemma {:induction false} SplitSentencesKeeps(s: string)
    ensures Concat(SplitSentences(s)) == Filter(s, IsNotEndMark)
    decreases |s|
  {
    var n := LeadingCount(s, IsNotEndMark);
    if n == |s| {
      FilterAll(s, IsNotEndMark);
      ConcatCons(s, []);
    } else {
      var rest := s[n..];
      var m := LeadingCount(rest, IsEndMark);
      assert Concat(SplitSentences(s)) == s[..n] + Concat(SplitSentences(rest[m..])) by {
        assert SplitSentences(s) == [s[..n]] + SplitSentences(rest[m..]);
        ConcatCons(s[..n], SplitSentences(rest[m..]));
      }
      SplitSentencesKeeps(rest[m..]);
      FilterRun(s, n, IsNotEndMark);
      FilterSkip(rest, m, IsNotEndMark);
    }
  }

  /** How many keywords occur, lowercased, in the lowercased sentence. */
  function KeywordHits(lowered: string, keywords: seq<string>): (n: nat)
    ensures n <= |keywords|
  {
    if keywords == [] then 0
    else (if Contains(lowered, AsciiLowerStr(keywords[0])) then 1 else 0) + KeywordHits(lowered, keywords[1..])
  }

  function Min(a: int, b: int): int { if a <= b then a else b }

  /** A sentence the keyword stage accepts: at least 20 characters once stripped, and at
      least `min(2, len(keywords))` keyword hits. */
  predicate IsKeywordSentence(sentence: string, keywords: seq<string>) {
    |PyStrip(sentence)| >= 20 && KeywordHits(AsciiLowerStr(sentence), keywords) >= Min(2, |keywords|)
  }

  /** The index of the first entry from `from` on that `p` accepts. */
  function FirstWhere(xs: seq<string>, p: string -> bool, from: nat): (r: Option<nat>)
    requires from <= |xs|
    ensures r.Some? ==> from <= r.value < |xs| && p(xs[r.value])
    ensures r.Some? ==> forall j :: from <= j < r.value ==> !p(xs[j])
    ensures r.None? ==> forall j :: from <= j < |xs| ==> !p(xs[j])
    decreases |xs| - from
  {
    if from == |xs| then None
    else if p(xs[from]) then Some(from)
    else FirstWhere(xs, p, from + 1)
  }

  /** The index of the first sentence from `from` on that the keyword stage accepts. */
  function FirstAccepted(sentences: seq<string>, keywords: seq<string>, from: nat): (r: Option<nat>)
    requires from <= |sentences|
    ensures r.Some? ==> from <= r.value < |sentences| && IsKeywordSentence(sentences[r.value], keywords)
    ensures r.Some? ==> forall j :: from <= j < r.value ==> !IsKeywordSentence(sentences[j], keywords)
    ensures r.None? ==> forall j :: from <= j < |sentences| ==> !IsKeywordSentence(sentences[j], keywords)
  {
    FirstWhere(sentences, s => IsKeywordSentence(s, keywords), from)
  }

  /** The search from `i` stops at `i` or goes on from `i + 1`. */
  lemma AcceptedStep(sentences: seq<string>, keywords: seq<string>, i: nat)
    requires i < |sentences|
    ensures FirstAccepted(sentences, keywords, i) ==
      if IsKeywordSentence(sentences[i], keywords) then Some(i) else FirstAccepted(sentences, keywords, i + 1)
  {
  }

  /** The keyword loop (`for sentence in text_sentences`), which returns at the first
      sentence the keyword stage accepts. */
  method FindKeywordSentence(sentences: seq<string>, keywords: seq<string>) returns (r: Option<nat>)
    ensures r == FirstAccepted(sentences, keywords, 0)
  {
    var i := 0;
    while i < |sentences|
      invariant i <= |sentences|
      invariant FirstAccepted(sentences, keywords, i) == FirstAccepted(sentences, keywords, 0)
    {
      var sentence := sentences[i];
      AcceptedStep(sentences, keywords, i);
      if |PyStrip(sentence)| >= 20 {
        var hits := KeywordHits(AsciiLowerStr(sentence), keywords);
        if hits >= Min(2, |keywords|) {
          return Some(i);
        }
      }
      i := i + 1;
    }
    return None;
  }

  /** What the keyword stage and the paragraph fallback give: the first sentence the keyword
      stage accepts, stripped, when there are keywords and such a sentence; otherwise the
      fallback's paragraph, if any. */
  predicate KeywordStagesGive(content: string, clean: string, fallback: seq<string> -> Option<string>,
                              r: Option<TextMatch>)
  {
    var sentences := SplitSentences(content);
    var keywords := Keywords(clean);
    if keywords != [] && FirstAccepted(sentences, keywords, 0).Some? then
      r == Some(TextMatch(PyStrip(sentences[FirstAccepted(sentences, keywords, 0).value]), Keyword))
    else
      (r.Some? <==> fallback(keywords).Some?)
      && (r.Some? ==> r.value == TextMatch(fallback(keywords).value, Paragraph))
  }

  /** `find_best_text_match`. The sentence, fuzzy and context stages are not modelled:
      `earlier` is their outcome. `fallback` is the paragraph fallback given the keywords. */
  method FindBestTextMatch(html: string, target: string, earlier: Option<TextMatch>,
                           fallback: seq<string> -> Option<string>)
    returns (r: Option<TextMatch>)
    requires IsFuzzyStage(earlier)
    ensures target == [] || html == [] ==> r.None?
    ensures r.Some? && r.value.kind == Exact ==>
      Agrees(r.value.text, CleanTarget(target)) && ExactMatch(TextContent(html), CleanTarget(target)) == Some(r.value.text)
    ensures target != [] && html != []
      && Contains(AsciiLowerStr(TextContent(html)), AsciiLowerStr(CleanTarget(target)))
      ==> r.Some? && r.value.kind == Exact
    ensures r.Some? && r.value.kind == Keyword ==>
      earlier.None? && Keywords(CleanTarget(target)) != []
      && exists j :: 0 <= j < |SplitSentences(TextContent(html))|
           && IsKeywordSentence(SplitSentences(TextContent(html))[j], Keywords(CleanTarget(target)))
           && r.value.text == PyStrip(SplitSentences(TextContent(html))[j])
    ensures r.Some? && r.value.kind == Paragraph ==>
      earlier.None? && fallback(Keywords(CleanTarget(target))) == Some(r.value.text)
    // the stages run in order, each result passed through unless an earlier stage has one
    ensures target != [] && html != [] && ExactMatch(TextContent(html), CleanTarget(target)).Some? ==>
      r == Some(TextMatch(ExactMatch(TextContent(html), CleanTarget(target)).value, Exact))
    ensures target != [] && html != [] && ExactMatch(TextContent(html), CleanTarget(target)).None? ==>
      if earlier.Some? then r == earlier
      else KeywordStagesGive(TextContent(html), CleanTarget(target), fallback, r)
  {
    if target == [] || html == [] {
      return None;
    }
    var content := TextContent(html);
    var clean := CleanTarget(target);
    var exact := ExactMatch(content, clean);
    if Contains(AsciiLowerStr(content), AsciiLowerStr(clean)) {
      ExactStageMatches(content, clean);
    }
    if exact.Some? {
      return Some(TextMatch(exact.value, Exact));
    }
    if earlier.Some? {
      return earlier;
    }
    r := KeywordStages(content, clean, fallback);
  }

  /** The keyword stage and then the paragraph fallback of `find_best_text_match`, on the
      page text `content` and the cleaned target `clean`. */
  method KeywordStages(content: string, clean: string, fallback: seq<string> -> Option<string>)
    returns (r: Option<TextMatch>)
    ensures r.Some? ==> r.value.kind == Keyword || r.value.kind == Paragraph
    ensures r.Some? && r.value.kind == Keyword ==>
      Keywords(clean) != []
      && exists j :: 0 <= j < |SplitSentences(content)|
           && IsKeywordSentence(SplitSentences(content)[j], Keywords(clean))
           && r.value.text == PyStrip(SplitSentences(content)[j])
    ensures r.Some? && r.value.kind == Paragraph ==> fallback(Keywords(clean)) == Some(r.value.text)
    ensures KeywordStagesGive(content, clean, fallback, r)
  {
    var sentences := SplitSentences(content);
    var keywords := Keywords(clean);
    if keywords != [] {
      var found := FindKeywordSentence(sentences, keywords);
      assert found.Some? ==> found.value < |sentences| && IsKeywordSentence(sentences[found.value], keywords);
      if found.Some? {
        return Some(TextMatch(PyStrip(sentences[found.value]), Keyword));
      }
    }
    var paragraph := fallback(keywords);
    if paragraph.Some? {
      return Some(TextMatch(paragraph.value, Paragraph));
    }
    return None;
  }

  // ---------------------------------------------------------------------------
  // Inserting the highlight block

  const HeadOpen: string := "<head>"
  const HeadClose: string := "</head>"
  const HtmlOpen: string := "<html>"

  /** `add_highlight_javascript`'s insertion of `block` into the page head. */
  function InsertIntoHead(html: string, block: string): (r: string)
    ensures |r| == |html| + |block|
                   + (if !Contains(html, HeadOpen) && Contains(html, HtmlOpen) then |HeadOpen| + |HeadClose| else 0)
  {
    if Contains(html, HeadOpen) then ReplaceFirst(html, HeadOpen, HeadOpen + block)
    else if Contains(html, HtmlOpen) then ReplaceFirst(html, HtmlOpen, HtmlOpen + (HeadOpen + block + HeadClose))
    else block + html
  }

  /** The block goes right after the first `<head>`; without one, as a new head right
      after the first `<html>`; without that either, in front. In each case the page is
      left as it was around the one insertion. */
  lemma InsertIntoHeadAt(html: string, block: string)
    ensures IndexOfFrom(html, HeadOpen, 0).Some? ==>
      var p := IndexOfFrom(html, HeadOpen, 0).value + |HeadOpen|;
      p <= |html| && InsertIntoHead(html, block) == html[..p] + block + html[p..]
    ensures IndexOfFrom(html, HeadOpen, 0).None? && IndexOfFrom(html, HtmlOpen, 0).Some? ==>
      var p := IndexOfFrom(html, HtmlOpen, 0).value + |HtmlOpen|;
      p <= |html| && InsertIntoHead(html, block) == html[..p] + (HeadOpen + block + HeadClose) + html[p..]
    ensures IndexOfFrom(html, HeadOpen, 0).None? && IndexOfFrom(html, HtmlOpen, 0).None? ==>
      InsertIntoHead(html, block) == block + html
  {
    if IndexOfFrom(html, HeadOpen, 0).Some? {
      ReplaceFirstAfter(html, HeadOpen, block);
    } else if IndexOfFrom(html, HtmlOpen, 0).Some? {
      ReplaceFirstAfter(html, HtmlOpen, HeadOpen + block + HeadClose);
    }
  }

  /** The block is always in the result. */
  lemma InsertedBlock(html: string, block: string)
    ensures Contains(InsertIntoHead(html, block), block)
  {
    var r := InsertIntoHead(html, block);
    InsertIntoHeadAt(html, block);
    if IndexOfFrom(html, HeadOpen, 0).Some? {
      var p := IndexOfFrom(html, HeadOpen, 0).value + |HeadOpen|;
      ContainsAt(r, block, p);
    } else if IndexOfFrom(html, HtmlOpen, 0).Some? {
      var p := IndexOfFrom(html, HtmlOpen, 0).value + |HtmlOpen|;
      ContainsAt(r, block, p + |HeadOpen|);
    } else {
      ContainsAt(r, block, 0);
    }
  }

  /** `add_highlight_javascript`: with a highlight text the page always gets the style and
      script block, highlighted first when a match is found; `highlighter` is the DOM
      highlighting, which is not modelled. `found` is the match used. */
  method AddHighlightJavascript(html: string, text: string, earlier: Option<TextMatch>,
                                fallback: seq<string> -> Option<string>,
                                highlighter: (string, string, MatchKind) -> string, block: string)
    returns (r: string, found: Option<TextMatch>)
    requires IsFuzzyStage(earlier)
    ensures text == [] ==> r == html && found.None?
    ensures text != [] && found.None? ==> r == InsertIntoHead(html, block)
    ensures found.Some? ==> r == InsertIntoHead(highlighter(html, found.value.text, found.value.kind), block)
    ensures found.Some? && found.value.kind == Exact ==> Agrees(found.value.text, CleanTarget(text))
  {
    if text == [] {
      return html, None;
    }
    found := FindBestTextMatch(html, text, earlier, fallback);
    var page := html;
    if found.Some? {
      page := highlighter(html, found.value.text, found.value.kind);
    }
    r := InsertIntoHead(page, block);
  }

  // ---------------------------------------------------------------------------
  // Upload image sources

  const SrcAttr: string := "src=\""
  const UploadHost: string := "//upload.wikimedia.org/"
  const HttpsScheme: string := "https:"

  /** The `re.sub` of `src="(//upload\.wikimedia\.org/[^"]*)"` by `src="https:\1"`: at a
      protocol-relative upload source with a closing quote, `https:` is put in front of
      the address and the scan resumes after the quote. */
  function RewriteUploadSrc(s: string): (r: string)
    ensures |r| >= |s|
    decreases |s|
  {
    if s == [] then []
    else if StartsWith(s, SrcAttr + UploadHost) && FindFrom(s, '"', |SrcAttr + UploadHost|).Some? then
      var e := FindFrom(s, '"', |SrcAttr + UploadHost|).value + 1;
      SrcAttr + HttpsScheme + s[|SrcAttr|..e] + RewriteUploadSrc(s[e..])
    else [s[0]] + RewriteUploadSrc(s[1..])
  }

  /** A quote-free path between a prefix and a quote: the first quote after the prefix
      closes the path. */
  lemma QuotedPieces(s: string, pre: string, path: string, tail: string)
    requires s == pre + path + "\"" + tail && '"' !in path
    ensures StartsWith(s, pre) && FindFrom(s, '"', |pre|) == Some(|pre| + |path|)
    ensures s[|pre| + |path| + 1..] == tail
  {
    assert s[..|pre|] == pre;
    forall j | |pre| <= j < |pre| + |path| ensures s[j] != '"' {
      assert s[j] == path[j - |pre|];
    }
    assert s[|pre| + |path|] == '"';
    FindFromAt(s, '"', |pre|, |pre| + |path|);
    assert s[|pre| + |path| + 1..] == tail;
  }

  /** The slice after the first piece, through the quote. */
  lemma QuotedMiddle(a: string, b: string, path: string, tail: string)
    ensures (a + b + path + "\"" + tail)[|a|..|a| + |b| + |path| + 1] == b + path + "\""
  {
  }

  /** An upload source gets its scheme: `src="//upload.wikimedia.org/x"` becomes
      `src="https://upload.wikimedia.org/x"`. */
  lemma RewriteUploadTag(path: string, tail: string)
    requires '"' !in path
    ensures RewriteUploadSrc(SrcAttr + UploadHost + path + "\"" + tail)
         == SrcAttr + HttpsScheme + UploadHost + path + "\"" + RewriteUploadSrc(tail)
  {
    var pre := SrcAttr + UploadHost;
    var s := pre + path + "\"" + tail;
    var e := |pre| + |path| + 1;
    QuotedPieces(s, pre, path, tail);
    QuotedMiddle(SrcAttr, UploadHost, path, tail);
    assert RewriteUploadSrc(s) == SrcAttr + HttpsScheme + s[|SrcAttr|..e] + RewriteUploadSrc(s[e..]);
  }

  /** Text without an upload source is left alone. */
  lemma {:induction false} RewriteNoUpload(s: string)
    requires !Contains(s, SrcAttr + UploadHost)
    ensures RewriteUploadSrc(s) == s
    decreases |s|
  {
    if s != [] {
      if Contains(s[1..], SrcAttr + UploadHost) {
        assert s == [s[0]] + s[1..] + [];
        ContainsInConcat([s[0]], s[1..], [], SrcAttr + UploadHost);
      }
      RewriteNoUpload(s[1..]);
    }
  }

  // ---------------------------------------------------------------------------
  // Serving saved pages and static files

  /** What an endpoint answers: a saved page (to be read, fixed and perhaps highlighted), a
      static file, or an error status. */
  datatype Response = Page(path: string, highlight: string, context: string)
                    | StaticFile(path: string)
                    | Failure(status: nat)

  /** The name check of `serve_wikipedia_page`: `..` anywhere, or a leading `/`. */
  predicate IsUnsafeName(name: string)
    ensures !IsUnsafeName(name) ==> name == [] || name[0] != '/'
    ensures !IsUnsafeName(name) ==> forall i :: 0 <= i < |name| - 1 ==> !(name[i] == '.' && name[i + 1] == '.')
  {
    NoDoubleDot(name);
    Contains(name, "..") || (name != [] && name[0] == '/')
  }

  /** A name without `..` has no two dots in a row. */
  lemma NoDoubleDot(name: string)
    ensures !Contains(name, "..") ==> forall i :: 0 <= i < |name| - 1 ==> !(name[i] == '.' && name[i + 1] == '.')
  {
    forall i | 0 <= i < |name| - 1 && name[i] == '.' && name[i + 1] == '.'
      ensures Contains(name, "..")
    {
      assert name[i..i + 2] == "..";
      ContainsAt(name, "..", i);
    }
  }

  /** `..` as a whole segment of the relative path `p`, starting at `i`. */
  predicate ParentSegmentAt(p: string, i: nat) {
    OccursAt(p, "..", i) && (i == 0 || p[i - 1] == '/') && (i + 2 == |p| || p[i + 2] == '/')
  }

  predicate NoParentSegment(rest: string) {
    forall i: nat :: i < |rest| ==> !ParentSegmentAt(rest, i)
  }

  /** `path` is `dir/rest` with no `..` segment in `rest`: it names something inside `dir`. */
  predicate StaysIn(path: string, dir: string) {
    StartsWith(path, dir + "/") && NoParentSegment(path[|dir| + 1..])
  }

  lemma StaysInOf(dir: string, rest: string)
    requires NoParentSegment(rest)
    ensures StaysIn(dir + "/" + rest, dir)
  {
    var path := dir + "/" + rest;
    assert path[..|dir| + 1] == dir + "/";
    assert path[|dir| + 1..] == rest;
  }

  /** A path without `..` anywhere has no `..` segment. */
  lemma NoDotsNoParent(rest: string)
    requires !Contains(rest, "..")
    ensures NoParentSegment(rest)
  {
  }

  /** A name without `..` keeps none once `.html` is added, even if it ends with a dot. */
  lemma HtmlNameNoParent(name: string)
    requires !Contains(name, "..")
    ensures NoParentSegment(name + ".html")
  {
    var rest := name + ".html";
    forall i: nat | i < |rest| ensures !ParentSegmentAt(rest, i) {
      if i + 2 <= |name| {
        assert rest[i..i + 2] == name[i..i + 2];
        assert !OccursAt(name, "..", i);
      } else if i + 1 == |name| {
        assert rest[i + 2] == 'h';
      } else {
        assert i + 1 >= |rest| || rest[i + 1] != '.';
      }
    }
  }

  /** `serve_wikipedia_page` as written. Both refusals are raised inside the handler's
      blanket `except`, so the client always gets 500; the page is looked up through
      `local_url_to_file_path`, which decodes the (already decoded) name once more. */
  function ServeWikipediaPage(pageName: string, highlight: string, context: string, autoScroll: bool,
                              saved: string -> bool): (r: Response)
    ensures IsUnsafeName(pageName) ==> r == Failure(500)
    ensures !r.Page? ==> r == Failure(500)
    ensures r.Page? ==> LocalFileExists(pageName, saved) && r.path == LocalUrlToFilePath(pageName)
    ensures r.Page? ==> (r.highlight != [] <==> highlight != [] && autoScroll)
  {
    if IsUnsafeName(pageName) then Failure(500)
    else if !LocalFileExists(pageName, saved) then Failure(500)
    else Page(LocalUrlToFilePath(pageName), if highlight != [] && autoScroll then highlight else [], context)
  }

  /** A name whose non-word characters are all percent-encoded passes the check, yet its
      file is the one of the decoded name, wherever that leads. */
  lemma EncodedNamePasses(d: string)
    ensures !IsUnsafeName(PercentEncode(d, IsWordChar))
    ensures LocalUrlToFilePath(PercentEncode(d, IsWordChar)) == JoinPath(SavedPagesDir, d + ".html")
  {
    var n := PercentEncode(d, IsWordChar);
    forall k | 0 <= k < |n| ensures n[k] != '.' && n[k] != '/' {
      assert IsEncodedChar(n[k], IsWordChar);
    }
    NotContainsWithoutHead(n, "..");
    UnquoteEncode(d, IsWordChar);
  }

  /** The handler receiving a name `d` that starts with `../`, with its non-word characters
      percent-encoded (`../x` arrives as `%2E%2E%2Fx`, sent as `%252E%252E%252Fx`), serves
      `saved_site/en.wikipedia.org/wiki/` followed by `d.html`, outside the saved pages. */
  lemma TraversalAsWritten(d: string, highlight: string, context: string, autoScroll: bool, saved: string -> bool)
    requires |d| >= 3 && d[..3] == "../"
    requires saved(SavedPagesDir + "/" + (d + ".html"))
    ensures var r := ServeWikipediaPage(PercentEncode(d, IsWordChar), highlight, context, autoScroll, saved);
      r.Page? && r.path == SavedPagesDir + "/" + (d + ".html") && !StaysIn(r.path, SavedPagesDir)
  {
    var name := PercentEncode(d, IsWordChar);
    var path := SavedPagesDir + "/" + (d + ".html");
    EncodedNamePasses(d);
    LeadingParent(d);
    ServedAt(name, path, highlight, context, autoScroll, saved);
    ParentLeaves(SavedPagesDir, d + ".html");
  }

  /** A name starting with `../` starts with a `..` segment and is joined below the directory. */
  lemma LeadingParent(d: string)
    requires |d| >= 3 && d[..3] == "../"
    ensures d + ".html" != [] && ParentSegmentAt(d + ".html", 0)
    ensures JoinPath(SavedPagesDir, d + ".html") == SavedPagesDir + "/" + (d + ".html")
  {
    var rest := d + ".html";
    assert rest[0] == d[0] == '.' && rest[1] == d[1] == '.' && rest[2] == d[2] == '/';
    assert rest[0..2] == "..";
  }

  /** A name that passes the check and whose file exists is served from that file. */
  lemma ServedAt(name: string, path: string, highlight: string, context: string, autoScroll: bool,
                 saved: string -> bool)
    requires name != [] && !IsUnsafeName(name) && LocalUrlToFilePath(name) == path && saved(path)
    ensures ServeWikipediaPage(name, highlight, context, autoScroll, saved).Page?
    ensures ServeWikipediaPage(name, highlight, context, autoScroll, saved).path == path
  {
  }

  /** A path whose part below `dir` starts with a `..` segment leaves `dir`. */
  lemma ParentLeaves(dir: string, rest: string)
    requires rest != [] && ParentSegmentAt(rest, 0)
    ensures !StaysIn(dir + "/" + rest, dir)
  {
    var path := dir + "/" + rest;
    assert path[|dir| + 1..] == rest;
  }

  /** `serve_wikipedia_page` with the check made on the name that is actually used and the
      intended statuses: a bad name is refused with 400, a missing page with 404. */
  function ServeWikipediaPageChecked(pageName: string, highlight: string, context: string, autoScroll: bool,
                                     saved: string -> bool): (r: Response)
    ensures IsUnsafeName(Unquote(pageName)) ==> r == Failure(400)
    ensures !IsUnsafeName(Unquote(pageName)) && !LocalFileExists(pageName, saved) ==> r == Failure(404)
    ensures r.Page? ==> StaysIn(r.path, SavedPagesDir) && saved(r.path)
  {
    var name := Unquote(pageName);
    if IsUnsafeName(name) then Failure(400)
    else if !LocalFileExists(pageName, saved) then Failure(404)
    else
      FilePathOf(pageName);
      HtmlNameNoParent(name);
      StaysInOf(SavedPagesDir, name + ".html");
      assert LocalUrlToFilePath(pageName) == SavedPagesDir + "/" + (name + ".html");
      Page(LocalUrlToFilePath(pageName), if highlight != [] && autoScroll then highlight else [], context)
  }

  const SiteDir: string := "saved_site/en.wikipedia.org"

  predicate IsSlash(c: char) { c == '/' }

  /** `SAVED_SITE_DIR / "en.wikipedia.org" / file_path.lstrip("/")`. */
  function StaticPath(filePath: string): (r: string)
    ensures StartsWith(r, SiteDir) && (r == SiteDir || r[|SiteDir|] == '/')
  {
    var rel := filePath[LeadingCount(filePath, IsSlash)..];
    if rel == [] then SiteDir else
      var p := SiteDir + "/" + rel;
      assert p[..|SiteDir|] == SiteDir;
      p
  }

  /** A static path with no `..` stays inside the site directory. */
  lemma StaticPathInside(filePath: string)
    requires !Contains(filePath, "..")
    ensures StaticPath(filePath) == SiteDir || StaysIn(StaticPath(filePath), SiteDir)
  {
    var n := LeadingCount(filePath, IsSlash);
    var rel := filePath[n..];
    forall i: nat | i + 2 <= |rel| ensures !OccursAt(rel, "..", i) {
      assert rel[i..i + 2] == filePath[n + i..n + i + 2];
      assert !OccursAt(filePath, "..", n + i);
    }
    NoDotsNoParent(rel);
    StaysInOf(SiteDir, rel);
  }

  /** `serve_static_file` as written: both refusals reach the client as 500. */
  function ServeStaticFile(filePath: string, present: string -> bool): (r: Response)
    ensures Contains(filePath, "..") ==> r == Failure(500)
    ensures !r.StaticFile? ==> r == Failure(500)
    ensures r.StaticFile? ==> present(r.path) && (r.path == SiteDir || StaysIn(r.path, SiteDir))
  {
    if Contains(filePath, "..") then Failure(500)
    else if !present(StaticPath(filePath)) then Failure(500)
    else
      StaticPathInside(filePath);
      StaticFile(StaticPath(filePath))
  }

  /** `serve_static_file` with the intended statuses: 400 for `..`, 404 for a missing file. */
  function ServeStaticFileChecked(filePath: string, present: string -> bool): (r: Response)
    ensures Contains(filePath, "..") ==> r == Failure(400)
    ensures !Contains(filePath, "..") && !present(StaticPath(filePath)) ==> r == Failure(404)
    ensures r.StaticFile? ==> present(r.path) && (r.path == SiteDir || StaysIn(r.path, SiteDir))
  {
    if Contains(filePath, "..") then Failure(400)
    else if !present(StaticPath(filePath)) then Failure(404)
    else
      StaticPathInside(filePath);
      StaticFile(StaticPath(filePath))
  }

  /** A request for `..` is meant to be refused with 400; as written both endpoints answer 500. */
  lemma RefusalsBecomeServerErrors(highlight: string, context: string, autoScroll: bool,
                                   saved: string -> bool, present: string -> bool)
    ensures ServeWikipediaPage("..", highlight, context, autoScroll, saved) == Failure(500)
    ensures ServeWikipediaPageChecked("..", highlight, context, autoScroll, saved) == Failure(400)
    ensures ServeStaticFile("..", present) == Failure(500)
    ensures ServeStaticFileChecked("..", present) == Failure(400)
  {
    ContainsAt("..", "..", 0);
  }
}
