# WikiFix core, modelled in Dafny

WikiFix is a fact-checking platform. Users get tasks built from Wikipedia articles. For each task they read the claim with a highlighted passage, say whether they agree, and earn points.
This project models the deterministic core of its backend and of a few client helpers:

- **HTML-aware sentence splitter.** `backend/preprocessing/html_sentence_splitter.py` is written as imperative scans with loop invariants (`sentence_splitter.dfy`). Each scan is proved equal to a recursive reference over the tokens of its input: `BlocksOf` for the block split, `SentencesOf` for the sentence split, and `PiecesOf` for the pieces before the length filter.
- **Wikipedia URL mapping.** This is the mapping between Wikipedia URLs and locally saved pages, covering the `highlight`/`context` query parameters and the fragment (`url_mapping.dfy`). It uses `urllib.parse.quote`/`unquote` and `encodeURIComponent` (`percent.dfy`).
- **Highlighting and serving helpers** of `backend/api/wikipedia.py` (`wikipedia_api.dfy`) and `backend/wikipedia_processor.py` (`wikipedia_processor.dfy`):
  - text normalisation;
  - the exact and keyword stages of the best-match search;
  - the insertion of the style/script block into `<head>`;
  - the upload-image rewrite;
  - the path checks of the two page-serving endpoints;
  - the single case-insensitive replacement with its flexible-whitespace pattern (`flex_pattern.dfy`);
  - the gating of `process_single_task`.
- **Task store.** The tasks and users tables of `backend/db/tasks_ops.py` and `backend/db/user_ops.py` form a class with map fields (`task_store.dfy`). With requests handled one at a time, `complete_task` moves a task from OPEN to COMPLETED exactly once and credits the user 25 points for disagreeing or 10 for agreeing, plus one completed task.
- **Routes of `backend/main.py`** (`routes.dfy`):
  - authentication (401) and owner checks (403);
  - the task and per-user endpoints;
  - the leaderboard and its rank arithmetic, over SQLite `ORDER BY … DESC OFFSET … LIMIT …` (`ordering.dfy`);
  - the integer platform totals.
- **Client helpers:**
  - the text-fragment URL of `WikipediaEmbed.tsx` (`wikipedia_embed.dfy`);
  - the topic and language onboarding pages, as classes over shared list operations (`topics_onboarding.dfy`, `language_onboarding.dfy`, `selection.dfy`);
  - the Wikipedia-username page: the classifier, the handlers and the "can proceed" gate (`username_onboarding.dfy`).

`text.dfy` holds the string operations shared by all of these:

- Python `str.strip`, `str.isspace` and `\w`;
- JavaScript `trim`;
- searching, splitting and joining;
- whitespace collapsing.

Outside inputs are parameters of the model:

- file existence on disk (`saved`, `present`);
- downloads (`fetch`) and file reads (`read`);
- `html.unescape`;
- the DOM highlighter and the fuzzy matching stages;
- the verified JWT subject (`sub`);
- fresh UUIDs;
- the clock (`now`);
- the response of the Wikipedia user lookup (`Lookup`).

## Model

| member | source | states |
|---|---|---|
| HtmlSentenceSplitter.TagHeadOf | backend/preprocessing/html_sentence_splitter.py:101 | the `</?(\w+)` head of a tag: a non-empty name of word characters |
| HtmlSentenceSplitter.IsBlockBoundary | backend/preprocessing/html_sentence_splitter.py:98-106 | a block boundary is a tag: it starts with `<` |
| HtmlSentenceSplitter.BlockBoundaryIff | backend/preprocessing/html_sentence_splitter.py:98-106 | a tag is a block boundary exactly when it has a `</?(\w+)` head whose lower-cased name is one of the block elements |
| HtmlSentenceSplitter.TagHeadMatches | backend/preprocessing/html_sentence_splitter.py:173-175 | the head is the regex match (`<`, optional `/`, longest word run); no match exactly when neither `<` nor `</` is followed by a word character |
| HtmlSentenceSplitter.UpdateTagStack | backend/preprocessing/html_sentence_splitter.py:170-190 | the stack changes only for a tag with a head that is neither void nor `/>`; an opening tag pushes its lower-cased name; a closing tag pops exactly when it matches the top; everything else leaves the stack alone |
| HtmlSentenceSplitter.UpdateKeepsEntries | backend/preprocessing/html_sentence_splitter.py:178-190 | the stack only ever holds lower-case names of non-void elements |
| HtmlSentenceSplitter.PushThenPop | backend/preprocessing/html_sentence_splitter.py:184-190 | opening and then closing the same element restores the stack |
| HtmlSentenceSplitter.TagEndAt | backend/preprocessing/html_sentence_splitter.py:65-73 | a `<` with a later `>` starts one complete tag; otherwise the character is read alone |
| HtmlSentenceSplitter.Next | backend/preprocessing/html_sentence_splitter.py:64-90 | every turn of a scan advances |
| HtmlSentenceSplitter.BlockStep | backend/preprocessing/html_sentence_splitter.py:64-90 | one turn of the block scan reads exactly one token, as `BlockStepped` describes it: a block tag flushes the pending content and becomes a boundary chunk, an inline tag or a character joins the pending content; the scan invariant (nothing lost, boundary chunks in scan order) holds at the next token |
| HtmlSentenceSplitter.ReadBlockTag | backend/preprocessing/html_sentence_splitter.py:72-87 | a complete tag is one turn ending just past its `>`: a block tag is flushed, any other tag joins the pending content; the block-scan invariant holds there |
| HtmlSentenceSplitter.ReadBlockChar | backend/preprocessing/html_sentence_splitter.py:65-90 | a character that starts no complete tag (an ordinary character or a `<` with no `>` after it) joins the pending content alone; the invariant holds one position on |
| HtmlSentenceSplitter.FlushBoundary | backend/preprocessing/html_sentence_splitter.py:76-83 | a block tag flushes the non-empty pending content as a content chunk, then becomes a boundary chunk, with nothing pending; the invariant holds just past the tag |
| HtmlSentenceSplitter.JoinInline | backend/preprocessing/html_sentence_splitter.py:84-87 | an inline tag joins the pending content and the chunks are unchanged; the invariant holds just past the tag |
| HtmlSentenceSplitter.SplitByBlocks | backend/preprocessing/html_sentence_splitter.py:58-96 | the chunks are exactly `BlocksOf(html)`, the token-by-token recursion that flushes at block tags and at the end; they concatenate to the input; each boundary chunk is one complete block tag, in the order the scan meets them; content chunks are non-empty and never adjacent |
| HtmlSentenceSplitter.BlocksStep | backend/preprocessing/html_sentence_splitter.py:64-90 | one turn as `BlockStepped` describes it keeps "chunks so far followed by the reference chunks of the rest" equal to the reference chunks of the whole input |
| HtmlSentenceSplitter.FollowBoundary | backend/preprocessing/html_sentence_splitter.py:76-87 | at a block tag the reference chunks are the flushed pending content, the tag as a boundary chunk, then the chunks from just past the tag with nothing pending |
| HtmlSentenceSplitter.NoTagsNoBoundaries | backend/preprocessing/html_sentence_splitter.py:66-71 | text without `>` yields no boundary |
| HtmlSentenceSplitter.SpaceRunEndAt | backend/preprocessing/html_sentence_splitter.py:143-146 | the look-ahead stops at the first character that is not space, tab, newline or carriage return |
| HtmlSentenceSplitter.SentencePlain | backend/preprocessing/html_sentence_splitter.py:158-160 | an ordinary character goes into the buffer |
| HtmlSentenceSplitter.SentenceTag | backend/preprocessing/html_sentence_splitter.py:122-136 | a complete tag goes into the buffer and updates the stack |
| HtmlSentenceSplitter.SentenceNoCut | backend/preprocessing/html_sentence_splitter.py:140-156 | an ending that does not cut leaves the ending and its whitespace in the buffer, and the scan resumes right after the ending (that whitespace is read twice) |
| HtmlSentenceSplitter.SentenceCut | backend/preprocessing/html_sentence_splitter.py:148-154 | a cut turns the stripped buffer into a chunk that ends with the ending; the scan resumes after the whitespace |
| HtmlSentenceSplitter.CutChunkEnds | backend/preprocessing/html_sentence_splitter.py:150-152 | the chunk a cut closes is non-empty, stripped and ends with the ending |
| HtmlSentenceSplitter.ReadAngle | backend/preprocessing/html_sentence_splitter.py:122-136 | a `<` is one turn as `SentenceStepped` describes it: a complete tag enters the buffer whole and updates the stack, a `<` without `>` is an ordinary character; the scan invariant holds at the next token |
| HtmlSentenceSplitter.ReadSentenceTag | backend/preprocessing/html_sentence_splitter.py:128-136 | a complete tag enters the sentence buffer whole, the stack is updated by it, and the scan invariant holds just past its `>` |
| HtmlSentenceSplitter.ReadSentenceChar | backend/preprocessing/html_sentence_splitter.py:122-160 | a character read alone (a `<` with no `>` after it, or any character that is not an ending met with no tag open) is appended to the buffer and the scan invariant holds one position on |
| HtmlSentenceSplitter.ReadSentenceEnding | backend/preprocessing/html_sentence_splitter.py:138-156 | an ending met with no tag open is one turn as `SentenceStepped` describes it: a cut when the whitespace run after it reaches the end, an upper-case letter or `<`, otherwise the ending and its whitespace stay in the buffer and the scan resumes right after the ending |
| HtmlSentenceSplitter.ReadLookahead | backend/preprocessing/html_sentence_splitter.py:143-146 | the loop appends exactly the run of look-ahead whitespace after the ending and stops at its end |
| HtmlSentenceSplitter.FlushSentence | backend/preprocessing/html_sentence_splitter.py:149-154 | at a cut the stripped buffer (never empty here) is appended as a chunk, the cut is recorded, the buffer is emptied, and the scan invariant holds at the look-ahead character |
| HtmlSentenceSplitter.SentenceStep | backend/preprocessing/html_sentence_splitter.py:119-160 | one turn of the sentence scan reads exactly one token as `SentenceStepped` describes it and keeps the scan invariant |
| HtmlSentenceSplitter.FollowStep | backend/preprocessing/html_sentence_splitter.py:119-160 | one turn as `SentenceStepped` describes it keeps the scan in agreement with the reference: the cuts so far are all the cuts before the position, the chunks are the ones they close, the buffer is the pieces read since the last cut |
| HtmlSentenceSplitter.FollowToken | backend/preprocessing/html_sentence_splitter.py:119-160 | a token that is not a cut adds its piece to the buffer and leaves the cuts and chunks alone |
| HtmlSentenceSplitter.FollowCut | backend/preprocessing/html_sentence_splitter.py:148-156 | a cut closes the buffer plus the ending and its whitespace run as one stripped chunk, records the cut, and the scan resumes past that run with an empty buffer |
| HtmlSentenceSplitter.StepPlain | backend/preprocessing/html_sentence_splitter.py:122-160 | a character read alone is not a cut; its piece is itself |
| HtmlSentenceSplitter.StepTag | backend/preprocessing/html_sentence_splitter.py:128-136 | a complete tag is not a cut; its piece is the whole tag |
| HtmlSentenceSplitter.StepNoCut | backend/preprocessing/html_sentence_splitter.py:138-156 | an ending with no tag open whose whitespace run reaches neither the end, an upper-case letter nor `<` is not a cut; its piece is the ending plus that whitespace run, and the scan goes on right after the ending, so the run is read again |
| HtmlSentenceSplitter.StepCut | backend/preprocessing/html_sentence_splitter.py:138-156 | an ending with no tag open whose whitespace run reaches the end, an upper-case letter or `<` is a cut, and the scan resumes past the run |
| HtmlSentenceSplitter.ScanSentences | backend/preprocessing/html_sentence_splitter.py:113-160 | the scan loop reaches the end of the content with its invariant intact and in agreement with the reference scan |
| HtmlSentenceSplitter.SentenceFinish | backend/preprocessing/html_sentence_splitter.py:162-166 | the final flush adds the stripped remainder if it is non-empty |
| HtmlSentenceSplitter.SplitContentBySentences | backend/preprocessing/html_sentence_splitter.py:108-168 | the chunks are exactly `SentencesOf(content)`; the recorded cuts are exactly the positions where the scan cuts (both directions); blank content gives no chunks; every chunk is non-empty and stripped; the non-whitespace text survives in order |
| HtmlSentenceSplitter.CutsBelowIff | backend/preprocessing/html_sentence_splitter.py:138-156 | the cuts listed below a position are exactly the cut positions below it, in increasing order |
| HtmlSentenceSplitter.BufferStep | backend/preprocessing/html_sentence_splitter.py:119-160 | reading one more token appends its piece to the buffer |
| HtmlSentenceSplitter.ReachBoth | backend/preprocessing/html_sentence_splitter.py:119-160 | two token starts reached from one position are one token apart or more: the scan never jumps over a token start |
| HtmlSentenceSplitter.BlankNoCuts | backend/preprocessing/html_sentence_splitter.py:110-111 | blank content has no cut |
| HtmlSentenceSplitter.LongOnly | backend/preprocessing/html_sentence_splitter.py:56 | every kept chunk has a stripped length above 15 |
| HtmlSentenceSplitter.LongOnlyKeeps | backend/preprocessing/html_sentence_splitter.py:56 | a chunk is kept exactly when it was produced and its stripped length exceeds 15 |
| HtmlSentenceSplitter.KeepBoundary | backend/preprocessing/html_sentence_splitter.py:46-49 | a boundary chunk is kept unless it is blank |
| HtmlSentenceSplitter.PieceStep | backend/preprocessing/html_sentence_splitter.py:45-53 | one block chunk contributes its `BlockPieces`: a non-blank boundary chunk itself, a content chunk its `SentencesOf`; the pieces so far are those of the chunks read so far |
| HtmlSentenceSplitter.SplitHtmlBySentence | backend/preprocessing/html_sentence_splitter.py:38-56 | before the length filter the pieces are exactly those of `BlocksOf(html)`, chunk by chunk; they hold every non-whitespace character of the input in order, and each is a tag or a stripped non-empty sentence chunk; the result is the pieces whose stripped length exceeds 15 |
| UrlMapping.CutUrl | backend/utils/url_mapping.py:24 | the URL before its first `#` and then its first `?`: a prefix holding neither |
| UrlMapping.PageAfter | backend/utils/url_mapping.py:27-29 | group 1 of the page pattern is non-empty and holds no newline |
| UrlMapping.ExtractWikipediaPageFromUrl | backend/utils/url_mapping.py:15-30 | non-empty exactly when the input is non-empty and its cut form is `http(s)://en.wikipedia.org/wiki/` plus a page; never holds `#` or `?`; the URL starts with the prefix plus the result |
| UrlMapping.WikipediaUrlExistsLocally | backend/utils/url_mapping.py:32-40 | true only for a Wikipedia page URL whose page is non-empty and saved |
| UrlMapping.ExtractPage | backend/utils/url_mapping.py:24-29 | extracting from either prefix plus page `p`, with or without a query or fragment, gives `p` back |
| UrlMapping.LocalUrlToFilePath | backend/utils/url_mapping.py:52-61 | always a `.html` path |
| UrlMapping.FilePathOf | backend/utils/url_mapping.py:57-60 | the path is `saved_site/en.wikipedia.org/wiki/` plus the decoded name plus `.html`, unless the decoded name is absolute, in which case it replaces the directory |
| UrlMapping.FilePathOfPlain | backend/utils/url_mapping.py:57-60 | a relative name without `%` is its own file name under the saved pages, with `.html` added |
| UrlMapping.FilePathOfQuoted | backend/utils/url_mapping.py:57 | a quoted name maps to the file of the name itself |
| UrlMapping.Params | backend/utils/url_mapping.py:99-107 | one parameter per non-empty argument; none holds `&` or `#` |
| UrlMapping.AddHighlightAndContextParameters | backend/utils/url_mapping.py:92-113 | unchanged when both are empty; otherwise the URL, then `&` when it already has `?` and `?` otherwise, then the parameters |
| UrlMapping.AddedParameters | backend/utils/url_mapping.py:99-111 | the appended query splits at `&` into `highlight=` before `context=`, and each value unquotes to its argument |
| UrlMapping.AddedNoFragment | backend/utils/url_mapping.py:102-106 | the parameters bring no `#` |
| UrlMapping.Fragment | backend/utils/url_mapping.py:120 | the segment after the first `#` holds no `#` |
| UrlMapping.AddFragmentToLocalUrl | backend/utils/url_mapping.py:115-123 | the fragment is appended exactly when it is non-empty and the local URL has no `#`; otherwise the URL is unchanged |
| UrlMapping.FragmentOf | backend/utils/url_mapping.py:119-122 | the fragment carried over from `base#frag` is `frag` |
| UrlMapping.ConvertUrlIfLocalExists | backend/utils/url_mapping.py:63-90 | an empty URL is returned; a local URL gets the parameters only; a Wikipedia URL whose page is saved becomes `/api/wiki/` plus the page, with the parameters; anything else is returned unchanged |
| UrlMapping.ConvertTaskUrlWithTextSpan | backend/utils/url_mapping.py:125-138 | an empty URL comes back as is; otherwise the result is the converted URL with the original URL's fragment carried over by `add_fragment_to_local_url`: with `#` and the fragment appended exactly when the original has a non-empty fragment and the converted URL has no `#`, and the converted URL unchanged otherwise |
| UrlMapping.TaskUrlOfSavedPage | backend/utils/url_mapping.py:125-138 | a saved page's Wikipedia URL with a fragment becomes the local URL with the parameters, then the fragment |
| UrlMapping.TaskUrlUnavailable | backend/utils/url_mapping.py:89-90 | a URL that is neither local nor saved comes back unchanged, fragment and all |
| PercentEncoding.Utf8RoundTrip | backend/utils/url_mapping.py:57 | decoding the UTF-8 bytes of a character gives the character back |
| PercentEncoding.PercentEncode | backend/utils/url_mapping.py:102 | every output character is a safe character or part of a `%XX` triplet |
| PercentEncoding.QuoteHasNoDelimiters | backend/utils/url_mapping.py:102-106 | `quote` output holds no `&`, `#`, `?`, `=` or space |
| PercentEncoding.UnquoteQuote | backend/utils/url_mapping.py:57 | `unquote(quote(s)) == s` |
| PercentEncoding.Quote | backend/utils/url_mapping.py:102-106 | the output holds only safe characters, `%` and upper-case hex digits; a string of safe characters is unchanged |
| PercentEncoding.Unquote | backend/utils/url_mapping.py:57 | never longer than its input; a string without `%` is unchanged |
| PercentEncoding.EncodeUriComponent | frontend/src/components/WikipediaEmbed.tsx:12 | the output holds only unreserved characters and `%`; a string of unreserved characters is unchanged |
| PercentEncoding.UnquoteEncode | frontend/src/components/WikipediaEmbed.tsx:12 | decoding a percent-encoding (with `%` not safe) gives the text back |
| WikipediaApi.RemoveSups | backend/api/wikipedia.py:40 | footnote markers removed; text without `<` unchanged |
| WikipediaApi.RemoveBrackets | backend/api/wikipedia.py:43 | afterwards no `[` has a `]` after it; text without `]` unchanged |
| WikipediaApi.ReplaceTags | backend/api/wikipedia.py:46 | afterwards every `<` followed later by a `>` is directly followed by it (the pattern no longer matches) |
| WikipediaApi.UnifyChar | backend/api/wikipedia.py:53-61 | the space, dash and quote substitutions keep word characters and make none |
| WikipediaApi.NormalizeTextForMatching | backend/api/wikipedia.py:27-72 | empty for empty input; only word characters |
| WikipediaApi.WordsOnly | backend/api/wikipedia.py:64-70 | dropping punctuation, collapsing and stripping whitespace and deleting spaces leaves exactly the word characters |
| WikipediaApi.UnifyInvisible | backend/api/wikipedia.py:53-61 | the substitutions do not change the word characters |
| WikipediaApi.NormalizeCharacterisation | backend/api/wikipedia.py:32-72 | normalisation is the word characters of the unescaped, cleaned, lower-cased text |
| WikipediaApi.CleanTarget | backend/api/wikipedia.py:87 | the cleaned target's only whitespace is single spaces |
| WikipediaApi.TextContent | backend/api/wikipedia.py:83-84 | the page text has no leading or trailing whitespace, and its only whitespace is single spaces; a page without `<` is only collapsed and stripped |
| WikipediaApi.ExactMatch | backend/api/wikipedia.py:90-95 | an exact-stage match agrees with the flexible-whitespace pattern |
| WikipediaApi.ExactStageMatches | backend/api/wikipedia.py:90-95 | once the case-insensitive containment holds, the pattern search finds a match |
| WikipediaApi.SplitWs | backend/api/wikipedia.py:162 | `split()` words are non-empty and hold no whitespace |
| WikipediaApi.SplitWsKeeps | backend/api/wikipedia.py:162 | the words concatenate to the non-whitespace characters |
| WikipediaApi.KeepKeywords | backend/api/wikipedia.py:162-163 | every keyword is longer than 4 and not a stop word |
| WikipediaApi.KeepKeywordsIff | backend/api/wikipedia.py:162-163 | a word is kept exactly when it is a keyword |
| WikipediaApi.Keywords | backend/api/wikipedia.py:162-163 | the keywords are exactly the whitespace-separated words of the target that are longer than 4 and not stop words |
| WikipediaApi.SplitSentences | backend/api/wikipedia.py:117 | the pieces of `re.split(r'[.!?]+')` hold no end mark |
| WikipediaApi.SplitSentencesKeeps | backend/api/wikipedia.py:117 | the pieces concatenate to the text without its end marks |
| WikipediaApi.FirstAccepted | backend/api/wikipedia.py:167-175 | the first sentence with at least 20 stripped characters and at least `min(2, len(keywords))` hits |
| WikipediaApi.FindKeywordSentence | backend/api/wikipedia.py:165-175 | the loop returns the first accepted sentence |
| WikipediaApi.KeywordStages | backend/api/wikipedia.py:161-178 | with keywords and an accepted sentence, the first accepted sentence, stripped, as a keyword match; otherwise the fallback's paragraph for the keywords as a paragraph match, or None exactly when the fallback has none |
| WikipediaApi.FindBestTextMatch | backend/api/wikipedia.py:74-178 | None for empty target or page; the exact stage's match whenever it has one, and it has one whenever the target occurs ignoring case; otherwise the earlier stages' match when there is one; otherwise exactly the keyword stage's first accepted sentence or the paragraph fallback |
| WikipediaApi.InsertIntoHeadAt | backend/api/wikipedia.py:367-373 | the block goes right after the first `<head>`; else as a new head after the first `<html>`; else in front; the rest is untouched |
| WikipediaApi.InsertIntoHead | backend/api/wikipedia.py:367-373 | the page grows by the block, plus the new `<head>`…`</head>` pair when only `<html>` is present |
| WikipediaApi.InsertedBlock | backend/api/wikipedia.py:367-373 | the block is always in the result |
| WikipediaApi.AddHighlightJavascript | backend/api/wikipedia.py:236-375 | unchanged for empty text; otherwise the block is inserted, after highlighting when a match is found |
| WikipediaApi.RewriteUploadSrc | backend/api/wikipedia.py:416-421 | the rewrite only adds characters |
| WikipediaApi.RewriteUploadTag | backend/api/wikipedia.py:416-421 | `src="//upload.wikimedia.org/x"` becomes `src="https://upload.wikimedia.org/x"` |
| WikipediaApi.RewriteNoUpload | backend/api/wikipedia.py:416-421 | text without an upload source is unchanged |
| WikipediaApi.ServeWikipediaPage | backend/api/wikipedia.py:620-659 | as written: a name with `..` or a leading `/` and a missing page both give 500; a served page is the file of the name, highlighted only when there is text and auto-scroll is on |
| WikipediaApi.IsUnsafeName | backend/api/wikipedia.py:632 | a name that passes has no two dots in a row and does not start with `/` |
| WikipediaApi.EncodedNamePasses | backend/api/wikipedia.py:632-642 | a name with its dots and slashes percent-encoded passes the check, yet maps to the file of the decoded name |
| WikipediaApi.TraversalAsWritten | backend/api/wikipedia.py:632-642 | any name starting with `../` (such as `../x`), sent with its non-word characters percent-encoded, passes the check and is served from outside the saved pages |
| WikipediaApi.ServeWikipediaPageChecked | backend/api/wikipedia.py:630-656 | corrected: 400 for a bad decoded name, 404 for a missing page; a served file lies inside the saved pages |
| WikipediaApi.StaticPathInside | backend/api/wikipedia.py:672 | a path without `..` stays inside the site directory |
| WikipediaApi.StaticPath | backend/api/wikipedia.py:672 | the path is the site directory or lies below it after a `/` |
| WikipediaApi.ServeStaticFile | backend/api/wikipedia.py:661-688 | as written: `..` and a missing file both give 500; a served file is present and inside the site directory |
| WikipediaApi.ServeStaticFileChecked | backend/api/wikipedia.py:666-685 | corrected: 400 for `..`, 404 for a missing file |
| WikipediaApi.RefusalsBecomeServerErrors | backend/api/wikipedia.py:632-633 | a `..` request gets 500 from both endpoints as written, 400 from the corrected ones |
| FlexPattern.MatchFrom | backend/wikipedia_processor.py:84-91 | matching the escaped text with `\s+` for each space, ignoring case, with greedy backtracking (pinned down by MatchGreedy) |
| FlexPattern.TrySpacesLongest | backend/wikipedia_processor.py:84-91 | backtracking over one `\s+` returns the match for the longest whitespace run after which the rest of the pattern matches |
| FlexPattern.MatchGreedy | backend/wikipedia_processor.py:84-91 | a space of the pattern ends at the longest prefix of the whitespace run that lets the rest match, as greedy `\s+` does |
| FlexPattern.TrailingSpaceTakesRun | backend/wikipedia_processor.py:84-91 | a pattern ending in a space matches through the whole whitespace run |
| FlexPattern.MatchComplete | backend/wikipedia_processor.py:84-91 | the engine finds a match whenever one exists |
| FlexPattern.SearchFrom | backend/wikipedia_processor.py:85-91 | `re.search` returns the leftmost start at which the pattern matches |
| FlexPattern.SearchLeftmost | backend/wikipedia_processor.py:85-91 | the search result is the leftmost match, and there is one exactly when the pattern matches somewhere |
| FlexPattern.LiteralAgrees | backend/api/wikipedia.py:90-93 | a case-insensitive occurrence of single-spaced text is a match |
| WikipediaProcessor.ExtractPageName | backend/wikipedia_processor.py:31-39 | "" unless the URL mentions `wikipedia.org`; the URL starts with the prefix plus the page |
| WikipediaProcessor.ExtractPageNameAgrees | backend/wikipedia_processor.py:33-39 | equal to the URL-mapping helper's page for every URL |
| WikipediaProcessor.GetLocalPath | backend/wikipedia_processor.py:41-44 | always a `.html` path |
| WikipediaProcessor.GetLocalPathAgrees | backend/wikipedia_processor.py:41-44 | the processor stores a page where the server looks for it |
| WikipediaProcessor.DownloadPage | backend/wikipedia_processor.py:46-76 | false without a page name; true when the page is already saved; otherwise exactly what the download reports |
| WikipediaProcessor.ExpandTemplate | backend/wikipedia_processor.py:85-91 | a template without a backslash is copied as it is |
| WikipediaProcessor.GroupZeroRef | backend/wikipedia_processor.py:85-91 | a `\g` reference is accepted exactly when it is `<`, one or more `0`s, then `>` (group 0, the only group of a pattern without groups) |
| WikipediaProcessor.RaisesWhateverMatch | backend/wikipedia_processor.py:85-91 | whether the template raises does not depend on the match, since it is checked before matching |
| WikipediaProcessor.GroupZeroThenPlain | backend/wikipedia_processor.py:85-91 | a group-0 reference followed by plain text expands to the match followed by that text |
| WikipediaProcessor.SubstituteFirst | backend/wikipedia_processor.py:85-91 | no match leaves the page unchanged |
| WikipediaProcessor.SubstituteFirstAt | backend/wikipedia_processor.py:85-91 | exactly the leftmost match is replaced |
| WikipediaProcessor.NoMatchIff | backend/wikipedia_processor.py:85-91 | no match exactly when no stretch of the page agrees with the pattern |
| WikipediaProcessor.InsertCss | backend/wikipedia_processor.py:119-122 | the block is inserted once |
| WikipediaProcessor.InsertCssAt | backend/wikipedia_processor.py:119-122 | the block goes right after the first `<head>`, else in front |
| WikipediaProcessor.InsertCssKeeps | backend/wikipedia_processor.py:119-122 | the insertion never breaks up a word without `>` |
| WikipediaProcessor.HighlightTextInHtml | backend/wikipedia_processor.py:78-124 | corrected: `(html, false)` when either input is empty |
| WikipediaProcessor.HighlightFound | backend/wikipedia_processor.py:84-124 | a match is replaced by the span holding the text verbatim, the block is inserted and success is reported |
| WikipediaProcessor.HighlightSuccessIff | backend/wikipedia_processor.py:94 | success exactly when the pattern matches or the page already had the class |
| WikipediaProcessor.HighlightedKeepsClass | backend/wikipedia_processor.py:94-122 | a successful page carries `wikifix-highlight` |
| WikipediaProcessor.HighlightFailure | backend/wikipedia_processor.py:94-124 | on failure the result is the substitution result, which is the input |
| WikipediaProcessor.HighlightTextInHtmlAsWritten | backend/wikipedia_processor.py:78-124 | as written, with the span as a `re.sub` template expanded against the matched stretch: `(html, false)` for an empty input, and otherwise an error exactly when the template is invalid |
| WikipediaProcessor.AsWrittenAgrees | backend/wikipedia_processor.py:85-91 | without a backslash in the text both versions agree |
| WikipediaProcessor.BadEscape | backend/wikipedia_processor.py:85-91 | an escape of an ASCII letter other than `\a \b \f \n \r \t \v` and `\g` is invalid |
| WikipediaProcessor.AsWrittenRaises | backend/wikipedia_processor.py:85-91 | a text starting with an unknown letter escape makes `re.sub` raise |
| WikipediaProcessor.AsWrittenGroupZero | backend/wikipedia_processor.py:85-124 | the text `\g<0>` is highlighted as written, with the span holding the matched stretch of the page |
| WikipediaProcessor.ProcessSide | backend/wikipedia_processor.py:165-192 | a side fails exactly when its page cannot be read; otherwise it is the highlighting of the page read, after the URL rewrite with the page name; a successful side carries the class |
| WikipediaProcessor.ProcessSingleTask | backend/wikipedia_processor.py:144-207 | a result exactly when all four fields are non-empty, both downloads succeed, both pages can be read and at least one side highlights; the success flags are the sides' own, and a side's highlighted page is kept exactly when that side succeeded |
| TaskStore.NewTask | backend/db/tasks_ops.py:15-27 | a new task is OPEN, with no completion recorded |
| TaskStore.NewUser | backend/db/user_ops.py:12-21 | a new user has 0 points and 0 completed tasks |
| TaskStore.Award | backend/db/tasks_ops.py:98 | 25 for disagreeing, 10 for agreeing |
| TaskStore.PointsEarnedIsAward | backend/main.py:287 | the points shown for a completed task equal its completion's award |
| TaskStore.PointsEarned | backend/main.py:287 | 10 exactly when the user agreed, 25 otherwise, including a task with no answer |
| TaskStore.OpenOf | backend/db/tasks_ops.py:43-48 | every listed task is OPEN and stored |
| TaskStore.OpenOfComplete | backend/db/tasks_ops.py:43-48 | every OPEN task is listed |
| TaskStore.DoneOf | backend/db/user_ops.py:92-100 | every listed task was completed by the user |
| TaskStore.DoneOfComplete | backend/db/user_ops.py:92-100 | every task the user completed is listed |
| TaskStore.DoneOfCount | backend/db/user_ops.py:45-47 | the user's counter is the number of tasks they completed |
| TaskStore.CompletionBalanced | backend/db/tasks_ops.py:91-101 | completing and crediting keeps every user's counters equal to the sums over their completed tasks |
| TaskStore.CreditIsTwoUpdates | backend/db/user_ops.py:41-47 | crediting is `add_points(award)` then `increment_completed_tasks()` |
| TaskStore.CompletionKeepsTables | backend/db/tasks_ops.py:91-95 | completing an open task keeps the tables well formed |
| TaskStore.Store.constructor | backend/db/tasks_ops.py:15-27 | empty tables, well formed and balanced |
| TaskStore.Store.AddTask | backend/db/tasks_ops.py:19-22 | inserts an OPEN task with the defaults; nothing else changes |
| TaskStore.Store.GetTask | backend/db/tasks_ops.py:29-34 | the stored row, or None |
| TaskStore.Store.OpenTasks | backend/db/tasks_ops.py:43-48 | exactly the OPEN tasks |
| TaskStore.Store.OpenTasksComplete | backend/db/tasks_ops.py:43-48 | every OPEN task is returned |
| TaskStore.Store.GetRandomOpenTask | backend/db/tasks_ops.py:50-62 | None exactly when no task is OPEN; otherwise some OPEN task |
| TaskStore.Store.AddPoints | backend/db/user_ops.py:41-43 | points rise by exactly k; nothing else changes |
| TaskStore.Store.IncrementCompletedTasks | backend/db/user_ops.py:45-47 | the counter rises by exactly 1; nothing else changes |
| TaskStore.Store.CompleteTask | backend/db/tasks_ops.py:64-107 | false, changing nothing, for a missing task, a missing user or a task that is not OPEN; otherwise the task becomes COMPLETED with the given answer and the user gains the award and one task; only those two rows change |
| TaskStore.Store.CompleteTaskTwice | backend/db/tasks_ops.py:82-91 | a second completion of the same task fails |
| TaskStore.Store.GetUserById | backend/db/user_ops.py:58-62 | None for an unknown id |
| TaskStore.Store.GetOrCreateUser | backend/db/user_ops.py:65-89 | an existing user with that address is returned unchanged; otherwise one new user with 0 points is created |
| TaskStore.Store.SignInTwice | backend/db/user_ops.py:73-89 | signing in twice with one address yields one record |
| TaskStore.Store.UserCompletedTasks | backend/db/user_ops.py:92-100 | the user's completed tasks, most recently updated first |
| TaskStore.Store.UserCompletedTasksExactly | backend/db/user_ops.py:96-99 | a task is listed exactly when the user completed it |
| TaskStore.Store.UserCompletedTasksCount | backend/db/user_ops.py:92-100 | the list is as long as the user's counter |
| Ordering.InsertDescSorted | backend/main.py:307 | inserting into a descending sequence keeps it descending |
| Ordering.SortDesc | backend/db/user_ops.py:99 | `ORDER BY … DESC`: the same rows, sorted |
| Ordering.SortDescMembers | backend/main.py:307 | a row is in the sorted result exactly when it is in the input |
| Ordering.InsertDescWithKey | backend/main.py:307 | an inserted row lands before the rows with its own key, after the rows with a greater one |
| Ordering.SortDescStable | backend/main.py:307 | the sort is stable: the rows with any one key keep their table order |
| Ordering.Window | backend/main.py:308-309 | SQLite `OFFSET`/`LIMIT`: a slice with at most `limit` rows (no limit when negative), starting at `offset` (0 when negative) |
| Ordering.WindowSorted | backend/main.py:305-311 | a window of a sorted sequence is sorted |
| Ordering.CountAbovePerm | backend/main.py:314-318 | the count of higher keys does not depend on order |
| Ordering.CountAboveSorted | backend/main.py:314-329 | in a sorted sequence, the first row of a tie run sits at the index counting the higher keys |
| Routes.CurrentUser | backend/main.py:37-56 | 401 unless the token verifies and names a known user; otherwise that user |
| Routes.Summaries | backend/main.py:138-147 | one summary per task, with the task's id and text and the fixed placeholders |
| Routes.GetTasks | backend/main.py:134-147 | 401, or the OPEN tasks |
| Routes.GetTasksListsEveryOpenTask | backend/main.py:137 | every OPEN task is listed |
| Routes.GetRandomTaskAsWritten | backend/main.py:150-165 | as written: 500 exactly when no task is OPEN; otherwise an OPEN task |
| Routes.GetRandomTask | backend/main.py:150-165 | corrected: 404 exactly when no task is OPEN; otherwise an OPEN task |
| Routes.GetTaskById | backend/main.py:169-186 | 401 first, then 404 for an unknown task; otherwise its detail with xp 25 and the text as claim |
| Routes.SubmitTask | backend/main.py:192-224 | 401 for a bad token; 400 exactly when the task is missing or not OPEN; on success the task is completed by the caller, the caller is credited and the platform totals rise by the award and one |
| Routes.Owner | backend/main.py:233-237 | 401 for a bad token, 403 for another user's id |
| Routes.CompletedTasksCount | backend/main.py:226-241 | the caller's own counter, or 401/403 |
| Routes.UserStats | backend/main.py:243-262 | the caller's points and counter, with badges 0 and rank 1, or 401/403 |
| Routes.Views | backend/main.py:280-290 | one view per task, with the stored answer and the points it earned |
| Routes.CompletedTasksList | backend/main.py:264-290 | the caller's completed tasks, most recent first, or 401/403 |
| Routes.CompletedTasksListExactly | backend/main.py:279 | a task is listed exactly when the caller completed it |
| Routes.CompletedMember | backend/main.py:279-290 | a listed task is a stored row the caller completed |
| Routes.CompletedTasksListPoints | backend/main.py:287 | each entry shows the award its completion gave |
| Routes.CompletedTasksListLength | backend/main.py:239-240 | the list is as long as the count endpoint says |
| Routes.Ranked | backend/main.py:305-307 | the users table ordered by points, highest first |
| Routes.CountRows | backend/main.py:314-318 | counting rows with more points counts the users with more points |
| Routes.RankCountsRows | backend/main.py:314-318 | the place of a user counted over the table's rows |
| Routes.DisplayName | backend/main.py:326 | the name, or the e-mail address when the name is missing or empty |
| Routes.Entries | backend/main.py:323-332 | entry `i` has rank `offset + i + 1` and the user's id, name, points and counter |
| Routes.Leaderboard | backend/main.py:292-333 | 401, or: the number of users; the caller's rank of 1 plus the users with strictly more points, between 1 and the number of users; at most `limit` entries sorted by points; entry `i` has rank `offset + i + 1` |
| Routes.LeaderboardEntry | backend/main.py:305-331 | entry `k` is the user at place `offset + k` of the full ordering |
| Routes.RankedPlace | backend/main.py:314-318 | the user heading a tie run has the place counting the users with more points |
| Routes.RankOf | backend/main.py:314-318 | a rank is between 1 and the number of users plus one |
| Routes.LeaderboardRankAgrees | backend/main.py:314-329 | for a non-negative offset, an entry opening a tie run shows the rank that user would see as their own |
| Routes.SumByUpdate | backend/main.py:344-349 | replacing one row changes a sum by that row's change |
| Routes.PlatformStats | backend/main.py:335-359 | the number of users, the sum of completed tasks and the sum of points over every user row, 0 when there are none |
| Routes.CreditRaisesTotals | backend/main.py:344-349 | crediting a user raises the point total by the award and the completion total by one |
| WikipediaEmbed.EncodedTextFacts | frontend/src/components/WikipediaEmbed.tsx:12 | the encoded text decodes back and holds only unreserved characters and `%XX` triplets, so no space, `#` or `&` |
| WikipediaEmbed.GetHighlightedUrl | frontend/src/components/WikipediaEmbed.tsx:9-14 | unchanged for empty text; otherwise the URL, then `#:~:text=`, then a payload that decodes to the text and holds no space, `#` or `&` |
| WikipediaEmbed.FinalUrl | frontend/src/components/WikipediaEmbed.tsx:16-19 | always extends the article URL; the article URL itself when the text is absent or empty |
| WikipediaEmbed.FinalUrlCarriesText | frontend/src/components/WikipediaEmbed.tsx:12-16 | the highlighted text can be read back from the final URL |
| Selection.Without | frontend/src/app/onboarding/topics/page.tsx:53 | `filter(t => t !== key)`: exactly the other elements, in order |
| Selection.WithoutNoDup | frontend/src/app/onboarding/topics/page.tsx:53 | dropping a key adds no duplicate |
| Selection.Toggle | frontend/src/app/onboarding/topics/page.tsx:27-29 | the key is present afterwards exactly when it was absent; other keys unchanged; an absent key is appended at the end; no duplicate is introduced |
| Selection.ToggleTwice | frontend/src/app/onboarding/topics/page.tsx:27-29 | toggling an absent key twice restores the selection |
| Selection.Keep | frontend/src/app/onboarding/topics/page.tsx:63-65 | `filter(p)`: the elements satisfying `p` |
| Selection.Drop | frontend/src/app/onboarding/topics/page.tsx:66-68 | `filter(!p)`: the elements not satisfying `p` |
| Selection.KeepDropPartition | frontend/src/app/onboarding/topics/page.tsx:61-70 | the two filters together hold every saved element exactly as often as the list does |
| TopicsOnboarding.TopicsPage.Load | frontend/src/app/onboarding/topics/page.tsx:59-71 | the saved list split in order into predefined and custom topics; Next is enabled exactly when a predefined topic was saved |
| TopicsOnboarding.TopicsPage.ToggleTopic | frontend/src/app/onboarding/topics/page.tsx:25-36 | the key toggled; storage holds the selection followed by the custom topics |
| TopicsOnboarding.TopicsPage.SetOtherTopics | frontend/src/app/onboarding/topics/page.tsx:115 | only the box changes |
| TopicsOnboarding.TopicsPage.KeyPress | frontend/src/app/onboarding/topics/page.tsx:38-50 | Enter without Shift adds the trimmed text when it is non-empty and new, saves and clears the box; otherwise nothing changes; no duplicate custom topic |
| TopicsOnboarding.TopicsPage.RemoveCustomTopic | frontend/src/app/onboarding/topics/page.tsx:52-57 | the topic dropped; storage holds the selection followed by the remaining custom topics |
| TopicsOnboarding.TopicsPage.CanProceed | frontend/src/app/onboarding/topics/page.tsx:154 | with only predefined tiles selected, Next is enabled exactly when some predefined topic is selected |
| LanguageOnboarding.LanguagePage.Load | frontend/src/app/onboarding/language/page.tsx:68-72 | the saved list, or nothing selected |
| LanguageOnboarding.LanguagePage.ToggleLanguage | frontend/src/app/onboarding/language/page.tsx:55-66 | the code toggled, no duplicate introduced, storage equals the new selection |
| LanguageOnboarding.LanguagePage.CanProceed | frontend/src/app/onboarding/language/page.tsx:125 | Next is enabled exactly when some language is selected |
| LanguageOnboarding.ToggleBackAndForth | frontend/src/app/onboarding/language/page.tsx:55-66 | selecting a language and clicking it again restores the selection and storage |
| UsernameOnboarding.ValidateUsername | frontend/src/app/onboarding/username/page.tsx:28-74 | valid implies exists; valid exactly when the trimmed name is non-empty and the lookup found a user that is neither missing nor invalid and has a truthy id; a blank name gives "Please enter a username" |
| UsernameOnboarding.VerifiedNotBlank | frontend/src/app/onboarding/username/page.tsx:29-31 | a verified name is not blank |
| UsernameOnboarding.UsernamePage.constructor | frontend/src/app/onboarding/username/page.tsx:156-166 | a non-empty saved name is put in the box and looked up |
| UsernameOnboarding.UsernamePage.ChangeUsername | frontend/src/app/onboarding/username/page.tsx:77-107 | the verdict is cleared; a lookup is scheduled only for non-blank text |
| UsernameOnboarding.UsernamePage.FinishLookupAsWritten | frontend/src/app/onboarding/username/page.tsx:90-94 | as written: a finished lookup sets the verdict whatever the box now holds |
| UsernameOnboarding.UsernamePage.FinishLookup | frontend/src/app/onboarding/username/page.tsx:90-105 | corrected: the verdict is set only while the box still holds the looked-up name |
| UsernameOnboarding.UsernamePage.ToggleSkip | frontend/src/app/onboarding/username/page.tsx:110-124 | turning skip on clears the box and the verdict; turning it off changes nothing else |
| UsernameOnboarding.UsernamePage.Next | frontend/src/app/onboarding/username/page.tsx:138-154 | the name is stored exactly when not skipping, the box is non-empty and the verdict is valid; otherwise the entry is removed |
| UsernameOnboarding.UsernamePage.CanProceed | frontend/src/app/onboarding/username/page.tsx:168 | when not skipping, with a verdict about the name in the box, Next is enabled only for a non-blank verified name |
| UsernameOnboarding.StaleVerdictAsWritten | frontend/src/app/onboarding/username/page.tsx:77-168 | as written, a non-blank name typed and then replaced by a blank one leaves the blank name able to proceed and stored, although a lookup of the blank name is never valid |
| UsernameOnboarding.BlankAfterName | frontend/src/app/onboarding/username/page.tsx:89-105 | `"Jimbo"` is non-blank and `" "` is a non-empty blank, so they show the stale verdict |
| UsernameOnboarding.EditsThenNext | frontend/src/app/onboarding/username/page.tsx:77-168 | corrected: after any sequence of edits, finished lookups (in any order) and skip toggles, Next stores only the name in the box, not skipping, and that name is non-blank and itself verified |

## Left out

- I/O is not modelled: the database session, `asyncio.sleep`, file reads and writes, `wget`, and the `print` logging. File existence, downloads and reads are parameters.
- JWT encoding and decoding (`backend/db/user_ops.py:23-39`) is not modelled. The route models take the verified subject, or None, as a parameter.
- The Google OAuth endpoints and the other routes outside the ones listed above are not modelled.
- The rounded floating-point average of the platform statistics (`backend/main.py:352`) is left out. The integer totals are modelled.
- The sentence, fuzzy and context stages of `find_best_text_match` (`SequenceMatcher` ratios) are not modelled; their outcome is a parameter. `find_paragraph_fallback` is not modelled either; it is a parameter given the keywords.
- The BeautifulSoup highlighting of `highlight_text_in_html` in `backend/api/wikipedia.py` is a parameter.
- `fix_html_content` is modelled only in its upload.wikimedia rewrite. Its other rewrites are a parameter (`fixUrls`) in the processor model. The CSS and script blocks are parameters, not literals.
- `html.unescape` is a parameter.
- Python `\w`, `.lower()`, `.isupper()` and `re.IGNORECASE` use ASCII letters only in the model. Non-ASCII letters are treated as non-word characters, and their case is not folded.
- PercentEncoding.Unquote: decoded `%XX` bytes that are not valid UTF-8 are kept as written, where Python substitutes U+FFFD (for example `%C3%28` gives `%C3(` here); an invalid `%` sequence such as `%zz` or a trailing `%4` is kept as written, as in Python.
- Lone surrogates in `encodeURIComponent` cannot occur, because Dafny characters are Unicode scalar values.
- The JSON encoding of browser storage and malformed stored JSON are left out. Storage holds the decoded list.
- Analytics tracking, timers and debouncing, loading spinners and router navigation on the onboarding pages are left out.
- TopicsOnboarding.TopicsPage.ToggleTopic saves with the current custom topics, where the source saves those captured by the handler's closure. The two are the same between renders.
- Requests are modelled as handled one at a time. `complete_task` and the user updates read a row, check it and write it back in separate steps that are not atomic, so two concurrent completions of one task could both pass the OPEN check and both credit points; the model does not capture that interleaving.
- TaskStore.Store.CompleteTask applies the combined credit in one update of the user row. TaskStore.CreditIsTwoUpdates proves that this equals `add_points` followed by `increment_completed_tasks`.
- TaskStore.Store.GetOrCreateUser takes the new user's id as a parameter, with a precondition that it is not in use. It stands for the UUID default.
- Rows with equal sort keys come back in table order. SQL leaves that order unspecified.
- Routes.LeaderboardRankAgrees holds only for a non-negative offset and for an entry that opens a run of equal points. With a negative offset the displayed ranks (`offset + i + 1`) differ from the places, as in the source.
- WikipediaProcessor.ProcessSingleTask uses the corrected highlighter (see Findings).
- WikipediaProcessor.GroupZeroRef: a group name of non-ASCII decimal zeros, which Python accepted before 3.12, is treated as an error.
- `process_anli_file`, `create_task_in_db` and `get_local_html_content` are I/O loops over the database and files, and are not modelled.
- The language codes table of the language page and the topic labels are not needed by any property. Only the eight topic keys are modelled.
- The embed widget's iframe loading and the "open in new tab" click are left out. Both use `finalUrl`, which is modelled.

## Findings

| source | as written | input that shows it | evidently intended | confidence | as-written member | corrected member |
|---|---|---|---|---|---|---|
| backend/api/wikipedia.py:632-642 | the `..` check runs on the decoded path, then `local_url_to_file_path` decodes the name a second time | a page request whose path segment is `%252E%252E%252Fx` is served from `saved_site/en.wikipedia.org/wiki/../x.html` | the check applies to the name actually used for the file | not executed | WikipediaApi.TraversalAsWritten | WikipediaApi.ServeWikipediaPageChecked |
| backend/api/wikipedia.py:666-688 | the 400 and 404 `HTTPException`s are raised inside a blanket `except Exception`, which turns them into 500 | a static-file request whose path contains `..` answers 500 | 400 for `..`, 404 for a missing file | not executed | WikipediaApi.RefusalsBecomeServerErrors | WikipediaApi.ServeStaticFileChecked |
| frontend/src/app/onboarding/username/page.tsx:89-105 | the cleanup returned from the change handler is ignored, so a pending lookup lands after later edits | type "Jimbo", then replace it by " " before the lookup returns; Next stores " " as verified | a verdict applies only to the name still in the box | not executed | UsernameOnboarding.StaleVerdictAsWritten | UsernameOnboarding.EditsThenNext |
| backend/wikipedia_processor.py:85-91 | the span holding the text is passed to `re.sub` as a replacement template | text `\d` on any non-empty page makes `re.sub` raise "bad escape" | the text is inserted verbatim | not executed | WikipediaProcessor.AsWrittenRaises | WikipediaProcessor.HighlightFound |
| backend/main.py:150-165 | with no OPEN task, the handler reads `task.id` of `None` | `GET /api/tasks/rand` when every task is completed answers 500 | a not-found answer | not executed | Routes.GetRandomTaskAsWritten | Routes.GetRandomTask |
