/** The HTML-aware sentence splitter: a first scan cuts HTML at block-element tags, a second
    cuts each content chunk after `.`, `!` or `?` while no inline tag is open. */
module HtmlSentenceSplitter {
  import opened Text

  /** Tags that create natural boundaries. */
  const BlockElements: seq<string> := [
    "p", "div", "h1", "h2", "h3", "h4", "h5", "h6",
    "li", "ul", "ol", "section", "article", "header",
    "footer", "main", "aside", "figure", "figcaption",
    "blockquote", "pre", "table", "tr", "td", "th"
  ]

  /** Void elements, which never open a nesting level. */
  const SelfClosing: seq<string> := [
    "img", "br", "hr", "input", "meta", "link", "area",
    "base", "col", "embed", "source", "track", "wbr"
  ]

  /** `name` is one of `names`, checked one entry at a time. */
  predicate Listed(name: string, names: seq<string>)
    decreases |names|
  {
    names != [] && (names[0] == name || Listed(name, names[1..]))
  }

  /** Checking the entries one at a time is membership. */
  lemma {:induction false} ListedIsMember(name: string, names: seq<string>)
    ensures Listed(name, names) <==> name in names
  {
    if names != [] {
      ListedIsMember(name, names[1..]);
      assert names == [names[0]] + names[1..];
    }
  }

  predicate IsSentenceEnding(c: char) { c == '.' || c == '!' || c == '?' }

  /** The whitespace the look-ahead after a sentence ending skips. */
  predicate IsLookaheadSpace(c: char) { c == ' ' || c == '\t' || c == '\n' || c == '\r' }

  datatype HtmlChunk = HtmlChunk(content: string, isBlockBoundary: bool)

  // ---------------------------------------------------------------------------
  // Tag heads: the `<(/?)(\w+)` prefix

  /** Length of the run of word characters starting at `i`. */
  function WordRun(s: string, i: nat): (n: nat)
    decreases |s| - i
    ensures n == 0 || i + n <= |s|
    ensures forall k :: i <= k < i + n ==> IsWordChar(s[k])
    ensures i + n < |s| ==> !IsWordChar(s[i + n])
  {
    if i < |s| && IsWordChar(s[i]) then 1 + WordRun(s, i + 1) else 0
  }

  datatype TagHead = TagHead(closing: bool, name: string)

  function HeadText(h: TagHead): string { (if h.closing then "</" else "<") + h.name }

  /** The match of `<(/?)(\w+)` (equivalently `</?(\w+)`) at the start of `tag`. */
  function TagHeadOf(tag: string): (r: Option<TagHead>)
    ensures r.Some? ==> r.value.name != [] && forall k :: 0 <= k < |r.value.name| ==> IsWordChar(r.value.name[k])
  {
    if |tag| < 2 || tag[0] != '<' then None
    else if tag[1] == '/' then
      if WordRun(tag, 2) > 0 then Some(TagHead(true, tag[2..2 + WordRun(tag, 2)])) else None
    else if WordRun(tag, 1) > 0 then Some(TagHead(false, tag[1..1 + WordRun(tag, 1)]))
    else None
  }

  /** `TagHeadOf` is the regular-expression match: `<`, an optional `/`, then the longest
      non-empty run of word characters; there is no match exactly when neither `<` nor `</`
      is followed by a word character. */
  lemma TagHeadMatches(tag: string)
    ensures TagHeadOf(tag).Some? ==> StartsWith(tag, HeadText(TagHeadOf(tag).value))
    ensures TagHeadOf(tag).Some? && |HeadText(TagHeadOf(tag).value)| < |tag| ==>
      !IsWordChar(tag[|HeadText(TagHeadOf(tag).value)|])
    ensures TagHeadOf(tag).None? <==>
      !(2 <= |tag| && tag[0] == '<' && IsWordChar(tag[1]))
      && !(3 <= |tag| && tag[0] == '<' && tag[1] == '/' && IsWordChar(tag[2]))
  {
    if 2 <= |tag| && tag[0] == '<' && tag[1] == '/' && WordRun(tag, 2) > 0 {
      var n := WordRun(tag, 2);
      assert tag[..2 + n] == "</" + tag[2..2 + n];
    } else if |tag| > 0 && tag[0] == '<' && WordRun(tag, 1) > 0 {
      var n := WordRun(tag, 1);
      assert tag[..1 + n] == "<" + tag[1..1 + n];
    }
  }

  /** The lower-cased tag name, or "" when `tag` has no tag head. */
  function LowerName(tag: string): string {
    match TagHeadOf(tag)
    case None => ""
    case Some(h) => AsciiLowerStr(h.name)
  }

  /** `_is_block_boundary`: the tag's name is a block element, in either case, opening or closing. */
  predicate IsBlockBoundary(tag: string)
    ensures IsBlockBoundary(tag) ==> |tag| >= 2 && tag[0] == '<'
  {
    TagHeadOf(tag).Some? && Listed(LowerName(tag), BlockElements)
  }

  /** A tag is a block boundary exactly when its lower-cased name is a block element. */
  lemma BlockBoundaryIff(tag: string)
    ensures IsBlockBoundary(tag) <==> TagHeadOf(tag).Some? && LowerName(tag) in BlockElements
  {
    ListedIsMember(LowerName(tag), BlockElements);
  }

  /** One `<...>` tag: starts with `<` and its only `>` is the last character. */
  predicate IsCompleteTag(t: string) {
    2 <= |t| && t[0] == '<' && t[|t| - 1] == '>' && forall k :: 0 <= k < |t| - 1 ==> t[k] != '>'
  }

  // ---------------------------------------------------------------------------
  // The tag stack

  /** A tag that leaves the stack alone whatever it is: void, or written `.../>`. */
  predicate IsSelfClosingTag(tag: string) {
    Listed(LowerName(tag), SelfClosing) || EndsWith(tag, "/>")
  }

  /** `_update_tag_stack`. */
  function UpdateTagStack(tag: string, stack: seq<string>): (r: seq<string>)
    ensures r != stack ==> TagHeadOf(tag).Some? && !IsSelfClosingTag(tag)
    ensures r != stack && !TagHeadOf(tag).value.closing ==> r == stack + [LowerName(tag)]
    ensures r != stack && TagHeadOf(tag).value.closing ==>
      stack != [] && stack[|stack| - 1] == LowerName(tag) && r == stack[..|stack| - 1]
    ensures TagHeadOf(tag).Some? && !IsSelfClosingTag(tag) && !TagHeadOf(tag).value.closing ==> r != stack
    ensures (TagHeadOf(tag).Some? && !IsSelfClosingTag(tag) && TagHeadOf(tag).value.closing
             && stack != [] && stack[|stack| - 1] == LowerName(tag)) ==> r != stack
  {
    match TagHeadOf(tag)
    case None => stack
    case Some(h) =>
      if IsSelfClosingTag(tag) then stack
      else if h.closing then
        if stack != [] && stack[|stack| - 1] == LowerName(tag) then stack[..|stack| - 1] else stack
      else stack + [LowerName(tag)]
  }

  /** What the stack may hold: lower-case names of non-void elements. */
  predicate IsStackEntry(n: string) {
    n != [] && !Listed(n, SelfClosing)
    && forall k :: 0 <= k < |n| ==> IsWordChar(n[k]) && !IsAsciiUpper(n[k])
  }

  lemma LowerNameIsEntry(tag: string)
    requires TagHeadOf(tag).Some? && !IsSelfClosingTag(tag)
    ensures IsStackEntry(LowerName(tag))
  {
    var n := TagHeadOf(tag).value.name;
    forall k | 0 <= k < |n| ensures IsWordChar(AsciiLowerStr(n)[k]) && !IsAsciiUpper(AsciiLowerStr(n)[k]) {
      assert IsWordChar(n[k]);
    }
  }

  /** Every update keeps the stack made of well-formed entries. */
  lemma UpdateKeepsEntries(tag: string, stack: seq<string>)
    requires forall k :: 0 <= k < |stack| ==> IsStackEntry(stack[k])
    ensures forall k :: 0 <= k < |UpdateTagStack(tag, stack)| ==> IsStackEntry(UpdateTagStack(tag, stack)[k])
  {
    var r := UpdateTagStack(tag, stack);
    if r != stack && !TagHeadOf(tag).value.closing {
      LowerNameIsEntry(tag);
    }
  }

  /** The word run from `i` ends at the first non-word character `j`. */
  lemma {:induction false} WordRunUpTo(s: string, i: nat, j: nat)
    requires i <= j < |s| && !IsWordChar(s[j])
    requires forall k :: i <= k < j ==> IsWordChar(s[k])
    ensures WordRun(s, i) == j - i
    decreases j - i
  {
    if i < j {
      WordRunUpTo(s, i + 1, j);
    }
  }

  lemma WordRunOfTag(n: string, prefix: string)
    requires n != [] && forall k :: 0 <= k < |n| ==> IsWordChar(n[k])
    ensures WordRun(prefix + n + ">", |prefix|) == |n|
  {
    var s := prefix + n + ">";
    forall k | |prefix| <= k < |prefix| + |n| ensures IsWordChar(s[k]) {
      assert s[k] == n[k - |prefix|];
    }
    assert s[|prefix| + |n|] == '>';
    WordRunUpTo(s, |prefix|, |prefix| + |n|);
  }

  lemma AsciiLowerIdempotent(n: string)
    requires forall k :: 0 <= k < |n| ==> !IsAsciiUpper(n[k])
    ensures AsciiLowerStr(n) == n
  {
  }

  /** A tag ending in a word character and `>` is not written `.../>`. */
  lemma NoSlashBeforeEnd(prefix: string, n: string)
    requires n != [] && IsWordChar(n[|n| - 1])
    ensures !EndsWith(prefix + n + ">", "/>")
  {
    var s := prefix + n + ">";
    assert s[|s| - 2] == n[|n| - 1];
  }

  /** A tag whose second character is not `/` is an opening tag named by its word run. */
  lemma OpeningHead(tag: string, n: string)
    requires 2 <= |tag| && tag[0] == '<' && tag[1] != '/'
    requires WordRun(tag, 1) == |n| > 0 && tag[1..1 + |n|] == n
    ensures TagHeadOf(tag) == Some(TagHead(false, n))
  {
  }

  /** `<n>` for a stack entry `n` opens `n`. */
  lemma OpenTagOf(n: string)
    requires IsStackEntry(n)
    ensures var open := "<" + n + ">";
      TagHeadOf(open) == Some(TagHead(false, n)) && LowerName(open) == n && !IsSelfClosingTag(open)
  {
    var open := "<" + n + ">";
    WordRunOfTag(n, "<");
    assert open[1] == n[0] != '/' by { assert IsWordChar(n[0]); }
    assert open[1..1 + |n|] == n;
    OpeningHead(open, n);
    AsciiLowerIdempotent(n);
    NoSlashBeforeEnd("<", n);
  }

  /** `</n>` for a stack entry `n` closes `n`. */
  lemma CloseTagOf(n: string)
    requires IsStackEntry(n)
    ensures var close := "</" + n + ">";
      TagHeadOf(close) == Some(TagHead(true, n)) && LowerName(close) == n && !IsSelfClosingTag(close)
  {
    var close := "</" + n + ">";
    WordRunOfTag(n, "</");
    assert close[1] == '/';
    assert close[2..2 + |n|] == n;
    AsciiLowerIdempotent(n);
    NoSlashBeforeEnd("</", n);
  }

  /** Opening a non-void element and then closing it gives the stack back. */
  lemma PushThenPop(n: string, stack: seq<string>)
    requires IsStackEntry(n)
    ensures UpdateTagStack("</" + n + ">", UpdateTagStack("<" + n + ">", stack)) == stack
  {
    OpenTagOf(n);
    CloseTagOf(n);
    PushPop("<" + n + ">", "</" + n + ">", n, stack);
  }

  /** An opening tag pushes its name and a closing tag of the same name pops it. */
  lemma PushPop(open: string, close: string, n: string, stack: seq<string>)
    requires TagHeadOf(open) == Some(TagHead(false, n)) && LowerName(open) == n && !IsSelfClosingTag(open)
    requires TagHeadOf(close) == Some(TagHead(true, n)) && LowerName(close) == n && !IsSelfClosingTag(close)
    ensures UpdateTagStack(close, UpdateTagStack(open, stack)) == stack
  {
    var pushed := UpdateTagStack(open, stack);
    assert pushed == stack + [n];
    assert pushed[..|stack|] == stack;
  }

  // ---------------------------------------------------------------------------
  // Tokens: both scans read a complete `<...>` tag at once and any other character alone

  /** The index of the `>` closing the tag that starts at `i`, if `s[i]` is `<` and one follows. */
  function TagEndAt(s: string, i: nat): (r: Option<nat>)
    requires i < |s|
    ensures r.Some? ==> i < r.value < |s| && IsCompleteTag(s[i..r.value + 1])
    ensures r.None? ==> s[i] != '<' || forall k :: i <= k < |s| ==> s[k] != '>'
  {
    if s[i] == '<' then FindFrom(s, '>', i) else None
  }

  /** Where the token starting at `i` ends. */
  function Next(s: string, i: nat): (n: nat)
    requires i < |s|
    ensures i < n <= |s|
  {
    match TagEndAt(s, i)
    case Some(e) => e + 1
    case None => i + 1
  }

  /** The tags among the tokens from `i` on that `keep` selects, in order. */
  function TagsWhere(s: string, i: nat, keep: string -> bool): seq<string>
    decreases |s| - i
  {
    if i >= |s| then []
    else match TagEndAt(s, i)
      case Some(e) => (if keep(s[i..e + 1]) then [s[i..e + 1]] else []) + TagsWhere(s, e + 1, keep)
      case None => TagsWhere(s, i + 1, keep)
  }

  /** The block-boundary tags among the tokens from `i` on. */
  function BlockTagsFrom(s: string, i: nat): seq<string> {
    TagsWhere(s, i, IsBlockBoundary)
  }

  lemma TagsPlain(s: string, i: nat, keep: string -> bool)
    requires i < |s| && TagEndAt(s, i).None?
    ensures TagsWhere(s, i, keep) == TagsWhere(s, i + 1, keep)
  {
  }

  lemma TagsSkip(s: string, i: nat, e: nat, keep: string -> bool)
    requires i < |s| && TagEndAt(s, i) == Some(e) && !keep(s[i..e + 1])
    ensures TagsWhere(s, i, keep) == TagsWhere(s, e + 1, keep)
  {
  }

  lemma TagsTake(s: string, i: nat, e: nat, keep: string -> bool)
    requires i < |s| && TagEndAt(s, i) == Some(e) && keep(s[i..e + 1])
    ensures TagsWhere(s, i, keep) == [s[i..e + 1]] + TagsWhere(s, e + 1, keep)
  {
  }

  /** The tag stack after the token starting at `i`. */
  function Step(s: string, i: nat, stack: seq<string>): seq<string>
    requires i < |s|
  {
    match TagEndAt(s, i)
    case Some(e) => UpdateTagStack(s[i..e + 1], stack)
    case None => stack
  }

  /** A complete tag is one token, and it updates the stack. */
  lemma TokenAtTag(s: string, i: nat, e: nat, stack: seq<string>)
    requires i < |s| && TagEndAt(s, i) == Some(e)
    ensures Next(s, i) == e + 1 && Step(s, i, stack) == UpdateTagStack(s[i..e + 1], stack)
  {
  }

  /** The token scan starting at `a` stops at `p`. */
  predicate Reaches(s: string, a: nat, p: nat)
    decreases p - a
  {
    a == p || (a < p && a < |s| && Reaches(s, Next(s, a), p))
  }

  /** The tag stack when the scan from `a` with `stack` reaches `p`. */
  function StackFrom(s: string, a: nat, p: nat, stack: seq<string>): seq<string>
    decreases |s| - a
  {
    if a >= p || a >= |s| then stack else StackFrom(s, Next(s, a), p, Step(s, a, stack))
  }

  /** The tag stack of a scan of `s` from its start, on reaching `p`. */
  function StackAt(s: string, p: nat): seq<string> { StackFrom(s, 0, p, []) }

  lemma {:induction false} StackFromStep(s: string, a: nat, i: nat, stack: seq<string>)
    requires Reaches(s, a, i) && i < |s|
    ensures Reaches(s, a, Next(s, i))
    ensures StackFrom(s, a, Next(s, i), stack) == Step(s, i, StackFrom(s, a, i, stack))
    decreases i - a
  {
    if a != i {
      StackFromStep(s, Next(s, a), i, Step(s, a, stack));
    }
  }

  /** A complete tag is one token, which updates the stack. */
  lemma StackAtTag(s: string, i: nat, e: nat)
    requires Reaches(s, 0, i) && i < |s| && TagEndAt(s, i) == Some(e)
    ensures Reaches(s, 0, e + 1) && StackAt(s, e + 1) == UpdateTagStack(s[i..e + 1], StackAt(s, i))
  {
    TokenAtTag(s, i, e, StackAt(s, i));
    StackFromStep(s, 0, i, []);
  }

  /** Characters other than `<` are single tokens that leave the stack alone. */
  lemma {:induction false} SkipPlain(s: string, i: nat, j: nat)
    requires Reaches(s, 0, i) && i <= j <= |s|
    requires forall k :: i <= k < j ==> s[k] != '<'
    ensures Reaches(s, 0, j) && StackAt(s, j) == StackAt(s, i)
    decreases j - i
  {
    if i < j {
      SkipOne(s, i);
      SkipPlain(s, i + 1, j);
    }
  }

  lemma SkipOne(s: string, i: nat)
    requires Reaches(s, 0, i) && i < |s| && s[i] != '<'
    ensures Reaches(s, 0, i + 1) && StackAt(s, i + 1) == StackAt(s, i)
  {
    assert TagEndAt(s, i).None?;
    StackFromStep(s, 0, i, []);
  }

  // ---------------------------------------------------------------------------
  // The block scan

  /** A prefix is the shorter prefix followed by the slice between them. */
  lemma PrefixSplit(s: string, i: nat, j: nat)
    requires i <= j <= |s|
    ensures s[..j] == s[..i] + s[i..j]
  {
  }

  lemma Assoc<T>(a: seq<T>, b: seq<T>, c: seq<T>)
    ensures a + (b + c) == (a + b) + c
  {
  }

  /** Moving one element from the front of a tail to the end of its head. */
  lemma ShiftOne<T>(head: seq<T>, x: T, rest: seq<T>, tail: seq<T>, whole: seq<T>, head': seq<T>)
    requires head + tail == whole && tail == [x] + rest && head' == head + [x]
    ensures head' + rest == whole
  {
    assert head + ([x] + rest) == (head + [x]) + rest;
  }

  /** With nothing pending, adding a piece to both sides keeps them equal. */
  lemma ExtendEmpty<T>(a: seq<T>, p: seq<T>, b: seq<T>, b': seq<T>, a': seq<T>)
    requires a + [] == b && b' == b + p && a' == a + p
    ensures a' + [] == b'
  {
    assert a + [] == a;
    assert a' + [] == a';
  }

  lemma AppendNothing<T>(a: seq<T>)
    ensures a + [] == a
  {
  }

  function Joined(chunks: seq<HtmlChunk>): string {
    if chunks == [] then [] else Joined(chunks[..|chunks| - 1]) + chunks[|chunks| - 1].content
  }

  /** The contents of the boundary chunks, in order. */
  function Boundaries(chunks: seq<HtmlChunk>): seq<string> {
    if chunks == [] then []
    else
      var last := chunks[|chunks| - 1];
      Boundaries(chunks[..|chunks| - 1]) + (if last.isBlockBoundary then [last.content] else [])
  }

  /** A boundary chunk is one complete block tag; a content chunk is non-empty. */
  predicate ChunkOk(ch: HtmlChunk) {
    if ch.isBlockBoundary then IsCompleteTag(ch.content) && IsBlockBoundary(ch.content)
    else ch.content != []
  }

  predicate ChunksWellFormed(chunks: seq<HtmlChunk>) {
    (forall k {:trigger ChunkOk(chunks[k])} :: 0 <= k < |chunks| ==> ChunkOk(chunks[k]))
    && (forall k :: 0 <= k < |chunks| - 1 ==> chunks[k].isBlockBoundary || chunks[k + 1].isBlockBoundary)
  }

  /** Appending one chunk extends the joined text and the boundary list by that chunk. */
  lemma AppendChunk(chunks: seq<HtmlChunk>, ch: HtmlChunk)
    requires ChunksWellFormed(chunks) && ChunkOk(ch)
    requires !ch.isBlockBoundary ==> chunks == [] || chunks[|chunks| - 1].isBlockBoundary
    ensures Joined(chunks + [ch]) == Joined(chunks) + ch.content
    ensures Boundaries(chunks + [ch]) == Boundaries(chunks) + (if ch.isBlockBoundary then [ch.content] else [])
    ensures ChunksWellFormed(chunks + [ch])
  {
    AppendLast(chunks, ch);
    AppendWellFormed(chunks, ch);
  }

  /** The recursive functions over chunks peel the last chunk off. */
  lemma AppendLast(chunks: seq<HtmlChunk>, ch: HtmlChunk)
    ensures Joined(chunks + [ch]) == Joined(chunks) + ch.content
    ensures Boundaries(chunks + [ch]) == Boundaries(chunks) + (if ch.isBlockBoundary then [ch.content] else [])
  {
    assert (chunks + [ch])[..|chunks|] == chunks;
  }

  lemma AppendWellFormed(chunks: seq<HtmlChunk>, ch: HtmlChunk)
    requires ChunksWellFormed(chunks) && ChunkOk(ch)
    requires !ch.isBlockBoundary ==> chunks == [] || chunks[|chunks| - 1].isBlockBoundary
    ensures ChunksWellFormed(chunks + [ch])
  {
    var all := chunks + [ch];
    forall k | 0 <= k < |all| ensures ChunkOk(all[k]) {
      if k < |chunks| { assert all[k] == chunks[k]; }
    }
    forall k | 0 <= k < |all| - 1 ensures all[k].isBlockBoundary || all[k + 1].isBlockBoundary {
      assert all[k] == chunks[k];
      if k + 1 < |chunks| { assert all[k + 1] == chunks[k + 1]; }
    }
  }

  /** Where the block scan stands after reading `html[..i]`, with `current` not yet flushed;
      `total` is the list of block tags of the whole input. */
  predicate BlockScanCore(html: string, i: nat, chunks: seq<HtmlChunk>, current: string, total: seq<string>) {
    i <= |html|
    && Joined(chunks) + current == html[..i]
    && ChunksWellFormed(chunks)
    && Boundaries(chunks) + BlockTagsFrom(html, i) == total
  }

  /** Between tokens the last chunk, if any, is a boundary chunk. */
  predicate BlockScan(html: string, i: nat, chunks: seq<HtmlChunk>, current: string, total: seq<string>) {
    BlockScanCore(html, i, chunks, current, total)
    && (chunks != [] ==> chunks[|chunks| - 1].isBlockBoundary)
  }

  /** `current` becomes a content chunk, if it holds anything. */
  function Flush(chunks: seq<HtmlChunk>, current: string): seq<HtmlChunk> {
    if current != [] then chunks + [HtmlChunk(current, false)] else chunks
  }

  /** The chunks of `html` from token `i` on, with `current` pending, when `block` tells the
      block tags: a block tag flushes the pending content and becomes a boundary chunk; any
      other token joins the pending content; at the end the pending content is flushed. */
  function BlocksFrom(html: string, i: nat, current: string, block: string -> bool): seq<HtmlChunk>
    decreases |html| - i
  {
    if i >= |html| then Flush([], current)
    else match TagEndAt(html, i)
      case Some(e) =>
        var tag := html[i..e + 1];
        if block(tag) then Flush([], current) + [HtmlChunk(tag, true)] + BlocksFrom(html, e + 1, [], block)
        else BlocksFrom(html, e + 1, current + tag, block)
      case None => BlocksFrom(html, i + 1, current + [html[i]], block)
  }

  /** The block chunks of `html`. */
  function BlocksOf(html: string): seq<HtmlChunk> { BlocksFrom(html, 0, [], IsBlockBoundary) }

  /** The chunks flushed so far followed by those still to come are the block chunks. */
  predicate BlocksFollow(html: string, i: nat, chunks: seq<HtmlChunk>, current: string) {
    chunks + BlocksFrom(html, i, current, IsBlockBoundary) == BlocksOf(html)
  }

  /** Flushing onto a list is appending the flush of the pending content alone. */
  lemma FlushFront(chunks: seq<HtmlChunk>, current: string)
    ensures Flush(chunks, current) == chunks + Flush([], current)
  {
  }

  /** A block tag: the pending content and the tag are flushed, and nothing is pending. */
  lemma FollowBoundary(html: string, i: nat, e: nat, chunks: seq<HtmlChunk>, current: string,
                       block: string -> bool, whole: seq<HtmlChunk>)
    requires chunks + BlocksFrom(html, i, current, block) == whole
    requires i < |html| && TagEndAt(html, i) == Some(e) && block(html[i..e + 1])
    ensures Flush(chunks, current) + [HtmlChunk(html[i..e + 1], true)] + BlocksFrom(html, e + 1, [], block) == whole
  {
    var b := HtmlChunk(html[i..e + 1], true);
    var rest := BlocksFrom(html, e + 1, [], block);
    var f := Flush([], current);
    FlushFront(chunks, current);
    BlocksAtBoundary(html, i, e, current, block);
    calc {
      whole;
      chunks + BlocksFrom(html, i, current, block);
      chunks + (f + [b] + rest);
      { Regroup(chunks, f, [b], rest); }
      (chunks + f + [b]) + rest;
      Flush(chunks, current) + [b] + rest;
    }
  }

  lemma Regroup<T>(a: seq<T>, b: seq<T>, c: seq<T>, d: seq<T>)
    ensures a + (b + c + d) == (a + b + c) + d
  {
  }

  lemma BlocksAtBoundary(html: string, i: nat, e: nat, current: string, block: string -> bool)
    requires i < |html| && TagEndAt(html, i) == Some(e) && block(html[i..e + 1])
    ensures BlocksFrom(html, i, current, block)
      == Flush([], current) + [HtmlChunk(html[i..e + 1], true)] + BlocksFrom(html, e + 1, [], block)
  {
  }

  /** An inline tag joins the pending content. */
  lemma BlocksAtInline(html: string, i: nat, e: nat, current: string, block: string -> bool)
    requires i < |html| && TagEndAt(html, i) == Some(e) && !block(html[i..e + 1])
    ensures BlocksFrom(html, i, current, block) == BlocksFrom(html, e + 1, current + html[i..e + 1], block)
  {
  }

  /** A character that starts no tag joins the pending content. */
  lemma BlocksAtChar(html: string, i: nat, current: string, block: string -> bool)
    requires i < |html| && TagEndAt(html, i).None?
    ensures BlocksFrom(html, i, current, block) == BlocksFrom(html, i + 1, current + [html[i]], block)
  {
  }

  lemma ScanPlain(html: string, i: nat, next: nat, chunks: seq<HtmlChunk>, current: string, total: seq<string>)
    requires BlockScan(html, i, chunks, current, total) && i < |html| && TagEndAt(html, i).None?
    requires next == i + 1
    ensures BlockScan(html, next, chunks, current + [html[i]], total)
  {
    TagsPlain(html, i, IsBlockBoundary);
    PrefixSplit(html, i, i + 1);
    assert html[i..i + 1] == [html[i]];
    Assoc(Joined(chunks), current, [html[i]]);
  }

  lemma ScanInline(html: string, i: nat, e: nat, next: nat, chunks: seq<HtmlChunk>, current: string,
                   total: seq<string>)
    requires BlockScan(html, i, chunks, current, total) && i < |html| && TagEndAt(html, i) == Some(e)
    requires !IsBlockBoundary(html[i..e + 1]) && next == e + 1
    ensures BlockScan(html, next, chunks, current + html[i..e + 1], total)
  {
    TagsSkip(html, i, e, IsBlockBoundary);
    PrefixSplit(html, i, e + 1);
    Assoc(Joined(chunks), current, html[i..e + 1]);
  }

  lemma FlushState(chunks: seq<HtmlChunk>, current: string)
    requires ChunksWellFormed(chunks) && (chunks != [] ==> chunks[|chunks| - 1].isBlockBoundary)
    ensures Joined(Flush(chunks, current)) == Joined(chunks) + current
    ensures ChunksWellFormed(Flush(chunks, current))
    ensures Boundaries(Flush(chunks, current)) == Boundaries(chunks)
  {
    if current != [] {
      AppendChunk(chunks, HtmlChunk(current, false));
    }
  }

  lemma ScanFlush(html: string, i: nat, chunks: seq<HtmlChunk>, current: string, total: seq<string>)
    requires BlockScan(html, i, chunks, current, total)
    ensures BlockScanCore(html, i, Flush(chunks, current), [], total)
  {
    FlushState(chunks, current);
  }

  /** A block tag read as one token makes a well-formed boundary chunk. */
  lemma BoundaryChunkOk(html: string, i: nat, e: nat)
    requires i < |html| && TagEndAt(html, i) == Some(e) && IsBlockBoundary(html[i..e + 1])
    ensures ChunkOk(HtmlChunk(html[i..e + 1], true))
  {
    assert IsCompleteTag(html[i..TagEndAt(html, i).value + 1]);
  }

  lemma ScanBoundary(html: string, i: nat, e: nat, next: nat, chunks: seq<HtmlChunk>, total: seq<string>)
    requires BlockScanCore(html, i, chunks, [], total) && i < |html| && TagEndAt(html, i) == Some(e)
    requires IsBlockBoundary(html[i..e + 1]) && next == e + 1
    ensures BlockScan(html, next, chunks + [HtmlChunk(html[i..e + 1], true)], [], total)
  {
    var tag := html[i..e + 1];
    var chunks' := chunks + [HtmlChunk(tag, true)];
    BoundaryChunkOk(html, i, e);
    AppendChunk(chunks, HtmlChunk(tag, true));
    TagsTake(html, i, e, IsBlockBoundary);
    ShiftOne(Boundaries(chunks), tag, BlockTagsFrom(html, e + 1), BlockTagsFrom(html, i), total,
             Boundaries(chunks'));
    PrefixSplit(html, i, e + 1);
    ExtendEmpty(Joined(chunks), tag, html[..i], html[..e + 1], Joined(chunks'));
  }

  lemma ScanFinish(html: string, chunks: seq<HtmlChunk>, current: string, total: seq<string>)
    requires BlockScan(html, |html|, chunks, current, total)
    ensures Joined(Flush(chunks, current)) == html
    ensures ChunksWellFormed(Flush(chunks, current))
    ensures Boundaries(Flush(chunks, current)) == total
  {
    ScanFlush(html, |html|, chunks, current, total);
    assert html[..|html|] == html;
  }

  /** The effect of one turn of `_split_by_blocks` at `i`: a block tag flushes the pending
      content and becomes a boundary chunk, an inline tag or a character joins the pending
      content. */
  predicate BlockStepped(html: string, i: nat, chunks: seq<HtmlChunk>, current: string,
                         next: nat, chunks': seq<HtmlChunk>, current': string, block: string -> bool)
    requires i < |html|
  {
    match TagEndAt(html, i)
    case Some(e) =>
      next == e + 1 &&
      if block(html[i..e + 1])
      then chunks' == Flush(chunks, current) + [HtmlChunk(html[i..e + 1], true)] && current' == []
      else chunks' == chunks && current' == current + html[i..e + 1]
    case None =>
      next == i + 1 && chunks' == chunks && current' == current + [html[i]]
  }

  /** One turn keeps the scan on course to the reference chunks. */
  lemma BlocksStep(html: string, i: nat, chunks: seq<HtmlChunk>, current: string,
                   next: nat, chunks': seq<HtmlChunk>, current': string,
                   block: string -> bool, whole: seq<HtmlChunk>)
    requires i < |html| && chunks + BlocksFrom(html, i, current, block) == whole
    requires BlockStepped(html, i, chunks, current, next, chunks', current', block)
    ensures chunks' + BlocksFrom(html, next, current', block) == whole
  {
    match TagEndAt(html, i)
    case Some(e) =>
      var tag := html[i..e + 1];
      assert next == e + 1;
      if block(tag) {
        assert chunks' == Flush(chunks, current) + [HtmlChunk(tag, true)] && current' == [];
        FollowBoundary(html, i, e, chunks, current, block, whole);
      } else {
        assert chunks' == chunks && current' == current + tag;
        BlocksAtInline(html, i, e, current, block);
      }
    case None =>
      assert next == i + 1 && chunks' == chunks && current' == current + [html[i]];
      BlocksAtChar(html, i, current, block);
  }

  /** A tag read by the block scan is one turn. */
  lemma StepBlockTag(html: string, i: nat, e: nat, chunks: seq<HtmlChunk>, current: string,
                     next: nat, chunks': seq<HtmlChunk>, current': string, block: string -> bool)
    requires i < |html| && TagEndAt(html, i) == Some(e) && next == e + 1
    requires block(html[i..e + 1]) ==>
      chunks' == Flush(chunks, current) + [HtmlChunk(html[i..e + 1], true)] && current' == []
    requires !block(html[i..e + 1]) ==> chunks' == chunks && current' == current + html[i..e + 1]
    ensures BlockStepped(html, i, chunks, current, next, chunks', current', block)
  {
  }

  /** A character read by the block scan is one turn. */
  lemma StepBlockChar(html: string, i: nat, chunks: seq<HtmlChunk>, current: string,
                      next: nat, current': string, block: string -> bool)
    requires i < |html| && TagEndAt(html, i).None? && next == i + 1 && current' == current + [html[i]]
    ensures BlockStepped(html, i, chunks, current, next, chunks, current', block)
  {
  }

  /** One turn of `_split_by_blocks`: a block tag (flushing the pending content first),
      an inline tag, or one character. */
  method BlockStep(html: string, i: nat, chunks: seq<HtmlChunk>, current: string, ghost total: seq<string>)
    returns (next: nat, chunks': seq<HtmlChunk>, current': string)
    requires BlockScan(html, i, chunks, current, total) && i < |html|
    ensures BlockScan(html, next, chunks', current', total) && i < next
    ensures BlockStepped(html, i, chunks, current, next, chunks', current', IsBlockBoundary)
  {
    match TagEndAt(html, i)
    case Some(e) =>
      next := e + 1;
      chunks', current' := ReadBlockTag(html, i, e, next, chunks, current, total);
    case None =>
      next := i + 1;
      current' := ReadBlockChar(html, i, next, chunks, current, total);
      chunks' := chunks;
  }

  /** A character that does not start a tag joins the pending content; the scan goes on at
      `next`, the following index. */
  method ReadBlockChar(html: string, i: nat, next: nat, chunks: seq<HtmlChunk>, current: string,
                       ghost total: seq<string>)
    returns (current': string)
    requires BlockScan(html, i, chunks, current, total) && i < |html| && TagEndAt(html, i).None?
    requires next == i + 1
    ensures BlockScan(html, next, chunks, current', total)
    ensures BlockStepped(html, i, chunks, current, next, chunks, current', IsBlockBoundary)
  {
    ScanPlain(html, i, next, chunks, current, total);
    current' := current + [html[i]];
    StepBlockChar(html, i, chunks, current, next, current', IsBlockBoundary);
  }

  /** A complete tag met by `_split_by_blocks`: a block tag is flushed as a boundary, an
      inline tag joins the pending content; the scan goes on at `next`, just past the tag. */
  method ReadBlockTag(html: string, i: nat, e: nat, next: nat, chunks: seq<HtmlChunk>, current: string,
                      ghost total: seq<string>)
    returns (chunks': seq<HtmlChunk>, current': string)
    requires BlockScan(html, i, chunks, current, total) && i < |html| && TagEndAt(html, i) == Some(e)
    requires next == e + 1
    ensures BlockScan(html, next, chunks', current', total)
    ensures BlockStepped(html, i, chunks, current, next, chunks', current', IsBlockBoundary)
  {
    if IsBlockBoundary(html[i..e + 1]) {
      chunks', current' := FlushBoundary(html, i, e, next, chunks, current, total);
    } else {
      chunks', current' := JoinInline(html, i, e, next, chunks, current, total);
    }
  }

  /** An inline tag joins the pending content. */
  method JoinInline(html: string, i: nat, e: nat, next: nat, chunks: seq<HtmlChunk>, current: string,
                    ghost total: seq<string>)
    returns (chunks': seq<HtmlChunk>, current': string)
    requires BlockScan(html, i, chunks, current, total) && i < |html| && TagEndAt(html, i) == Some(e)
    requires !IsBlockBoundary(html[i..e + 1]) && next == e + 1
    ensures BlockScan(html, next, chunks', current', total)
    ensures BlockStepped(html, i, chunks, current, next, chunks', current', IsBlockBoundary)
  {
    ScanInline(html, i, e, next, chunks, current, total);
    chunks', current' := chunks, current + html[i..e + 1];
    StepBlockTag(html, i, e, chunks, current, next, chunks', current', IsBlockBoundary);
  }

  /** A block tag: the pending content becomes a chunk, then the tag becomes a boundary chunk. */
  method FlushBoundary(html: string, i: nat, e: nat, next: nat, chunks: seq<HtmlChunk>, current: string,
                       ghost total: seq<string>)
    returns (chunks': seq<HtmlChunk>, current': string)
    requires BlockScan(html, i, chunks, current, total) && i < |html| && TagEndAt(html, i) == Some(e)
    requires IsBlockBoundary(html[i..e + 1]) && next == e + 1
    ensures BlockScan(html, next, chunks', current', total)
    ensures BlockStepped(html, i, chunks, current, next, chunks', current', IsBlockBoundary)
  {
    var tag := html[i..e + 1];
    ScanFlush(html, i, chunks, current, total);
    chunks', current' := chunks, current;
    if current' != [] {
      chunks' := chunks' + [HtmlChunk(current', false)];
      current' := [];
    }
    ScanBoundary(html, i, e, next, chunks', total);
    chunks' := chunks' + [HtmlChunk(tag, true)];
    StepBlockTag(html, i, e, chunks, current, next, chunks', current', IsBlockBoundary);
  }

  /** `_split_by_blocks`: the chunks give back the input, each boundary chunk is exactly one
      block tag, in the order the scan meets them, and content chunks are non-empty and
      never adjacent. */
  method SplitByBlocks(html: string) returns (chunks: seq<HtmlChunk>)
    ensures Joined(chunks) == html
    ensures ChunksWellFormed(chunks)
    ensures Boundaries(chunks) == BlockTagsFrom(html, 0)
    ensures chunks == BlocksOf(html)
  {
    chunks := [];
    var current := "";
    var i := 0;
    ghost var total := BlockTagsFrom(html, 0);
    while i < |html|
      invariant BlockScan(html, i, chunks, current, total)
      invariant BlocksFollow(html, i, chunks, current)
      decreases |html| - i
    {
      var next, chunks', current' := BlockStep(html, i, chunks, current, total);
      BlocksStep(html, i, chunks, current, next, chunks', current', IsBlockBoundary, BlocksOf(html));
      i, chunks, current := next, chunks', current';
    }
    ScanFinish(html, chunks, current, total);
    FlushFront(chunks, current);
    if current != [] {
      chunks := chunks + [HtmlChunk(current, false)];
    }
  }

  /** The block scan of text without any `>` is a single content chunk (or nothing). */
  lemma {:induction false} NoTagsNoBoundaries(html: string, i: nat)
    requires forall k :: 0 <= k < |html| ==> html[k] != '>'
    ensures BlockTagsFrom(html, i) == []
    decreases |html| - i
  {
    if i < |html| {
      NoTagsNoBoundaries(html, i + 1);
    }
  }

  // ---------------------------------------------------------------------------
  // The sentence scan

  /** The first index at or after `from` that is not look-ahead whitespace. */
  function SpaceRunEnd(s: string, from: nat): (j: nat)
    requires from <= |s|
    decreases |s| - from
    ensures from <= j <= |s|
    ensures forall k :: from <= k < j ==> IsLookaheadSpace(s[k])
    ensures j < |s| ==> !IsLookaheadSpace(s[j])
  {
    if from < |s| && IsLookaheadSpace(s[from]) then SpaceRunEnd(s, from + 1) else from
  }

  /** The end of a look-ahead run is the first position past `from` that is not look-ahead space. */
  lemma {:induction false} SpaceRunEndAt(s: string, from: nat, j: nat)
    requires from <= j <= |s|
    requires forall k :: from <= k < j ==> IsLookaheadSpace(s[k])
    requires j < |s| ==> !IsLookaheadSpace(s[j])
    decreases j - from
    ensures SpaceRunEnd(s, from) == j
  {
    if from < j {
      SpaceRunEndAt(s, from + 1, j);
    }
  }

  /** The scan cuts a sentence after the ending at `c`: the scan stops at `c` with no tag
      open, and the whitespace after it runs to the end, to an upper-case letter or to `<`. */
  predicate IsCut(s: string, c: nat) {
    c < |s| && IsSentenceEnding(s[c]) && Reaches(s, 0, c) && StackAt(s, c) == []
    && var j := SpaceRunEnd(s, c + 1);
       j >= |s| || IsAsciiUpper(s[j]) || s[j] == '<'
  }

  // ---------------------------------------------------------------------------
  // The sentence split as a function of the content

  /** What the sentence scan appends to its buffer for the token at `x`: a complete tag; an
      ending met with no tag open together with the look-ahead whitespace after it; or the
      character alone. */
  function Piece(s: string, x: nat): string
    requires x < |s|
  {
    match TagEndAt(s, x)
    case Some(e) => s[x..e + 1]
    case None =>
      if IsSentenceEnding(s[x]) && StackAt(s, x) == [] then [s[x]] + s[x + 1..SpaceRunEnd(s, x + 1)]
      else [s[x]]
  }

  /** The pieces of the tokens the scan from `a` meets before `p`. */
  function Buffer(s: string, a: nat, p: nat): string
    decreases |s| - a
  {
    if a >= p || a >= |s| then [] else Piece(s, a) + Buffer(s, Next(s, a), p)
  }

  /** One more token adds its piece to the buffer. */
  lemma {:induction false} BufferStep(s: string, a: nat, i: nat)
    requires Reaches(s, a, i) && i < |s|
    ensures Reaches(s, a, Next(s, i))
    ensures Buffer(s, a, Next(s, i)) == Buffer(s, a, i) + Piece(s, i)
    decreases i - a
  {
    if a == i {
      assert Buffer(s, Next(s, i), Next(s, i)) == [];
      assert Buffer(s, a, i) == [];
    } else {
      BufferStep(s, Next(s, a), i);
      Assoc(Piece(s, a), Buffer(s, Next(s, a), i), Piece(s, i));
    }
  }

  /** Two positions the scan from `a` stops at lie a whole token apart. */
  lemma {:induction false} ReachBoth(s: string, a: nat, i: nat, x: nat)
    requires Reaches(s, a, i) && Reaches(s, a, x) && i < x
    ensures i < |s| && Next(s, i) <= x
    decreases x - a
  {
    if a != i {
      ReachBoth(s, Next(s, a), i, x);
    }
  }

  /** The cuts of `s` before `i`, in increasing order. */
  function CutsBelow(s: string, i: nat): (r: seq<nat>)
    ensures forall k :: 0 <= k < |r| ==> r[k] < |s|
  {
    if i == 0 then [] else CutsBelow(s, i - 1) + (if IsCut(s, i - 1) then [i - 1] else [])
  }

  /** `CutsBelow` lists exactly the cuts before `i`, in increasing order. */
  lemma {:induction false} CutsBelowIff(s: string, i: nat)
    ensures forall c: nat :: c in CutsBelow(s, i) <==> c < i && IsCut(s, c)
    ensures forall k :: 0 <= k < |CutsBelow(s, i)| - 1 ==> CutsBelow(s, i)[k] < CutsBelow(s, i)[k + 1]
  {
    if i > 0 {
      CutsBelowIff(s, i - 1);
      var init := CutsBelow(s, i - 1);
      assert forall k :: 0 <= k < |init| ==> init[k] < i - 1 by {
        forall k | 0 <= k < |init| ensures init[k] < i - 1 { assert init[k] in init; }
      }
    }
  }

  /** Positions holding no cut add nothing to the cuts. */
  lemma {:induction false} CutsBelowSkip(s: string, i: nat, n: nat)
    requires i <= n
    requires forall x :: i <= x < n ==> !IsCut(s, x)
    ensures CutsBelow(s, n) == CutsBelow(s, i)
    decreases n - i
  {
    if i < n {
      CutsBelowSkip(s, i, n - 1);
    }
  }

  /** Where the scan resumes after the last of `cuts`: past the whitespace that follows it. */
  function OpenStart(s: string, cuts: seq<nat>): nat
    requires forall k :: 0 <= k < |cuts| ==> cuts[k] < |s|
  {
    if cuts == [] then 0 else SpaceRunEnd(s, cuts[|cuts| - 1] + 1)
  }

  /** The chunk each cut closes: the stripped buffer from where the scan resumed after the
      previous cut up to and including the ending with its whitespace. */
  function ClosedChunks(s: string, cuts: seq<nat>): seq<string>
    requires forall k :: 0 <= k < |cuts| ==> cuts[k] < |s|
  {
    if cuts == [] then []
    else
      var init := cuts[..|cuts| - 1];
      ClosedChunks(s, init) + [PyStrip(Buffer(s, OpenStart(s, init), cuts[|cuts| - 1] + 1))]
  }

  /** The sentence chunks of `s`: nothing for blank content; otherwise one chunk per cut and
      the stripped rest after the last cut, if it is not blank. */
  function SentencesOf(s: string): seq<string> {
    if IsBlank(s) then []
    else
      var cuts := CutsBelow(s, |s|);
      FinalChunks(ClosedChunks(s, cuts), Buffer(s, OpenStart(s, cuts), |s|))
  }

  lemma BlankAllSpace(s: string)
    requires IsBlank(s)
    ensures forall k :: 0 <= k < |s| ==> IsPySpace(s[k])
  {
  }

  /** Blank content has no sentence endings, so no cuts. */
  lemma {:induction false} BlankNoCuts(s: string, n: nat)
    requires n <= |s| && IsBlank(s)
    ensures CutsBelow(s, n) == []
  {
    if n > 0 {
      BlankNoCuts(s, n - 1);
      BlankAllSpace(s);
      assert !IsSentenceEnding(s[n - 1]);
    }
  }

  /** The scan state agrees with the reference: `cuts` are all the cuts before `i`, `chunks`
      the chunks they closed, and `current` the pieces since the scan resumed after the last cut. */
  predicate ScanFollows(s: string, i: nat, chunks: seq<string>, cuts: seq<nat>, current: string) {
    cuts == CutsBelow(s, i)
    && Reaches(s, OpenStart(s, cuts), i)
    && chunks == ClosedChunks(s, cuts)
    && current == Buffer(s, OpenStart(s, cuts), i)
  }

  /** A token holding no cut adds its piece to the buffer. */
  lemma FollowToken(s: string, i: nat, chunks: seq<string>, cuts: seq<nat>, current: string)
    requires ScanFollows(s, i, chunks, cuts, current) && i < |s| && Reaches(s, 0, i) && !IsCut(s, i)
    ensures ScanFollows(s, Next(s, i), chunks, cuts, current + Piece(s, i))
  {
    BufferStep(s, OpenStart(s, cuts), i);
    forall x | i <= x < Next(s, i) ensures !IsCut(s, x) {
      if x > i && IsCut(s, x) {
        ReachBoth(s, 0, i, x);
      }
    }
    CutsBelowSkip(s, i, Next(s, i));
  }

  /** One turn of the sentence scan as the reference reads it: at a cut the piece closes a
      chunk and the scan resumes past the look-ahead whitespace; any other token adds its
      piece to the buffer. */
  predicate SentenceStepped(s: string, i: nat, chunks: seq<string>, cuts: seq<nat>, current: string,
                            next: nat, chunks': seq<string>, cuts': seq<nat>, current': string)
    requires i < |s|
  {
    if IsCut(s, i)
    then next == SpaceRunEnd(s, i + 1) && chunks' == chunks + [PyStrip(current + Piece(s, i))]
         && cuts' == cuts + [i] && current' == []
    else next == Next(s, i) && chunks' == chunks && cuts' == cuts && current' == current + Piece(s, i)
  }

  /** One turn keeps the scan in agreement with the reference. */
  lemma FollowStep(s: string, i: nat, chunks: seq<string>, cuts: seq<nat>, current: string,
                   next: nat, chunks': seq<string>, cuts': seq<nat>, current': string)
    requires ScanFollows(s, i, chunks, cuts, current) && i < |s| && Reaches(s, 0, i)
    requires SentenceStepped(s, i, chunks, cuts, current, next, chunks', cuts', current')
    ensures ScanFollows(s, next, chunks', cuts', current')
  {
    if IsCut(s, i) {
      FollowCut(s, i, chunks, cuts, current);
    } else {
      FollowToken(s, i, chunks, cuts, current);
    }
  }

  /** A character read alone that is not an ending met with no tag open. */
  lemma StepPlain(s: string, i: nat, chunks: seq<string>, cuts: seq<nat>, current: string,
                  next: nat, current': string)
    requires i < |s| && TagEndAt(s, i).None? && !(IsSentenceEnding(s[i]) && StackAt(s, i) == [])
    requires next == i + 1 && current' == current + [s[i]]
    ensures SentenceStepped(s, i, chunks, cuts, current, next, chunks, cuts, current')
  {
  }

  /** A complete tag enters the buffer whole. */
  lemma StepTag(s: string, i: nat, e: nat, chunks: seq<string>, cuts: seq<nat>, current: string,
                next: nat, current': string)
    requires i < |s| && TagEndAt(s, i) == Some(e) && next == e + 1 && current' == current + s[i..e + 1]
    ensures SentenceStepped(s, i, chunks, cuts, current, next, chunks, cuts, current')
  {
  }

  /** An ending with no cut enters the buffer with its look-ahead whitespace, and the scan
      goes on right after the ending. */
  lemma StepNoCut(s: string, i: nat, chunks: seq<string>, cuts: seq<nat>, current: string,
                  next: nat, current': string)
    requires i < |s| && Reaches(s, 0, i) && IsSentenceEnding(s[i]) && StackAt(s, i) == []
    requires var j := SpaceRunEnd(s, i + 1); !(j >= |s| || IsAsciiUpper(s[j]) || s[j] == '<')
    requires next == i + 1 && current' == current + [s[i]] + s[i + 1..SpaceRunEnd(s, i + 1)]
    ensures SentenceStepped(s, i, chunks, cuts, current, next, chunks, cuts, current')
  {
    Assoc(current, [s[i]], s[i + 1..SpaceRunEnd(s, i + 1)]);
  }

  /** An ending with no tag open whose look-ahead run reaches the end, an upper-case letter or
      `<` is a cut. */
  lemma StepCut(s: string, i: nat, chunks: seq<string>, cuts: seq<nat>, current: string,
                next: nat, chunks': seq<string>, cuts': seq<nat>, current': string)
    requires i < |s| && Reaches(s, 0, i) && IsSentenceEnding(s[i]) && StackAt(s, i) == []
    requires var j := SpaceRunEnd(s, i + 1); j >= |s| || IsAsciiUpper(s[j]) || s[j] == '<'
    requires next == SpaceRunEnd(s, i + 1) && cuts' == cuts + [i] && current' == []
    requires chunks' == chunks + [PyStrip(current + [s[i]] + s[i + 1..SpaceRunEnd(s, i + 1)])]
    ensures SentenceStepped(s, i, chunks, cuts, current, next, chunks', cuts', current')
  {
    PieceAtCut(s, i);
    Assoc(current, [s[i]], s[i + 1..SpaceRunEnd(s, i + 1)]);
  }

  /** A cut closes the buffer with its piece as a chunk; the scan resumes past the whitespace. */
  lemma FollowCut(s: string, i: nat, chunks: seq<string>, cuts: seq<nat>, current: string)
    requires ScanFollows(s, i, chunks, cuts, current) && IsCut(s, i)
    ensures Piece(s, i) == [s[i]] + s[i + 1..SpaceRunEnd(s, i + 1)]
    ensures ScanFollows(s, SpaceRunEnd(s, i + 1), chunks + [PyStrip(current + Piece(s, i))], cuts + [i], [])
  {
    var j := SpaceRunEnd(s, i + 1);
    var cuts' := cuts + [i];
    PieceAtCut(s, i);
    BufferStep(s, OpenStart(s, cuts), i);
    assert Next(s, i) == i + 1;
    CutsAfterCut(s, i);
    ClosedAppend(s, cuts, i);
    assert Buffer(s, j, j) == [];
  }

  /** At a cut the piece is the ending with its look-ahead whitespace. */
  lemma PieceAtCut(s: string, i: nat)
    requires IsCut(s, i)
    ensures TagEndAt(s, i).None? && Next(s, i) == i + 1
    ensures Piece(s, i) == [s[i]] + s[i + 1..SpaceRunEnd(s, i + 1)]
  {
  }

  /** A cut is recorded, and the whitespace after it holds no cut. */
  lemma CutsAfterCut(s: string, i: nat)
    requires IsCut(s, i)
    ensures CutsBelow(s, SpaceRunEnd(s, i + 1)) == CutsBelow(s, i) + [i]
  {
    var j := SpaceRunEnd(s, i + 1);
    assert CutsBelow(s, i + 1) == CutsBelow(s, i) + [i];
    forall x | i + 1 <= x < j ensures !IsCut(s, x) {
      assert IsLookaheadSpace(s[x]);
    }
    CutsBelowSkip(s, i + 1, j);
  }

  /** One more cut closes one more chunk, and the scan resumes past its whitespace. */
  lemma ClosedAppend(s: string, cuts: seq<nat>, c: nat)
    requires forall k :: 0 <= k < |cuts| ==> cuts[k] < |s|
    requires c < |s|
    ensures forall k :: 0 <= k < |cuts + [c]| ==> (cuts + [c])[k] < |s|
    ensures OpenStart(s, cuts + [c]) == SpaceRunEnd(s, c + 1)
    ensures ClosedChunks(s, cuts + [c]) == ClosedChunks(s, cuts) + [PyStrip(Buffer(s, OpenStart(s, cuts), c + 1))]
  {
    var cs := cuts + [c];
    assert cs[..|cs| - 1] == cuts;
    assert cs[|cs| - 1] == c;
  }

  /** A non-space character followed only by whitespace is the last character after strip. */
  lemma StripEndsAt(x: string, c: char, w: string)
    requires !IsPySpace(c)
    requires forall k :: 0 <= k < |w| ==> IsPySpace(w[k])
    ensures PyStrip(x + [c] + w) != [] && PyStrip(x + [c] + w)[|PyStrip(x + [c] + w)| - 1] == c
  {
    var s := x + [c] + w;
    assert s[|x|] == c;
    assert forall k :: |x| < k < |s| ==> IsPySpace(s[k]) by {
      forall k | |x| < k < |s| ensures IsPySpace(s[k]) { assert s[k] == w[k - |x| - 1]; }
    }
    StripLast(s, IsPySpace, |x|);
  }

  /** The cuts so far lie before `i`, are cuts of `content`, increase, and each closes its chunk. */
  predicate CutsOk(content: string, i: nat, chunks: seq<string>, cuts: seq<nat>) {
    |cuts| == |chunks|
    && (forall k :: 0 <= k < |cuts| ==>
          cuts[k] < i && IsCut(content, cuts[k]) && chunks[k] != []
          && chunks[k][|chunks[k]| - 1] == content[cuts[k]])
    && (forall k :: 0 <= k < |cuts| - 1 ==> cuts[k] < cuts[k + 1])
  }

  /** The cuts before `i` are also before any later position. */
  lemma CutsLater(content: string, i: nat, j: nat, chunks: seq<string>, cuts: seq<nat>)
    requires CutsOk(content, i, chunks, cuts) && i <= j
    ensures CutsOk(content, j, chunks, cuts)
  {
  }

  predicate ChunksStripped(chunks: seq<string>) {
    forall k :: 0 <= k < |chunks| ==> chunks[k] != [] && IsPyStripped(chunks[k])
  }

  lemma StrippedAppend(chunks: seq<string>, chunk: string)
    requires ChunksStripped(chunks) && chunk != [] && IsPyStripped(chunk)
    ensures ChunksStripped(chunks + [chunk])
  {
    assert forall k :: 0 <= k < |chunks| ==> (chunks + [chunk])[k] == chunks[k];
  }

  /** Where the sentence scan stands after reading `content[..i]`. */
  predicate ScanKeeps(content: string, i: nat, tagStack: seq<string>, chunks: seq<string>,
                      cuts: seq<nat>, current: string) {
    i <= |content|
    && Reaches(content, 0, i) && tagStack == StackAt(content, i)
    && ChunksStripped(chunks)
    && NonWs(Concat(chunks)) + NonWs(current) == NonWs(content[..i])
    && CutsOk(content, i, chunks, cuts)
  }

  /** The scan invariant: what the chunks promise so far, and agreement with `SentencesOf`. */
  predicate SentenceScan(content: string, i: nat, tagStack: seq<string>, chunks: seq<string>,
                         cuts: seq<nat>, current: string) {
    ScanKeeps(content, i, tagStack, chunks, cuts, current) && ScanFollows(content, i, chunks, cuts, current)
  }

  /** Reading one more character into `current` whose `NonWs` grows by that character. */
  lemma ReadInto(content: string, i: nat, j: nat, chunks: seq<string>, current: string, piece: string)
    requires i <= j <= |content| && piece == content[i..j]
    requires NonWs(Concat(chunks)) + NonWs(current) == NonWs(content[..i])
    ensures NonWs(Concat(chunks)) + NonWs(current + piece) == NonWs(content[..j])
  {
    PrefixSplit(content, i, j);
    NonWsConcat(content[..i], piece);
    NonWsConcat(current, piece);
    Assoc(NonWs(Concat(chunks)), NonWs(current), NonWs(piece));
  }

  /** A character that is neither `<` opening a complete tag nor a cut-eligible ending. */
  lemma SentencePlain(content: string, i: nat, tagStack: seq<string>, chunks: seq<string>,
                      cuts: seq<nat>, current: string)
    requires ScanKeeps(content, i, tagStack, chunks, cuts, current) && i < |content|
    requires TagEndAt(content, i).None?
    ensures ScanKeeps(content, i + 1, tagStack, chunks, cuts, current + [content[i]])
  {
    assert Next(content, i) == i + 1;
    StackFromStep(content, 0, i, []);
    ReadInto(content, i, i + 1, chunks, current, [content[i]]);
    CutsLater(content, i, i + 1, chunks, cuts);
  }

  /** A complete tag goes into `current` and updates the stack. */
  lemma SentenceTag(content: string, i: nat, tagStack: seq<string>, chunks: seq<string>,
                    cuts: seq<nat>, current: string, e: nat, tag: string)
    requires ScanKeeps(content, i, tagStack, chunks, cuts, current) && i < |content|
    requires TagEndAt(content, i) == Some(e) && tag == content[i..e + 1]
    ensures ScanKeeps(content, e + 1, UpdateTagStack(tag, tagStack), chunks, cuts, current + tag)
  {
    StackAtTag(content, i, e);
    ReadInto(content, i, e + 1, chunks, current, tag);
    CutsLater(content, i, e + 1, chunks, cuts);
  }

  /** An ending with no cut: the ending and the look-ahead whitespace go into `current`, and
      the scan resumes right after the ending. */
  lemma SentenceNoCut(content: string, i: nat, tagStack: seq<string>, chunks: seq<string>,
                      cuts: seq<nat>, current: string, j: nat, text: string)
    requires ScanKeeps(content, i, tagStack, chunks, cuts, current) && i < |content|
    requires content[i] != '<' && j == SpaceRunEnd(content, i + 1)
    requires text == current + [content[i]] + content[i + 1..j]
    ensures ScanKeeps(content, i + 1, tagStack, chunks, cuts, text)
  {
    SentencePlain(content, i, tagStack, chunks, cuts, current);
    LookaheadAddsNothing(current + [content[i]], content, i + 1, j);
  }

  /** Look-ahead whitespace adds nothing to the non-whitespace text. */
  lemma LookaheadAddsNothing(x: string, s: string, from: nat, j: nat)
    requires from <= j <= |s| && forall k :: from <= k < j ==> IsLookaheadSpace(s[k])
    ensures NonWs(x + s[from..j]) == NonWs(x)
  {
    var run := s[from..j];
    assert forall k :: 0 <= k < |run| ==> IsPySpace(run[k]) by {
      forall k | 0 <= k < |run| ensures IsPySpace(run[k]) { assert IsLookaheadSpace(s[from + k]); }
    }
    NonWsOfSpaces(run);
    NonWsConcat(x, run);
    AppendNothing(NonWs(x));
  }

  /** Recording one more cut at `c`, with the chunk it closes, before `j`. */
  lemma CutsExtend(content: string, i: nat, j: nat, chunks: seq<string>, cuts: seq<nat>, chunk: string)
    requires CutsOk(content, i, chunks, cuts) && IsCut(content, i) && i < j
    requires chunk != [] && chunk[|chunk| - 1] == content[i]
    ensures CutsOk(content, j, chunks + [chunk], cuts + [i])
  {
    var chunks', cuts' := chunks + [chunk], cuts + [i];
    forall k | 0 <= k < |cuts'|
      ensures cuts'[k] < j && IsCut(content, cuts'[k]) && chunks'[k] != []
        && chunks'[k][|chunks'[k]| - 1] == content[cuts'[k]]
    {
      if k < |cuts| {
        assert cuts'[k] == cuts[k] && chunks'[k] == chunks[k];
      }
    }
    IncreasingAppend(cuts, i);
  }

  /** An increasing list stays increasing when a larger element is appended. */
  lemma IncreasingAppend(cuts: seq<nat>, i: nat)
    requires forall k :: 0 <= k < |cuts| ==> cuts[k] < i
    requires forall k :: 0 <= k < |cuts| - 1 ==> cuts[k] < cuts[k + 1]
    ensures forall k :: 0 <= k < |cuts + [i]| - 1 ==> (cuts + [i])[k] < (cuts + [i])[k + 1]
  {
    var cuts' := cuts + [i];
    forall k | 0 <= k < |cuts'| - 1 ensures cuts'[k] < cuts'[k + 1] {
      assert cuts'[k] == cuts[k];
      if k + 1 < |cuts| { assert cuts'[k + 1] == cuts[k + 1]; }
    }
  }

  /** A stripped chunk added to the list keeps the non-whitespace text of what it was cut from. */
  lemma ChunkAppend(chunks: seq<string>, before: string, text: string)
    requires NonWs(Concat(chunks)) + NonWs(text) == before
    ensures NonWs(Concat(chunks + [PyStrip(text)])) + NonWs([]) == before
  {
    var chunk := PyStrip(text);
    NonWsStrip(text);
    ConcatAppend(chunks, [chunk]);
    assert Concat([chunk]) == chunk by {
      assert [chunk][..0] == [];
    }
    NonWsConcat(Concat(chunks), chunk);
    AppendNothing(NonWs(Concat(chunks + [chunk])));
  }

  /** The scan passes over the ending and the whitespace after it without touching the stack. */
  lemma CutSkips(content: string, i: nat, j: nat)
    requires i < |content| && Reaches(content, 0, i) && content[i] != '<'
    requires j == SpaceRunEnd(content, i + 1)
    ensures Reaches(content, 0, j) && StackAt(content, j) == StackAt(content, i)
  {
    StackFromStep(content, 0, i, []);
    assert Next(content, i) == i + 1;
    SkipPlain(content, i + 1, j);
  }

  /** The chunk a cut closes keeps the non-whitespace text read so far. */
  lemma CutText(content: string, i: nat, chunks: seq<string>, current: string, j: nat)
    requires i < j <= |content|
    requires NonWs(Concat(chunks)) + NonWs(current) == NonWs(content[..i])
    ensures NonWs(Concat(chunks + [PyStrip(current + [content[i]] + content[i + 1..j])])) + NonWs([])
      == NonWs(content[..j])
  {
    var whole := current + [content[i]] + content[i + 1..j];
    ReadInto(content, i, i + 1, chunks, current, [content[i]]);
    ReadInto(content, i + 1, j, chunks, current + [content[i]], content[i + 1..j]);
    ChunkAppend(chunks, NonWs(content[..j]), whole);
  }

  /** The chunk a cut closes is non-empty, stripped and ends with the ending. */
  lemma CutChunkEnds(content: string, i: nat, current: string, j: nat)
    requires i < |content| && !IsPySpace(content[i]) && j == SpaceRunEnd(content, i + 1)
    ensures var chunk := PyStrip(current + [content[i]] + content[i + 1..j]);
      chunk != [] && chunk[|chunk| - 1] == content[i] && IsPyStripped(chunk)
  {
    StripEndsAt(current, content[i], content[i + 1..j]);
  }

  /** A cut: the stripped text up to the ending and its whitespace becomes a chunk that ends
      with the ending, and the scan resumes after the whitespace. */
  lemma SentenceCut(content: string, i: nat, tagStack: seq<string>, chunks: seq<string>,
                    cuts: seq<nat>, current: string, j: nat, text: string)
    requires ScanKeeps(content, i, tagStack, chunks, cuts, current) && i < |content|
    requires IsSentenceEnding(content[i]) && tagStack == [] && j == SpaceRunEnd(content, i + 1)
    requires j >= |content| || IsAsciiUpper(content[j]) || content[j] == '<'
    requires text == current + [content[i]] + content[i + 1..j]
    ensures PyStrip(text) != []
    ensures ScanKeeps(content, j, tagStack, chunks + [PyStrip(text)], cuts + [i], [])
  {
    var chunk := PyStrip(text);
    CutChunkEnds(content, i, current, j);
    CutSkips(content, i, j);
    CutText(content, i, chunks, current, j);
    assert IsCut(content, i);
    StrippedAppend(chunks, chunk);
    CutsExtend(content, i, j, chunks, cuts, chunk);
  }

  /** The chunks after the last flush: whatever `current` holds after stripping, if anything. */
  function FinalChunks(chunks: seq<string>, current: string): seq<string> {
    if current != [] && PyStrip(current) != [] then chunks + [PyStrip(current)] else chunks
  }

  /** What the sentence split promises about its chunks: each is non-empty and stripped,
      together they keep the non-whitespace characters of the content in order, and there is
      one chunk per cut plus at most one more; every cut is a sentence ending the scan meets
      with no tag open, followed by whitespace running to the end, to an upper-case letter or
      to `<`, and the chunk it closes ends with that ending; cuts increase. */
  predicate SentenceChunks(content: string, chunks: seq<string>, cuts: seq<nat>) {
    ChunksStripped(chunks)
    && NonWs(Concat(chunks)) == NonWs(content)
    && |cuts| <= |chunks| <= |cuts| + 1
    && CutsOk(content, |content|, chunks[..|cuts|], cuts)
  }

  /** The last flush keeps the non-whitespace text. */
  lemma FinishText(chunks: seq<string>, current: string, before: string)
    requires NonWs(Concat(chunks)) + NonWs(current) == before
    ensures NonWs(Concat(FinalChunks(chunks, current))) == before
  {
    var chunk := PyStrip(current);
    NonWsStrip(current);
    if current != [] && chunk != [] {
      ConcatAppend(chunks, [chunk]);
      ConcatOne(chunk);
      NonWsConcat(Concat(chunks), chunk);
    } else {
      BlankIffNoNonWs(current);
      AppendNothing(NonWs(Concat(chunks)));
    }
  }

  /** The last flush adds at most one stripped, non-empty chunk at the end. */
  lemma FinishStripped(chunks: seq<string>, current: string)
    requires ChunksStripped(chunks)
    ensures var r := FinalChunks(chunks, current);
      ChunksStripped(r) && |chunks| <= |r| <= |chunks| + 1 && r[..|chunks|] == chunks
  {
    var chunk := PyStrip(current);
    if current != [] && chunk != [] {
      StrippedAppend(chunks, chunk);
      assert (chunks + [chunk])[..|chunks|] == chunks;
    } else {
      assert chunks[..|chunks|] == chunks;
    }
  }

  /** The last flush completes the scan. */
  lemma SentenceFinish(content: string, tagStack: seq<string>, chunks: seq<string>,
                       cuts: seq<nat>, current: string)
    requires ScanKeeps(content, |content|, tagStack, chunks, cuts, current)
    ensures SentenceChunks(content, FinalChunks(chunks, current), cuts)
  {
    assert content[..|content|] == content;
    FinishText(chunks, current, NonWs(content));
    FinishStripped(chunks, current);
  }

  /** Blank content has no chunks and no cuts. */
  lemma BlankNoChunks(content: string)
    requires IsBlank(content)
    ensures SentenceChunks(content, [], [])
  {
    BlankIffNoNonWs(content);
  }

  /** The scan starts with nothing read. */
  lemma SentenceStart(content: string)
    ensures SentenceScan(content, 0, [], [], [], "")
  {
  }

  /** The look-ahead after a sentence ending: the whitespace run after `i` is read into the
      buffer, and the sentence is cut if that run reaches the end, an upper-case letter or
      `<`; otherwise the scan goes on right after the ending. */
  method ReadSentenceEnding(content: string, i: nat, tagStack: seq<string>, chunks: seq<string>,
                            ghost cuts: seq<nat>, current: string)
    returns (next: nat, chunks': seq<string>, ghost cuts': seq<nat>, current': string)
    requires ScanKeeps(content, i, tagStack, chunks, cuts, current) && i < |content|
    requires IsSentenceEnding(content[i]) && tagStack == []
    ensures ScanKeeps(content, next, tagStack, chunks', cuts', current') && i < next
    ensures SentenceStepped(content, i, chunks, cuts, current, next, chunks', cuts', current')
  {
    var j;
    j, current' := ReadLookahead(content, i, current + [content[i]]);
    if j >= |content| || IsAsciiUpper(content[j]) || content[j] == '<' {
      chunks', cuts', current' := FlushSentence(content, i, tagStack, chunks, cuts, current, j, current');
      // the scan resumes at the look-ahead character (`i = j - 1`, then the loop's `i += 1`)
      next := j;
      StepCut(content, i, chunks, cuts, current, next, chunks', cuts', current');
    } else {
      SentenceNoCut(content, i, tagStack, chunks, cuts, current, j, current');
      chunks', cuts' := chunks, cuts;
      next := i + 1;
      StepNoCut(content, i, chunks, cuts, current, next, current');
    }
  }

  /** The look-ahead loop: the whitespace run after the ending at `i` is appended to `text`. */
  method ReadLookahead(content: string, i: nat, text: string) returns (j: nat, text': string)
    requires i < |content|
    ensures j == SpaceRunEnd(content, i + 1) && text' == text + content[i + 1..j]
  {
    text' := text;
    j := i + 1;
    while j < |content| && IsLookaheadSpace(content[j])
      invariant i + 1 <= j <= |content|
      invariant text' == text + content[i + 1..j]
      invariant forall k :: i < k < j ==> IsLookaheadSpace(content[k])
    {
      assert content[i + 1..j + 1] == content[i + 1..j] + [content[j]];
      text' := text' + [content[j]];
      j := j + 1;
    }
    SpaceRunEndAt(content, i + 1, j);
  }

  /** A cut: the stripped buffer, never empty here, becomes a chunk and the buffer is emptied. */
  method FlushSentence(content: string, i: nat, tagStack: seq<string>, chunks: seq<string>,
                       ghost cuts: seq<nat>, current: string, j: nat, text: string)
    returns (chunks': seq<string>, ghost cuts': seq<nat>, current': string)
    requires ScanKeeps(content, i, tagStack, chunks, cuts, current) && i < |content|
    requires IsSentenceEnding(content[i]) && tagStack == [] && j == SpaceRunEnd(content, i + 1)
    requires j >= |content| || IsAsciiUpper(content[j]) || content[j] == '<'
    requires text == current + [content[i]] + content[i + 1..j]
    ensures chunks' == chunks + [PyStrip(text)] && cuts' == cuts + [i] && current' == []
    ensures ScanKeeps(content, j, tagStack, chunks', cuts', current')
  {
    SentenceCut(content, i, tagStack, chunks, cuts, current, j, text);
    var chunkContent := PyStrip(text);
    chunks', cuts' := chunks, cuts;
    if chunkContent != [] {
      chunks' := chunks' + [chunkContent];
      cuts' := cuts' + [i];
    }
    current' := [];
  }

  /** A `<` read by the sentence scan: a complete tag goes into the buffer whole and
      updates the stack; a `<` with no `>` after it is an ordinary character. */
  method ReadAngle(content: string, i: nat, tagStack: seq<string>, chunks: seq<string>,
                   ghost cuts: seq<nat>, current: string)
    returns (next: nat, tagStack': seq<string>, current': string)
    requires ScanKeeps(content, i, tagStack, chunks, cuts, current) && i < |content|
    requires content[i] == '<'
    ensures ScanKeeps(content, next, tagStack', chunks, cuts, current') && i < next
    ensures SentenceStepped(content, i, chunks, cuts, current, next, chunks, cuts, current')
  {
    match TagEndAt(content, i)
    case None =>
      current' := ReadSentenceChar(content, i, tagStack, chunks, cuts, current);
      tagStack' := tagStack;
      next := i + 1;
      StepPlain(content, i, chunks, cuts, current, next, current');
    case Some(e) =>
      tagStack', current' := ReadSentenceTag(content, i, e, tagStack, chunks, cuts, current);
      next := e + 1;
      StepTag(content, i, e, chunks, cuts, current, next, current');
  }

  /** A character read alone: a `<` that starts no tag, or any other character that is not
      an ending met with no tag open. */
  method ReadSentenceChar(content: string, i: nat, tagStack: seq<string>, chunks: seq<string>,
                          ghost cuts: seq<nat>, current: string)
    returns (current': string)
    requires ScanKeeps(content, i, tagStack, chunks, cuts, current) && i < |content|
    requires TagEndAt(content, i).None? && !(IsSentenceEnding(content[i]) && tagStack == [])
    ensures current' == current + [content[i]]
    ensures ScanKeeps(content, i + 1, tagStack, chunks, cuts, current')
  {
    SentencePlain(content, i, tagStack, chunks, cuts, current);
    current' := current + [content[i]];
  }

  /** A complete tag read by the sentence scan goes into the buffer whole and updates the stack. */
  method ReadSentenceTag(content: string, i: nat, e: nat, tagStack: seq<string>, chunks: seq<string>,
                         ghost cuts: seq<nat>, current: string)
    returns (tagStack': seq<string>, current': string)
    requires ScanKeeps(content, i, tagStack, chunks, cuts, current) && i < |content|
    requires TagEndAt(content, i) == Some(e)
    ensures current' == current + content[i..e + 1]
    ensures ScanKeeps(content, e + 1, tagStack', chunks, cuts, current')
  {
    var tag := content[i..e + 1];
    SentenceTag(content, i, tagStack, chunks, cuts, current, e, tag);
    current' := current + tag;
    tagStack' := UpdateTagStack(tag, tagStack);
  }

  /** One turn of the sentence scan: a complete tag, a cut-eligible ending, or one character. */
  method SentenceStep(content: string, i: nat, tagStack: seq<string>, chunks: seq<string>,
                      ghost cuts: seq<nat>, current: string)
    returns (next: nat, tagStack': seq<string>, chunks': seq<string>, ghost cuts': seq<nat>, current': string)
    requires ScanKeeps(content, i, tagStack, chunks, cuts, current) && i < |content|
    ensures ScanKeeps(content, next, tagStack', chunks', cuts', current') && i < next
    ensures SentenceStepped(content, i, chunks, cuts, current, next, chunks', cuts', current')
  {
    var c := content[i];
    tagStack', chunks', cuts' := tagStack, chunks, cuts;
    if c == '<' {
      next, tagStack', current' := ReadAngle(content, i, tagStack, chunks, cuts, current);
    } else if IsSentenceEnding(c) && tagStack == [] {
      next, chunks', cuts', current' := ReadSentenceEnding(content, i, tagStack, chunks, cuts, current);
    } else {
      current' := ReadSentenceChar(content, i, tagStack, chunks, cuts, current);
      next := i + 1;
      StepPlain(content, i, chunks, cuts, current, next, current');
    }
  }

  /** The scan loop of `_split_content_by_sentences`, run to the end of the content. */
  method ScanSentences(content: string)
    returns (tagStack: seq<string>, chunks: seq<string>, ghost cuts: seq<nat>, current: string)
    ensures SentenceScan(content, |content|, tagStack, chunks, cuts, current)
  {
    tagStack, chunks, cuts, current := [], [], [], "";
    var i := 0;
    SentenceStart(content);
    while i < |content|
      invariant i <= |content|
      invariant SentenceScan(content, i, tagStack, chunks, cuts, current)
      decreases |content| - i
    {
      var next, tagStack', chunks', cuts', current' := SentenceStep(content, i, tagStack, chunks, cuts, current);
      FollowStep(content, i, chunks, cuts, current, next, chunks', cuts', current');
      i, tagStack, chunks, cuts, current := next, tagStack', chunks', cuts', current';
    }
    assert i == |content|;
  }

  /** `_split_content_by_sentences`. The chunks are `SentencesOf(content)` and the cuts are
      exactly the cuts of the content; blank content gives no chunks; otherwise the chunks
      satisfy `SentenceChunks`. */
  method SplitContentBySentences(content: string) returns (chunks: seq<string>, ghost cuts: seq<nat>)
    ensures chunks == SentencesOf(content)
    ensures cuts == CutsBelow(content, |content|)
    ensures forall c: nat :: c in cuts <==> IsCut(content, c)
    ensures IsBlank(content) ==> chunks == []
    ensures SentenceChunks(content, chunks, cuts)
  {
    CutsBelowIff(content, |content|);
    if IsBlank(content) {
      BlankNoChunks(content);
      BlankNoCuts(content, |content|);
      return [], [];
    }
    var tagStack, current;
    tagStack, chunks, cuts, current := ScanSentences(content);
    SentenceFinish(content, tagStack, chunks, cuts, current);
    ghost var scanned := chunks;
    if current != [] {
      var chunkContent := PyStrip(current);
      if chunkContent != [] {
        chunks := chunks + [chunkContent];
      }
    }
    assert chunks == FinalChunks(scanned, current);
  }

  // ---------------------------------------------------------------------------
  // The whole splitter

  /** The list comprehension keeping chunks whose stripped length exceeds 15. */
  function LongOnly(xs: seq<string>): (r: seq<string>)
    ensures |r| <= |xs|
    ensures forall k :: 0 <= k < |r| ==> |PyStrip(r[k])| > 15
  {
    if xs == [] then []
    else LongOnly(xs[..|xs| - 1]) + (if |PyStrip(xs[|xs| - 1])| > 15 then [xs[|xs| - 1]] else [])
  }

  /** The filter keeps exactly the chunks whose stripped length exceeds 15. */
  lemma {:induction false} LongOnlyKeeps(xs: seq<string>, x: string)
    ensures x in LongOnly(xs) <==> x in xs && |PyStrip(x)| > 15
  {
    if xs != [] {
      var init, last := xs[..|xs| - 1], xs[|xs| - 1];
      var kept := if |PyStrip(last)| > 15 then [last] else [];
      LongOnlyKeeps(init, x);
      assert LongOnly(xs) == LongOnly(init) + kept;
      InConcat(LongOnly(init), kept, x);
      InSnoc(xs, x);
    }
  }

  lemma InConcat<T>(a: seq<T>, b: seq<T>, x: T)
    ensures x in a + b <==> x in a || x in b
  {
  }

  lemma InSnoc<T>(xs: seq<T>, x: T)
    requires xs != []
    ensures x in xs <==> x in xs[..|xs| - 1] || x == xs[|xs| - 1]
  {
    assert xs == xs[..|xs| - 1] + [xs[|xs| - 1]];
  }

  /** What one block chunk contributes before the length filter: a boundary chunk itself
      unless it is blank, a content chunk its sentence chunks. */
  function BlockPieces(ch: HtmlChunk): seq<string> {
    if ch.isBlockBoundary then (if PyStrip(ch.content) != [] then [ch.content] else [])
    else SentencesOf(ch.content)
  }

  /** The pieces of a list of block chunks, in order. */
  function PiecesOf(blocks: seq<HtmlChunk>): seq<string> {
    if blocks == [] then [] else PiecesOf(blocks[..|blocks| - 1]) + BlockPieces(blocks[|blocks| - 1])
  }

  /** A final chunk is a whole tag or a stripped, non-empty sentence chunk. */
  predicate IsPiece(p: string) {
    IsCompleteTag(p) || (p != [] && IsPyStripped(p))
  }

  /** The chunks collected so far cover the first `b` block chunks. */
  predicate PiecesSoFar(blocks: seq<HtmlChunk>, b: nat, pieces: seq<string>) {
    b <= |blocks|
    && NonWs(Concat(pieces)) == NonWs(Joined(blocks[..b]))
    && forall k :: 0 <= k < |pieces| ==> IsPiece(pieces[k])
  }

  lemma JoinedStep(blocks: seq<HtmlChunk>, b: nat)
    requires b < |blocks|
    ensures Joined(blocks[..b + 1]) == Joined(blocks[..b]) + blocks[b].content
  {
    assert blocks[..b + 1][..b] == blocks[..b];
  }

  /** Adding the pieces one block chunk yields keeps the collected pieces in step with the input. */
  lemma PiecesExtend(blocks: seq<HtmlChunk>, b: nat, pieces: seq<string>, more: seq<string>)
    requires PiecesSoFar(blocks, b, pieces) && b < |blocks|
    requires NonWs(Concat(more)) == NonWs(blocks[b].content)
    requires forall k :: 0 <= k < |more| ==> IsPiece(more[k])
    ensures PiecesSoFar(blocks, b + 1, pieces + more)
  {
    JoinedStep(blocks, b);
    NonWsConcat(Joined(blocks[..b]), blocks[b].content);
    ConcatAppend(pieces, more);
    NonWsConcat(Concat(pieces), Concat(more));
    var all := pieces + more;
    forall k | 0 <= k < |all| ensures IsPiece(all[k]) {
      if k < |pieces| { assert all[k] == pieces[k]; } else { assert all[k] == more[k - |pieces|]; }
    }
  }

  lemma ConcatOne(x: string)
    ensures Concat([x]) == x
  {
    assert [x][..0] == [];
  }

  /** One turn of the loop over block chunks: a non-blank boundary chunk is kept as it is,
      a content chunk is split into sentences. */
  method PieceStep(blocks: seq<HtmlChunk>, b: nat, pieces: seq<string>) returns (pieces': seq<string>)
    requires PiecesSoFar(blocks, b, pieces) && b < |blocks| && ChunkOk(blocks[b])
    requires pieces == PiecesOf(blocks[..b])
    ensures pieces' == pieces + BlockPieces(blocks[b])
    ensures PiecesSoFar(blocks, b + 1, pieces')
    ensures pieces' == PiecesOf(blocks[..b + 1])
  {
    PiecesOfSnoc(blocks, b);
    if blocks[b].isBlockBoundary {
      pieces' := KeepBoundary(blocks, b, pieces);
    } else {
      var sentences, _ := SplitContentBySentences(blocks[b].content);
      PiecesExtend(blocks, b, pieces, sentences);
      pieces' := pieces + sentences;
    }
  }

  /** The pieces of one more block chunk. */
  lemma PiecesOfSnoc(blocks: seq<HtmlChunk>, b: nat)
    requires b < |blocks|
    ensures PiecesOf(blocks[..b + 1]) == PiecesOf(blocks[..b]) + BlockPieces(blocks[b])
  {
    assert blocks[..b + 1][..b] == blocks[..b];
  }

  lemma PiecesKeep(blocks: seq<HtmlChunk>, b: nat, pieces: seq<string>)
    requires PiecesSoFar(blocks, b, pieces) && b < |blocks| && IsPiece(blocks[b].content)
    ensures PiecesSoFar(blocks, b + 1, pieces + [blocks[b].content])
  {
    ConcatOne(blocks[b].content);
    PiecesExtend(blocks, b, pieces, [blocks[b].content]);
  }

  lemma PiecesSkip(blocks: seq<HtmlChunk>, b: nat, pieces: seq<string>)
    requires PiecesSoFar(blocks, b, pieces) && b < |blocks| && IsBlank(blocks[b].content)
    ensures PiecesSoFar(blocks, b + 1, pieces)
  {
    BlankIffNoNonWs(blocks[b].content);
    PiecesExtend(blocks, b, pieces, []);
    assert pieces + [] == pieces;
  }

  /** A boundary chunk is kept unless it is blank. */
  method KeepBoundary(blocks: seq<HtmlChunk>, b: nat, pieces: seq<string>) returns (pieces': seq<string>)
    requires PiecesSoFar(blocks, b, pieces) && b < |blocks|
    requires blocks[b].isBlockBoundary && IsPiece(blocks[b].content)
    ensures pieces' == pieces + BlockPieces(blocks[b])
    ensures PiecesSoFar(blocks, b + 1, pieces')
  {
    var content := blocks[b].content;
    if PyStrip(content) != [] {
      PiecesKeep(blocks, b, pieces);
      pieces' := pieces + [content];
    } else {
      PiecesSkip(blocks, b, pieces);
      pieces' := pieces;
    }
  }

  /** `split_html_by_sentence`: before the length filter, the pieces are those of the block
      chunks of `html`, each boundary chunk itself and each content chunk its
      `SentencesOf`; they hold every non-whitespace character of the input in order; the
      result is exactly those of them whose stripped length exceeds 15. */
  method SplitHtmlBySentence(html: string) returns (result: seq<string>, pieces: seq<string>)
    ensures pieces == PiecesOf(BlocksOf(html))
    ensures NonWs(Concat(pieces)) == NonWs(html)
    ensures forall k :: 0 <= k < |pieces| ==> IsPiece(pieces[k])
    ensures result == LongOnly(pieces)
  {
    var blocks := SplitByBlocks(html);
    pieces := [];
    for b := 0 to |blocks|
      invariant PiecesSoFar(blocks, b, pieces)
      invariant pieces == PiecesOf(blocks[..b])
    {
      pieces := PieceStep(blocks, b, pieces);
    }
    assert blocks[..|blocks|] == blocks;
    result := LongOnly(pieces);
  }
}
