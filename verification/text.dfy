/** Character classes and string helpers shared by the backend and frontend models.
    Python's `str.isspace` (also the `\s` class of Python's `re` on str patterns) and
    the whitespace JavaScript's `String.prototype.trim` removes are given in full;
    letters, digits and case are ASCII only. */
module Text {

  datatype Option<T> = None | Some(value: T)

  /** Python `str.isspace()` and the `\s` class of `re`. */
  predicate IsPySpace(c: char) {
    ('\t' <= c <= '\r') || ('\U{1C}' <= c <= ' ') || c == '\U{85}' || c == '\U{A0}'
    || c == '\U{1680}' || ('\U{2000}' <= c <= '\U{200A}') || c == '\U{2028}'
    || c == '\U{2029}' || c == '\U{202F}' || c == '\U{205F}' || c == '\U{3000}'
  }

  /** The characters JavaScript's `trim` removes: WhiteSpace and LineTerminator. */
  predicate IsJsSpace(c: char) {
    ('\t' <= c <= '\r') || c == ' ' || c == '\U{A0}' || c == '\U{1680}'
    || ('\U{2000}' <= c <= '\U{200A}') || c == '\U{2028}' || c == '\U{2029}'
    || c == '\U{202F}' || c == '\U{205F}' || c == '\U{3000}' || c == '\U{FEFF}'
  }

  predicate IsAsciiUpper(c: char) { 'A' <= c <= 'Z' }

  predicate IsAsciiDigit(c: char) { '0' <= c <= '9' }

  /** The `\w` class, restricted to ASCII. */
  predicate IsWordChar(c: char) {
    IsAsciiUpper(c) || ('a' <= c <= 'z') || IsAsciiDigit(c) || c == '_'
  }

  function AsciiLower(c: char): char {
    if IsAsciiUpper(c) then (c as int + 32) as char else c
  }

  function AsciiLowerStr(s: string): (r: string)
    ensures |r| == |s|
    ensures forall k :: 0 <= k < |s| ==> r[k] == AsciiLower(s[k])
  {
    seq(|s|, k requires 0 <= k < |s| => AsciiLower(s[k]))
  }

  /** Case-insensitive equality of two characters (ASCII case folding). */
  predicate CaseEq(a: char, b: char) { AsciiLower(a) == AsciiLower(b) }

  // ---------------------------------------------------------------------------
  // Searching

  predicate StartsWith(s: string, p: string) { |p| <= |s| && s[..|p|] == p }

  predicate EndsWith(s: string, p: string) { |p| <= |s| && s[|s| - |p|..] == p }

  predicate OccursAt(s: string, sub: string, k: nat) { k + |sub| <= |s| && s[k..k + |sub|] == sub }

  /** `s.find(c, from)`: the first index at or after `from` holding `c`. */
  function FindFrom(s: string, c: char, from: nat): (r: Option<nat>)
    decreases |s| - from
    ensures r.Some? ==> from <= r.value < |s| && s[r.value] == c
    ensures r.Some? ==> forall k :: from <= k < r.value ==> s[k] != c
    ensures r.None? ==> forall k :: from <= k < |s| ==> s[k] != c
  {
    if from >= |s| then None
    else if s[from] == c then Some(from)
    else FindFrom(s, c, from + 1)
  }

  /** The first occurrence of `sub` at or after `from`. */
  function IndexOfFrom(s: string, sub: string, from: nat): (r: Option<nat>)
    decreases |s| - from
    ensures r.Some? ==> from <= r.value && OccursAt(s, sub, r.value)
    ensures r.Some? ==> forall k :: from <= k < r.value ==> !OccursAt(s, sub, k)
    ensures r.None? ==> forall k :: from <= k ==> !OccursAt(s, sub, k)
  {
    if from + |sub| > |s| then None
    else if s[from..from + |sub|] == sub then Some(from)
    else IndexOfFrom(s, sub, from + 1)
  }

  /** Python's `sub in s`. */
  predicate Contains(s: string, sub: string) { IndexOfFrom(s, sub, 0).Some? }

  lemma ContainsAt(s: string, sub: string, k: nat)
    requires OccursAt(s, sub, k)
    ensures Contains(s, sub)
  {
  }

  /** An occurrence inside a part of a concatenation is an occurrence in the whole. */
  lemma {:induction false} ContainsInConcat(a: string, b: string, c: string, sub: string)
    requires Contains(b, sub)
    ensures Contains(a + b + c, sub)
  {
    var k := IndexOfFrom(b, sub, 0).value;
    assert (a + b + c)[|a| + k..|a| + k + |sub|] == b[k..k + |sub|];
    ContainsAt(a + b + c, sub, |a| + k);
  }

  /** A string without the first character of `sub` does not contain `sub`. */
  lemma NotContainsWithoutHead(s: string, sub: string)
    requires sub != [] && forall k :: 0 <= k < |s| ==> s[k] != sub[0]
    ensures !Contains(s, sub)
  {
    forall k: nat
      ensures !OccursAt(s, sub, k)
    {
      if k + |sub| <= |s| {
        assert s[k..k + |sub|][0] == s[k];
      }
    }
  }

  /** `s.replace(sub, rep, 1)`. */
  function ReplaceFirst(s: string, sub: string, rep: string): string {
    match IndexOfFrom(s, sub, 0)
    case None => s
    case Some(k) => s[..k] + rep + s[k + |sub|..]
  }

  /** Where the first occurrence is at `k`, it is the part replaced. */
  lemma ReplaceFirstAt(s: string, sub: string, rep: string, k: nat)
    requires IndexOfFrom(s, sub, 0) == Some(k)
    ensures k + |sub| <= |s|
    ensures ReplaceFirst(s, sub, rep) == s[..k] + rep + s[k + |sub|..]
  {
  }

  /** Putting `x` after an occurrence of `sub` at `k`. */
  lemma SpliceAfter(s: string, sub: string, x: string, k: nat)
    requires OccursAt(s, sub, k)
    ensures s[..k] + (sub + x) + s[k + |sub|..] == s[..k + |sub|] + x + s[k + |sub|..]
  {
    var p := k + |sub|;
    assert s[..p] == s[..k] + sub by { assert s[..p] == s[..k] + s[k..p]; }
    var a, b := s[..k], s[p..];
    assert a + (sub + x) + b == (a + sub) + x + b;
  }

  /** Replacing the first `sub` by `sub + x` inserts `x` right after that occurrence. */
  lemma ReplaceFirstAfter(s: string, sub: string, x: string)
    requires IndexOfFrom(s, sub, 0).Some?
    ensures IndexOfFrom(s, sub, 0).value + |sub| <= |s|
    ensures var p := IndexOfFrom(s, sub, 0).value + |sub|;
      ReplaceFirst(s, sub, sub + x) == s[..p] + x + s[p..]
  {
    var k := IndexOfFrom(s, sub, 0).value;
    ReplaceFirstAt(s, sub, sub + x, k);
    SpliceAfter(s, sub, x, k);
  }


  /** `s.split(c)[0]`: everything before the first `c`. */
  function BeforeFirst(s: string, c: char): (r: string)
    ensures c !in r
    ensures StartsWith(s, r)
    ensures c !in s ==> r == s
  {
    match FindFrom(s, c, 0)
    case None => s
    case Some(k) => s[..k]
  }

  /** `s.split(sep)`: the pieces between separators, at least one. */
  function Split(s: string, sep: char): (r: seq<string>)
    decreases |s|
    ensures |r| >= 1 && r[0] == BeforeFirst(s, sep)
    ensures sep in s <==> |r| >= 2
    ensures forall k :: 0 <= k < |r| ==> sep !in r[k]
  {
    match FindFrom(s, sep, 0)
    case None => [s]
    case Some(k) => [s[..k]] + Split(s[k + 1..], sep)
  }

  /** `sep.join(parts)`. */
  function Join(parts: seq<string>, sep: char): string
    decreases |parts|
  {
    if parts == [] then []
    else if |parts| == 1 then parts[0]
    else parts[0] + [sep] + Join(parts[1..], sep)
  }

  /** Splitting a join gives the parts back when no part holds the separator. */
  lemma {:induction false} SplitJoin(parts: seq<string>, sep: char)
    requires parts != []
    requires forall k :: 0 <= k < |parts| ==> sep !in parts[k]
    ensures Split(Join(parts, sep), sep) == parts
    decreases |parts|
  {
    if |parts| > 1 {
      var s := Join(parts, sep);
      var p := parts[0];
      FindFirstAt(s, sep, |p|);
      assert s[..|p|] == p;
      assert s[|p| + 1..] == Join(parts[1..], sep);
      SplitJoin(parts[1..], sep);
    } else {
      FindNone(parts[0], sep);
    }
  }

  /** `FindFrom` is characterised by its contract: the first `c` at or after `from`. */
  lemma {:induction false} FindFromAt(s: string, c: char, from: nat, k: nat)
    requires from <= k < |s| && s[k] == c
    requires forall j :: from <= j < k ==> s[j] != c
    ensures FindFrom(s, c, from) == Some(k)
    decreases k - from
  {
    if from < k {
      FindFromAt(s, c, from + 1, k);
    }
  }

  lemma {:induction false} FindFromNone(s: string, c: char, from: nat)
    requires forall j :: from <= j < |s| ==> s[j] != c
    ensures FindFrom(s, c, from) == None
    decreases |s| - from
  {
    if from < |s| {
      FindFromNone(s, c, from + 1);
    }
  }

  lemma FindFirstAt(s: string, c: char, k: nat)
    requires k < |s| && s[k] == c && c !in s[..k]
    ensures FindFrom(s, c, 0) == Some(k)
  {
    forall j | 0 <= j < k ensures s[j] != c {
      assert s[j] == s[..k][j];
    }
    FindFromAt(s, c, 0, k);
  }

  lemma FindNone(s: string, c: char)
    requires c !in s
    ensures FindFrom(s, c, 0) == None
  {
    FindFromNone(s, c, 0);
  }

  // ---------------------------------------------------------------------------
  // Stripping

  /** Number of leading characters satisfying `ws`. */
  function LeadingCount(s: string, ws: char -> bool): (n: nat)
    ensures n <= |s|
    ensures forall k :: 0 <= k < n ==> ws(s[k])
    ensures n < |s| ==> !ws(s[n])
  {
    if s == [] || !ws(s[0]) then 0 else 1 + LeadingCount(s[1..], ws)
  }

  /** Number of trailing characters satisfying `ws`. */
  function TrailingCount(s: string, ws: char -> bool): (n: nat)
    ensures n <= |s|
    ensures forall k :: |s| - n <= k < |s| ==> ws(s[k])
    ensures n < |s| ==> !ws(s[|s| - n - 1])
  {
    if s == [] || !ws(s[|s| - 1]) then 0 else 1 + TrailingCount(s[..|s| - 1], ws)
  }

  /** Removing leading and trailing `ws` characters (`str.strip()`, `String.trim()`). */
  function Strip(s: string, ws: char -> bool): (r: string)
    ensures |r| <= |s|
    ensures r == [] || (!ws(r[0]) && !ws(r[|r| - 1]))
    ensures r == [] <==> forall k :: 0 <= k < |s| ==> ws(s[k])
  {
    var a := LeadingCount(s, ws);
    var t := s[a..];
    var b := |t| - TrailingCount(t, ws);
    if b == 0 then (
      assert a == |s|;
      []
    ) else (
      assert t[..b][0] == s[a];
      t[..b]
    )
  }

  /** The last character kept by strip is the last one that is not whitespace. */
  lemma StripLast(s: string, ws: char -> bool, p: nat)
    requires p < |s| && !ws(s[p])
    requires forall k :: p < k < |s| ==> ws(s[k])
    ensures Strip(s, ws) != [] && Strip(s, ws)[|Strip(s, ws)| - 1] == s[p]
  {
    var a, e := StripSlice(s, ws);
    var r := Strip(s, ws);
    assert p < e;
    assert r[|r| - 1] == s[e - 1];
  }

  /** `Strip` keeps a slice of its input and removes only `ws` characters around it. */
  lemma StripSlice(s: string, ws: char -> bool) returns (a: nat, e: nat)
    ensures a <= e <= |s| && Strip(s, ws) == s[a..e]
    ensures forall k :: 0 <= k < a ==> ws(s[k])
    ensures forall k :: e <= k < |s| ==> ws(s[k])
  {
    a := LeadingCount(s, ws);
    var t := s[a..];
    var b := |t| - TrailingCount(t, ws);
    if b == 0 {
      e := a;
      assert a == |s|;
    } else {
      e := a + b;
      assert t[..b] == s[a..e];
      forall k | e <= k < |s| ensures ws(s[k]) {
        assert s[k] == t[k - a];
      }
    }
  }

  function PyStrip(s: string): string { Strip(s, IsPySpace) }

  function JsTrim(s: string): string { Strip(s, IsJsSpace) }

  /** The string has no leading or trailing Python whitespace. */
  predicate IsPyStripped(s: string) { s == [] || (!IsPySpace(s[0]) && !IsPySpace(s[|s| - 1])) }

  // ---------------------------------------------------------------------------
  // Filtering

  function Filter(s: string, p: char -> bool): (r: string)
    ensures |r| <= |s|
    ensures forall k :: 0 <= k < |r| ==> p(r[k])
  {
    if s == [] then [] else (if p(s[0]) then [s[0]] else []) + Filter(s[1..], p)
  }

  /** A filter every character passes keeps the whole string. */
  lemma {:induction false} FilterAll(s: string, p: char -> bool)
    requires forall k :: 0 <= k < |s| ==> p(s[k])
    ensures Filter(s, p) == s
  {
    if s != [] {
      FilterAll(s[1..], p);
      assert s == [s[0]] + s[1..];
    }
  }

  /** A filter no character passes keeps nothing. */
  lemma {:induction false} FilterNone(s: string, p: char -> bool)
    requires forall k :: 0 <= k < |s| ==> !p(s[k])
    ensures Filter(s, p) == []
  {
    if s != [] {
      FilterNone(s[1..], p);
    }
  }

  /** A prefix no character of which passes the filter contributes nothing. */
  lemma {:induction false} FilterSkip(s: string, a: nat, p: char -> bool)
    requires a <= |s| && forall k :: 0 <= k < a ==> !p(s[k])
    ensures Filter(s, p) == Filter(s[a..], p)
    decreases a
  {
    if a > 0 {
      assert s[1..][a - 1..] == s[a..];
      FilterSkip(s[1..], a - 1, p);
    }
  }

  /** A prefix every character of which passes the filter is kept whole. */
  lemma {:induction false} FilterRun(s: string, n: nat, p: char -> bool)
    requires n <= |s| && forall k :: 0 <= k < n ==> p(s[k])
    ensures Filter(s, p) == s[..n] + Filter(s[n..], p)
    decreases n
  {
    if n > 0 {
      assert s[1..][n - 1..] == s[n..];
      FilterRun(s[1..], n - 1, p);
      assert [s[0]] + s[1..][..n - 1] == s[..n];
    }
  }

  lemma {:induction false} FilterConcat(a: string, b: string, p: char -> bool)
    ensures Filter(a + b, p) == Filter(a, p) + Filter(b, p)
  {
    if a == [] {
      assert a + b == b;
    } else {
      assert (a + b)[1..] == a[1..] + b;
      FilterConcat(a[1..], b, p);
    }
  }

  /** Filters that agree on every character of `s` select the same characters. */
  lemma {:induction false} FilterAgree(s: string, p: char -> bool, q: char -> bool)
    requires forall k :: 0 <= k < |s| ==> p(s[k]) == q(s[k])
    ensures Filter(s, p) == Filter(s, q)
  {
    if s != [] {
      FilterAgree(s[1..], p, q);
    }
  }

  /** Filtering twice is filtering once by the conjunction. */
  lemma {:induction false} FilterFilter(s: string, p: char -> bool, q: char -> bool, pq: char -> bool)
    requires forall k :: 0 <= k < |s| ==> pq(s[k]) == (p(s[k]) && q(s[k]))
    ensures Filter(Filter(s, p), q) == Filter(s, pq)
  {
    if s != [] {
      var head := if p(s[0]) then [s[0]] else [];
      FilterConcat(head, Filter(s[1..], p), q);
      FilterFilter(s[1..], p, q, pq);
      if p(s[0]) {
        assert Filter(head, q) == Filter([s[0]][1..], q) + (if q(s[0]) then [s[0]] else []);
      }
    }
  }

  predicate IsNotPySpace(c: char) { !IsPySpace(c) }

  /** All characters of `s` that are not whitespace, in order. */
  function NonWs(s: string): string { Filter(s, IsNotPySpace) }

  lemma {:induction false} NonWsOfSpaces(s: string)
    requires forall k :: 0 <= k < |s| ==> IsPySpace(s[k])
    ensures NonWs(s) == []
  {
    if s != [] {
      NonWsOfSpaces(s[1..]);
    }
  }

  lemma {:induction false} NonWsConcat(a: string, b: string)
    ensures NonWs(a + b) == NonWs(a) + NonWs(b)
  {
    FilterConcat(a, b, IsNotPySpace);
  }

  /** Stripping whitespace never loses a non-whitespace character. */
  lemma NonWsStrip(s: string)
    ensures NonWs(PyStrip(s)) == NonWs(s)
  {
    var a, e := StripSlice(s, IsPySpace);
    assert s == s[..a] + s[a..e] + s[e..];
    NonWsOfSpaces(s[..a]);
    NonWsOfSpaces(s[e..]);
    NonWsConcat(s[..a] + s[a..e], s[e..]);
    NonWsConcat(s[..a], s[a..e]);
  }

  /** A string is blank when `str.strip()` leaves nothing. */
  predicate IsBlank(s: string) { PyStrip(s) == [] }

  lemma BlankIffNoNonWs(s: string)
    ensures IsBlank(s) <==> NonWs(s) == []
  {
    NonWsStrip(s);
    if !IsBlank(s) {
      var r := PyStrip(s);
      assert !IsPySpace(r[0]);
      assert NonWs(r) != [] by {
        assert r == [r[0]] + r[1..];
        NonWsConcat([r[0]], r[1..]);
      }
    } else {
      NonWsOfSpaces(s);
    }
  }

  // ---------------------------------------------------------------------------
  // Lists of strings

  /** `''.join(xs)`. */
  function Concat(xs: seq<string>): string {
    if xs == [] then [] else Concat(xs[..|xs| - 1]) + xs[|xs| - 1]
  }

  lemma {:induction false} ConcatAppend(xs: seq<string>, ys: seq<string>)
    ensures Concat(xs + ys) == Concat(xs) + Concat(ys)
    decreases |ys|
  {
    if ys == [] {
      assert xs + ys == xs;
    } else {
      var n := |ys| - 1;
      var zs := xs + ys;
      assert zs[..|zs| - 1] == xs + ys[..n];
      assert zs[|zs| - 1] == ys[n];
      assert Concat(zs) == Concat(xs + ys[..n]) + ys[n];
      ConcatAppend(xs, ys[..n]);
      assert Concat(ys) == Concat(ys[..n]) + ys[n];
    }
  }

  lemma ConcatCons(x: string, xs: seq<string>)
    ensures Concat([x] + xs) == x + Concat(xs)
  {
    ConcatAppend([x], xs);
    assert [x][..0] == [];
  }

  // ---------------------------------------------------------------------------
  // Whitespace runs

  /** `re.sub(r'\s+', ' ', s)`: every maximal run of whitespace becomes one space. */
  function CollapseWs(s: string): (r: string)
    ensures |r| <= |s|
    ensures forall k :: 0 <= k < |r| ==> IsPySpace(r[k]) ==> r[k] == ' '
    ensures forall k :: 0 <= k < |r| - 1 ==> !(IsPySpace(r[k]) && IsPySpace(r[k + 1]))
    ensures s != [] && !IsPySpace(s[0]) ==> r != [] && r[0] == s[0]
    ensures s != [] ==> r != []
    decreases |s|
  {
    if s == [] then []
    else if IsPySpace(s[0]) then " " + CollapseWs(s[LeadingCount(s, IsPySpace)..])
    else [s[0]] + CollapseWs(s[1..])
  }

  /** Collapsing whitespace keeps every other character, in order. */
  lemma {:induction false} NonWsCollapse(s: string)
    ensures NonWs(CollapseWs(s)) == NonWs(s)
    decreases |s|
  {
    if s != [] {
      if IsPySpace(s[0]) {
        var n := LeadingCount(s, IsPySpace);
        assert s == s[..n] + s[n..];
        NonWsCollapse(s[n..]);
        NonWsConcat(s[..n], s[n..]);
        NonWsOfSpaces(s[..n]);
        NonWsConcat(" ", CollapseWs(s[n..]));
        NonWsOfSpaces(" ");
      } else {
        assert s == [s[0]] + s[1..];
        NonWsCollapse(s[1..]);
        NonWsConcat([s[0]], s[1..]);
        NonWsConcat([s[0]], CollapseWs(s[1..]));
      }
    }
  }

  /** A character class that covers the non-whitespace of `s` also covers it after collapsing. */
  lemma {:induction false} CollapseKeeps(s: string, p: char -> bool)
    requires forall k :: 0 <= k < |s| ==> IsPySpace(s[k]) || p(s[k])
    ensures forall k :: 0 <= k < |CollapseWs(s)| ==> CollapseWs(s)[k] == ' ' || p(CollapseWs(s)[k])
    decreases |s|
  {
    if s != [] {
      if IsPySpace(s[0]) {
        var n := LeadingCount(s, IsPySpace);
        CollapseKeeps(s[n..], p);
      } else {
        CollapseKeeps(s[1..], p);
      }
    }
  }
}
