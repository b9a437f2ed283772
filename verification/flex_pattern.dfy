/** The search pattern both highlighters build from a piece of text: the text is escaped
    with `re.escape`, every escaped space is then replaced by `\s+`, and the pattern is
    searched case-insensitively. So every space of the text stands for a non-empty run
    of whitespace, and every other character stands for itself up to (ASCII) case. */
module FlexPattern {
  import opened Text

  /** Reference definition: the whole of `w` is in the language of the pattern built from `q`. */
  predicate Agrees(w: string, q: string)
    decreases |w| + |q|
  {
    if q == [] then w == []
    else if w == [] then false
    else if q[0] == ' ' then
      IsPySpace(w[0])
      && (Agrees(w[1..], q[1..]) || (|w| >= 2 && IsPySpace(w[1]) && Agrees(w[1..], q)))
    else CaseEq(w[0], q[0]) && Agrees(w[1..], q[1..])
  }

  /** End of the whitespace run starting at `i`. */
  function RunEnd(s: string, i: nat): (n: nat)
    requires i <= |s|
    ensures i <= n <= |s|
    ensures forall k :: i <= k < n ==> IsPySpace(s[k])
    ensures n < |s| ==> !IsPySpace(s[n])
    decreases |s| - i
  {
    if i < |s| && IsPySpace(s[i]) then RunEnd(s, i + 1) else i
  }

  /** The regular-expression engine's match of `q[j..]` at position `i` of `s`: literal
      characters compare case-insensitively, and a space (`\s+`, greedy) first takes the
      whole whitespace run and gives characters back one at a time. The result is the end
      of the first match found in that order. */
  function MatchFrom(s: string, i: nat, q: string, j: nat): (r: Option<nat>)
    requires i <= |s| && j <= |q|
    ensures r.Some? ==> i <= r.value <= |s| && Agrees(s[i..r.value], q[j..])
    decreases |q| - j, |s| + 1
  {
    if j == |q| then Some(i)
    else if q[j] == ' ' then
      (if i < |s| && IsPySpace(s[i]) then TrySpaces(s, i, q, j, RunEnd(s, i)) else None)
    else if i < |s| && CaseEq(s[i], q[j]) then
      var r := MatchFrom(s, i + 1, q, j + 1);
      if r.Some? then
        assert s[i..r.value][1..] == s[i + 1..r.value];
        r
      else None
    else None
  }

  /** Backtracking over the length of one `\s+`: the run taken is `s[i..k]`, then shorter. */
  function TrySpaces(s: string, i: nat, q: string, j: nat, k: nat): (r: Option<nat>)
    requires i < k <= |s| && j < |q| && q[j] == ' '
    requires forall m :: i <= m < k ==> IsPySpace(s[m])
    ensures r.Some? ==> i <= r.value <= |s| && Agrees(s[i..r.value], q[j..])
    decreases |q| - j, k
  {
    var r := MatchFrom(s, k, q, j + 1);
    if r.Some? then
      SpacesAgree(s[i..r.value], q[j..], k - i);
      r
    else if k - 1 > i then TrySpaces(s, i, q, j, k - 1)
    else None
  }

  /** A run of `m` whitespace characters followed by a match of the rest agrees with a leading space. */
  lemma {:induction false} SpacesAgree(w: string, q: string, m: nat)
    requires q != [] && q[0] == ' ' && 1 <= m <= |w|
    requires forall k :: 0 <= k < m ==> IsPySpace(w[k])
    requires Agrees(w[m..], q[1..])
    ensures Agrees(w, q)
    decreases m
  {
    if m > 1 {
      assert w[1..][m - 1..] == w[m..];
      SpacesAgree(w[1..], q, m - 1);
    }
  }

  /** Conversely, agreeing with a leading space means a non-empty whitespace run and then the rest. */
  lemma {:induction false} SpacesSplit(w: string, q: string) returns (m: nat)
    requires q != [] && q[0] == ' ' && Agrees(w, q)
    ensures 1 <= m <= |w|
    ensures forall k :: 0 <= k < m ==> IsPySpace(w[k])
    ensures Agrees(w[m..], q[1..])
    decreases |w|
  {
    if Agrees(w[1..], q[1..]) {
      m := 1;
    } else {
      var m' := SpacesSplit(w[1..], q);
      m := m' + 1;
      assert w[1..][m'..] == w[m..];
    }
  }

  /** Backtracking finds any run length that leads to a match. */
  lemma {:induction false} TrySpacesFinds(s: string, i: nat, q: string, j: nat, k: nat, m: nat)
    requires i < k <= |s| && j < |q| && q[j] == ' '
    requires forall n :: i <= n < k ==> IsPySpace(s[n])
    requires i < m <= k && MatchFrom(s, m, q, j + 1).Some?
    ensures TrySpaces(s, i, q, j, k).Some?
    decreases k
  {
    if MatchFrom(s, k, q, j + 1).None? {
      TrySpacesFinds(s, i, q, j, k - 1, m);
    }
  }

  /** The rest of the pattern after the space `q[j]` has no match from `n`. */
  predicate RestFails(s: string, n: nat, q: string, j: nat)
  {
    n <= |s| && j < |q| && MatchFrom(s, n, q, j + 1).None?
  }

  /** Backtracking is greedy: the run taken is the longest one, `s[i..m]`, after which the
      rest of the pattern matches, and the end reported is that of the rest's match. */
  lemma {:induction false} TrySpacesLongest(s: string, i: nat, q: string, j: nat, k: nat, m: nat)
    requires i < k <= |s| && j < |q| && q[j] == ' '
    requires forall n :: i <= n < k ==> IsPySpace(s[n])
    requires i < m <= k && MatchFrom(s, m, q, j + 1).Some?
    requires forall n :: m < n <= k ==> RestFails(s, n, q, j)
    ensures TrySpaces(s, i, q, j, k) == MatchFrom(s, m, q, j + 1)
    decreases k
  {
    if k > m {
      assert RestFails(s, k, q, j);
      TrySpacesLongest(s, i, q, j, k - 1, m);
    }
  }

  /** A space of the pattern at a whitespace character of `s` ends at the longest prefix
      `s[i..m]` of the whitespace run after which the rest of the pattern still matches. */
  lemma MatchGreedy(s: string, i: nat, q: string, j: nat, m: nat)
    requires i < |s| && IsPySpace(s[i]) && j < |q| && q[j] == ' '
    requires i < m <= RunEnd(s, i) && MatchFrom(s, m, q, j + 1).Some?
    requires forall n :: m < n <= RunEnd(s, i) ==> RestFails(s, n, q, j)
    ensures MatchFrom(s, i, q, j) == MatchFrom(s, m, q, j + 1)
  {
    TrySpacesLongest(s, i, q, j, RunEnd(s, i), m);
  }

  /** A pattern whose last character is a space matches through the whole whitespace run. */
  lemma TrailingSpaceTakesRun(s: string, i: nat, q: string)
    requires q != [] && q[|q| - 1] == ' ' && i < |s| && IsPySpace(s[i])
    ensures MatchFrom(s, i, q, |q| - 1) == Some(RunEnd(s, i))
  {
    MatchGreedy(s, i, q, |q| - 1, RunEnd(s, i));
  }

  /** The engine misses nothing: whenever some end `e` gives a match, it reports one. */
  lemma {:induction false} MatchComplete(s: string, i: nat, q: string, j: nat, e: nat)
    requires i <= e <= |s| && j <= |q|
    requires Agrees(s[i..e], q[j..])
    ensures MatchFrom(s, i, q, j).Some?
    decreases |q| - j
  {
    if j < |q| {
      var w := s[i..e];
      if q[j] == ' ' {
        assert q[j..][1..] == q[j + 1..];
        var m := SpacesSplit(w, q[j..]);
        assert w[m..] == s[i + m..e];
        MatchComplete(s, i + m, q, j + 1, e);
        var n := RunEnd(s, i);
        assert IsPySpace(s[i]) by { assert s[i] == w[0]; }
        TrySpacesFinds(s, i, q, j, n, i + m);
      } else {
        assert w[1..] == s[i + 1..e];
        assert q[j..][1..] == q[j + 1..];
        MatchComplete(s, i + 1, q, j + 1, e);
      }
    }
  }

  /** `re.search`: the leftmost start from `i` on at which the pattern matches, with its end. */
  function SearchFrom(s: string, q: string, i: nat): (r: Option<(nat, nat)>)
    requires i <= |s|
    ensures r.Some? ==> i <= r.value.0 <= r.value.1 <= |s| && Agrees(s[r.value.0..r.value.1], q)
    decreases |s| - i
  {
    var m := MatchFrom(s, i, q, 0);
    if m.Some? then
      assert q[0..] == q;
      Some((i, m.value))
    else if i == |s| then None
    else SearchFrom(s, q, i + 1)
  }

  function Search(s: string, q: string): Option<(nat, nat)> { SearchFrom(s, q, 0) }

  /** The search result is the leftmost place where the pattern matches at all, and there
      is a result exactly when the pattern matches somewhere. */
  lemma {:induction false} SearchLeftmost(s: string, q: string, i: nat, b: nat, e: nat)
    requires i <= b <= e <= |s| && Agrees(s[b..e], q)
    ensures SearchFrom(s, q, i).Some? && SearchFrom(s, q, i).value.0 <= b
    decreases |s| - i
  {
    if MatchFrom(s, i, q, 0).None? {
      if i == b {
        assert q[0..] == q;
        MatchComplete(s, b, q, 0, e);
      }
      SearchLeftmost(s, q, i + 1, b, e);
    }
  }

  /** A case-insensitive occurrence of a text whose only whitespace is single spaces, at a
      place where the haystack has spaces too, is a match (the `\s+` takes one character). */
  lemma {:induction false} LiteralAgrees(w: string, q: string)
    requires |w| == |q|
    requires forall k :: 0 <= k < |q| ==> CaseEq(w[k], q[k])
    requires forall k :: 0 <= k < |q| ==> q[k] == ' ' ==> IsPySpace(w[k])
    ensures Agrees(w, q)
  {
    if q != [] {
      LiteralAgrees(w[1..], q[1..]);
    }
  }
}
