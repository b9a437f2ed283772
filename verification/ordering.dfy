/** Ordering query results: `ORDER BY key DESC` and SQLite's `OFFSET`/`LIMIT` window.
    Rows with equal keys may come out in any order in SQL; the model keeps them in their
    original order (`SortDescStable`), which is one of the orders the database may return. */
module Ordering {
  /** Non-increasing keys from left to right. */
  predicate SortedDesc<T>(s: seq<T>, key: T -> int) {
    forall i, j :: 0 <= i < j < |s| ==> key(s[i]) >= key(s[j])
  }

  /** Put `x` after the leading elements whose key is greater than its own, so that it
      comes before the elements with an equal key. */
  function InsertDesc<T>(x: T, s: seq<T>, key: T -> int): (r: seq<T>)
    ensures multiset(r) == multiset(s) + multiset{x}
    ensures |r| == |s| + 1
  {
    if s == [] then [x]
    else if key(s[0]) > key(x) then
      assert s == [s[0]] + s[1..];
      [s[0]] + InsertDesc(x, s[1..], key)
    else [x] + s
  }

  /** Inserting into a sorted sequence keeps it sorted. */
  lemma {:induction false} InsertDescSorted<T>(x: T, s: seq<T>, key: T -> int)
    requires SortedDesc(s, key)
    ensures SortedDesc(InsertDesc(x, s, key), key)
  {
    if s != [] && key(s[0]) > key(x) {
      var rest := InsertDesc(x, s[1..], key);
      InsertDescSorted(x, s[1..], key);
      forall k | 0 <= k < |rest| ensures key(s[0]) >= key(rest[k]) {
        assert rest[k] in multiset(rest);
        assert rest[k] == x || rest[k] in multiset(s[1..]);
      }
    }
  }

  /** `ORDER BY key DESC`: the same rows, sorted. */
  function SortDesc<T>(s: seq<T>, key: T -> int): (r: seq<T>)
    ensures multiset(r) == multiset(s)
    ensures |r| == |s|
    ensures SortedDesc(r, key)
  {
    if s == [] then []
    else
      assert s == [s[0]] + s[1..];
      InsertDescSorted(s[0], SortDesc(s[1..], key), key);
      InsertDesc(s[0], SortDesc(s[1..], key), key)
  }

  /** The elements of `s` whose key is `k`, in order. */
  function WithKey<T>(s: seq<T>, key: T -> int, k: int): seq<T>
  {
    if s == [] then []
    else (if key(s[0]) == k then [s[0]] else []) + WithKey(s[1..], key, k)
  }

  /** The rows with key `k` of a sequence with one more row at the front. */
  lemma WithKeyCons<T>(x: T, s: seq<T>, key: T -> int, k: int)
    ensures WithKey([x] + s, key, k) == (if key(x) == k then [x] else []) + WithKey(s, key, k)
  {
    assert ([x] + s)[0] == x && ([x] + s)[1..] == s;
  }

  lemma {:induction false} WithKeyConcat<T>(a: seq<T>, b: seq<T>, key: T -> int, k: int)
    ensures WithKey(a + b, key, k) == WithKey(a, key, k) + WithKey(b, key, k)
  {
    if a == [] {
      assert a + b == b;
    } else {
      var h: seq<T> := if key(a[0]) == k then [a[0]] else [];
      assert a == [a[0]] + a[1..];
      assert a + b == [a[0]] + (a[1..] + b);
      WithKeyCons(a[0], a[1..] + b, key, k);
      WithKeyCons(a[0], a[1..], key, k);
      WithKeyConcat(a[1..], b, key, k);
      assert h + (WithKey(a[1..], key, k) + WithKey(b, key, k))
          == (h + WithKey(a[1..], key, k)) + WithKey(b, key, k);
    }
  }

  /** Inserting `x` places it among the elements with its key exactly where it would be
      at the front. */
  lemma {:induction false} InsertDescWithKey<T>(x: T, s: seq<T>, key: T -> int, k: int)
    ensures WithKey(InsertDesc(x, s, key), key, k) == WithKey([x] + s, key, k)
  {
    if s != [] && key(s[0]) > key(x) {
      var rest := InsertDesc(x, s[1..], key);
      InsertDescWithKey(x, s[1..], key, k);
      PassOver(x, s, rest, key, k);
    }
  }

  /** Passing over a row with a greater key keeps the rows with key `k` in order, because at
      most one of `x` and that row has key `k`. */
  lemma PassOver<T>(x: T, s: seq<T>, rest: seq<T>, key: T -> int, k: int)
    requires s != [] && key(s[0]) > key(x)
    requires WithKey(rest, key, k) == WithKey([x] + s[1..], key, k)
    ensures WithKey([s[0]] + rest, key, k) == WithKey([x] + s, key, k)
  {
    var tail := WithKey(s[1..], key, k);
    var hx: seq<T> := if key(x) == k then [x] else [];
    var h: seq<T> := if key(s[0]) == k then [s[0]] else [];
    WithKeyCons(s[0], rest, key, k);
    WithKeyCons(x, s[1..], key, k);
    WithKeyCons(x, s, key, k);
    assert WithKey(s, key, k) == h + tail;
    SwapEmpty(h, hx, tail);
  }

  /** Two blocks of which one is empty commute in front of a tail. */
  lemma SwapEmpty<T>(h: seq<T>, hx: seq<T>, tail: seq<T>)
    requires h == [] || hx == []
    ensures h + (hx + tail) == hx + (h + tail)
  {
    if h == [] {
      assert h + (hx + tail) == hx + tail;
      assert h + tail == tail;
    } else {
      assert hx + (h + tail) == h + tail;
      assert hx + tail == tail;
    }
  }

  /** The sort is stable: the rows with any one key keep their original order. */
  lemma {:induction false} SortDescStable<T>(s: seq<T>, key: T -> int, k: int)
    ensures WithKey(SortDesc(s, key), key, k) == WithKey(s, key, k)
  {
    if s != [] {
      var t := SortDesc(s[1..], key);
      InsertDescWithKey(s[0], t, key, k);
      WithKeyConcat([s[0]], t, key, k);
      SortDescStable(s[1..], key, k);
      WithKeyConcat([s[0]], s[1..], key, k);
      assert s == [s[0]] + s[1..];
    }
  }

  /** A row is in the sorted result exactly when it is in the input. */
  lemma SortDescMembers<T>(s: seq<T>, key: T -> int, x: T)
    ensures x in SortDesc(s, key) <==> x in s
  {
    assert x in SortDesc(s, key) <==> x in multiset(SortDesc(s, key));
    assert x in s <==> x in multiset(s);
  }

  /** Where a window starts: a negative offset counts as 0, one past the end as the end. */
  function Start(offset: int, n: nat): (start: nat)
    ensures start <= n
    ensures 0 <= offset <= n ==> start == offset
    ensures offset < 0 ==> start == 0
    ensures offset > n ==> start == n
  {
    if offset < 0 then 0 else if offset > n then n else offset
  }

  /** SQLite's `OFFSET offset LIMIT limit`: a negative offset counts as 0 and a negative
      limit means no limit. */
  function Window<T>(s: seq<T>, offset: int, limit: int): (r: seq<T>)
    ensures |r| <= |s|
    ensures limit >= 0 ==> |r| <= limit
    ensures 0 <= offset <= |s| && limit >= 0 ==> |r| == if limit <= |s| - offset then limit else |s| - offset
    ensures forall k :: 0 <= k < |r| ==> k + Start(offset, |s|) < |s| && r[k] == s[k + Start(offset, |s|)]
  {
    var start := Start(offset, |s|);
    var len := if limit < 0 || limit > |s| - start then |s| - start else limit;
    s[start..start + len]
  }

  /** A window of a sorted sequence is sorted. */
  lemma WindowSorted<T>(s: seq<T>, offset: int, limit: int, key: T -> int)
    requires SortedDesc(s, key)
    ensures SortedDesc(Window(s, offset, limit), key)
  {
    var r := Window(s, offset, limit);
    var start := Start(offset, |s|);
    forall i, j | 0 <= i < j < |r| ensures key(r[i]) >= key(r[j]) {
      assert r[i] == s[i + start] && r[j] == s[j + start];
    }
  }

  /** How many elements have a key strictly above `p`. */
  function CountAbove<T>(s: seq<T>, key: T -> int, p: int): (n: nat)
    ensures n <= |s|
  {
    if s == [] then 0 else (if key(s[0]) > p then 1 else 0) + CountAbove(s[1..], key, p)
  }

  lemma {:induction false} CountAboveAppend<T>(a: seq<T>, b: seq<T>, key: T -> int, p: int)
    ensures CountAbove(a + b, key, p) == CountAbove(a, key, p) + CountAbove(b, key, p)
  {
    if a == [] {
      assert a + b == b;
    } else {
      assert (a + b)[1..] == a[1..] + b;
      CountAboveAppend(a[1..], b, key, p);
    }
  }

  /** The count depends only on which elements there are, not on their order. */
  lemma {:induction false} CountAbovePerm<T>(a: seq<T>, b: seq<T>, key: T -> int, p: int)
    requires multiset(a) == multiset(b)
    ensures CountAbove(a, key, p) == CountAbove(b, key, p)
    decreases |a|
  {
    if a == [] {
      assert |b| == |multiset(b)| == 0;
    } else {
      var x := a[0];
      assert x in multiset(b) by { assert x in multiset(a); }
      var i :| 0 <= i < |b| && b[i] == x;
      var rest := b[..i] + b[i + 1..];
      assert b == b[..i] + [x] + b[i + 1..];
      assert a == [x] + a[1..];
      assert multiset(b) == multiset(rest) + multiset{x} by {
        assert multiset(b) == multiset(b[..i]) + multiset([x]) + multiset(b[i + 1..]);
      }
      assert multiset(a) == multiset{x} + multiset(a[1..]);
      assert multiset(a[1..]) == multiset(a) - multiset{x};
      assert multiset(rest) == multiset(b) - multiset{x};
      CountAbovePerm(a[1..], rest, key, p);
      CountAboveAppend(b[..i] + [x], b[i + 1..], key, p);
      CountAboveAppend(b[..i], [x], key, p);
      CountAboveAppend(b[..i], b[i + 1..], key, p);
      CountAboveAppend([x], a[1..], key, p);
    }
  }

  lemma {:induction false} CountAboveAll<T>(s: seq<T>, key: T -> int, p: int)
    requires forall k :: 0 <= k < |s| ==> key(s[k]) > p
    ensures CountAbove(s, key, p) == |s|
  {
    if s != [] {
      CountAboveAll(s[1..], key, p);
    }
  }

  lemma {:induction false} CountAboveNone<T>(s: seq<T>, key: T -> int, p: int)
    requires forall k :: 0 <= k < |s| ==> key(s[k]) <= p
    ensures CountAbove(s, key, p) == 0
  {
    if s != [] {
      CountAboveNone(s[1..], key, p);
    }
  }

  /** Before the first element of a run of equal keys every key is greater; from it on none is. */
  lemma SortedSplit<T>(s: seq<T>, key: T -> int, k: nat)
    requires SortedDesc(s, key) && k < |s|
    requires k == 0 || key(s[k - 1]) > key(s[k])
    ensures forall j :: 0 <= j < |s[..k]| ==> key(s[..k][j]) > key(s[k])
    ensures forall j :: 0 <= j < |s[k..]| ==> key(s[k..][j]) <= key(s[k])
  {
    forall j | 0 <= j < k ensures key(s[j]) > key(s[k]) {
      assert key(s[j]) >= key(s[k - 1]);
    }
    forall j | k <= j < |s| ensures key(s[j]) <= key(s[k]) {
    }
  }

  /** In a sorted sequence, the first element of a run of equal keys sits at the index
      that counts the elements with a greater key. */
  lemma CountAboveSorted<T>(s: seq<T>, key: T -> int, k: nat)
    requires SortedDesc(s, key) && k < |s|
    requires k == 0 || key(s[k - 1]) > key(s[k])
    ensures CountAbove(s, key, key(s[k])) == k
  {
    assert s == s[..k] + s[k..];
    SortedSplit(s, key, k);
    CountAboveAppend(s[..k], s[k..], key, key(s[k]));
    CountAboveAll(s[..k], key, key(s[k]));
    CountAboveNone(s[k..], key, key(s[k]));
  }

  /** An element whose key is at most `p` is not counted, so fewer than all are. */
  lemma {:induction false} CountAboveBelowAll<T>(s: seq<T>, key: T -> int, p: int, i: nat)
    requires i < |s| && key(s[i]) <= p
    ensures CountAbove(s, key, p) < |s|
  {
    if i > 0 {
      CountAboveBelowAll(s[1..], key, p, i - 1);
    }
  }
}
