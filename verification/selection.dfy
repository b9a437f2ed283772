/** Lists of selected keys on the onboarding pages: toggling a key, dropping a key, and
    splitting a saved list by a predicate, all as JavaScript array operations. */
module Selection {

  /** No key occurs twice. */
  predicate NoDup(s: seq<string>) {
    forall i, j :: 0 <= i < j < |s| ==> s[i] != s[j]
  }

  /** `s.filter(x => x !== key)`. */
  function Without(s: seq<string>, key: string): (r: seq<string>)
    ensures |r| <= |s|
    ensures forall k :: 0 <= k < |r| ==> r[k] != key
    ensures forall y :: y in r <==> y in s && y != key
    decreases |s|
  {
    if s == [] then []
    else
      assert forall y :: y in s <==> y == s[0] || y in s[1..] by { assert s == [s[0]] + s[1..]; }
      (if s[0] == key then [] else [s[0]]) + Without(s[1..], key)
  }

  /** Dropping an absent key changes nothing. */
  lemma {:induction false} WithoutAbsent(s: seq<string>, key: string)
    requires key !in s
    ensures Without(s, key) == s
  {
    if s != [] {
      WithoutAbsent(s[1..], key);
      assert s == [s[0]] + s[1..];
    }
  }

  lemma {:induction false} WithoutAppend(a: seq<string>, b: seq<string>, key: string)
    ensures Without(a + b, key) == Without(a, key) + Without(b, key)
  {
    if a == [] {
      assert a + b == b;
    } else {
      assert (a + b)[1..] == a[1..] + b;
      WithoutAppend(a[1..], b, key);
    }
  }

  /** Dropping a key keeps the others in order without adding duplicates. */
  lemma {:induction false} WithoutNoDup(s: seq<string>, key: string)
    ensures NoDup(s) ==> NoDup(Without(s, key))
  {
    if s != [] && NoDup(s) {
      var rest := s[1..];
      assert NoDup(rest) by {
        forall i, j | 0 <= i < j < |rest| ensures rest[i] != rest[j] {
          assert rest[i] == s[i + 1] && rest[j] == s[j + 1];
        }
      }
      WithoutNoDup(rest, key);
      assert s[0] !in rest by {
        forall i | 0 <= i < |rest| ensures rest[i] != s[0] { assert rest[i] == s[i + 1]; }
      }
      var r := Without(s, key);
      var tail := Without(rest, key);
      if s[0] != key {
        assert s[0] !in tail;
        forall i, j | 0 <= i < j < |r| ensures r[i] != r[j] {
          if i == 0 {
            assert r[j] == tail[j - 1];
            assert r[j] in tail;
          } else {
            assert r[i] == tail[i - 1] && r[j] == tail[j - 1];
          }
        }
      }
    }
  }

  /** The click handler of a selectable tile: remove the key if selected, else append it. */
  function Toggle(prev: seq<string>, key: string): (r: seq<string>)
    ensures key in r <==> key !in prev
    ensures forall y :: y != key ==> (y in r <==> y in prev)
    ensures key !in prev ==> r == prev + [key]
    ensures NoDup(prev) ==> NoDup(r)
  {
    if key in prev then
      WithoutNoDup(prev, key);
      Without(prev, key)
    else
      assert NoDup(prev) ==> NoDup(prev + [key]) by {
        if NoDup(prev) {
          forall i, j | 0 <= i < j < |prev + [key]| ensures (prev + [key])[i] != (prev + [key])[j] {
            if j == |prev| {
              assert (prev + [key])[i] == prev[i];
            }
          }
        }
      }
      prev + [key]
  }

  /** Toggling an unselected key twice restores the selection. */
  lemma ToggleTwice(prev: seq<string>, key: string)
    requires key !in prev
    ensures Toggle(Toggle(prev, key), key) == prev
  {
    WithoutAppend(prev, [key], key);
    WithoutAbsent(prev, key);
    assert Without([key], key) == [];
  }

  /** `s.filter(p)`. */
  function Keep(s: seq<string>, p: string -> bool): (r: seq<string>)
    ensures |r| <= |s|
    ensures forall y :: y in r <==> y in s && p(y)
    decreases |s|
  {
    if s == [] then []
    else
      assert forall y :: y in s <==> y == s[0] || y in s[1..] by { assert s == [s[0]] + s[1..]; }
      (if p(s[0]) then [s[0]] else []) + Keep(s[1..], p)
  }

  /** `s.filter(x => !p(x))`. */
  function Drop(s: seq<string>, p: string -> bool): (r: seq<string>)
    ensures |r| <= |s|
    ensures forall y :: y in r <==> y in s && !p(y)
    decreases |s|
  {
    if s == [] then []
    else
      assert forall y :: y in s <==> y == s[0] || y in s[1..] by { assert s == [s[0]] + s[1..]; }
      (if p(s[0]) then [] else [s[0]]) + Drop(s[1..], p)
  }

  /** The two filters split the list: together they hold every element exactly as often
      as the list does. */
  lemma {:induction false} KeepDropPartition(s: seq<string>, p: string -> bool)
    ensures multiset(Keep(s, p)) + multiset(Drop(s, p)) == multiset(s)
    ensures |Keep(s, p)| + |Drop(s, p)| == |s|
  {
    if s != [] {
      KeepDropPartition(s[1..], p);
      assert s == [s[0]] + s[1..];
    }
  }
}
