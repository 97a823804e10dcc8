/** `Array.prototype.sort` with a comparator of the form `(a, b) => key(b) - key(a)`.
    The JavaScript sort is stable, so its result is the unique stable
    arrangement in descending key order; the insertion sort here produces
    that arrangement. */
module Sorting {

  /** Places `x` after every element whose key is at least its own. */
  function Insert<T>(x: T, s: seq<T>, key: T -> int): seq<T>
    decreases |s|
  {
    if s == [] then [x]
    else if key(s[0]) >= key(x) then [s[0]] + Insert(x, s[1..], key)
    else [x] + s
  }

  function SortDesc<T>(s: seq<T>, key: T -> int): seq<T>
    decreases |s|
  {
    if s == [] then []
    else Insert(s[|s| - 1], SortDesc(s[..|s| - 1], key), key)
  }

  ghost predicate SortedDesc<T>(s: seq<T>, key: T -> int) {
    forall i, j :: 0 <= i < j < |s| ==> key(s[i]) >= key(s[j])
  }

  /** The elements of `s` whose key is `v`, in their order in `s`. */
  function WithKey<T>(s: seq<T>, key: T -> int, v: int): seq<T>
    decreases |s|
  {
    if s == [] then []
    else (if key(s[0]) == v then [s[0]] else []) + WithKey(s[1..], key, v)
  }

  lemma {:induction false} WithKeyAppend<T>(a: seq<T>, b: seq<T>, key: T -> int, v: int)
    ensures WithKey(a + b, key, v) == WithKey(a, key, v) + WithKey(b, key, v)
    decreases |a|
  {
    if a == [] {
      assert a + b == b;
    } else {
      WithKeyAppend(a[1..], b, key, v);
      assert a + b == [a[0]] + (a[1..] + b);
      WithKeyFront(a[0], a[1..] + b, key, v);
    }
  }

  lemma {:induction false} WithKeyNone<T>(s: seq<T>, key: T -> int, v: int)
    requires forall k :: 0 <= k < |s| ==> key(s[k]) < v
    ensures WithKey(s, key, v) == []
    decreases |s|
  {
    if s != [] {
      WithKeyNone(s[1..], key, v);
    }
  }

  lemma {:induction false} InsertPermutes<T>(x: T, s: seq<T>, key: T -> int)
    ensures multiset(Insert(x, s, key)) == multiset(s) + multiset{x}
    decreases |s|
  {
    if s != [] && key(s[0]) >= key(x) {
      InsertPermutes(x, s[1..], key);
      assert s == [s[0]] + s[1..];
    }
  }

  lemma {:induction false} InsertBounded<T>(x: T, s: seq<T>, key: T -> int, b: int)
    requires key(x) <= b
    requires forall k :: 0 <= k < |s| ==> key(s[k]) <= b
    ensures forall k :: 0 <= k < |Insert(x, s, key)| ==> key(Insert(x, s, key)[k]) <= b
    decreases |s|
  {
    if s != [] && key(s[0]) >= key(x) {
      InsertBounded(x, s[1..], key, b);
      assert Insert(x, s, key) == [s[0]] + Insert(x, s[1..], key);
    }
  }

  lemma {:induction false} InsertSorted<T>(x: T, s: seq<T>, key: T -> int)
    requires SortedDesc(s, key)
    ensures SortedDesc(Insert(x, s, key), key)
    decreases |s|
  {
    if s == [] {
    } else if key(s[0]) >= key(x) {
      InsertSorted(x, s[1..], key);
      var rest := Insert(x, s[1..], key);
      InsertBounded(x, s[1..], key, key(s[0]));
      var r := Insert(x, s, key);
      assert r == [s[0]] + rest;
      forall i, j | 0 <= i < j < |r|
        ensures key(r[i]) >= key(r[j])
      {
        assert r[j] == rest[j - 1];
        if i > 0 {
          assert r[i] == rest[i - 1];
        }
      }
    } else {
      var r := Insert(x, s, key);
      assert r == [x] + s;
      forall i, j | 0 <= i < j < |r|
        ensures key(r[i]) >= key(r[j])
      {
        assert r[j] == s[j - 1];
        assert key(s[j - 1]) <= key(s[0]);
        if i > 0 {
          assert r[i] == s[i - 1];
        }
      }
    }
  }

  /** `WithKey` of a sequence given by its first element and the rest. */
  lemma WithKeyFront<T>(x: T, r: seq<T>, key: T -> int, v: int)
    ensures WithKey([x] + r, key, v) == (if key(x) == v then [x] else []) + WithKey(r, key, v)
  {
    assert ([x] + r)[1..] == r;
  }

  lemma {:induction false} InsertKeepsTies<T>(x: T, s: seq<T>, key: T -> int, v: int)
    requires SortedDesc(s, key)
    ensures WithKey(Insert(x, s, key), key, v) == WithKey(s, key, v) + (if key(x) == v then [x] else [])
    decreases |s|
  {
    if s == [] {
      WithKeyFront(x, [], key, v);
    } else if key(s[0]) >= key(x) {
      InsertKeepsTies(x, s[1..], key, v);
      InsertPassesHead(x, s, key, v);
    } else {
      InsertAtFront(x, s, key, v);
    }
  }

  lemma InsertPassesHead<T>(x: T, s: seq<T>, key: T -> int, v: int)
    requires s != [] && key(s[0]) >= key(x)
    requires WithKey(Insert(x, s[1..], key), key, v) == WithKey(s[1..], key, v) + (if key(x) == v then [x] else [])
    ensures WithKey(Insert(x, s, key), key, v) == WithKey(s, key, v) + (if key(x) == v then [x] else [])
  {
    var rest := Insert(x, s[1..], key);
    assert Insert(x, s, key) == [s[0]] + rest;
    WithKeyFront(s[0], rest, key, v);
    WithKeyFront(s[0], s[1..], key, v);
    assert s == [s[0]] + s[1..];
  }

  lemma InsertAtFront<T>(x: T, s: seq<T>, key: T -> int, v: int)
    requires SortedDesc(s, key) && s != [] && key(s[0]) < key(x)
    ensures WithKey(Insert(x, s, key), key, v) == WithKey(s, key, v) + (if key(x) == v then [x] else [])
  {
    assert Insert(x, s, key) == [x] + s;
    WithKeyFront(x, s, key, v);
    if key(x) == v {
      forall k | 0 <= k < |s|
        ensures key(s[k]) < v
      {
        assert key(s[k]) <= key(s[0]);
      }
      WithKeyNone(s, key, v);
    }
  }

  /** The sort's result is in descending key order, is a permutation of its
      input, and keeps elements with equal keys in their input order. */
  lemma {:induction false} SortDescIsStableSort<T>(s: seq<T>, key: T -> int)
    ensures SortedDesc(SortDesc(s, key), key)
    ensures multiset(SortDesc(s, key)) == multiset(s)
    ensures forall v :: WithKey(SortDesc(s, key), key, v) == WithKey(s, key, v)
    decreases |s|
  {
    if s != [] {
      var init, x := s[..|s| - 1], s[|s| - 1];
      SortDescIsStableSort(init, key);
      InsertSorted(x, SortDesc(init, key), key);
      InsertPermutes(x, SortDesc(init, key), key);
      assert s == init + [x];
      forall v
        ensures WithKey(SortDesc(s, key), key, v) == WithKey(s, key, v)
      {
        WithKeyAppend(init, [x], key, v);
        InsertKeepsTies(x, SortDesc(init, key), key, v);
        WithKeyFront(x, [], key, v);
        assert [x] + [] == [x];
      }
    }
  }

  lemma {:induction false} WithKeyMembers<T>(s: seq<T>, key: T -> int, v: int)
    ensures forall x :: x in WithKey(s, key, v) ==> x in s && key(x) == v
    ensures forall x :: x in s && key(x) == v ==> x in WithKey(s, key, v)
    decreases |s|
  {
    if s != [] {
      WithKeyMembers(s[1..], key, v);
      assert s == [s[0]] + s[1..];
    }
  }

  /** The `q`-th element of `WithKey(s, key, v)` sits at some index `k` of
      `s`, and the elements with key `v` before `k` are the first `q` of it. */
  lemma {:induction false} WithKeyLocate<T>(s: seq<T>, key: T -> int, v: int, q: nat)
    requires q < |WithKey(s, key, v)|
    ensures exists k :: 0 <= k < |s| && s[k] == WithKey(s, key, v)[q]
                        && WithKey(s[..k], key, v) == WithKey(s, key, v)[..q]
    decreases |s|
  {
    var w := WithKey(s, key, v);
    if key(s[0]) == v && q == 0 {
      assert s[..0] == [];
      assert WithKey(s[..0], key, v) == w[..0];
    } else {
      var q' := if key(s[0]) == v then q - 1 else q;
      WithKeyLocate(s[1..], key, v, q');
      var k' :| 0 <= k' < |s[1..]| && s[1..][k'] == WithKey(s[1..], key, v)[q']
                && WithKey(s[1..][..k'], key, v) == WithKey(s[1..], key, v)[..q'];
      assert s[..k' + 1] == [s[0]] + s[1..][..k'];
      assert ([s[0]] + s[1..][..k'])[1..] == s[1..][..k'];
      assert s[k' + 1] == w[q];
      assert WithKey(s[..k' + 1], key, v) == w[..q];
    }
  }

  /** The first element of the sort that satisfies `p` has the greatest key
      among the elements of `s` that satisfy `p`. */
  lemma FirstMatchIsDeepest<T>(s: seq<T>, key: T -> int, p: T -> bool, m: nat)
    requires m < |SortDesc(s, key)|
    requires forall j :: 0 <= j < m ==> !p(SortDesc(s, key)[j])
    ensures forall j :: 0 <= j < |s| && p(s[j]) ==> key(s[j]) <= key(SortDesc(s, key)[m])
  {
    var sorted := SortDesc(s, key);
    SortDescIsStableSort(s, key);
    forall j | 0 <= j < |s| && p(s[j])
      ensures key(s[j]) <= key(sorted[m])
    {
      assert s[j] in multiset(sorted);
      var i :| 0 <= i < |sorted| && sorted[i] == s[j];
      assert m <= i;
    }
  }

  lemma WithKeySplit<T>(pre: seq<T>, x: T, post: seq<T>, key: T -> int)
    ensures WithKey(pre + [x] + post, key, key(x)) == WithKey(pre, key, key(x)) + [x] + WithKey(post, key, key(x))
  {
    assert pre + [x] + post == pre + ([x] + post);
    WithKeyAppend(pre, [x] + post, key, key(x));
    WithKeyFront(x, post, key, key(x));
  }

  lemma NoneMatchBefore<T>(t: seq<T>, key: T -> int, p: T -> bool, v: int, m: nat)
    requires m <= |t|
    requires forall j :: 0 <= j < m ==> !p(t[j])
    ensures forall x :: x in WithKey(t[..m], key, v) ==> !p(x)
  {
    WithKeyMembers(t[..m], key, v);
    forall x | x in WithKey(t[..m], key, v)
      ensures !p(x)
    {
      assert x in t[..m];
      var i :| 0 <= i < m && t[..m][i] == x;
      assert t[i] == x;
    }
  }

  /** The first element of the sort that satisfies `p` occurs in `s` after no
      element with the same key that satisfies `p`. */
  lemma FirstMatchIsEarliest<T>(s: seq<T>, key: T -> int, p: T -> bool, m: nat)
    requires m < |SortDesc(s, key)|
    requires forall j :: 0 <= j < m ==> !p(SortDesc(s, key)[j])
    ensures exists k :: 0 <= k < |s| && s[k] == SortDesc(s, key)[m]
                        && forall j :: 0 <= j < k && key(s[j]) == key(s[k]) ==> !p(s[j])
  {
    var sorted := SortDesc(s, key);
    var v := key(sorted[m]);
    SortDescIsStableSort(s, key);
    var before := WithKey(sorted[..m], key, v);
    assert sorted == sorted[..m] + [sorted[m]] + sorted[m + 1..];
    WithKeySplit(sorted[..m], sorted[m], sorted[m + 1..], key);
    NoneMatchBefore(sorted, key, p, v, m);
    var w := WithKey(s, key, v);
    assert w == before + [sorted[m]] + WithKey(sorted[m + 1..], key, v);
    WithKeyLocate(s, key, v, |before|);
    var k :| 0 <= k < |s| && s[k] == w[|before|] && WithKey(s[..k], key, v) == w[..|before|];
    assert w[..|before|] == before;
    WithKeyMembers(s[..k], key, v);
    forall j | 0 <= j < k && key(s[j]) == v
      ensures !p(s[j])
    {
      assert s[..k][j] == s[j];
    }
  }

  /** Scanning the stable descending sort of `s` for the first element that
      satisfies `p` selects, among the elements of `s` that satisfy `p`, one
      with the greatest key, and the earliest in `s` of those. */
  lemma FirstMatchAfterSort<T>(s: seq<T>, key: T -> int, p: T -> bool, m: nat)
    requires m < |SortDesc(s, key)| && p(SortDesc(s, key)[m])
    requires forall j :: 0 <= j < m ==> !p(SortDesc(s, key)[j])
    ensures exists k :: 0 <= k < |s| && s[k] == SortDesc(s, key)[m]
                        && (forall j :: 0 <= j < |s| && p(s[j]) ==> key(s[j]) <= key(s[k]))
                        && (forall j :: 0 <= j < k && p(s[j]) ==> key(s[j]) < key(s[k]))
  {
    FirstMatchIsDeepest(s, key, p, m);
    FirstMatchIsEarliest(s, key, p, m);
    var k :| 0 <= k < |s| && s[k] == SortDesc(s, key)[m]
             && forall j :: 0 <= j < k && key(s[j]) == key(s[k]) ==> !p(s[j]);
  }

  /** When no element of the sort satisfies `p`, no element of `s` does. */
  lemma NoMatchAfterSort<T>(s: seq<T>, key: T -> int, p: T -> bool)
    requires forall j :: 0 <= j < |SortDesc(s, key)| ==> !p(SortDesc(s, key)[j])
    ensures forall j :: 0 <= j < |s| ==> !p(s[j])
  {
    SortDescIsStableSort(s, key);
    forall j | 0 <= j < |s|
      ensures !p(s[j])
    {
      assert s[j] in multiset(SortDesc(s, key));
    }
  }
}
