/** String helpers shared by the search, the comparator and the counters.
    Strings are sequences of characters; case mapping is the ASCII part of
    JavaScript's `toLowerCase`/`toUpperCase`. */
module Text {

  /** JavaScript `toLowerCase`, restricted to ASCII letters. */
  function LowerChar(c: char): char {
    if 'A' <= c <= 'Z' then (c as int + 32) as char else c
  }

  function Lower(s: string): string {
    seq(|s|, k requires 0 <= k < |s| => LowerChar(s[k]))
  }

  /** JavaScript `toUpperCase`, restricted to ASCII letters. */
  function UpperChar(c: char): char {
    if 'a' <= c <= 'z' then (c as int - 32) as char else c
  }

  function Upper(s: string): string {
    seq(|s|, k requires 0 <= k < |s| => UpperChar(s[k]))
  }

  /** `s.startsWith(p)`, equivalently `s.substring(0, p.length) === p`. */
  predicate StartsWith(s: string, p: string) {
    |p| <= |s| && s[..|p|] == p
  }

  /** JavaScript's `<` on strings: lexicographic by character code. */
  predicate LexLess(a: string, b: string)
    decreases |a|
  {
    if a == [] then b != []
    else if b == [] then false
    else if a[0] != b[0] then a[0] < b[0]
    else LexLess(a[1..], b[1..])
  }

  lemma {:induction false} LexLessAsymmetric(a: string, b: string)
    ensures LexLess(a, b) ==> !LexLess(b, a)
    decreases |a|
  {
    if a != [] && b != [] && a[0] == b[0] {
      LexLessAsymmetric(a[1..], b[1..]);
    }
  }

  lemma {:induction false} LexLessTotal(a: string, b: string)
    ensures a == b || LexLess(a, b) || LexLess(b, a)
    decreases |a|
  {
    if a != [] && b != [] && a[0] == b[0] {
      LexLessTotal(a[1..], b[1..]);
      if a[1..] == b[1..] {
        assert a == [a[0]] + a[1..] && b == [b[0]] + b[1..];
      }
    }
  }

  predicate IsDigit(c: char) {
    '0' <= c <= '9'
  }

  predicate AllDigits(s: string) {
    forall k :: 0 <= k < |s| ==> IsDigit(s[k])
  }

  /** The value of a string of decimal digits (the empty string is 0, as
      JavaScript's `Number("")` is). */
  function DecimalValue(s: string): nat
    requires AllDigits(s)
    decreases |s|
  {
    if s == [] then 0
    else DecimalValue(s[..|s| - 1]) * 10 + (s[|s| - 1] as int - '0' as int)
  }

  /** `e` lists, in increasing order, positions of `h` that spell out `q`. */
  ghost predicate Embedding(e: seq<nat>, q: string, h: string) {
    && |e| == |q|
    && (forall k :: 0 <= k < |e| ==> e[k] < |h| && h[e[k]] == q[k])
    && (forall i, k :: 0 <= i < k < |e| ==> e[i] < e[k])
  }

  /** `q` can be obtained from `h` by deleting characters. */
  ghost predicate IsSubsequence(q: string, h: string) {
    exists e :: Embedding(e, q, h)
  }

  lemma LowerKeepsEmbedding(e: seq<nat>, q: string, h: string)
    requires Embedding(e, q, h)
    ensures Embedding(e, Lower(q), Lower(h))
  {
  }

  /** An increasing embedding has e[k] >= k. */
  lemma {:induction false} EmbeddingLowerBound(e: seq<nat>, q: string, h: string, k: nat)
    requires Embedding(e, q, h) && k < |e|
    ensures e[k] >= k
    decreases k
  {
    if k > 0 {
      EmbeddingLowerBound(e, q, h, k - 1);
    }
  }
}
