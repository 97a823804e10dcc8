/** The search box's fuzzy matcher (`fuzzysearch`): a greedy left-to-right
    subsequence scan that counts the runs ("chunks") the query is split
    into, with one case-insensitive retry. */
module FuzzyMatch {
  import opened Wrappers
  import opened Text

  /** What `fuzzysearch` returns on success; `false` is modelled as None. */
  datatype Match = Match(caseMatch: bool, chunks: nat, prefix: bool)

  /** The first position at or after `from` holding `c`. */
  function FindFrom(h: string, c: char, from: nat): (r: Option<nat>)
    ensures r.Some? ==> from <= r.value < |h| && h[r.value] == c
    ensures r.Some? ==> forall k :: from <= k < r.value ==> h[k] != c
    ensures r.None? ==> forall k :: from <= k < |h| ==> h[k] != c
    decreases |h| - from
  {
    if from >= |h| then None
    else if h[from] == c then Some(from)
    else FindFrom(h, c, from + 1)
  }

  /** FindFrom returns the first occurrence, whichever way it is found. */
  lemma {:induction false} FindFromFirst(h: string, c: char, from: nat, p: nat)
    requires from <= p < |h| && h[p] == c
    requires forall k :: from <= k < p ==> h[k] != c
    ensures FindFrom(h, c, from) == Some(p)
    decreases p - from
  {
    if from < p {
      FindFromFirst(h, c, from + 1, p);
    }
  }

  /** The position just past the last matched character. */
  function Next(ps: seq<nat>): nat {
    if ps == [] then 0 else ps[|ps| - 1] + 1
  }

  /** The greedy (leftmost) embedding of `q` in `h`: each character of the
      query is matched at the first suitable position after the previous one. */
  function Greedy(q: string, h: string): (r: Option<seq<nat>>)
    ensures r.Some? ==> Embedding(r.value, q, h) && Next(r.value) <= |h|
    decreases |q|
  {
    if q == [] then Some([])
    else
      match Greedy(q[..|q| - 1], h)
      case None => None
      case Some(ps) =>
        match FindFrom(h, q[|q| - 1], Next(ps))
        case None => None
        case Some(p) => Some(ps + [p])
  }

  /** One chunk, plus one for every gap between consecutive matched positions. */
  function Chunks(ps: seq<nat>): (r: nat)
    ensures r >= 1
    decreases |ps|
  {
    if |ps| <= 1 then 1
    else Chunks(ps[..|ps| - 1]) + (if ps[|ps| - 1] > ps[|ps| - 2] + 1 then 1 else 0)
  }

  /** One call of `fuzzysearch(q, h, caseInsensitive)`; the retry is the
      only recursion and happens with `caseInsensitive` set. */
  function Attempt(q: string, h: string, caseInsensitive: bool): Option<Match>
    decreases if caseInsensitive then 0 else 1
  {
    if |q| > |h| then None
    else if |q| == |h| then
      if q == h then Some(Match(true, 1, true))
      else if Lower(q) == Lower(h) then Some(Match(false, 1, true))
      else None
    else
      match Greedy(q, h)
      case Some(ps) => Some(Match(!caseInsensitive, Chunks(ps), Next(ps) <= |q|))
      case None => if caseInsensitive then None else Attempt(Lower(q), Lower(h), true)
  }

  /** `fuzzysearch(q, h)` as the search calls it. */
  function Fuzzy(q: string, h: string): Option<Match> {
    Attempt(q, h, false)
  }

  /** `fuzzysearch(searchString, haystack, caseInsensitive)`: the length
      shortcuts, the scan, and the one case-insensitive retry. */
  method FuzzySearch(searchString: string, haystack: string, caseInsensitive: bool)
    returns (r: Option<Match>)
    ensures r == Attempt(searchString, haystack, caseInsensitive)
    decreases if caseInsensitive then 0 else 1
  {
    var tlen, qlen := |haystack|, |searchString|;

    if qlen > tlen {
      return None;
    }

    if qlen == tlen {
      if searchString == haystack {
        return Some(Match(true, 1, true));
      } else if Lower(searchString) == Lower(haystack) {
        return Some(Match(false, 1, true));
      } else {
        return None;
      }
    }

    var scanned := ScanChunks(searchString, haystack);
    if scanned.None? {
      if caseInsensitive {
        return None;
      }
      r := FuzzySearch(Lower(searchString), Lower(haystack), true);
      return;
    }
    var (chunks, j) := scanned.value;
    r := Some(Match(!caseInsensitive, chunks, j <= qlen));
  }

  /** After `i` query characters: `ps` is their greedy embedding, `j` is
      just past the last match and `chunks` counts the runs. */
  ghost predicate Matched(q: string, h: string, i: nat, ps: seq<nat>, j: nat, chunks: nat) {
    && i <= |q| && |ps| == i && Greedy(q[..i], h) == Some(ps)
    && j == Next(ps) <= |h| && chunks == Chunks(ps)
  }

  /** While looking for `q[i]`: the positions from `start` (just past the
      last match) to `j` do not hold it, and `finding` says none was skipped
      since the last match. */
  ghost predicate Seeking(q: string, h: string, i: nat, ps: seq<nat>, start: nat, j: nat,
                          chunks: nat, finding: bool) {
    && i < |q| && |ps| == i && Greedy(q[..i], h) == Some(ps)
    && start == Next(ps) <= j <= |h|
    && (forall k :: start <= k < j ==> h[k] != q[i])
    && finding == (i > 0 && j == start)
    && chunks == Chunks(ps) + (if i > 0 && j > start then 1 else 0)
  }

  lemma SkipKeeps(q: string, h: string, i: nat, ps: seq<nat>, start: nat, j: nat,
                  chunks: nat, finding: bool)
    requires Seeking(q, h, i, ps, start, j, chunks, finding)
    requires j < |h| && h[j] != q[i]
    ensures Seeking(q, h, i, ps, start, j + 1, chunks + (if finding then 1 else 0), false)
  {
  }

  lemma FoundKeeps(q: string, h: string, i: nat, ps: seq<nat>, start: nat, j: nat,
                   chunks: nat, finding: bool)
    requires Seeking(q, h, i, ps, start, j, chunks, finding)
    requires j < |h| && h[j] == q[i]
    ensures Matched(q, h, i + 1, ps + [j], j + 1, chunks)
  {
    GreedyExtends(q, h, i, ps, j);
  }

  /** The labelled nested loop of `fuzzysearch`: `j`, `chunks` and `finding`
      updated as the query is matched left to right. It yields the chunk
      count and the final `j`, or None where the scan runs off the end of the
      haystack. */
  method ScanChunks(searchString: string, haystack: string) returns (r: Option<(nat, nat)>)
    ensures Greedy(searchString, haystack).None? ==> r == None
    ensures Greedy(searchString, haystack).Some? ==>
              r == Some((Chunks(Greedy(searchString, haystack).value), Next(Greedy(searchString, haystack).value)))
  {
    var tlen, qlen := |haystack|, |searchString|;
    var chunks: nat := 1;
    var finding := false;
    var j := 0;
    ghost var ps: seq<nat> := [];
    label outer:
    for i := 0 to qlen
      invariant Matched(searchString, haystack, i, ps, j, chunks)
      invariant finding == (i > 0)
    {
      var nch := searchString[i];
      ghost var start := j;
      while j < tlen
        invariant Seeking(searchString, haystack, i, ps, start, j, chunks, finding)
      {
        var targetChar := haystack[j];
        ghost var j0, chunks0, finding0 := j, chunks, finding;
        j := j + 1;
        if targetChar == nch {
          finding := true;
          FoundKeeps(searchString, haystack, i, ps, start, j0, chunks, finding0);
          ps := ps + [j0];
          continue outer;
        }
        if finding {
          chunks := chunks + 1;
          finding := false;
        }
        SkipKeeps(searchString, haystack, i, ps, start, j0, chunks0, finding0);
      }

      GreedyStops(searchString, haystack, i, ps);
      return None;
    }

    assert searchString[..qlen] == searchString;
    r := Some((chunks, j));
  }

  /** One step of the scan: the first occurrence of the next query character
      at or after the previous match extends the greedy embedding, adding a
      chunk when characters were skipped after an earlier match. */
  lemma GreedyExtends(q: string, h: string, i: nat, ps: seq<nat>, p: nat)
    requires i < |q| && Greedy(q[..i], h) == Some(ps)
    requires Next(ps) <= p < |h| && h[p] == q[i]
    requires forall k :: Next(ps) <= k < p ==> h[k] != q[i]
    ensures Greedy(q[..i + 1], h) == Some(ps + [p])
    ensures Chunks(ps + [p]) == Chunks(ps) + (if i > 0 && p > Next(ps) then 1 else 0)
  {
    var q1 := q[..i + 1];
    assert q1[..|q1| - 1] == q[..i] && q1[|q1| - 1] == q[i];
    FindFromFirst(h, q[i], Next(ps), p);
    var qs := ps + [p];
    assert qs[..|qs| - 1] == ps;
  }

  /** The scan runs off the end of the key: the query has no embedding. */
  lemma GreedyStops(q: string, h: string, i: nat, ps: seq<nat>)
    requires i < |q| && Greedy(q[..i], h) == Some(ps)
    requires forall k :: Next(ps) <= k < |h| ==> h[k] != q[i]
    ensures Greedy(q, h) == None
  {
    assert q[..i + 1][..i] == q[..i];
    assert Greedy(q[..i + 1], h) == None;
    GreedyFailsOnPrefix(q, h, i + 1);
  }

  /** Once a prefix of the query cannot be embedded, neither can the query. */
  lemma {:induction false} GreedyFailsOnPrefix(q: string, h: string, i: nat)
    requires i <= |q| && Greedy(q[..i], h) == None
    ensures Greedy(q, h) == None
    decreases |q|
  {
    if i < |q| {
      assert q[..|q| - 1][..i] == q[..i];
      GreedyFailsOnPrefix(q[..|q| - 1], h, i);
    } else {
      assert q[..i] == q;
    }
  }

  /** The greedy scan never loses a match: whenever any embedding exists it
      succeeds, and each of its positions is at or before that embedding's. */
  lemma {:induction false} GreedyIsLeftmost(e: seq<nat>, q: string, h: string)
    requires Embedding(e, q, h)
    ensures Greedy(q, h).Some?
    ensures forall k :: 0 <= k < |q| ==> Greedy(q, h).value[k] <= e[k]
    decreases |q|
  {
    if q != [] {
      var n := |q|;
      EmbeddingInit(e, q, h);
      GreedyIsLeftmost(e[..n - 1], q[..n - 1], h);
      var ps := Greedy(q[..n - 1], h).value;
      LeftmostLast(e, q, h, ps);
      var p := FindFrom(h, q[n - 1], Next(ps)).value;
      var g := Greedy(q, h).value;
      assert g == ps + [p];
      forall k | 0 <= k < n
        ensures g[k] <= e[k]
      {
        if k < n - 1 {
          assert g[k] == ps[k] && e[..n - 1][k] == e[k];
        }
      }
    }
  }

  lemma EmbeddingInit(e: seq<nat>, q: string, h: string)
    requires Embedding(e, q, h) && q != []
    ensures Embedding(e[..|q| - 1], q[..|q| - 1], h)
  {
  }

  /** The last query character can be matched no later than `e` matches it. */
  lemma LeftmostLast(e: seq<nat>, q: string, h: string, ps: seq<nat>)
    requires Embedding(e, q, h) && q != [] && |ps| == |q| - 1
    requires forall k :: 0 <= k < |q| - 1 ==> ps[k] <= e[k]
    ensures FindFrom(h, q[|q| - 1], Next(ps)).Some?
    ensures FindFrom(h, q[|q| - 1], Next(ps)).value <= e[|q| - 1]
  {
    var n := |q|;
    if n > 1 {
      assert ps[n - 2] <= e[n - 2] < e[n - 1];
    }
    assert h[e[n - 1]] == q[n - 1];
  }

  lemma {:induction false} EmbeddingUpperBound(e: seq<nat>, q: string, h: string, k: nat)
    requires Embedding(e, q, h) && k < |e|
    ensures e[k] + (|e| - 1 - k) <= e[|e| - 1]
    decreases |e| - k
  {
    if k < |e| - 1 {
      EmbeddingUpperBound(e, q, h, k + 1);
    }
  }

  /** Two strings of equal length: one embeds in the other only if they are equal. */
  lemma EqualLengthEmbedding(e: seq<nat>, q: string, h: string)
    requires |q| == |h| && Embedding(e, q, h)
    ensures q == h
  {
    forall k | 0 <= k < |q|
      ensures q[k] == h[k]
    {
      EmbeddingLowerBound(e, q, h, k);
      EmbeddingUpperBound(e, q, h, k);
    }
  }

  lemma IdentityEmbedding(q: string, h: string)
    requires StartsWith(h, q)
    ensures Embedding(seq(|q|, k => k), q, h)
  {
  }

  lemma NoEmbeddingWhenLonger(q: string, h: string)
    requires |q| > |h|
    ensures !IsSubsequence(q, h)
  {
    if e :| Embedding(e, q, h) {
      EmbeddingLowerBound(e, q, h, |q| - 1);
    }
  }

  /** The greedy match ends inside the query's length exactly when the
      haystack starts with the query; that is what `prefix: j <= qlen` tests. */
  lemma GreedyPrefix(q: string, h: string, ps: seq<nat>)
    requires Greedy(q, h) == Some(ps)
    ensures Next(ps) <= |q| <==> StartsWith(h, q)
    ensures StartsWith(h, q) ==> Chunks(ps) == 1
  {
    if q != [] {
      var n := |q|;
      EmbeddingLowerBound(ps, q, h, n - 1);
      if Next(ps) <= n {
        forall k | 0 <= k < n
          ensures ps[k] == k
        {
          EmbeddingLowerBound(ps, q, h, k);
          EmbeddingUpperBound(ps, q, h, k);
        }
        assert h[..n] == q;
      }
      if StartsWith(h, q) {
        IdentityEmbedding(q, h);
        GreedyIsLeftmost(seq(n, k => k), q, h);
        forall k | 0 <= k < n
          ensures ps[k] == k
        {
          EmbeddingLowerBound(ps, q, h, k);
        }
        ChunksOfRun(ps);
      }
    }
  }

  /** Matched positions 0, 1, 2, ... form a single chunk. */
  lemma {:induction false} ChunksOfRun(ps: seq<nat>)
    requires forall k :: 0 <= k < |ps| ==> ps[k] == k
    ensures Chunks(ps) == 1
    decreases |ps|
  {
    if |ps| > 1 {
      ChunksOfRun(ps[..|ps| - 1]);
    }
  }

  /** A query longer than the key never matches; a query as long as the key
      matches only when equal, exactly or after lowercasing. */
  lemma FuzzyLengthRules(q: string, h: string)
    ensures |q| > |h| ==> Fuzzy(q, h) == None
    ensures |q| == |h| && q == h ==> Fuzzy(q, h) == Some(Match(true, 1, true))
    ensures |q| == |h| && q != h && Lower(q) == Lower(h) ==> Fuzzy(q, h) == Some(Match(false, 1, true))
    ensures |q| == |h| && Lower(q) != Lower(h) ==> Fuzzy(q, h) == None
  {
  }

  /** What a successful match means: the query is a subsequence of the key
      (of the lowercased key when the case does not match), chunks are at
      least one, and `prefix` holds exactly when the key starts with the query. */
  lemma FuzzyMatchMeaning(q: string, h: string)
    requires Fuzzy(q, h).Some?
    ensures Fuzzy(q, h).value.chunks >= 1
    ensures Fuzzy(q, h).value.caseMatch <==> IsSubsequence(q, h)
    ensures Fuzzy(q, h).value.caseMatch ==> (Fuzzy(q, h).value.prefix <==> StartsWith(h, q))
    ensures !Fuzzy(q, h).value.caseMatch ==>
              && IsSubsequence(Lower(q), Lower(h))
              && (Fuzzy(q, h).value.prefix <==> StartsWith(Lower(h), Lower(q)))
    ensures Fuzzy(q, h).value.prefix ==> Fuzzy(q, h).value.chunks == 1
  {
    var m := Fuzzy(q, h).value;
    if |q| == |h| {
      IdentityEmbedding(q, q);
      IdentityEmbedding(Lower(q), Lower(q));
      if q != h {
        if e :| Embedding(e, q, h) {
          EqualLengthEmbedding(e, q, h);
        }
      }
    } else {
      match Greedy(q, h)
      case Some(ps) =>
        GreedyPrefix(q, h, ps);
      case None =>
        if e :| Embedding(e, q, h) {
          GreedyIsLeftmost(e, q, h);
        }
        var ps := Greedy(Lower(q), Lower(h)).value;
        GreedyPrefix(Lower(q), Lower(h), ps);
    }
  }

  /** `fuzzysearch` reports no match exactly when the lowercased query is not
      a subsequence of the lowercased key. */
  lemma FuzzyNoMatch(q: string, h: string)
    ensures Fuzzy(q, h).None? <==> !IsSubsequence(Lower(q), Lower(h))
  {
    if |q| > |h| {
      NoEmbeddingWhenLonger(Lower(q), Lower(h));
    } else if |q| == |h| {
      IdentityEmbedding(Lower(q), Lower(q));
      if e :| Embedding(e, Lower(q), Lower(h)) {
        EqualLengthEmbedding(e, Lower(q), Lower(h));
      }
    } else {
      match Greedy(q, h)
      case Some(ps) =>
        LowerKeepsEmbedding(ps, q, h);
      case None =>
        if e :| Embedding(e, Lower(q), Lower(h)) {
          GreedyIsLeftmost(e, Lower(q), Lower(h));
        }
    }
  }

  /** A contiguous occurrence that is not the first place the query's first
      letter appears still costs two chunks: "ab" in "a-ab" is matched at
      positions 0 and 3. */
  lemma ContiguousRunCanCountTwoChunks(q: string, h: string)
    requires q == "ab" && h == "a-ab"
    ensures Fuzzy(q, h) == Some(Match(true, 2, false))
  {
    assert q[..0] == [];
    GreedyExtends(q, h, 0, [], 0);
    assert q[..1] == q[..0 + 1] && [] + [0] == [0];
    GreedyExtends(q, h, 1, [0], 3);
    assert q[..2] == q && [0] + [3] == [0, 3];
    assert Chunks([0, 3]) == 2;
  }
}
