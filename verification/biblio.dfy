/** The search index built from the document's biblio (`loadBiblio`) and the
    search box's lookup (`Search.prototype.search`), with `getKey`. */
module Biblio {
  import opened Wrappers
  import opened Text
  import opened FuzzyMatch
  import opened Ranking
  import opened Sorting

  /** An entry's `type`. `Other` carries any type name that is not one of
      the nine `getKey` knows; `TypeNamed` reads a name this way, so a
      known name is never `Other`. */
  datatype EntryType =
    | Clause | Production | Op | Term
    | Table | Figure | Example | Note | Step
    | Other(name: string)

  const KnownTypeNames: set<string> :=
    {"clause", "production", "op", "term", "table", "figure", "example", "note", "step"}

  /** The entry type a biblio `type` string stands for. */
  function TypeNamed(name: string): (t: EntryType)
    ensures t.Other? <==> name !in KnownTypeNames
    ensures t.Other? ==> t.name == name
  {
    if name == "clause" then Clause
    else if name == "production" then Production
    else if name == "op" then Op
    else if name == "term" then Term
    else if name == "table" then Table
    else if name == "figure" then Figure
    else if name == "example" then Example
    else if name == "note" then Note
    else if name == "step" then Step
    else Other(name)
  }

  /** A biblio entry. A string field that JavaScript would find `undefined`
      is the empty string here. Where the code tests such a field for
      truthiness both are falsy; where `id` is used as a map key, `""` stands
      for the key `"undefined"`, a one-to-one renaming unless some entry
      carries the literal id `""` or `"undefined"`. */
  datatype Entry = Entry(
    kind: EntryType,
    id: string,
    key: string,
    title: string,
    titleHTML: string,
    name: string,
    aoid: string,
    term: string,
    caption: string,
    number: Option<string>)

  /** `refsByClause` lists, per clause id, the ids of the references inside
      it, in the order `Object.keys` enumerates them. */
  datatype BiblioData = BiblioData(entries: seq<Entry>, refsByClause: seq<(string, seq<string>)>)

  /** The exceptions a lookup can raise: `getKey`'s "Can't get key for",
      and the TypeErrors of reading `number` or `clauses` when absent. */
  datatype SearchError = UnknownType(typeName: string) | MissingNumber | MissingClauses

  /** One search result; `quality` is absent on the clause-number path. */
  datatype Hit = Hit(key: string, entry: Entry, quality: Option<Match>)

  /** `getKey`: an explicit key wins, otherwise a field chosen by the entry's
      type; an unknown type without a key throws. */
  function GetKey(item: Entry): (r: Result<string, SearchError>)
    ensures r.Err? <==> item.key == "" && item.kind.Other?
    ensures r.Err? ==> r.error == UnknownType(item.kind.name)
    ensures item.key != "" ==> r == Ok(item.key)
  {
    if item.key != "" then Ok(item.key)
    else
      match item.kind
      case Clause => Ok(if item.title != "" then item.title else item.titleHTML)
      case Production => Ok(item.name)
      case Op => Ok(item.aoid)
      case Term => Ok(item.term)
      case Table => Ok(item.caption)
      case Figure => Ok(item.caption)
      case Example => Ok(item.caption)
      case Note => Ok(item.caption)
      case Step => Ok(item.id)
      case Other(t) => Err(UnknownType(t))
  }

  /** For an entry whose type was read from a biblio `type` string,
      `getKey` throws exactly when the entry has no key and the type is
      not one it knows. */
  lemma GetKeyByTypeName(item: Entry, typeName: string)
    requires item.kind == TypeNamed(typeName)
    ensures GetKey(item).Err? <==> item.key == "" && typeName !in KnownTypeNames
    ensures GetKey(item).Err? ==> GetKey(item).error == UnknownType(typeName)
  {
  }

  // ---------------------------------------------------------------------
  // The three indexes loadBiblio derives.

  /** `entries.filter(e => e.type === 'clause')`. */
  function ClausesOf(es: seq<Entry>): seq<Entry>
    decreases |es|
  {
    if es == [] then []
    else ClausesOf(es[..|es| - 1]) + (if es[|es| - 1].kind == Clause then [es[|es| - 1]] else [])
  }

  /** The `byId` map: entries folded in order, so a later entry replaces an
      earlier one with the same id. */
  function IndexById(es: seq<Entry>): map<string, Entry>
    decreases |es|
  {
    if es == [] then map[]
    else IndexById(es[..|es| - 1])[es[|es| - 1].id := es[|es| - 1]]
  }

  function AddRefs(m: map<string, string>, clause: string, refs: seq<string>): map<string, string>
    decreases |refs|
  {
    if refs == [] then m
    else AddRefs(m, clause, refs[..|refs| - 1])[refs[|refs| - 1] := clause]
  }

  /** The `refParentClause` map: every reference id mapped to the clause that
      lists it, the last listing winning. */
  function ParentClauses(pairs: seq<(string, seq<string>)>): map<string, string>
    decreases |pairs|
  {
    if pairs == [] then map[]
    else
      var last := pairs[|pairs| - 1];
      AddRefs(ParentClauses(pairs[..|pairs| - 1]), last.0, last.1)
  }

  /** Entry `k` is the last one with this id. */
  ghost predicate LastWithId(es: seq<Entry>, id: string, k: int) {
    0 <= k < |es| && es[k].id == id && forall k' :: k < k' < |es| ==> es[k'].id != id
  }

  /** Pair `i` is the last one listing `ref`. */
  ghost predicate LastListing(pairs: seq<(string, seq<string>)>, ref: string, i: int) {
    0 <= i < |pairs| && ref in pairs[i].1 && forall i' :: i < i' < |pairs| ==> ref !in pairs[i'].1
  }

  /** `idx` lists, in strictly increasing order, exactly the positions of
      `s` whose element satisfies `p`: what `filter` keeps, and in which
      order. */
  ghost predicate Selects<T>(idx: seq<nat>, s: seq<T>, p: T -> bool) {
    && (forall k :: 0 <= k < |idx| ==> idx[k] < |s| && p(s[idx[k]]))
    && (forall k, l :: 0 <= k < l < |idx| ==> idx[k] < idx[l])
    && (forall i :: 0 <= i < |s| && p(s[i]) ==> i in idx)
  }

  /** One more element at the end is selected exactly when it passes. */
  lemma SelectsSnoc<T>(idx: seq<nat>, s: seq<T>, x: T, p: T -> bool)
    requires Selects(idx, s, p)
    ensures Selects(if p(x) then idx + [|s|] else idx, s + [x], p)
  {
    var t, idx' := s + [x], if p(x) then idx + [|s|] else idx;
    forall k | 0 <= k < |idx'|
      ensures idx'[k] < |t| && p(t[idx'[k]])
    {
      if k < |idx| {
        assert idx'[k] == idx[k] && t[idx[k]] == s[idx[k]];
      }
    }
    forall k, l | 0 <= k < l < |idx'|
      ensures idx'[k] < idx'[l]
    {
      if l < |idx| {
        assert idx'[k] == idx[k] && idx'[l] == idx[l];
      } else {
        assert idx'[k] == idx[k];
      }
    }
    forall i | 0 <= i < |t| && p(t[i])
      ensures i in idx'
    {
      if i < |s| {
        assert t[i] == s[i];
        var k :| 0 <= k < |idx| && idx[k] == i;
        assert idx'[k] == i;
      } else {
        assert idx'[|idx'| - 1] == i;
      }
    }
  }

  /** `out` is what a filter of `s` by `p` keeps, element `k` of `out`
      standing for element `idx[k]` of `s` as the relation `r` says. */
  ghost predicate Lists<T, U>(out: seq<U>, idx: seq<nat>, s: seq<T>, p: T -> bool, r: (U, T) -> bool) {
    && Selects(idx, s, p)
    && |out| == |idx|
    && forall k :: 0 <= k < |idx| ==> r(out[k], s[idx[k]])
  }

  /** Filtering one more element that passes: it is kept, as `y`. */
  lemma ListsKeep<T, U>(out: seq<U>, idx: seq<nat>, s: seq<T>, p: T -> bool, r: (U, T) -> bool,
                        x: T, y: U, t: seq<T>)
    requires Lists(out, idx, s, p, r) && t == s + [x]
    requires p(x) && r(y, x)
    ensures Lists(out + [y], idx + [|s|], t, p, r)
  {
    SelectsSnoc(idx, s, x, p);
    var out', idx' := out + [y], idx + [|s|];
    forall k | 0 <= k < |idx'|
      ensures r(out'[k], t[idx'[k]])
    {
      if k < |idx| {
        assert out'[k] == out[k] && idx'[k] == idx[k] && t[idx[k]] == s[idx[k]];
      }
    }
  }

  /** Filtering one more element that fails: nothing is added. */
  lemma ListsSkip<T, U>(out: seq<U>, idx: seq<nat>, s: seq<T>, p: T -> bool, r: (U, T) -> bool,
                        x: T, t: seq<T>)
    requires Lists(out, idx, s, p, r) && t == s + [x]
    requires !p(x)
    ensures Lists(out, idx, t, p, r)
  {
    SelectsSnoc(idx, s, x, p);
    forall k | 0 <= k < |idx|
      ensures r(out[k], t[idx[k]])
    {
      assert t[idx[k]] == s[idx[k]];
    }
  }

  /** Filtering one more element, in either case. */
  lemma ListsStep<T, U>(out0: seq<U>, idx0: seq<nat>, s: seq<T>, p: T -> bool, r: (U, T) -> bool,
                        x: T, y: U, t: seq<T>, out: seq<U>)
    requires Lists(out0, idx0, s, p, r) && t == s + [x]
    requires p(x) ==> r(y, x) && out == out0 + [y]
    requires !p(x) ==> out == out0
    ensures exists idx :: Lists(out, idx, t, p, r)
  {
    if p(x) {
      ListsKeep(out0, idx0, s, p, r, x, y, t);
      assert Lists(out, idx0 + [|s|], t, p, r);
    } else {
      ListsSkip(out0, idx0, s, p, r, x, t);
      assert Lists(out, idx0, t, p, r);
    }
  }

  /** The entry test of the clause filter. */
  function IsClauseEntry(): Entry -> bool {
    (e: Entry) => e.kind == Clause
  }

  function SameEntry(): (Entry, Entry) -> bool {
    (a: Entry, b: Entry) => a == b
  }

  lemma {:induction false} ClausesOfMeaning(es: seq<Entry>)
    ensures forall e :: e in ClausesOf(es) <==> e in es && e.kind == Clause
    decreases |es|
  {
    if es != [] {
      ClausesOfMeaning(es[..|es| - 1]);
      assert es == es[..|es| - 1] + [es[|es| - 1]];
    }
  }

  /** The clause list is the clauses of `entries`, each once, in their
      order there. */
  lemma {:induction false} ClausesOfInOrder(es: seq<Entry>)
    ensures exists idx :: Lists(ClausesOf(es), idx, es, IsClauseEntry(), SameEntry())
    decreases |es|
  {
    if es == [] {
      var idx: seq<nat> := [];
      assert Lists(ClausesOf(es), idx, es, IsClauseEntry(), SameEntry());
    } else {
      var init, e := es[..|es| - 1], es[|es| - 1];
      ClausesOfInOrder(init);
      var idx0: seq<nat> :| Lists(ClausesOf(init), idx0, init, IsClauseEntry(), SameEntry());
      assert init + [e] == es;
      if IsClauseEntry()(e) {
        ListsKeep(ClausesOf(init), idx0, init, IsClauseEntry(), SameEntry(), e, e, es);
        assert ClausesOf(es) == ClausesOf(init) + [e];
        assert Lists(ClausesOf(es), idx0 + [|init|], es, IsClauseEntry(), SameEntry());
      } else {
        ListsSkip(ClausesOf(init), idx0, init, IsClauseEntry(), SameEntry(), e, es);
        assert Lists(ClausesOf(es), idx0, es, IsClauseEntry(), SameEntry());
      }
    }
  }

  /** `byId` holds exactly the ids that occur, each mapped to the last entry
      carrying it. */
  lemma {:induction false} IndexByIdLastWins(es: seq<Entry>)
    ensures forall id :: id in IndexById(es) <==> exists k :: 0 <= k < |es| && es[k].id == id
    ensures forall id, k :: LastWithId(es, id, k) ==> id in IndexById(es) && IndexById(es)[id] == es[k]
    decreases |es|
  {
    if es != [] {
      var init := es[..|es| - 1];
      IndexByIdLastWins(init);
      forall id | exists k :: 0 <= k < |es| && es[k].id == id
        ensures id in IndexById(es)
      {
        var k :| 0 <= k < |es| && es[k].id == id;
        if k < |es| - 1 {
          assert init[k].id == id;
        }
      }
      forall id, k | LastWithId(es, id, k)
        ensures id in IndexById(es) && IndexById(es)[id] == es[k]
      {
        if k < |es| - 1 {
          assert LastWithId(init, id, k);
        }
      }
    }
  }

  lemma {:induction false} AddRefsMeaning(m: map<string, string>, clause: string, refs: seq<string>)
    ensures forall r :: r in AddRefs(m, clause, refs) <==> r in m || r in refs
    ensures forall r :: r in refs ==> AddRefs(m, clause, refs)[r] == clause
    ensures forall r :: r in m && r !in refs ==> AddRefs(m, clause, refs)[r] == m[r]
    decreases |refs|
  {
    if refs != [] {
      AddRefsMeaning(m, clause, refs[..|refs| - 1]);
      assert refs == refs[..|refs| - 1] + [refs[|refs| - 1]];
    }
  }

  /** `refParentClause` holds exactly the listed reference ids, each mapped
      to the clause of the last pair listing it. */
  lemma {:induction false} ParentClausesLastWins(pairs: seq<(string, seq<string>)>)
    ensures forall r :: r in ParentClauses(pairs) <==> exists i :: 0 <= i < |pairs| && r in pairs[i].1
    ensures forall r, i :: LastListing(pairs, r, i) ==> r in ParentClauses(pairs) && ParentClauses(pairs)[r] == pairs[i].0
    decreases |pairs|
  {
    if pairs != [] {
      var init, last := pairs[..|pairs| - 1], pairs[|pairs| - 1];
      ParentClausesLastWins(init);
      AddRefsMeaning(ParentClauses(init), last.0, last.1);
      forall r | exists i :: 0 <= i < |pairs| && r in pairs[i].1
        ensures r in ParentClauses(pairs)
      {
        var i :| 0 <= i < |pairs| && r in pairs[i].1;
        if i < |pairs| - 1 {
          assert r in init[i].1;
        }
      }
      forall r, i | LastListing(pairs, r, i)
        ensures r in ParentClauses(pairs) && ParentClauses(pairs)[r] == pairs[i].0
      {
        if i < |pairs| - 1 {
          assert LastListing(init, r, i);
        }
      }
    }
  }

  // ---------------------------------------------------------------------
  // Lookup.

  /** The test `/^[\d.]*$/` that routes a query to the clause-number path. */
  predicate IsNumericQuery(q: string) {
    forall k :: 0 <= k < |q| ==> IsDigit(q[k]) || q[k] == '.'
  }

  /** The clause-number path: clauses whose number string starts with the
      query, in index order. Reading the number of a clause without one
      throws. */
  function NumberMatches(cs: seq<Entry>, q: string): Result<seq<Hit>, SearchError>
    decreases |cs|
  {
    if cs == [] then Ok([])
    else
      match NumberMatches(cs[..|cs| - 1], q)
      case Err(e) => Err(e)
      case Ok(hs) =>
        var c := cs[|cs| - 1];
        match c.number
        case None => Err(MissingNumber)
        case Some(n) =>
          if !StartsWith(n, q) then Ok(hs)
          else
            match GetKey(c)
            case Err(e) => Err(e)
            case Ok(k) => Ok(hs + [Hit(k, c, None)])
  }

  /** The fuzzy path before ranking: every entry with a key that the query
      fuzzily matches, in index order; the first `getKey` failure aborts. */
  function FuzzyHits(es: seq<Entry>, q: string): Result<seq<Hit>, SearchError>
    decreases |es|
  {
    if es == [] then Ok([])
    else
      match FuzzyHits(es[..|es| - 1], q)
      case Err(e) => Err(e)
      case Ok(hs) =>
        var e := es[|es| - 1];
        match GetKey(e)
        case Err(err) => Err(err)
        case Ok(k) =>
          if k == "" then Ok(hs)
          else
            match Fuzzy(q, k)
            case None => Ok(hs)
            case Some(m) => Ok(hs + [Hit(k, e, Some(m))])
  }

  /** The relevance a result is ranked by. */
  function Score(h: Hit): int {
    match h.quality
    case Some(m) => Relevance(m, |h.key|)
    case None => 0
  }

  const MaxResults := 50

  function Cap(hs: seq<Hit>): seq<Hit> {
    if |hs| > MaxResults then hs[..MaxResults] else hs
  }

  /** The cap keeps the first 50 results, or all of them. */
  lemma CapKeepsPrefix(all: seq<Hit>)
    ensures |Cap(all)| == (if |all| <= MaxResults then |all| else MaxResults)
    ensures Cap(all) == all[..|Cap(all)|]
  {
  }

  /** Capping a ranked list keeps it ranked and keeps the best results. */
  lemma CapKeepsBest(all: seq<Hit>)
    requires SortedDesc(all, Score)
    ensures SortedDesc(Cap(all), Score)
    ensures forall i, j :: 0 <= i < |Cap(all)| <= j < |all| ==> Score(Cap(all)[i]) >= Score(all[j])
  {
    var hs := Cap(all);
    assert hs == all[..|hs|];
    forall i, j | 0 <= i < j < |hs|
      ensures Score(hs[i]) >= Score(hs[j])
    {
      assert hs[i] == all[i] && hs[j] == all[j];
    }
    forall i, j | 0 <= i < |hs| <= j < |all|
      ensures Score(hs[i]) >= Score(all[j])
    {
      assert hs[i] == all[i];
    }
  }

  /** The results of a query of at least two characters. */
  function SearchResults(entries: seq<Entry>, clauses: Option<seq<Entry>>, q: string): Result<seq<Hit>, SearchError> {
    if IsNumericQuery(q) then
      match clauses
      case None => Err(MissingClauses)
      case Some(cs) =>
        match NumberMatches(cs, q)
        case Err(e) => Err(e)
        case Ok(hs) => Ok(Cap(hs))
    else
      match FuzzyHits(entries, q)
      case Err(e) => Err(e)
      case Ok(hs) => Ok(Cap(SortDesc(hs, Score)))
  }

  lemma {:induction false} FuzzyHitsFailsOnPrefix(es: seq<Entry>, q: string, i: nat)
    requires i <= |es| && FuzzyHits(es[..i], q).Err?
    ensures FuzzyHits(es, q).Err?
    decreases |es|
  {
    if i < |es| {
      assert es[..|es| - 1][..i] == es[..i];
      FuzzyHitsFailsOnPrefix(es[..|es| - 1], q, i);
    } else {
      assert es[..i] == es;
    }
  }

  /** The clause-number path fails exactly when some clause has no number;
      otherwise it returns precisely the clauses whose number starts with the
      query (so "30.1" also finds "30.10"). */
  lemma {:induction false} NumberMatchesMeaning(cs: seq<Entry>, q: string)
    requires forall k :: 0 <= k < |cs| ==> cs[k].kind == Clause
    ensures NumberMatches(cs, q).Err? <==> exists k :: 0 <= k < |cs| && cs[k].number.None?
    ensures NumberMatches(cs, q).Ok? ==>
              var hs := NumberMatches(cs, q).value;
              && (forall k :: 0 <= k < |hs| ==>
                    hs[k].entry in cs && hs[k].quality.None? && hs[k].entry.number.Some?
                    && StartsWith(hs[k].entry.number.value, q))
              && (forall c :: c in cs && c.number.Some? && StartsWith(c.number.value, q) ==>
                    exists k :: 0 <= k < |hs| && hs[k].entry == c)
    decreases |cs|
  {
    if cs != [] {
      var init, c := cs[..|cs| - 1], cs[|cs| - 1];
      NumberMatchesMeaning(init, q);
      assert cs == init + [c];
      if NumberMatches(cs, q).Ok? {
        var hs0 := NumberMatches(init, q).value;
        var hs := NumberMatches(cs, q).value;
        assert hs[..|hs0|] == hs0 || hs == hs0;
        forall d | d in cs && d.number.Some? && StartsWith(d.number.value, q)
          ensures exists k :: 0 <= k < |hs| && hs[k].entry == d
        {
          if d != c {
            assert d in init;
            var k :| 0 <= k < |hs0| && hs0[k].entry == d;
            assert hs[k] == hs0[k];
          } else {
            assert hs[|hs| - 1].entry == c;
          }
        }
      }
    }
  }

  /** The clause-number test: a number that starts with the query. */
  function NumberedUnder(q: string): Entry -> bool {
    (c: Entry) => c.number.Some? && StartsWith(c.number.value, q)
  }

  /** A clause-number hit for clause `c`: its key, and no match quality. */
  function ClauseHitFor(): (Hit, Entry) -> bool {
    (h: Hit, c: Entry) => h.entry == c && GetKey(c) == Ok(h.key) && h.quality.None?
  }

  /** The clause-number path keeps each matching clause once, in clause
      order: a filter followed by a map. */
  lemma {:induction false} NumberMatchesInOrder(cs: seq<Entry>, q: string)
    requires NumberMatches(cs, q).Ok?
    ensures exists idx :: Lists(NumberMatches(cs, q).value, idx, cs, NumberedUnder(q), ClauseHitFor())
    decreases |cs|
  {
    var hs := NumberMatches(cs, q).value;
    if cs == [] {
      var idx: seq<nat> := [];
      assert Lists(hs, idx, cs, NumberedUnder(q), ClauseHitFor());
    } else {
      var init, c := cs[..|cs| - 1], cs[|cs| - 1];
      NumberMatchesInOrder(init, q);
      var hs0 := NumberMatches(init, q).value;
      var idx0: seq<nat> :| Lists(hs0, idx0, init, NumberedUnder(q), ClauseHitFor());
      assert init + [c] == cs;
      if NumberedUnder(q)(c) {
        var h := Hit(GetKey(c).value, c, None);
        assert hs == hs0 + [h];
        ListsKeep(hs0, idx0, init, NumberedUnder(q), ClauseHitFor(), c, h, cs);
        assert Lists(hs, idx0 + [|init|], cs, NumberedUnder(q), ClauseHitFor());
      } else {
        assert hs == hs0;
        ListsSkip(hs0, idx0, init, NumberedUnder(q), ClauseHitFor(), c, cs);
        assert Lists(hs, idx0, cs, NumberedUnder(q), ClauseHitFor());
      }
    }
  }

  /** The fuzzy path fails exactly when `getKey` throws for some entry. */
  lemma {:induction false} FuzzyHitsFails(es: seq<Entry>, q: string)
    ensures FuzzyHits(es, q).Err? <==> exists k :: 0 <= k < |es| && GetKey(es[k]).Err?
    decreases |es|
  {
    if es != [] {
      var init, e := es[..|es| - 1], es[|es| - 1];
      FuzzyHitsFails(init, q);
      if k :| 0 <= k < |init| && GetKey(init[k]).Err? {
        assert es[k] == init[k];
      }
      if k :| 0 <= k < |es| && GetKey(es[k]).Err? {
        if k < |init| {
          assert init[k] == es[k];
        }
      }
    }
  }

  /** Every hit is an entry with a non-empty key that the query matches. */
  lemma {:induction false} FuzzyHitsSound(es: seq<Entry>, q: string)
    requires FuzzyHits(es, q).Ok?
    ensures var hs := FuzzyHits(es, q).value;
            forall k :: 0 <= k < |hs| ==>
              hs[k].entry in es && hs[k].key != "" && GetKey(hs[k].entry) == Ok(hs[k].key)
              && hs[k].quality.Some? && hs[k].quality == Fuzzy(q, hs[k].key)
    decreases |es|
  {
    if es != [] {
      var init := es[..|es| - 1];
      FuzzyHitsSound(init, q);
      var hs0, hs := FuzzyHits(init, q).value, FuzzyHits(es, q).value;
      forall k | 0 <= k < |hs|
        ensures hs[k].entry in es
      {
        if k < |hs0| {
          assert hs[k] == hs0[k];
          assert hs0[k].entry in init;
        }
      }
    }
  }

  /** Every entry with a non-empty key that the query matches is a hit. */
  lemma {:induction false} FuzzyHitsComplete(es: seq<Entry>, q: string)
    requires FuzzyHits(es, q).Ok?
    ensures var hs := FuzzyHits(es, q).value;
            forall e :: e in es && GetKey(e).Ok? && GetKey(e).value != "" && Fuzzy(q, GetKey(e).value).Some? ==>
              exists k :: 0 <= k < |hs| && hs[k].entry == e
    decreases |es|
  {
    if es != [] {
      var init, e := es[..|es| - 1], es[|es| - 1];
      FuzzyHitsComplete(init, q);
      assert es == init + [e];
      var hs0, hs := FuzzyHits(init, q).value, FuzzyHits(es, q).value;
      forall d | d in es && GetKey(d).Ok? && GetKey(d).value != "" && Fuzzy(q, GetKey(d).value).Some?
        ensures exists k :: 0 <= k < |hs| && hs[k].entry == d
      {
        if d != e {
          assert d in init;
          var k :| 0 <= k < |hs0| && hs0[k].entry == d;
          assert hs[k] == hs0[k];
        } else {
          assert hs[|hs| - 1].entry == e;
        }
      }
    }
  }

  /** The fuzzy test: a non-empty key that the query matches. */
  function KeyMatches(q: string): Entry -> bool {
    (e: Entry) => GetKey(e).Ok? && GetKey(e).value != "" && Fuzzy(q, GetKey(e).value).Some?
  }

  /** A fuzzy hit for entry `e`: its key and the match `fuzzysearch` gives. */
  function FuzzyHitFor(q: string): (Hit, Entry) -> bool {
    (h: Hit, e: Entry) => h.entry == e && GetKey(e) == Ok(h.key) && h.quality == Fuzzy(q, h.key)
  }

  /** One entry more: the fuzzy pass adds its hit exactly when it matches. */
  lemma FuzzyHitsStep(es: seq<Entry>, q: string)
    requires es != [] && FuzzyHits(es, q).Ok?
    ensures FuzzyHits(es[..|es| - 1], q).Ok?
    ensures var e := es[|es| - 1];
            KeyMatches(q)(e) ==>
              FuzzyHits(es, q).value
                == FuzzyHits(es[..|es| - 1], q).value + [Hit(GetKey(e).value, e, Fuzzy(q, GetKey(e).value))]
    ensures !KeyMatches(q)(es[|es| - 1]) ==> FuzzyHits(es, q).value == FuzzyHits(es[..|es| - 1], q).value
  {
  }

  /** Before ranking, the fuzzy hits are the matching entries, each once, in
      the order of `entries`. */
  lemma {:induction false} FuzzyHitsInOrder(es: seq<Entry>, q: string)
    requires FuzzyHits(es, q).Ok?
    ensures exists idx :: Lists(FuzzyHits(es, q).value, idx, es, KeyMatches(q), FuzzyHitFor(q))
    decreases |es|
  {
    var hs := FuzzyHits(es, q).value;
    if es == [] {
      var idx: seq<nat> := [];
      assert Lists(hs, idx, es, KeyMatches(q), FuzzyHitFor(q));
    } else {
      var init, e := es[..|es| - 1], es[|es| - 1];
      FuzzyHitsStep(es, q);
      FuzzyHitsInOrder(init, q);
      var hs0 := FuzzyHits(init, q).value;
      var idx0: seq<nat> :| Lists(hs0, idx0, init, KeyMatches(q), FuzzyHitFor(q));
      var h := Hit(GetKey(e).value, e, Fuzzy(q, GetKey(e).value));
      ListsStep(hs0, idx0, init, KeyMatches(q), FuzzyHitFor(q), e, h, es, hs);
    }
  }

  /** A result set keeps the first 50 results, or all of them when there are
      fewer. Clause-number results stay in clause order. Fuzzy results are
      in descending relevance order, with equal relevance in the order the
      hits were found (entry order, by `FuzzyHitsInOrder`), and are the best
      50: no left-out match scores higher than a kept one. */
  lemma SearchResultsRanked(entries: seq<Entry>, clauses: Option<seq<Entry>>, q: string)
    requires SearchResults(entries, clauses, q).Ok?
    ensures |SearchResults(entries, clauses, q).value| <= MaxResults
    ensures IsNumericQuery(q) ==>
              && clauses.Some? && NumberMatches(clauses.value, q).Ok?
              && var all := NumberMatches(clauses.value, q).value;
                 var hs := SearchResults(entries, clauses, q).value;
                 && |hs| == (if |all| <= MaxResults then |all| else MaxResults)
                 && hs == all[..|hs|]
    ensures !IsNumericQuery(q) ==>
              && FuzzyHits(entries, q).Ok?
              && var all := SortDesc(FuzzyHits(entries, q).value, Score);
                 var hs := SearchResults(entries, clauses, q).value;
                 && |hs| == (if |all| <= MaxResults then |all| else MaxResults)
                 && SortedDesc(hs, Score)
                 && multiset(all) == multiset(FuzzyHits(entries, q).value)
                 && (forall v :: WithKey(all, Score, v) == WithKey(FuzzyHits(entries, q).value, Score, v))
                 && hs == all[..|hs|]
                 && (forall i, j :: 0 <= i < |hs| <= j < |all| ==> Score(hs[i]) >= Score(all[j]))
  {
    if IsNumericQuery(q) {
      CapKeepsPrefix(NumberMatches(clauses.value, q).value);
    } else {
      var found := FuzzyHits(entries, q).value;
      SortDescIsStableSort(found, Score);
      CapKeepsPrefix(SortDesc(found, Score));
      CapKeepsBest(SortDesc(found, Score));
    }
  }

  /** The clause-number path matches by string prefix, not by dotted
      segment: "30.1" finds "30.1", "30.1.2" and "30.10" alike. */
  lemma NumericQueryMatchesStringPrefix()
    ensures
      var c1 := Entry(Clause, "sec-a", "", "A", "", "", "", "", "", Some("30.1"));
      var c2 := Entry(Clause, "sec-b", "", "B", "", "", "", "", "", Some("30.1.2"));
      var c3 := Entry(Clause, "sec-c", "", "C", "", "", "", "", "", Some("30.10"));
      var c4 := Entry(Clause, "sec-d", "", "D", "", "", "", "", "", Some("30.2"));
      NumberMatches([c1, c2, c3, c4], "30.1") == Ok([Hit("A", c1, None), Hit("B", c2, None), Hit("C", c3, None)])
  {
    var c1 := Entry(Clause, "sec-a", "", "A", "", "", "", "", "", Some("30.1"));
    var c2 := Entry(Clause, "sec-b", "", "B", "", "", "", "", "", Some("30.1.2"));
    var c3 := Entry(Clause, "sec-c", "", "C", "", "", "", "", "", Some("30.10"));
    var c4 := Entry(Clause, "sec-d", "", "D", "", "", "", "", "", Some("30.2"));
    var cs := [c1, c2, c3, c4];
    assert cs[..0] == [] && cs[..1] == [c1] && cs[..2] == [c1, c2] && cs[..3] == [c1, c2, c3];
    assert [c1, c2][..1] == [c1] && [c1, c2, c3][..2] == [c1, c2] && [c1][..0] == [];
    assert StartsWith("30.1", "30.1") && StartsWith("30.1.2", "30.1") && StartsWith("30.10", "30.1");
    assert "30.2"[..4][3] != "30.1"[3];
    assert !StartsWith("30.2", "30.1");
    var h1, h2, h3 := Hit("A", c1, None), Hit("B", c2, None), Hit("C", c3, None);
    assert GetKey(c1) == Ok("A") && GetKey(c2) == Ok("B") && GetKey(c3) == Ok("C");
    assert [] + [h1] == [h1] && [h1] + [h2] == [h1, h2] && [h1, h2] + [h3] == [h1, h2, h3];
    assert NumberMatches(cs[..0], "30.1") == Ok([]);
    assert NumberMatches(cs[..1], "30.1") == Ok([h1]);
    assert NumberMatches(cs[..2], "30.1") == Ok([h1, h2]);
    assert NumberMatches(cs[..3], "30.1") == Ok([h1, h2, h3]);
    assert cs[..4] == cs;
  }

  // ---------------------------------------------------------------------
  // The Search object: the indexes it holds and what it last displayed.

  class Search {
    var entries: seq<Entry>
    /** Absent when the biblio was missing: that path never sets `clauses`. */
    var clauses: Option<seq<Entry>>
    /** Absent, like `clauses`, when the biblio was missing. */
    var byId: Option<map<string, Entry>>
    /** Absent, like `clauses`, when the biblio was missing. */
    var refParentClause: Option<map<string, string>>
    /** Whether the search panel carries the `active` class. */
    ghost var active: bool
    /** The results `displayResults` last rendered. */
    ghost var shown: seq<Hit>

    ghost predicate Loaded(biblio: Option<BiblioData>)
      reads this
    {
      match biblio
      case None =>
        entries == [] && clauses == None && byId == None && refParentClause == None
      case Some(b) =>
        && entries == b.entries
        && clauses == Some(ClausesOf(b.entries))
        && byId == Some(IndexById(b.entries))
        && refParentClause == Some(ParentClauses(b.refsByClause))
    }

    constructor (biblio: Option<BiblioData>)
      ensures Loaded(biblio) && !active && shown == []
    {
      active, shown := false, [];
      new;
      LoadBiblio(biblio);
    }

    /** `loadBiblio`: with no biblio, an empty entry list and no clause
        filter, id map or reference-to-clause map (reading any of them throws);
        otherwise all three, filled in place. */
    method LoadBiblio(biblio: Option<BiblioData>)
      modifies this`entries, this`clauses, this`byId, this`refParentClause
      ensures Loaded(biblio)
    {
      if biblio.None? {
        entries, clauses, byId, refParentClause := [], None, None, None;
        return;
      }
      var es := biblio.value.entries;
      entries := es;

      var cs := [];
      for k := 0 to |es|
        invariant cs == ClausesOf(es[..k])
      {
        assert es[..k + 1][..k] == es[..k];
        if es[k].kind == Clause {
          cs := cs + [es[k]];
        }
      }
      assert es[..|es|] == es;
      clauses := Some(cs);

      var m := map[];
      for k := 0 to |es|
        invariant m == IndexById(es[..k])
      {
        assert es[..k + 1][..k] == es[..k];
        m := m[es[k].id := es[k]];
      }
      byId := Some(m);

      var pairs := biblio.value.refsByClause;
      var parents := map[];
      for c := 0 to |pairs|
        invariant parents == ParentClauses(pairs[..c])
      {
        assert pairs[..c + 1][..c] == pairs[..c];
        var clause, refs := pairs[c].0, pairs[c].1;
        ghost var before := parents;
        for r := 0 to |refs|
          invariant parents == AddRefs(before, clause, refs[..r])
        {
          assert refs[..r + 1][..r] == refs[..r];
          parents := parents[refs[r] := clause];
        }
        assert refs[..|refs|] == refs;
      }
      assert pairs[..|pairs|] == pairs;
      refParentClause := Some(parents);
    }

    /** `search(searchString)`: the empty query hides the panel, a one-letter
        query shows no results, any other query shows the clause-number or
        fuzzy results. A thrown error leaves the displayed results as they were. */
    method Search(searchString: string)
      modifies this`active, this`shown
      ensures searchString == "" ==> !active && shown == []
      ensures searchString != "" ==> active
      ensures |searchString| == 1 ==> shown == []
      ensures |searchString| >= 2 ==>
                shown == match SearchResults(entries, clauses, searchString)
                         case Ok(hs) => hs
                         case Err(_) => old(shown)
    {
      if searchString == "" {
        shown := [];
        active := false;
        return;
      } else {
        active := true;
      }

      if |searchString| == 1 {
        shown := [];
        return;
      }

      var results: seq<Hit>;
      if IsNumericQuery(searchString) {
        if clauses.None? {
          return;
        }
        var found := NumberMatches(clauses.value, searchString);
        if found.Err? {
          return;
        }
        results := found.value;
      } else {
        results := [];
        for i := 0 to |entries|
          invariant FuzzyHits(entries[..i], searchString) == Ok(results)
          invariant active && shown == old(shown)
        {
          assert entries[..i + 1][..i] == entries[..i];
          var entry := entries[i];
          var key := GetKey(entry);
          if key.Err? {
            FuzzyHitsFailsOnPrefix(entries, searchString, i + 1);
            return;
          }
          if key.value == "" {
            continue;
          }
          var m := FuzzySearch(searchString, key.value, false);
          if m.Some? {
            results := results + [Hit(key.value, entry, m)];
          }
        }
        assert entries[..|entries|] == entries;
        results := SortDesc(results, Score);
      }

      if |results| > MaxResults {
        results := results[..MaxResults];
      }
      shown := results;
    }
  }
}
