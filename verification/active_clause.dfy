/** Which clause the reader is looking at (`findActiveClause`,
    `getVisibleClauses`, `getChildClauses`). The document is a tree of
    elements; each carries its bounding rectangle in viewport coordinates and
    its computed margins, in pixels, as they stand at the moment of the scan. */
module ActiveClause {
  import Sorting

  /** `Math.max` of two numbers. */
  function Max(a: int, b: int): int {
    if a >= b then a else b
  }

  /** The element names the scan tells apart. */
  datatype Kind = Clause | Intro | Annex | Import | Other

  datatype Node = Node(kind: Kind, top: int, bottom: int,
                       marginTop: int, headerMarginTop: int, marginBottom: int,
                       children: seq<Node>)

  /** A visible clause and the clauses from the scan's root down to it. */
  datatype Entry = Entry(clause: Node, path: seq<Node>)

  predicate IsClauseKind(k: Kind) {
    k == Clause || k == Intro || k == Annex
  }

  function Size(n: Node): nat
    decreases n
  {
    1 + SizeAll(n.children)
  }

  function SizeAll(ns: seq<Node>): nat
    decreases ns
  {
    if ns == [] then 0 else Size(ns[0]) + SizeAll(ns[1..])
  }

  lemma {:induction false} SizeAllAppend(a: seq<Node>, b: seq<Node>)
    ensures SizeAll(a + b) == SizeAll(a) + SizeAll(b)
    decreases |a|
  {
    if a == [] {
      assert a + b == b;
    } else {
      SizeAllAppend(a[1..], b);
      assert (a + b)[1..] == a[1..] + b;
    }
  }

  lemma {:induction false} SizeOfMember(ns: seq<Node>, i: nat)
    requires i < |ns|
    ensures Size(ns[i]) <= SizeAll(ns)
    decreases |ns|
  {
    if i > 0 {
      SizeOfMember(ns[1..], i - 1);
    }
  }

  // ---------------------------------------------------------------------
  // getChildClauses
  // ---------------------------------------------------------------------

  /** The clauses one child contributes: itself, the clauses inside it when
      it is an import, or none. */
  function Own(x: Node): seq<Node>
    decreases x
  {
    match x.kind
    case Import => ClausesIn(x.children)
    case Other => []
    case _ => [x]
  }

  /** The clauses among `ns`, in document order, looking through imports. */
  function ClausesIn(ns: seq<Node>): seq<Node>
    decreases ns
  {
    if ns == [] then [] else Own(ns[0]) + ClausesIn(ns[1..])
  }

  lemma {:induction false} OwnIsClauses(x: Node)
    ensures forall i :: 0 <= i < |Own(x)| ==> IsClauseKind(Own(x)[i].kind)
    ensures SizeAll(Own(x)) <= Size(x)
    decreases x
  {
    if x.kind == Import {
      ClausesInAreClauses(x.children);
    } else if x.kind != Other {
      assert [x][1..] == [];
    }
  }

  /** Only clauses are listed, and together they are no larger than `ns`. */
  lemma {:induction false} ClausesInAreClauses(ns: seq<Node>)
    ensures forall i :: 0 <= i < |ClausesIn(ns)| ==> IsClauseKind(ClausesIn(ns)[i].kind)
    ensures SizeAll(ClausesIn(ns)) <= SizeAll(ns)
    decreases ns
  {
    if ns != [] {
      OwnIsClauses(ns[0]);
      ClausesInAreClauses(ns[1..]);
      SizeAllAppend(Own(ns[0]), ClausesIn(ns[1..]));
    }
  }

  /** `getChildClauses(root)`: the clauses directly under `root`, where the
      children of an import count as children of `root`. */
  function ChildClauses(root: Node): (r: seq<Node>)
    ensures forall i :: 0 <= i < |r| ==> IsClauseKind(r[i].kind)
    ensures forall i :: 0 <= i < |r| ==> Size(r[i]) < Size(root)
    ensures SizeAll(r) < Size(root)
  {
    var r := ClausesIn(root.children);
    ClausesInAreClauses(root.children);
    forall i | 0 <= i < |r|
      ensures Size(r[i]) < Size(root)
    {
      SizeOfMember(r, i);
    }
    r
  }

  lemma ClausesInFront(x: Node, r: seq<Node>)
    ensures ClausesIn([x] + r) == Own(x) + ClausesIn(r)
  {
    assert ([x] + r)[1..] == r;
  }

  /** The generator distributes over concatenation of the children. */
  lemma {:induction false} ClausesInAppend(a: seq<Node>, b: seq<Node>)
    ensures ClausesIn(a + b) == ClausesIn(a) + ClausesIn(b)
    decreases |a|
  {
    if a == [] {
      assert a + b == b;
    } else {
      ClausesInAppend(a[1..], b);
      assert a + b == [a[0]] + (a[1..] + b);
      ClausesInFront(a[0], a[1..] + b);
    }
  }

  /** An import is transparent: replacing it by its children changes nothing. */
  lemma ImportIsTransparent(before: seq<Node>, imp: Node, after: seq<Node>)
    requires imp.kind == Import
    ensures ClausesIn(before + [imp] + after) == ClausesIn(before + imp.children + after)
  {
    assert [imp][1..] == [];
    assert ClausesIn([imp]) == ClausesIn(imp.children) + ClausesIn([]);
    ClausesInAppend(before + [imp], after);
    ClausesInAppend(before, [imp]);
    ClausesInAppend(before + imp.children, after);
    ClausesInAppend(before, imp.children);
  }

  /** Every clause element in `ns` itself is listed. */
  lemma {:induction false} ClausesInKeeps(ns: seq<Node>, i: nat)
    requires i < |ns| && IsClauseKind(ns[i].kind)
    ensures ns[i] in ClausesIn(ns)
    decreases |ns|
  {
    if i > 0 {
      ClausesInKeeps(ns[1..], i - 1);
    } else {
      assert Own(ns[0]) == [ns[0]];
    }
  }

  // ---------------------------------------------------------------------
  // getVisibleClauses
  // ---------------------------------------------------------------------

  /** Some part of `n` lies strictly inside a viewport of height `h`, or `n`
      spans the whole viewport. */
  predicate PartiallyVisible(n: Node, h: int) {
    (0 < n.top < h) || (0 < n.bottom < h) || (n.top < 0 && n.bottom > h)
  }

  /** `getVisibleClauses(root, path)` as a value: the visible clauses below
      `root` in pre-order, each with its path. */
  function Visible(root: Node, path: seq<Node>, h: int): seq<Entry>
    decreases Size(root), 0
  {
    Scan(ChildClauses(root), path, h, false)
  }

  /** The loop over the remaining child clauses `cs`; `seen` records that a
      visible sibling was already met. */
  function Scan(cs: seq<Node>, path: seq<Node>, h: int, seen: bool): seq<Entry>
    decreases SizeAll(cs), 1
  {
    if cs == [] then []
    else if PartiallyVisible(cs[0], h) then
      SizeOfMember(cs, 0);
      [Entry(cs[0], path + [cs[0]])] + Visible(cs[0], path + [cs[0]], h)
        + Scan(cs[1..], path, h, true)
    else if seen then []
    else Scan(cs[1..], path, h, false)
  }

  /** A visible clause appends its entry and the entries below it. */
  lemma VisibleKeeps(result: seq<Entry>, cs: seq<Node>, i: nat, path: seq<Node>, h: int, seen: bool,
                     target: seq<Entry>)
    requires i < |cs| && PartiallyVisible(cs[i], h)
    requires result + Scan(cs[i..], path, h, seen) == target
    ensures result + [Entry(cs[i], path + [cs[i]])] + Visible(cs[i], path + [cs[i]], h)
            + Scan(cs[i + 1..], path, h, true) == target
  {
    assert cs[i..][1..] == cs[i + 1..];
  }

  /** An invisible clause before any visible one is skipped. */
  lemma HiddenKeeps(result: seq<Entry>, cs: seq<Node>, i: nat, path: seq<Node>, h: int, target: seq<Entry>)
    requires i < |cs| && !PartiallyVisible(cs[i], h)
    requires result + Scan(cs[i..], path, h, false) == target
    ensures result + Scan(cs[i + 1..], path, h, false) == target
  {
    assert cs[i..][1..] == cs[i + 1..];
  }

  /** An invisible clause after a visible one ends the scan. */
  lemma HiddenStops(result: seq<Entry>, cs: seq<Node>, i: nat, path: seq<Node>, h: int, target: seq<Entry>)
    requires i < |cs| && !PartiallyVisible(cs[i], h)
    requires result + Scan(cs[i..], path, h, true) == target
    ensures result == target
  {
    assert result + [] == result;
  }

  /** `getVisibleClauses`: walks the child clauses, recording each visible
      one and then the visible clauses below it, and stops at the first
      invisible clause after a visible one. */
  method GetVisibleClauses(root: Node, path: seq<Node>, h: int) returns (result: seq<Entry>)
    ensures result == Visible(root, path, h)
    decreases Size(root)
  {
    var childClauses := ChildClauses(root);
    result := [];
    var seenVisibleClause := false;
    for i := 0 to |childClauses|
      invariant result + Scan(childClauses[i..], path, h, seenVisibleClause) == Visible(root, path, h)
    {
      var clause := childClauses[i];
      var top, bottom := clause.top, clause.bottom;
      var isPartiallyVisible := (top > 0 && top < h) || (bottom > 0 && bottom < h) || (top < 0 && bottom > h);
      if isPartiallyVisible {
        VisibleKeeps(result, childClauses, i, path, h, seenVisibleClause, Visible(root, path, h));
        seenVisibleClause := true;
        var innerPath := path + [clause];
        result := result + [Entry(clause, innerPath)];
        var inner := GetVisibleClauses(clause, innerPath, h);
        result := result + inner;
      } else if seenVisibleClause {
        HiddenStops(result, childClauses, i, path, h, Visible(root, path, h));
        break;
      } else {
        HiddenKeeps(result, childClauses, i, path, h, Visible(root, path, h));
      }
    }
    assert childClauses[|childClauses|..] == [];
  }

  /** An entry of the scan that started at `root` with `path`: its path
      extends `path` by a chain of partially visible clauses, each a child
      clause of the one before (the first one of `root`), ending at the
      entry's clause. */
  ghost predicate WellFormed(e: Entry, root: Node, path: seq<Node>, h: int) {
    && |path| < |e.path|
    && e.path[..|path|] == path
    && e.path[|e.path| - 1] == e.clause
    && e.path[|path|] in ChildClauses(root)
    && (forall k :: |path| <= k < |e.path| ==> PartiallyVisible(e.path[k], h))
    && (forall k :: |path| < k < |e.path| ==> e.path[k] in ChildClauses(e.path[k - 1]))
  }

  lemma WellFormedExtend(e: Entry, root: Node, c: Node, path: seq<Node>, h: int)
    requires c in ChildClauses(root) && PartiallyVisible(c, h)
    requires WellFormed(e, c, path + [c], h)
    ensures WellFormed(e, root, path, h)
  {
    assert e.path[..|path| + 1] == path + [c];
    assert e.path[..|path|] == (path + [c])[..|path|];
    assert e.path[|path|] == c;
  }

  lemma {:induction false} VisibleWellFormed(root: Node, path: seq<Node>, h: int)
    ensures forall e :: e in Visible(root, path, h) ==> WellFormed(e, root, path, h)
    decreases Size(root), 0
  {
    var cs := ChildClauses(root);
    ScanWellFormed(root, cs, path, h, false);
  }

  lemma {:induction false} ScanWellFormed(root: Node, cs: seq<Node>, path: seq<Node>, h: int, seen: bool)
    requires forall c :: c in cs ==> c in ChildClauses(root)
    ensures forall e :: e in Scan(cs, path, h, seen) ==> WellFormed(e, root, path, h)
    decreases SizeAll(cs), 1
  {
    if cs == [] {
    } else if PartiallyVisible(cs[0], h) {
      var c := cs[0];
      SizeOfMember(cs, 0);
      VisibleWellFormed(c, path + [c], h);
      ScanWellFormed(root, cs[1..], path, h, true);
      forall e | e in Visible(c, path + [c], h)
        ensures WellFormed(e, root, path, h)
      {
        WellFormedExtend(e, root, c, path, h);
      }
      assert WellFormed(Entry(c, path + [c]), root, path, h);
    } else if !seen {
      ScanWellFormed(root, cs[1..], path, h, false);
    }
  }

  /** Every entry is a partially visible clause, listed with its path: the
      path of the scan, then the chain of visible clauses leading to it. */
  lemma EntriesAreVisibleClauses(root: Node, path: seq<Node>, h: int, e: Entry)
    requires e in Visible(root, path, h)
    ensures IsClauseKind(e.clause.kind) && PartiallyVisible(e.clause, h)
    ensures |e.path| > |path| && e.path[..|path|] == path && e.path[|e.path| - 1] == e.clause
    ensures e.path[|path|] in ChildClauses(root)
    ensures forall k :: |path| < k < |e.path| ==> e.path[k] in ChildClauses(e.path[k - 1])
  {
    VisibleWellFormed(root, path, h);
    var n := |e.path| - 1;
    if n == |path| {
      assert e.clause in ChildClauses(root);
    } else {
      assert e.clause in ChildClauses(e.path[n - 1]);
    }
  }

  /** The clauses of `es` whose path has length `d`. */
  function AtDepth(es: seq<Entry>, d: nat): seq<Node>
    decreases |es|
  {
    if es == [] then []
    else (if |es[0].path| == d then [es[0].clause] else []) + AtDepth(es[1..], d)
  }

  lemma AtDepthFront(e: Entry, r: seq<Entry>, d: nat)
    ensures AtDepth([e] + r, d) == (if |e.path| == d then [e.clause] else []) + AtDepth(r, d)
  {
    assert ([e] + r)[1..] == r;
  }

  lemma {:induction false} AtDepthAppend(a: seq<Entry>, b: seq<Entry>, d: nat)
    ensures AtDepth(a + b, d) == AtDepth(a, d) + AtDepth(b, d)
    decreases |a|
  {
    if a == [] {
      assert a + b == b;
    } else {
      AtDepthAppend(a[1..], b, d);
      assert a + b == [a[0]] + (a[1..] + b);
      AtDepthFront(a[0], a[1..] + b, d);
    }
  }

  lemma {:induction false} AtDepthDeeper(es: seq<Entry>, d: nat)
    requires forall e :: e in es ==> |e.path| > d
    ensures AtDepth(es, d) == []
    decreases |es|
  {
    if es != [] {
      assert es[0] in es;
      AtDepthDeeper(es[1..], d);
    }
  }

  /** Number of leading clauses of `cs` that are not visible. */
  function LeadingHidden(cs: seq<Node>, h: int): (r: nat)
    ensures r <= |cs|
    ensures forall k :: 0 <= k < r ==> !PartiallyVisible(cs[k], h)
    ensures r < |cs| ==> PartiallyVisible(cs[r], h)
    decreases |cs|
  {
    if cs == [] || PartiallyVisible(cs[0], h) then 0
    else 1 + LeadingHidden(cs[1..], h)
  }

  /** Number of leading clauses of `cs` that are visible. */
  function LeadingVisible(cs: seq<Node>, h: int): (r: nat)
    ensures r <= |cs|
    ensures forall k :: 0 <= k < r ==> PartiallyVisible(cs[k], h)
    ensures r < |cs| ==> !PartiallyVisible(cs[r], h)
    decreases |cs|
  {
    if cs == [] || !PartiallyVisible(cs[0], h) then 0
    else 1 + LeadingVisible(cs[1..], h)
  }

  lemma {:induction false} ScanSeenTopLevel(cs: seq<Node>, path: seq<Node>, h: int)
    ensures AtDepth(Scan(cs, path, h, true), |path| + 1) == cs[..LeadingVisible(cs, h)]
    decreases |cs|
  {
    if cs != [] && PartiallyVisible(cs[0], h) {
      var c := cs[0];
      var inner := Visible(c, path + [c], h);
      VisibleWellFormed(c, path + [c], h);
      AtDepthDeeper(inner, |path| + 1);
      ScanSeenTopLevel(cs[1..], path, h);
      var rest := Scan(cs[1..], path, h, true);
      AtDepthAppend([Entry(c, path + [c])] + inner, rest, |path| + 1);
      AtDepthAppend([Entry(c, path + [c])], inner, |path| + 1);
      assert [Entry(c, path + [c])][1..] == [];
      assert cs[..LeadingVisible(cs, h)] == [c] + cs[1..][..LeadingVisible(cs[1..], h)];
    }
  }

  lemma {:induction false} ScanTopLevel(cs: seq<Node>, path: seq<Node>, h: int)
    ensures var lo := LeadingHidden(cs, h);
            AtDepth(Scan(cs, path, h, false), |path| + 1) == cs[lo..lo + LeadingVisible(cs[lo..], h)]
    decreases |cs|
  {
    if cs == [] {
    } else if PartiallyVisible(cs[0], h) {
      ScanSeenTopLevel(cs, path, h);
      assert cs[0..] == cs;
    } else {
      ScanTopLevel(cs[1..], path, h);
      assert cs[1..][LeadingHidden(cs[1..], h)..] == cs[LeadingHidden(cs, h)..];
    }
  }

  /** The clauses listed directly under `root` are exactly a run of adjacent
      child clauses: it starts at the first visible one and ends just before
      the first invisible one after it. */
  lemma VisibleSiblingRun(root: Node, path: seq<Node>, h: int)
    ensures var cs := ChildClauses(root);
            var lo := LeadingHidden(cs, h);
            AtDepth(Visible(root, path, h), |path| + 1) == cs[lo..lo + LeadingVisible(cs[lo..], h)]
  {
    ScanTopLevel(ChildClauses(root), path, h);
  }

  // ---------------------------------------------------------------------
  // findActiveClause
  // ---------------------------------------------------------------------

  /** Starts below the top edge and above the midpoint, and ends above the
      bottom edge. */
  predicate FullyVisibleAboveFold(n: Node, h: nat) {
    0 < n.top < h / 2 && n.bottom < h
  }

  /** The clause, widened by its margins (the top margin being the larger of
      the clause's and its heading's), covers the midpoint line. */
  predicate CrossesMidpoint(n: Node, h: nat) {
    var marginTop := Max(0, Max(n.marginTop, n.headerMarginTop));
    var marginBottom := Max(0, n.marginBottom);
    n.top - marginTop <= h / 2 && n.bottom + marginBottom >= h / 2
  }

  function Depth(e: Entry): int {
    |e.path|
  }

  ghost predicate IsFirstFullyVisible(vs: seq<Entry>, h: nat, k: int) {
    && 0 <= k < |vs|
    && FullyVisibleAboveFold(vs[k].clause, h)
    && forall j :: 0 <= j < k ==> !FullyVisibleAboveFold(vs[j].clause, h)
  }

  /** `vs[k]` crosses the midpoint, no crossing entry is deeper, and no
      crossing entry of the same depth comes before it. */
  ghost predicate IsDeepestCrossing(vs: seq<Entry>, h: nat, k: int) {
    && 0 <= k < |vs|
    && CrossesMidpoint(vs[k].clause, h)
    && (forall j :: 0 <= j < |vs| && CrossesMidpoint(vs[j].clause, h) ==> |vs[j].path| <= |vs[k].path|)
    && (forall j :: 0 <= j < k && CrossesMidpoint(vs[j].clause, h) ==> |vs[j].path| < |vs[k].path|)
  }

  /** `findActiveClause(root, path)` in a viewport of height `h`: the path of
      the first visible clause (in pre-order) that is fully visible above the
      fold; failing that, of the deepest clause crossing the midpoint, the
      earliest among equally deep ones; failing that, `path` itself. */
  method FindActiveClause(root: Node, path: seq<Node>, h: nat) returns (active: seq<Node>)
    ensures var vs := Visible(root, path, h);
            || (exists k :: IsFirstFullyVisible(vs, h, k) && active == vs[k].path)
            || ((forall j :: 0 <= j < |vs| ==> !FullyVisibleAboveFold(vs[j].clause, h))
                && exists k :: IsDeepestCrossing(vs, h, k) && active == vs[k].path)
            || ((forall j :: 0 <= j < |vs| ==> !FullyVisibleAboveFold(vs[j].clause, h)
                                                && !CrossesMidpoint(vs[j].clause, h))
                && active == path)
  {
    var visibleClauses := GetVisibleClauses(root, path, h);
    var midpoint := h / 2;
    for i := 0 to |visibleClauses|
      invariant forall j :: 0 <= j < i ==> !FullyVisibleAboveFold(visibleClauses[j].clause, h)
    {
      var clause := visibleClauses[i].clause;
      var isFullyVisibleAboveTheFold := clause.top > 0 && clause.top < midpoint && clause.bottom < h;
      if isFullyVisibleAboveTheFold {
        assert IsFirstFullyVisible(visibleClauses, h, i);
        return visibleClauses[i].path;
      }
    }
    var sorted := Sorting.SortDesc(visibleClauses, Depth);
    for i := 0 to |sorted|
      invariant forall j :: 0 <= j < i ==> !CrossesMidpoint(sorted[j].clause, h)
    {
      var clause := sorted[i].clause;
      var marginTop := Max(0, Max(clause.marginTop, clause.headerMarginTop));
      var marginBottom := Max(0, clause.marginBottom);
      var crossesMidpoint := clause.top - marginTop <= midpoint && clause.bottom + marginBottom >= midpoint;
      if crossesMidpoint {
        DeepestCrossingChosen(visibleClauses, h, i);
        return sorted[i].path;
      }
    }
    NoneCrossing(visibleClauses, h);
    return path;
  }

  function CrossesAt(h: nat): Entry -> bool {
    (e: Entry) => CrossesMidpoint(e.clause, h)
  }

  lemma DeepestCrossingChosen(vs: seq<Entry>, h: nat, m: nat)
    requires m < |Sorting.SortDesc(vs, Depth)|
    requires CrossesMidpoint(Sorting.SortDesc(vs, Depth)[m].clause, h)
    requires forall j :: 0 <= j < m ==> !CrossesMidpoint(Sorting.SortDesc(vs, Depth)[j].clause, h)
    ensures exists k :: IsDeepestCrossing(vs, h, k) && vs[k].path == Sorting.SortDesc(vs, Depth)[m].path
  {
    var p := CrossesAt(h);
    Sorting.FirstMatchAfterSort(vs, Depth, p, m);
    var k :| 0 <= k < |vs| && vs[k] == Sorting.SortDesc(vs, Depth)[m]
             && (forall j :: 0 <= j < |vs| && p(vs[j]) ==> Depth(vs[j]) <= Depth(vs[k]))
             && (forall j :: 0 <= j < k && p(vs[j]) ==> Depth(vs[j]) < Depth(vs[k]));
    assert IsDeepestCrossing(vs, h, k);
  }

  lemma NoneCrossing(vs: seq<Entry>, h: nat)
    requires forall j :: 0 <= j < |Sorting.SortDesc(vs, Depth)| ==> !CrossesMidpoint(Sorting.SortDesc(vs, Depth)[j].clause, h)
    ensures forall j :: 0 <= j < |vs| ==> !CrossesMidpoint(vs[j].clause, h)
  {
    Sorting.NoMatchAfterSort(vs, Depth, CrossesAt(h));
  }
}
