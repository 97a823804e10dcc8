/** The parenthesis test inside `makeExponentPlainTextSafe`: an exponent is
    left unwrapped when its (trimmed) text is already one parenthesised
    group. The text is split on parentheses, keeping them, and a depth
    counter is folded over the parts, with NaN (here `None`) for a failed
    test. */
module Exponent {
  import opened Wrappers

  predicate IsParen(c: char) {
    c == '(' || c == ')'
  }

  predicate ParenFree(s: string) {
    forall k :: 0 <= k < |s| ==> !IsParen(s[k])
  }

  /** `text.split(/([()])/g)`: the text between parentheses, with each
      parenthesis kept as a part of its own. */
  function SplitParens(t: string): (parts: seq<string>)
    ensures |parts| >= 1
    decreases |t|
  {
    if t == [] then [""]
    else if IsParen(t[0]) then ["", [t[0]]] + SplitParens(t[1..])
    else
      var rest := SplitParens(t[1..]);
      [[t[0]] + rest[0]] + rest[1..]
  }

  /** The parentheses of a text, in order. */
  function Parens(t: string): (p: string)
    ensures forall k :: 0 <= k < |p| ==> IsParen(p[k])
    decreases |t|
  {
    if t == [] then [] else (if IsParen(t[0]) then [t[0]] else []) + Parens(t[1..])
  }

  lemma ParensStart(t: string)
    requires t != [] && IsParen(t[0])
    ensures Parens(t) != []
  {
    assert Parens(t) == [t[0]] + Parens(t[1..]);
  }

  /** Opening minus closing parentheses. */
  function Depth(s: string): int
    decreases |s|
  {
    if s == [] then 0
    else
      var c := s[|s| - 1];
      Depth(s[..|s| - 1]) + (if c == '(' then 1 else if c == ')' then -1 else 0)
  }

  /** A run of parentheses that opens once and closes only at its end. */
  predicate OneGroup(p: string) {
    p != [] && p[0] == '(' && Depth(p) == 0 &&
    forall k :: 1 <= k < |p| ==> Depth(p[..k]) >= 1
  }

  /** The reducer, given the part `s` at index `i` of `count` parts. */
  function Step(depth: Option<int>, s: string, i: nat, count: nat): Option<int> {
    if s == "(" then
      (match depth
       case Some(d) => if d > 0 || i == 1 then Some(d + 1) else None
       case None => None)
    else if s == ")" then
      (match depth
       case Some(d) => if d > 0 then Some(d - 1) else None
       case None => None)
    else if s == "" || (i > 0 && i < count - 1) then depth
    else None
  }

  /** The accumulator after the first `n` parts. */
  function Reduce(parts: seq<string>, n: nat): Option<int>
    requires n <= |parts|
  {
    if n == 0 then Some(0) else Step(Reduce(parts, n - 1), parts[n - 1], n - 1, |parts|)
  }

  /** The fold's verdict: no wrapping parentheses are needed. */
  predicate Grouped(text: string) {
    var parts := SplitParens(text);
    Reduce(parts, |parts|) == Some(0)
  }

  // ---------------------------------------------------------------------
  // The shape of the split

  /** Parts alternate between parenthesis-free text and single
      parentheses, `p` being the parentheses in order. */
  predicate Alternates(parts: seq<string>, p: string) {
    |parts| == 2 * |p| + 1 &&
    (forall j :: 0 <= j < |p| ==> parts[2 * j + 1] == [p[j]]) &&
    (forall j :: 0 <= j <= |p| ==> ParenFree(parts[2 * j]))
  }

  lemma {:induction false} SplitParenParts(t: string)
    ensures var parts, p := SplitParens(t), Parens(t);
            |parts| == 2 * |p| + 1 && forall j :: 0 <= j < |p| ==> parts[2 * j + 1] == [p[j]]
    decreases |t|
  {
    if t != [] {
      SplitParenParts(t[1..]);
      var parts, p := SplitParens(t), Parens(t);
      var rest, q := SplitParens(t[1..]), Parens(t[1..]);
      if IsParen(t[0]) {
        assert parts == ["", [t[0]]] + rest;
        assert p == [t[0]] + q;
        forall j | 0 <= j < |p|
          ensures parts[2 * j + 1] == [p[j]]
        {
          if j > 0 {
            assert parts[2 * j + 1] == rest[2 * (j - 1) + 1];
          }
        }
      } else {
        assert p == q;
        forall j | 0 <= j < |p|
          ensures parts[2 * j + 1] == [p[j]]
        {
          assert parts[2 * j + 1] == rest[2 * j + 1];
        }
      }
    }
  }

  lemma {:induction false} SplitTextParts(t: string)
    ensures forall j :: 0 <= j < |SplitParens(t)| ==> j % 2 == 1 || ParenFree(SplitParens(t)[j])
    decreases |t|
  {
    if t != [] {
      SplitTextParts(t[1..]);
      var parts, rest := SplitParens(t), SplitParens(t[1..]);
      if IsParen(t[0]) {
        assert parts == ["", [t[0]]] + rest;
        forall j | 0 <= j < |parts| && j % 2 == 0
          ensures ParenFree(parts[j])
        {
          if j > 0 {
            assert parts[j] == rest[j - 2];
          }
        }
      } else {
        forall j | 0 <= j < |parts| && j % 2 == 0
          ensures ParenFree(parts[j])
        {
          if j > 0 {
            assert parts[j] == rest[j];
          } else {
            assert ParenFree(rest[0]);
            forall k | 0 <= k < |parts[0]|
              ensures !IsParen(parts[0][k])
            {
              if k > 0 {
                assert parts[0][k] == rest[0][k - 1];
              }
            }
          }
        }
      }
    }
  }

  lemma SplitAlternates(t: string)
    ensures Alternates(SplitParens(t), Parens(t))
  {
    var parts, p := SplitParens(t), Parens(t);
    SplitParenParts(t);
    SplitTextParts(t);
    forall j | 0 <= j <= |p|
      ensures ParenFree(parts[2 * j])
    {
      assert (2 * j) % 2 == 0;
    }
  }

  /** The first part is empty exactly when the text starts with a
      parenthesis, the last exactly when it ends with one. */
  lemma {:induction false} SplitEnds(t: string)
    requires t != []
    ensures SplitParens(t)[0] == "" <==> IsParen(t[0])
    ensures SplitParens(t)[|SplitParens(t)| - 1] == "" <==> IsParen(t[|t| - 1])
    decreases |t|
  {
    var parts, rest := SplitParens(t), SplitParens(t[1..]);
    if |t| == 1 {
      assert rest == [""];
    } else {
      SplitEnds(t[1..]);
      assert t[|t| - 1] == t[1..][|t[1..]| - 1];
      if !IsParen(t[0]) && |rest| == 1 {
        assert rest[0] != "";
      }
    }
  }

  // ---------------------------------------------------------------------
  // The fold seen on the parentheses alone

  /** The reducer on the `j`-th parenthesis. */
  function ParenStep(depth: Option<int>, c: char, j: nat): Option<int> {
    match depth
    case None => None
    case Some(d) =>
      if c == '(' then (if d > 0 || j == 0 then Some(d + 1) else None)
      else if d > 0 then Some(d - 1) else None
  }

  function ParenRun(p: string, m: nat): Option<int>
    requires m <= |p|
  {
    if m == 0 then Some(0) else ParenStep(ParenRun(p, m - 1), p[m - 1], m - 1)
  }

  /** Once a text part has made the fold NaN it stays NaN. */
  lemma {:induction false} NaNStays(parts: seq<string>, n: nat)
    requires 1 <= n <= |parts| && Reduce(parts, 1) == None
    ensures Reduce(parts, n) == None
  {
    if n > 1 {
      NaNStays(parts, n - 1);
    }
  }

  /** With an empty first part, the fold over the parts agrees with the
      fold over the parentheses, the text between them being skipped. */
  lemma {:induction false} ReduceTracksParens(parts: seq<string>, p: string, m: nat)
    requires Alternates(parts, p)
    requires forall k :: 0 <= k < |p| ==> IsParen(p[k])
    requires parts[0] == ""
    requires m <= |p|
    ensures Reduce(parts, 2 * m) == ParenRun(p, m) || m == 0
    ensures m < |p| ==> Reduce(parts, 2 * m + 1) == ParenRun(p, m)
    decreases m
  {
    if m > 0 {
      ReduceTracksParens(parts, p, m - 1);
      assert parts[2 * m - 1] == [p[m - 1]];
      if m < |p| {
        var text := parts[2 * m];
        assert text != "(" && text != ")" by {
          assert ParenFree(text);
          if |text| == 1 {
            assert !IsParen(text[0]);
          }
        }
      }
    }
  }

  /** The fold over the parentheses succeeds, with the depth so far, exactly
      while the run opened first and has not closed back to zero. */
  lemma {:induction false} ParenRunMeaning(p: string, m: nat)
    requires forall k :: 0 <= k < |p| ==> IsParen(p[k])
    requires 1 <= m <= |p|
    ensures ParenRun(p, m) ==
              if p[0] == '(' && forall k :: 1 <= k < m ==> Depth(p[..k]) >= 1
              then Some(Depth(p[..m])) else None
    ensures ParenRun(p, m).Some? ==> ParenRun(p, m).value >= 0
    decreases m
  {
    assert p[..1][..0] == [];
    if m > 1 {
      ParenRunMeaning(p, m - 1);
      assert p[..m][..m - 1] == p[..m - 1];
      var ok := p[0] == '(' && forall k :: 1 <= k < m - 1 ==> Depth(p[..k]) >= 1;
      if ok && Depth(p[..m - 1]) < 1 {
        assert !(forall k :: 1 <= k < m ==> Depth(p[..k]) >= 1) by {
          assert Depth(p[..m - 1]) < 1;
        }
      }
    }
  }

  lemma OneGroupByRun(p: string)
    requires forall k :: 0 <= k < |p| ==> IsParen(p[k])
    requires p != []
    ensures ParenRun(p, |p|) == Some(0) <==> OneGroup(p)
  {
    ParenRunMeaning(p, |p|);
    assert p[..|p|] == p;
  }

  /** The last part is the last text between parentheses. */
  lemma FinalPart(parts: seq<string>, p: string)
    requires Alternates(parts, p)
    requires forall k :: 0 <= k < |p| ==> IsParen(p[k])
    requires parts[0] == ""
    ensures Reduce(parts, |parts|) == if parts[|parts| - 1] == "" then ParenRun(p, |p|) else None
  {
    var last := |parts| - 1;
    ReduceTracksParens(parts, p, |p|);
    var text := parts[last];
    assert text != "(" && text != ")" by {
      assert ParenFree(parts[2 * |p|]);
      if |text| == 1 {
        assert !IsParen(text[0]);
      }
    }
  }

  /** A text that does not start with a parenthesis leaves a non-empty
      first part, which makes the fold NaN. */
  lemma NotGroupedUnlessOpening(t: string)
    requires t != [] && !IsParen(t[0])
    ensures !Grouped(t)
  {
    var parts := SplitParens(t);
    SplitEnds(t);
    NaNStays(parts, |parts|);
  }

  /** For a text that opens with a parenthesis, the fold over its parts is
      the fold over its parentheses, provided it also ends with one. */
  lemma FoldOverText(t: string)
    requires t != [] && IsParen(t[0])
    ensures var parts := SplitParens(t);
            Reduce(parts, |parts|) == if IsParen(t[|t| - 1]) then ParenRun(Parens(t), |Parens(t)|) else None
  {
    SplitEnds(t);
    SplitAlternates(t);
    FinalPart(SplitParens(t), Parens(t));
  }

  /** A text that starts with a parenthesis is grouped exactly when it also
      ends with one and its parentheses form one group. */
  lemma GroupedWhenOpening(t: string)
    requires t != [] && IsParen(t[0])
    ensures Grouped(t) <==> IsParen(t[|t| - 1]) && OneGroup(Parens(t))
  {
    FoldOverText(t);
    ParensStart(t);
    OneGroupByRun(Parens(t));
  }

  /** The fold gives 0 exactly for the empty text and for a text that starts
      and ends with a parenthesis and whose parentheses form one group. */
  lemma GroupedMeaning(t: string)
    ensures Grouped(t) <==>
              t == [] || (IsParen(t[0]) && IsParen(t[|t| - 1]) && OneGroup(Parens(t)))
  {
    if t == [] {
      assert SplitParens(t) == [""];
    } else if IsParen(t[0]) {
      GroupedWhenOpening(t);
    } else {
      NotGroupedUnlessOpening(t);
    }
  }

  // ---------------------------------------------------------------------
  // What the test is for: `((a+1)*(b+1))` is left alone, `(a+1)*(b+1)` is
  // wrapped

  /** Parentheses that never close more than they opened and end level. */
  predicate Balanced(p: string) {
    Depth(p) == 0 && forall k :: 0 <= k <= |p| ==> Depth(p[..k]) >= 0
  }

  lemma ParensFront(c: char, r: string)
    ensures Parens([c] + r) == (if IsParen(c) then [c] else []) + Parens(r)
  {
    assert ([c] + r)[1..] == r;
  }

  lemma {:induction false} ParensAppend(a: string, b: string)
    ensures Parens(a + b) == Parens(a) + Parens(b)
    decreases |a|
  {
    if a == [] {
      assert a + b == b;
    } else {
      ParensAppend(a[1..], b);
      assert a + b == [a[0]] + (a[1..] + b);
      ParensFront(a[0], a[1..] + b);
    }
  }

  lemma {:induction false} DepthAppend(a: string, b: string)
    ensures Depth(a + b) == Depth(a) + Depth(b)
    decreases |b|
  {
    if b == [] {
      assert a + b == a;
    } else {
      var ab := a + b;
      assert ab[..|ab| - 1] == a + b[..|b| - 1];
      DepthAppend(a, b[..|b| - 1]);
    }
  }

  lemma ParensOfParenFree(s: string)
    requires ParenFree(s)
    ensures Parens(s) == []
    decreases |s|
  {
    if s != [] {
      assert ParenFree(s[1..]) by {
        forall k | 0 <= k < |s[1..]| ensures !IsParen(s[1..][k]) { assert s[1..][k] == s[k + 1]; }
      }
      ParensOfParenFree(s[1..]);
    }
  }

  /** The parentheses of `(x)`. */
  lemma WrappedParens(x: string)
    ensures Parens("(" + x + ")") == "(" + Parens(x) + ")"
  {
    ParensAppend("(" + x, ")");
    ParensAppend("(", x);
  }

  /** The depth of every prefix of the parentheses of `(x)`. */
  lemma WrappedDepths(x: string)
    ensures forall k :: 1 <= k <= |Parens(x)| + 1 ==>
              Depth(("(" + Parens(x) + ")")[..k]) == 1 + Depth(Parens(x)[..k - 1])
  {
    var px := Parens(x);
    forall k | 1 <= k <= |px| + 1
      ensures Depth(("(" + px + ")")[..k]) == 1 + Depth(px[..k - 1])
    {
      assert ("(" + px + ")")[..k] == "(" + px[..k - 1];
      DepthAppend("(", px[..k - 1]);
    }
  }

  /** Wrapping a balanced expression in parentheses makes it grouped. */
  lemma WrapIsGrouped(x: string)
    requires Balanced(Parens(x))
    ensures Grouped("(" + x + ")")
  {
    var t := "(" + x + ")";
    var px := Parens(x);
    var p := "(" + px + ")";
    WrappedParens(x);
    WrappedDepths(x);
    DepthAppend("(" + px, ")");
    DepthAppend("(", px);
    assert px[..|px|] == px;
    assert OneGroup(p);
    GroupedMeaning(t);
  }

  /** A closed group followed by anything more is not grouped. */
  lemma GroupThenMoreIsNotGrouped(x: string, y: string)
    requires Balanced(Parens(x)) && y != []
    ensures !Grouped("(" + x + ")" + y)
  {
    var t := "(" + x + ")" + y;
    var px := Parens(x);
    GroupedMeaning(t);
    if IsParen(t[|t| - 1]) {
      assert y[|y| - 1] == t[|t| - 1];
      assert Parens(y) != [] by {
        ParensAppend(y[..|y| - 1], [y[|y| - 1]]);
        assert y == y[..|y| - 1] + [y[|y| - 1]];
      }
      WrappedParens(x);
      ParensAppend("(" + x + ")", y);
      var p := Parens(t);
      var k := |px| + 2;
      assert p[..k] == "(" + px + ")";
      DepthAppend("(" + px, ")");
      DepthAppend("(", px);
      assert Depth(p[..k]) == 0;
    }
  }

  /** `(a+1)*(b+1)` is wrapped. */
  lemma SideBySideExample(t: string)
    requires t == "(a+1)*(b+1)"
    ensures !Grouped(t)
  {
    var x := "a+1";
    assert ParenFree(x);
    ParensOfParenFree(x);
    assert t == "(" + x + ")" + "*(b+1)";
    GroupThenMoreIsNotGrouped(x, "*(b+1)");
  }

  /** Two parenthesised groups joined by parenthesis-free text. */
  lemma SideBySideParens(x: string, star: string, y: string)
    requires ParenFree(x) && ParenFree(star) && ParenFree(y)
    ensures Parens(("(" + x + ")") + star + ("(" + y + ")")) == "()()"
  {
    var gx, gy := "(" + x + ")", "(" + y + ")";
    ParensOfParenFree(x);
    ParensOfParenFree(y);
    ParensOfParenFree(star);
    WrappedParens(x);
    WrappedParens(y);
    assert Parens(gx) == "()" && Parens(gy) == "()";
    ParensAppend(gx, star);
    assert Parens(gx + star) == "()";
    ParensAppend(gx + star, gy);
  }

  lemma TwoGroupsParens(t: string)
    requires t == "(a+1)*(b+1)"
    ensures Parens(t) == "()()"
  {
    var x, y, star := "a+1", "b+1", "*";
    assert ParenFree(x) && ParenFree(y) && ParenFree(star);
    SideBySideParens(x, star, y);
    assert t == ("(" + x + ")") + star + ("(" + y + ")");
  }

  lemma TwoGroupsBalanced(p: string)
    requires p == "()()"
    ensures Balanced(p)
  {
    assert p[..0] == "" && p[..1] == "(" && p[..2] == "()";
    assert p[..3] == "()(" && p[..4] == "()()";
    assert "()"[..1] == "(" && "()("[..2] == "()" && "()()"[..3] == "()(";
  }

  /** `((a+1)*(b+1))` is left alone. */
  lemma WrappedExample(t: string)
    requires t == "((a+1)*(b+1))"
    ensures Grouped(t)
  {
    WrappedAround(t, t[1..|t| - 1]);
  }

  lemma WrappedAround(t: string, inner: string)
    requires inner == "(a+1)*(b+1)" && t == "(" + inner + ")"
    ensures Grouped(t)
  {
    TwoGroupsParens(inner);
    TwoGroupsBalanced(Parens(inner));
    WrapIsGrouped(inner);
  }
}
