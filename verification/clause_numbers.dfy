/** `sortByClauseNumber`: clause numbers such as "9.10.3" or "B.1.2" compared
    segment by segment, numerically where a segment is a number and by
    character codes otherwise. */
module ClauseNumbers {
  import opened Wrappers
  import opened Text

  /** `s.split('.')`: never empty; the segments hold no dots. */
  function Split(s: string): (r: seq<string>)
    ensures |r| >= 1
    decreases |s|
  {
    if s == [] then [""]
    else if s[0] == '.' then [""] + Split(s[1..])
    else
      var rest := Split(s[1..]);
      [[s[0]] + rest[0]] + rest[1..]
  }

  /** `segments.join('.')`. */
  function Join(segs: seq<string>): string
    decreases |segs|
  {
    if segs == [] then ""
    else if |segs| == 1 then segs[0]
    else segs[0] + "." + Join(segs[1..])
  }

  /** Joining after an empty first segment puts a dot in front. */
  lemma JoinEmptyFirst(rest: seq<string>)
    requires |rest| >= 1
    ensures Join([""] + rest) == "." + Join(rest)
  {
    assert ([""] + rest)[1..] == rest;
  }

  /** Joining after a character is prepended to the first segment puts that
      character in front. */
  lemma JoinExtendFirst(c: char, rest: seq<string>)
    requires |rest| >= 1
    ensures Join([[c] + rest[0]] + rest[1..]) == [c] + Join(rest)
  {
    var r := [[c] + rest[0]] + rest[1..];
    if |rest| > 1 {
      assert r[1..] == rest[1..];
    }
  }

  /** Splitting and joining again gives back the clause number. */
  lemma {:induction false} SplitJoin(s: string)
    ensures Join(Split(s)) == s
    decreases |s|
  {
    if s != [] {
      SplitJoin(s[1..]);
      assert s == [s[0]] + s[1..];
      if s[0] == '.' {
        JoinEmptyFirst(Split(s[1..]));
      } else {
        JoinExtendFirst(s[0], Split(s[1..]));
      }
    }
  }

  /** No segment contains a dot. */
  lemma {:induction false} SplitHasNoDots(s: string)
    ensures forall k :: 0 <= k < |Split(s)| ==> '.' !in Split(s)[k]
    decreases |s|
  {
    if s != [] {
      SplitHasNoDots(s[1..]);
      var rest, r := Split(s[1..]), Split(s);
      forall k | 0 <= k < |r|
        ensures '.' !in r[k]
      {
        if s[0] == '.' {
          assert r[k] == ([""] + rest)[k];
        } else if k > 0 {
          assert r[k] == rest[k];
        } else {
          assert r[0] == [s[0]] + rest[0];
        }
      }
    }
  }

  /** `Number(segment)` where it is not NaN: a run of decimal digits (the empty
      segment is 0). */
  function SegmentNumber(seg: string): Option<nat> {
    if AllDigits(seg) then Some(DecimalValue(seg)) else None
  }

  /** One step of the comparator's loop: -1, 0 or 1. */
  function CompareSegment(x: string, y: string): int {
    match (SegmentNumber(x), SegmentNumber(y))
    case (None, None) => if LexLess(y, x) then 1 else if LexLess(x, y) then -1 else 0
    case (Some(_), None) => -1
    case (None, Some(_)) => 1
    case (Some(a), Some(b)) => if a > b then 1 else if a < b then -1 else 0
  }

  /** Segments the comparator cannot tell apart: equal numbers, or equal
      strings when neither is a number. */
  predicate SameSegment(x: string, y: string) {
    match (SegmentNumber(x), SegmentNumber(y))
    case (Some(a), Some(b)) => a == b
    case (None, None) => x == y
    case _ => false
  }

  /** The order on segment lists the comparator computes. */
  function CompareSegments(a: seq<string>, b: seq<string>): int
    decreases |a|
  {
    if a == [] then (if b == [] then 0 else -1)
    else if b == [] then 1
    else
      var c := CompareSegment(a[0], b[0]);
      if c != 0 then c else CompareSegments(a[1..], b[1..])
  }

  function Compare(number1: string, number2: string): int {
    CompareSegments(Split(number1), Split(number2))
  }

  /** The comparator as written: an index loop over the first number's
      segments with early returns. */
  method SortByClauseNumber(number1: string, number2: string) returns (r: int)
    ensures r == Compare(number1, number2)
    ensures -1 <= r <= 1
  {
    var c1c, c2c := Split(number1), Split(number2);
    for i := 0 to |c1c|
      invariant i <= |c2c|
      invariant CompareSegments(c1c, c2c) == CompareSegments(c1c[i..], c2c[i..])
    {
      if i >= |c2c| {
        return 1;
      }
      var c1, c2 := c1c[i], c2c[i];
      var c1cn, c2cn := SegmentNumber(c1), SegmentNumber(c2);
      assert c1c[i..][1..] == c1c[i + 1..] && c2c[i..][1..] == c2c[i + 1..];
      if c1cn.None? && c2cn.None? {
        if LexLess(c2, c1) {
          return 1;
        } else if LexLess(c1, c2) {
          return -1;
        }
      } else if c1cn.Some? && c2cn.None? {
        return -1;
      } else if c1cn.None? && c2cn.Some? {
        return 1;
      } else if c1cn.value > c2cn.value {
        return 1;
      } else if c1cn.value < c2cn.value {
        return -1;
      }
    }
    if |c1c| == |c2c| {
      return 0;
    }
    return -1;
  }

  lemma SegmentAntisymmetric(x: string, y: string)
    ensures CompareSegment(x, y) == -CompareSegment(y, x)
    ensures CompareSegment(x, y) == 0 <==> SameSegment(x, y)
  {
    LexLessAsymmetric(x, y);
    LexLessTotal(x, y);
  }

  /** Swapping the arguments negates the result. */
  lemma {:induction false} CompareAntisymmetric(a: seq<string>, b: seq<string>)
    ensures CompareSegments(a, b) == -CompareSegments(b, a)
    decreases |a|
  {
    if a != [] && b != [] {
      SegmentAntisymmetric(a[0], b[0]);
      CompareAntisymmetric(a[1..], b[1..]);
    }
  }

  /** The comparator answers 0 exactly for lists of equal length whose
      segments pair up as indistinguishable. */
  lemma {:induction false} CompareZeroIff(a: seq<string>, b: seq<string>)
    ensures CompareSegments(a, b) == 0 <==>
              |a| == |b| && forall k :: 0 <= k < |a| ==> SameSegment(a[k], b[k])
    decreases |a|
  {
    if a != [] && b != [] {
      SegmentAntisymmetric(a[0], b[0]);
      CompareZeroIff(a[1..], b[1..]);
      if |a| == |b| && (forall k :: 0 <= k < |a[1..]| ==> SameSegment(a[1..][k], b[1..][k])) && SameSegment(a[0], b[0]) {
        forall k | 0 <= k < |a|
          ensures SameSegment(a[k], b[k])
        {
          if k > 0 {
            assert a[k] == a[1..][k - 1] && b[k] == b[1..][k - 1];
          }
        }
      }
    }
  }

  /** The first pair of segments that differ decides the comparison. */
  lemma {:induction false} FirstDifferenceDecides(a: seq<string>, b: seq<string>, k: nat)
    requires k < |a| && k < |b|
    requires forall i :: 0 <= i < k ==> SameSegment(a[i], b[i])
    ensures CompareSegments(a, b) ==
              if SameSegment(a[k], b[k]) then CompareSegments(a[k + 1..], b[k + 1..])
              else CompareSegment(a[k], b[k])
    decreases k
  {
    SegmentAntisymmetric(a[0], b[0]);
    if k > 0 {
      assert a[1..][k..] == a[k + 1..] && b[1..][k..] == b[k + 1..];
      FirstDifferenceDecides(a[1..], b[1..], k - 1);
    }
  }

  /** A clause number sorts before every number it is a proper dotted prefix
      of ("9.10" before "9.10.3"). */
  lemma {:induction false} ProperPrefixFirst(a: seq<string>, rest: seq<string>)
    requires rest != []
    ensures CompareSegments(a, a + rest) == -1
    ensures CompareSegments(a + rest, a) == 1
    decreases |a|
  {
    if a != [] {
      SegmentAntisymmetric(a[0], a[0]);
      assert (a + rest)[1..] == a[1..] + rest;
      ProperPrefixFirst(a[1..], rest);
    }
  }

  /** A numeric segment sorts before a non-numeric one in the same place. */
  lemma NumbersBeforeNames(a: seq<string>, b: seq<string>, k: nat)
    requires k < |a| && k < |b|
    requires forall i :: 0 <= i < k ==> SameSegment(a[i], b[i])
    requires SegmentNumber(a[k]).Some? && SegmentNumber(b[k]).None?
    ensures CompareSegments(a, b) == -1
  {
    FirstDifferenceDecides(a, b, k);
  }

  /** Splitting a string built from dot-free segments gives those segments. */
  lemma {:induction false} SplitOf(s: string, segs: seq<string>)
    requires segs != [] && Join(segs) == s
    requires forall k :: 0 <= k < |segs| ==> '.' !in segs[k]
    ensures Split(s) == segs
    decreases |s|, |segs|
  {
    if |segs| == 1 {
      SplitOfSegment(s);
    } else {
      var tail := Join(segs[1..]);
      assert s == segs[0] + "." + tail;
      SplitOf(tail, segs[1..]);
      SplitPrepend(segs[0], tail);
    }
  }

  lemma {:induction false} SplitOfSegment(s: string)
    requires '.' !in s
    ensures Split(s) == [s]
    decreases |s|
  {
    if s != [] {
      assert '.' !in s[1..] by {
        forall i | 0 <= i < |s[1..]| ensures s[1..][i] != '.' { assert s[1..][i] == s[i + 1]; }
      }
      SplitOfSegment(s[1..]);
      assert s == [s[0]] + s[1..];
    }
  }

  /** A dot-free segment, a dot and a tail split into the segment followed by
      the tail's segments. */
  lemma {:induction false} SplitPrepend(seg: string, tail: string)
    requires '.' !in seg
    ensures Split(seg + "." + tail) == [seg] + Split(tail)
    decreases |seg|
  {
    var s := seg + "." + tail;
    if seg == [] {
      assert s == ['.'] + tail;
      assert s[1..] == tail;
    } else {
      assert s[0] == seg[0];
      assert s[1..] == seg[1..] + "." + tail;
      assert '.' !in seg[1..] by {
        forall i | 0 <= i < |seg[1..]| ensures seg[1..][i] != '.' { assert seg[1..][i] == seg[i + 1]; }
      }
      SplitPrepend(seg[1..], tail);
      assert seg == [seg[0]] + seg[1..];
    }
  }

  lemma DigitsValue()
    ensures SegmentNumber("9") == Some(9)
    ensures SegmentNumber("2") == Some(2)
    ensures SegmentNumber("10") == Some(10)
    ensures SegmentNumber("A") == None
  {
    assert "9"[..0] == "" && "2"[..0] == "";
    assert "10"[..1] == "1" && "1"[..0] == "";
  }

  /** "9.2" sorts before "9.10": segments compare as numbers. */
  lemma NumericSegmentsExample()
    ensures Compare("9.2", "9.10") == -1
  {
    assert Join(["2"]) == "2" && Join(["10"]) == "10";
    SplitOf("9.2", ["9", "2"]);
    SplitOf("9.10", ["9", "10"]);
    DigitsValue();
    FirstDifferenceDecides(["9", "2"], ["9", "10"], 1);
  }

  /** "9.10" sorts before its sub-clause "9.10.3". */
  lemma SubclauseExample()
    ensures Compare("9.10", "9.10.3") == -1
  {
    assert Join(["10"]) == "10" && Join(["3"]) == "3";
    assert Join(["10", "3"]) == "10.3";
    SplitOf("9.10", ["9", "10"]);
    SplitOf("9.10.3", ["9", "10", "3"]);
    assert ["9", "10", "3"] == ["9", "10"] + ["3"];
    ProperPrefixFirst(["9", "10"], ["3"]);
  }

  /** Numbered clauses sort before annexes ("9.10" before "A.1"). */
  lemma AnnexExample()
    ensures Compare("9.10", "A.1") == -1
  {
    assert Join(["10"]) == "10" && Join(["1"]) == "1";
    SplitOf("9.10", ["9", "10"]);
    SplitOf("A.1", ["A", "1"]);
    DigitsValue();
    NumbersBeforeNames(["9", "10"], ["A", "1"], 0);
  }
}
