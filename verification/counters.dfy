/** List-marker text for algorithm steps: the CSS counter styles the client
    renders itself (decimal, lower/upper-alpha, lower/upper-roman), each
    0-indexed, and the memo that caches them. */
module Counters {
  import opened Wrappers
  import opened Text

  /** `lowerLetters[d]`: the 26 letters from 'a' on, by character code. */
  function LowerLetter(d: nat): char
    requires d < 26
  {
    ('a' as int + d) as char
  }

  predicate IsLowerLetter(c: char) {
    'a' <= c <= 'z'
  }

  predicate AllLowerLetters(s: string) {
    forall k :: 0 <= k < |s| ==> IsLowerLetter(s[k])
  }

  // ---------------------------------------------------------------------
  // lower-alpha: the alphabetic system, i.e. bijective base 26

  /** The alphabetic representation of `i + 1`. */
  function AlphaText(i: nat): (s: string)
    ensures s != [] && AllLowerLetters(s)
    decreases i
  {
    (if i < 26 then "" else AlphaText(i / 26 - 1)) + [LowerLetter(i % 26)]
  }

  /** Reading an alphabetic marker back as its 0-based index. */
  function AlphaValue(s: string): nat
    requires s != [] && AllLowerLetters(s)
    decreases |s|
  {
    var d := s[|s| - 1] as int - 'a' as int;
    if |s| == 1 then d else (AlphaValue(s[..|s| - 1]) + 1) * 26 + d
  }

  /** What is left to prepend while the loop counter is `n`. */
  function Pending(n: int): string {
    if n >= 0 then AlphaText(n) else ""
  }

  method LowerAlphaTextForIndex(i: nat) returns (s: string)
    ensures s == AlphaText(i)
  {
    var n: int := i;
    s := "";
    while n >= 0
      invariant n >= -1
      invariant AlphaText(i) == Pending(n) + s
      decreases n + 1
    {
      AlphaKeeps(i, n, s);
      s := [LowerLetter(n % 26)] + s;
      n := n / 26 - 1;
    }
    assert Pending(n) == "";
  }

  /** One round of the loop: the last letter of what is pending moves to
      the front of `s`. */
  lemma AlphaKeeps(i: nat, n: nat, s: string)
    requires AlphaText(i) == Pending(n) + s
    ensures AlphaText(i) == Pending(n / 26 - 1) + ([LowerLetter(n % 26)] + s)
    ensures -1 <= n / 26 - 1 < n
  {
    AlphaStep(n);
  }

  lemma AlphaStep(n: nat)
    ensures AlphaText(n) == Pending(n / 26 - 1) + [LowerLetter(n % 26)]
  {
  }

  lemma DigitSplit(w: nat, d: nat)
    requires d < 26
    ensures ((w + 1) * 26 + d) / 26 - 1 == w
    ensures ((w + 1) * 26 + d) % 26 == d
  {
  }

  lemma {:induction false} AlphaRoundTrip(i: nat)
    ensures AlphaValue(AlphaText(i)) == i
    decreases i
  {
    var s := AlphaText(i);
    if i >= 26 {
      AlphaRoundTrip(i / 26 - 1);
      assert s[..|s| - 1] == AlphaText(i / 26 - 1);
    }
  }

  /** Appending a letter to the marker of `w` gives the marker of
      `(w + 1) * 26 + d`. */
  lemma AlphaAppend(w: nat, d: nat)
    requires d < 26
    ensures AlphaText((w + 1) * 26 + d) == AlphaText(w) + [LowerLetter(d)]
  {
    DigitSplit(w, d);
  }

  lemma InitLetters(s: string)
    requires s != [] && AllLowerLetters(s)
    ensures AllLowerLetters(s[..|s| - 1])
  {
    var init := s[..|s| - 1];
    forall k | 0 <= k < |init|
      ensures IsLowerLetter(init[k])
    {
      assert init[k] == s[k];
    }
  }

  /** Every non-empty word over a..z is the marker of exactly one index. */
  lemma {:induction false} AlphaOnto(s: string)
    requires s != [] && AllLowerLetters(s)
    ensures AlphaText(AlphaValue(s)) == s
    decreases |s|
  {
    var d: nat := s[|s| - 1] as int - 'a' as int;
    assert LowerLetter(d) == s[|s| - 1];
    if |s| > 1 {
      var init := s[..|s| - 1];
      InitLetters(s);
      AlphaOnto(init);
      AlphaAppend(AlphaValue(init), d);
      assert s == init + [s[|s| - 1]];
    }
  }

  lemma AlphaInjective(i: nat, j: nat)
    requires AlphaText(i) == AlphaText(j)
    ensures i == j
  {
    AlphaRoundTrip(i);
    AlphaRoundTrip(j);
  }

  lemma AlphaExamples()
    ensures AlphaText(0) == "a"
    ensures AlphaText(25) == "z"
    ensures AlphaText(26) == "aa"
    ensures AlphaText(701) == "zz"
  {
    assert AlphaText(0) == [LowerLetter(0)];
    assert AlphaText(26) == AlphaText(0) + [LowerLetter(0)];
    assert AlphaText(701) == AlphaText(25) + [LowerLetter(25)];
  }

  // ---------------------------------------------------------------------
  // lower-roman: the additive system over a weight table

  /** `weightedLowerRomanSymbols`: entry `k` of the table, in its order, as a
      symbol and a weight. */
  const TableSize: nat := 13

  function Symbol(k: nat): string
    requires k < TableSize
  {
    match k
    case 0 => "m" case 1 => "cm" case 2 => "d" case 3 => "cd" case 4 => "c"
    case 5 => "xc" case 6 => "l" case 7 => "xl" case 8 => "x" case 9 => "ix"
    case 10 => "v" case 11 => "iv" case _ => "i"
  }

  function Weight(k: nat): (w: nat)
    requires k < TableSize
    ensures w >= 1
  {
    match k
    case 0 => 1000 case 1 => 900 case 2 => 500 case 3 => 400 case 4 => 100
    case 5 => 90 case 6 => 50 case 7 => 40 case 8 => 10 case 9 => 9
    case 10 => 5 case 11 => 4 case _ => 1
  }

  lemma {:induction false} WeightsDecrease(a: nat, b: nat)
    requires a < b < TableSize
    ensures Weight(a) > Weight(b)
    decreases b - a
  {
    if a + 1 < b {
      WeightsDecrease(a + 1, b);
    }
  }

  /** `symbol.repeat(reps)` */
  function Repeat(symbol: string, reps: nat): string {
    if reps == 0 then "" else symbol + Repeat(symbol, reps - 1)
  }

  /** The additive system: from entry `k` on, spend the value on the
      heaviest symbol that still fits, one symbol at a time. */
  function Emit(value: nat, k: nat): string
    requires k <= TableSize
    decreases TableSize - k, value
  {
    if k == TableSize || value == 0 then ""
    else if Weight(k) > value then Emit(value, k + 1)
    else Symbol(k) + Emit(value - Weight(k), k)
  }

  /** The lower-roman marker of index `i`. */
  function RomanText(i: nat): string {
    Emit(i + 1, 0)
  }

  /** The table entries, by position, that the additive system picks. */
  function Tokens(value: nat, k: nat): (ts: seq<nat>)
    requires k <= TableSize
    ensures forall j :: 0 <= j < |ts| ==> k <= ts[j] < TableSize
    decreases TableSize - k, value
  {
    if k == TableSize || value == 0 then []
    else if Weight(k) > value then Tokens(value, k + 1)
    else [k] + Tokens(value - Weight(k), k)
  }

  predicate InTable(tokens: seq<nat>) {
    forall j :: 0 <= j < |tokens| ==> tokens[j] < TableSize
  }

  /** The text spelled by a list of table entries. */
  function Spell(tokens: seq<nat>): string
    requires InTable(tokens)
  {
    if tokens == [] then "" else Symbol(tokens[0]) + Spell(tokens[1..])
  }

  /** The sum of the weights of a list of table entries. */
  function Total(tokens: seq<nat>): nat
    requires InTable(tokens)
  {
    if tokens == [] then 0 else Weight(tokens[0]) + Total(tokens[1..])
  }

  lemma {:induction false} EmitSpells(value: nat, k: nat)
    requires k <= TableSize
    ensures Emit(value, k) == Spell(Tokens(value, k))
    decreases TableSize - k, value
  {
    if k < TableSize && value != 0 {
      if Weight(k) > value {
        EmitSpells(value, k + 1);
      } else {
        EmitSpells(value - Weight(k), k);
        var ts := Tokens(value, k);
        assert ts[1..] == Tokens(value - Weight(k), k);
      }
    }
  }

  /** Weight 1 is last in the table, so the whole value is spent. */
  lemma {:induction false} TokensTotal(value: nat, k: nat)
    requires k < TableSize
    ensures Total(Tokens(value, k)) == value
    decreases TableSize - k, value
  {
    if value != 0 {
      if Weight(k) > value {
        TokensTotal(value, k + 1);
      } else {
        TokensTotal(value - Weight(k), k);
        var ts := Tokens(value, k);
        assert ts[1..] == Tokens(value - Weight(k), k);
      }
    }
  }

  /** The entries come out in table order. */
  lemma {:induction false} TokensOrdered(value: nat, k: nat)
    requires k <= TableSize
    ensures var ts := Tokens(value, k); forall a, b :: 0 <= a < b < |ts| ==> ts[a] <= ts[b]
    decreases TableSize - k, value
  {
    if k < TableSize && value != 0 {
      if Weight(k) > value {
        TokensOrdered(value, k + 1);
      } else {
        TokensOrdered(value - Weight(k), k);
        var ts := Tokens(value, k);
        assert ts[1..] == Tokens(value - Weight(k), k);
        forall a, b | 0 <= a < b < |ts|
          ensures ts[a] <= ts[b]
        {
          if a > 0 {
            assert ts[a] == ts[1..][a - 1] && ts[b] == ts[1..][b - 1];
          }
        }
      }
    }
  }

  /** The marker spells table symbols in non-increasing weight whose weights
      add up to `i + 1`. */
  lemma RomanMeaning(i: nat)
    ensures var ts := Tokens(i + 1, 0);
            RomanText(i) == Spell(ts) && Total(ts) == i + 1 &&
            forall a, b :: 0 <= a < b < |ts| ==> Weight(ts[a]) >= Weight(ts[b])
  {
    var ts := Tokens(i + 1, 0);
    EmitSpells(i + 1, 0);
    TokensTotal(i + 1, 0);
    TokensOrdered(i + 1, 0);
    forall a, b | 0 <= a < b < |ts|
      ensures Weight(ts[a]) >= Weight(ts[b])
    {
      var x, y := ts[a], ts[b];
      if x < y {
        WeightsDecrease(x, y);
      }
    }
  }

  lemma {:induction false} EmitRepeats(value: nat, k: nat, reps: nat)
    requires k < TableSize && Weight(k) * reps <= value
    ensures Emit(value, k) == Repeat(Symbol(k), reps) + Emit(value - Weight(k) * reps, k)
    decreases reps
  {
    if reps > 0 {
      var w := Weight(k);
      assert w * reps == w + w * (reps - 1);
      EmitRepeats(value - w, k, reps - 1);
      assert Emit(value, k) == Symbol(k) + Emit(value - w, k);
    }
  }

  /** One round of the loop, `reps = floor(value / weight)` copies of entry
      `k`, keeps the text still to come. */
  lemma RoundKeeps(s: string, value: nat, k: nat, target: string)
    requires k < TableSize && Weight(k) <= value && s + Emit(value, k) == target
    ensures Weight(k) * (value / Weight(k)) <= value
    ensures (s + Repeat(Symbol(k), value / Weight(k))) +
            Emit(value - Weight(k) * (value / Weight(k)), k + 1) == target
  {
    var w := Weight(k);
    var reps := value / w;
    EmitRepeats(value, k, reps);
    assert value - w * reps < w;
  }

  method LowerRomanTextForIndex(i: nat) returns (s: string)
    ensures s == RomanText(i)
  {
    var value: nat := i + 1;
    s := "";
    for k := 0 to TableSize
      invariant s + Emit(value, k) == RomanText(i)
    {
      if value == 0 {
        break;
      }
      var symbol, weight := Symbol(k), Weight(k);
      if weight > value {
        continue;
      }
      var reps := value / weight;
      RoundKeeps(s, value, k, RomanText(i));
      s := s + Repeat(symbol, reps);
      value := value - weight * reps;
    }
  }

  /** Entries heavier than the value are skipped. */
  lemma {:induction false} EmitSkip(value: nat, k: nat, k2: nat)
    requires k < k2 <= TableSize && Weight(k2 - 1) > value
    ensures Emit(value, k) == Emit(value, k2)
    decreases k2 - k
  {
    if k + 1 < k2 {
      WeightsDecrease(k, k2 - 1);
      EmitSkip(value, k + 1, k2);
    }
  }

  lemma RomanExamples()
    ensures RomanText(0) == "i"
    ensures RomanText(3) == "iv"
    ensures RomanText(8) == "ix"
    ensures RomanText(13) == "xiv"
  {
    EmitSkip(1, 0, 12);
    EmitSkip(4, 0, 11);
    EmitSkip(9, 0, 9);
    EmitSkip(14, 0, 8);
    EmitSkip(4, 9, 11);
  }

  // ---------------------------------------------------------------------
  // decimal, the style table and the memo

  function DigitChar(d: nat): char
    requires d < 10
  {
    ('0' as int + d) as char
  }

  /** `String(n)` for a natural number. */
  function DecimalString(n: nat): (s: string)
    ensures s != [] && AllDigits(s)
    decreases n
  {
    (if n < 10 then "" else DecimalString(n / 10)) + [DigitChar(n % 10)]
  }

  lemma {:induction false} DecimalRoundTrip(n: nat)
    ensures DecimalValue(DecimalString(n)) == n
    decreases n
  {
    var s := DecimalString(n);
    if n >= 10 {
      DecimalRoundTrip(n / 10);
      assert s[..|s| - 1] == DecimalString(n / 10);
    } else {
      assert s[..|s| - 1] == "";
    }
  }

  /** The list-style-type values the client renders itself; any other
      value falls back to a counter that always yields "?". */
  datatype Style = Decimal | LowerAlpha | UpperAlpha | LowerRoman | UpperRoman | Unsupported

  /** The pure index-to-text function each counter memoizes. */
  function PureText(style: Style, i: nat): string {
    match style
    case Decimal => DecimalString(i + 1)
    case LowerAlpha => AlphaText(i)
    case UpperAlpha => Upper(AlphaText(i))
    case LowerRoman => RomanText(i)
    case UpperRoman => Upper(RomanText(i))
    case Unsupported => "?"
  }

  /** Decimal markers read back as the 1-based step number, alpha markers
      as the 0-based index. */
  lemma PureTextReadsBack(i: nat)
    ensures DecimalValue(PureText(Decimal, i)) == i + 1
    ensures AlphaValue(PureText(LowerAlpha, i)) == i
  {
    DecimalRoundTrip(i + 1);
    AlphaRoundTrip(i);
  }

  /** `makeCounter`'s default precompute count. */
  const DefaultPrecompute: nat := 30

  /** `Array.from({ length: n }, (_, i) => pureGetTextForIndex(i))` */
  function Precomputed(style: Style, n: nat): (c: seq<Option<string>>)
    ensures |c| == n && forall k :: 0 <= k < n ==> c[k] == Some(PureText(style, k))
  {
    if n == 0 then [] else Precomputed(style, n - 1) + [Some(PureText(style, n - 1))]
  }

  /** The empty slots of a sparse array. */
  function Holes(n: nat): (h: seq<Option<string>>)
    ensures |h| == n && forall k :: 0 <= k < n ==> h[k] == None
  {
    if n == 0 then [] else Holes(n - 1) + [None]
  }

  /** A memoized counter. The cache is a JavaScript array: writing past its
      end leaves holes, which read as `undefined` (here `None`). */
  class Counter {
    const style: Style
    var cache: seq<Option<string>>

    /** Whatever the cache holds is the right text for its index. */
    ghost predicate Valid()
      reads this
    {
      forall k :: 0 <= k < |cache| && cache[k].Some? ==> cache[k].value == PureText(style, k)
    }

    constructor (style: Style, precomputeCount: nat)
      ensures Valid() && this.style == style
      ensures cache == Precomputed(style, precomputeCount)
    {
      this.style := style;
      cache := Precomputed(style, precomputeCount);
    }

    /** `getTextForIndex`: fills `cache[i]` only when `i` is past the end. */
    method GetTextForIndex(i: nat) returns (text: Option<string>)
      requires Valid()
      modifies this`cache
      ensures Valid()
      ensures old(|cache|) <= i ==>
                cache == old(cache) + Holes(i - old(|cache|)) + [Some(PureText(style, i))]
      ensures i < old(|cache|) ==> cache == old(cache)
      ensures i < |cache| && text == cache[i]
      ensures text.Some? ==> text.value == PureText(style, i)
    {
      if i >= |cache| {
        var grown := cache + Holes(i - |cache|) + [Some(PureText(style, i))];
        forall k | 0 <= k < |grown| && grown[k].Some?
          ensures grown[k].value == PureText(style, k)
        {
          if k < |cache| {
            assert grown[k] == cache[k];
          }
        }
        cache := grown;
      }
      text := cache[i];
    }
  }

  /** The memo's quirk: after asking for index 35 of a counter that
      precomputed 30 entries, index 32 reads as a hole. */
  method JumpLeavesHole() returns (first: Option<string>, later: Option<string>)
    ensures first == Some(PureText(LowerAlpha, 35))
    ensures later == None
  {
    var counter := new Counter(LowerAlpha, DefaultPrecompute);
    first := counter.GetTextForIndex(35);
    later := counter.GetTextForIndex(32);
  }
}
