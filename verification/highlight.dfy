/** `chooseHighlightIndex`: the highlight colour for a new set of local
    references is the one used least in the clause, earliest on ties. */
module Highlight {
  import opened Wrappers

  /** The number of highlight classes, `referenced0` to `referenced6`. */
  const ReferencedClasses: nat := 7

  /** `minCount` starts at Infinity (modelled as `None`), `index` at null. */
  method ChooseHighlightIndex(counts: seq<nat>) returns (index: Option<nat>)
    ensures index.None? <==> counts == []
    ensures index.Some? ==> index.value < |counts|
    ensures index.Some? ==> forall k :: 0 <= k < |counts| ==> counts[index.value] <= counts[k]
    ensures index.Some? ==> forall k :: 0 <= k < index.value ==> counts[index.value] < counts[k]
  {
    var minCount: Option<nat> := None;
    index := None;
    for i := 0 to |counts|
      invariant index.None? <==> i == 0
      invariant minCount.None? <==> i == 0
      invariant index.Some? ==> index.value < i && minCount == Some(counts[index.value])
      invariant index.Some? ==> forall k :: 0 <= k < i ==> counts[index.value] <= counts[k]
      invariant index.Some? ==> forall k :: 0 <= k < index.value ==> counts[index.value] < counts[k]
    {
      if minCount.None? || counts[i] < minCount.value {
        minCount := Some(counts[i]);
        index := Some(i);
      }
    }
  }

  /** With the seven highlight classes there is always an answer. */
  method ChooseForClause(counts: seq<nat>) returns (index: nat)
    requires |counts| == ReferencedClasses
    ensures index < ReferencedClasses
    ensures forall k :: 0 <= k < |counts| ==> counts[index] <= counts[k]
    ensures forall k :: 0 <= k < index ==> counts[index] < counts[k]
  {
    var r := ChooseHighlightIndex(counts);
    index := r.value;
  }
}
