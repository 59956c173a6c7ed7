/**
 The `(confidence, class index)` pairs the selector works on, and the order
 `std::pair` gives them: lexicographic, confidence first, index second.
 Confidences are modelled as integers: the selector only ever compares them.
 */
module Ordering {

  /** One `std::pair<float, int>`: a confidence and the class index it belongs to. */
  datatype Prediction = Prediction(value: int, index: int)

  /** Strict lexicographic order on pairs, as `operator<` on `std::pair`. */
  predicate Below(a: Prediction, b: Prediction)
  {
    a.value < b.value || (a.value == b.value && a.index < b.index)
  }

  /** `a <= b` in pair order. */
  predicate NotAbove(a: Prediction, b: Prediction)
  {
    !Below(b, a)
  }

  /** Non-strictly ascending: the order a min-heap drains in, duplicates allowed. */
  predicate Sorted(s: seq<Prediction>)
  {
    forall i, j :: 0 <= i < j < |s| ==> NotAbove(s[i], s[j])
  }

  /** Strictly ascending in pair order. */
  predicate Increasing(s: seq<Prediction>)
  {
    forall i, j :: 0 <= i < j < |s| ==> Below(s[i], s[j])
  }

  /** Strictly descending in pair order. */
  predicate Decreasing(s: seq<Prediction>)
  {
    forall i, j :: 0 <= i < j < |s| ==> Below(s[j], s[i])
  }

  /** The pair order is a strict total order. */
  lemma BelowIsStrictTotal(a: Prediction, b: Prediction, c: Prediction)
    ensures !Below(a, a)
    ensures Below(a, b) ==> !Below(b, a)
    ensures Below(a, b) && Below(b, c) ==> Below(a, c)
    ensures a == b || Below(a, b) || Below(b, a)
  {
  }

  /** `std::reverse`. */
  function Reverse<T>(s: seq<T>): (r: seq<T>)
    ensures |r| == |s|
    ensures forall i :: 0 <= i < |s| ==> r[i] == s[|s| - 1 - i]
  {
    if |s| == 0 then [] else Reverse(s[1..]) + [s[0]]
  }

  /** Reversing distributes over concatenation, with the parts swapped. */
  lemma ReverseAppend<T>(a: seq<T>, b: seq<T>)
    ensures Reverse(a + b) == Reverse(b) + Reverse(a)
  {
    var l, r := Reverse(a + b), Reverse(b) + Reverse(a);
    assert |l| == |r|;
    forall i | 0 <= i < |l|
      ensures l[i] == r[i]
    {
      if i < |b| {
        assert r[i] == Reverse(b)[i] == b[|b| - 1 - i];
        assert l[i] == (a + b)[|a| + |b| - 1 - i];
      } else {
        assert r[i] == Reverse(a)[i - |b|] == a[|a| - 1 - (i - |b|)];
      }
    }
  }

  /** Reversing an ascending sequence gives a descending one. */
  lemma ReverseIncreasing(s: seq<Prediction>)
    requires Increasing(s)
    ensures Decreasing(Reverse(s))
  {
    var r := Reverse(s);
    forall i, j | 0 <= i < j < |r|
      ensures Below(r[j], r[i])
    {
      assert r[i] == s[|s| - 1 - i] && r[j] == s[|s| - 1 - j];
    }
  }
}
