/**
 Consequences of the top-N guarantee: it pins the result down uniquely, no
 class index is listed twice, ties go to the larger index, and the small
 corner cases the selector is expected to get right.
 */
module TopNProperties {
  import opened Ordering
  import opened TopN

  /** Two results that agree before position `i` agree at `i` as well. */
  lemma AgreeAt(prediction: seq<int>, numResults: int32, threshold: int, a: seq<Prediction>, b: seq<Prediction>, i: nat)
    requires IsTopN(prediction, numResults, threshold, a)
    requires IsTopN(prediction, numResults, threshold, b)
    requires i < |a| && a[..i] == b[..i]
    ensures a[i] == b[i]
  {
    NotBelowAt(prediction, numResults, threshold, a, b, i);
    NotBelowAt(prediction, numResults, threshold, b, a, i);
    BelowIsStrictTotal(a[i], b[i], a[i]);
  }

  /** Helper of `AgreeAt`: the first result's pair at `i` is not below the second's. */
  lemma NotBelowAt(prediction: seq<int>, numResults: int32, threshold: int, a: seq<Prediction>, b: seq<Prediction>, i: nat)
    requires IsTopN(prediction, numResults, threshold, a)
    requires IsTopN(prediction, numResults, threshold, b)
    requires i < |a| && a[..i] == b[..i]
    ensures !Below(a[i], b[i])
  {
    var y := b[i];
    assert y in b;
    if y in a {
      var k :| 0 <= k < |a| && a[k] == y;
      assert k >= i;
      if k > i {
        assert Below(a[k], a[i]);
      }
    } else {
      assert Qualifies(prediction, threshold, y.index) && y == Entry(prediction, y.index);
      assert a[i] in a;
      assert Below(y, a[i]);
    }
  }

  /** Agreement on every prefix, by induction on its length. */
  lemma {:induction false} AgreeUpTo(prediction: seq<int>, numResults: int32, threshold: int, a: seq<Prediction>, b: seq<Prediction>, i: nat)
    requires IsTopN(prediction, numResults, threshold, a)
    requires IsTopN(prediction, numResults, threshold, b)
    requires i <= |a|
    ensures a[..i] == b[..i]
  {
    if i > 0 {
      AgreeUpTo(prediction, numResults, threshold, a, b, i - 1);
      AgreeAt(prediction, numResults, threshold, a, b, i - 1);
      assert a[..i] == a[..i - 1] + [a[i - 1]];
      assert b[..i] == b[..i - 1] + [b[i - 1]];
    }
  }

  /** The top-N guarantee admits exactly one result: so the selector's output is determined by it. */
  lemma TopNUnique(prediction: seq<int>, numResults: int32, threshold: int, a: seq<Prediction>, b: seq<Prediction>)
    requires IsTopN(prediction, numResults, threshold, a)
    requires IsTopN(prediction, numResults, threshold, b)
    ensures a == b
  {
    AgreeUpTo(prediction, numResults, threshold, a, b, |a|);
    assert a == a[..|a|] && b == b[..|b|];
  }

  /** `GetTopN` started on an empty vector returns exactly the sequences meeting the guarantee. */
  lemma GetTopNMeetsSpecExactly(prediction: seq<int>, numResults: int32, threshold: int, r: seq<Prediction>)
    ensures r == GetTopN(prediction, numResults, threshold, []) <==> IsTopN(prediction, numResults, threshold, r)
  {
    if IsTopN(prediction, numResults, threshold, r) {
      TopNUnique(prediction, numResults, threshold, r, GetTopN(prediction, numResults, threshold, []));
    }
  }

  /** No class index appears twice in a result, and every index is a valid class index. */
  lemma IndicesDistinct(prediction: seq<int>, numResults: int32, threshold: int, r: seq<Prediction>)
    requires IsTopN(prediction, numResults, threshold, r)
    ensures forall i | 0 <= i < |r| :: 0 <= r[i].index < |prediction| && !(r[i].value < threshold)
    ensures forall i, j | 0 <= i < j < |r| :: r[i].index != r[j].index
  {
    forall i, j | 0 <= i < j < |r|
      ensures r[i].index != r[j].index
    {
      assert r[i] in r && r[j] in r;
      assert Below(r[j], r[i]);
    }
  }

  /**
   Tie-break: among equal scores the pair with the larger index is the larger
   pair, so it is kept whenever the smaller index is.
   */
  lemma TieGoesToLargerIndex(prediction: seq<int>, numResults: int32, threshold: int, r: seq<Prediction>, i: int, j: int)
    requires IsTopN(prediction, numResults, threshold, r)
    requires 0 <= i < j < |prediction| && prediction[i] == prediction[j]
    requires Entry(prediction, i) in r
    ensures Entry(prediction, j) in r
    ensures exists a, b | 0 <= a < b < |r| :: r[a] == Entry(prediction, j) && r[b] == Entry(prediction, i)
  {
    var x := Entry(prediction, i);
    var b :| 0 <= b < |r| && r[b] == x;
    assert Qualifies(prediction, threshold, i);
    assert Qualifies(prediction, threshold, j);
    assert Below(x, Entry(prediction, j));
    assert Entry(prediction, j) in r;
    var a :| 0 <= a < |r| && r[a] == Entry(prediction, j);
    assert Below(r[b], r[a]);
  }

  /** Scores that are all below the threshold, or a limit of zero, give nothing. */
  lemma NothingSelected(prediction: seq<int>, numResults: int32, threshold: int)
    requires numResults == 0 || forall i | 0 <= i < |prediction| :: prediction[i] < threshold
    ensures GetTopN(prediction, numResults, threshold, []) == []
  {
    if numResults != 0 {
      NoneQualify(prediction, threshold, |prediction|);
    }
  }

  lemma {:induction false} NoneQualify(prediction: seq<int>, threshold: int, k: nat)
    requires k <= |prediction|
    requires forall i | 0 <= i < k :: prediction[i] < threshold
    ensures CountQualifying(prediction, threshold, k) == 0
  {
    if k > 0 {
      NoneQualify(prediction, threshold, k - 1);
    }
  }

  /**
   A negative limit converts to a huge unsigned bound, so no pair is ever
   evicted: every qualifying score is listed.
   */
  lemma NegativeLimitKeepsAll(prediction: seq<int>, numResults: int32, threshold: int, j: int)
    requires numResults < 0 && |prediction| < 0x8000_0000
    requires Qualifies(prediction, threshold, j)
    ensures Entry(prediction, j) in GetTopN(prediction, numResults, threshold, [])
  {
  }

  /** Scores 0.9, 0.05, 0.4, 0.95, 0.2 (as hundredths), limit 2, threshold 0.3. */
  lemma ExampleTopTwo()
    ensures GetTopN([90, 5, 40, 95, 20], 2, 30, []) == [Prediction(95, 3), Prediction(90, 0)]
  {
    var p := [90, 5, 40, 95, 20];
    var r := [Prediction(95, 3), Prediction(90, 0)];
    assert CountQualifying(p, 30, 5) == 3 by {
      assert CountQualifying(p, 30, 1) == 1;
      assert CountQualifying(p, 30, 2) == 1;
      assert CountQualifying(p, 30, 3) == 2;
      assert CountQualifying(p, 30, 4) == 3;
    }
    assert Entry(p, 2) == Prediction(40, 2);
    assert IsTopN(p, 2, 30, r);
    GetTopNMeetsSpecExactly(p, 2, 30, r);
  }

  /** Scores 0.1, 0.2, limit 5, threshold 0.5: nothing clears the threshold. */
  lemma ExampleNoneAbove()
    ensures GetTopN([10, 20], 5, 50, []) == []
  {
    NothingSelected([10, 20], 5, 50);
  }
}
