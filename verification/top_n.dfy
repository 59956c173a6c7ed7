/**
 `GetTopN` of simplelite.cc: bounded top-N selection over a score vector.

 The loop walks the scores, skips every score below the threshold, pushes
 `(score, index)` into a min-queue and evicts the smallest pair as soon as the
 queue holds more than `num_results` pairs. The queue is then copied out in
 ascending order and the whole output vector is reversed.
 */
module TopN {
  import opened Ordering
  import opened MinQueue

  /** A C++ `int`. */
  newtype int32 = x: int | -0x8000_0000 <= x < 0x8000_0000

  /**
   The bound the queue size is compared with. `size()` is unsigned, so a
   negative `num_results` is converted to `2^64 + num_results` first.
   */
  function Capacity(numResults: int32): (c: nat)
    ensures c == numResults as int % 0x1_0000_0000_0000_0000
    ensures c < 0x1_0000_0000_0000_0000
  {
    if numResults < 0 then numResults as int + 0x1_0000_0000_0000_0000 else numResults as int
  }

  function Min(a: int, b: int): int
  {
    if a <= b then a else b
  }

  /** The pair the loop builds for index `i`. */
  function Entry(prediction: seq<int>, i: int): Prediction
    requires 0 <= i < |prediction|
  {
    Prediction(prediction[i], i)
  }

  /** Index `i` is in range and its score is not below the threshold. */
  predicate Qualifies(prediction: seq<int>, threshold: int, i: int)
  {
    0 <= i < |prediction| && !(prediction[i] < threshold)
  }

  /** How many of the first `k` scores are not below the threshold. */
  function CountQualifying(prediction: seq<int>, threshold: int, k: nat): (c: nat)
    requires k <= |prediction|
    ensures c <= k
  {
    if k == 0 then 0
    else CountQualifying(prediction, threshold, k - 1) + (if prediction[k - 1] < threshold then 0 else 1)
  }

  /**
   What the selector promises, independently of how it computes it: a
   strictly descending sequence of genuine, qualifying pairs, as many as the
   capacity allows, every qualifying pair kept while there is room, and every
   qualifying pair left out smaller than every pair kept.
   */
  ghost predicate IsTopN(prediction: seq<int>, numResults: int32, threshold: int, r: seq<Prediction>)
  {
    && Decreasing(r)
    && (forall e | e in r :: Qualifies(prediction, threshold, e.index) && e.value == prediction[e.index])
    && |r| == Min(Capacity(numResults), CountQualifying(prediction, threshold, |prediction|))
    && (|r| < Capacity(numResults) ==>
          forall j | Qualifies(prediction, threshold, j) :: Entry(prediction, j) in r)
    && (forall j | Qualifies(prediction, threshold, j) && Entry(prediction, j) !in r ::
          forall e | e in r :: Below(Entry(prediction, j), e))
  }

  /** One iteration of the loop, for index `i`. */
  function Offer(q: seq<Prediction>, prediction: seq<int>, numResults: int32, threshold: int, i: nat): (r: seq<Prediction>)
    requires Sorted(q) && i < |prediction|
    ensures Sorted(r)
  {
    if prediction[i] < threshold then q
    else
      var pushed := Push(q, Entry(prediction, i));
      if |pushed| > Capacity(numResults) then Pop(pushed) else pushed
  }

  /** The queue once the loop has visited indices `0 .. k-1`. */
  function Scan(prediction: seq<int>, numResults: int32, threshold: int, k: nat): (q: seq<Prediction>)
    requires k <= |prediction|
    ensures Sorted(q)
  {
    if k == 0 then [] else Offer(Scan(prediction, numResults, threshold, k - 1), prediction, numResults, threshold, k - 1)
  }

  /** The loop invariant: the queue after `k` iterations is the top-N of the first `k` scores, ascending. */
  ghost predicate ScanInvariant(prediction: seq<int>, numResults: int32, threshold: int, k: nat, q: seq<Prediction>)
  {
    && k <= |prediction|
    && Increasing(q)
    && (forall e | e in q :: 0 <= e.index < k && Qualifies(prediction, threshold, e.index) && e.value == prediction[e.index])
    && |q| == Min(Capacity(numResults), CountQualifying(prediction, threshold, k))
    && (|q| < Capacity(numResults) ==>
          forall j | 0 <= j < k && Qualifies(prediction, threshold, j) :: Entry(prediction, j) in q)
    && (forall j | 0 <= j < k && Qualifies(prediction, threshold, j) && Entry(prediction, j) !in q ::
          forall e | e in q :: Below(Entry(prediction, j), e))
  }

  /** One loop iteration preserves the invariant. */
  lemma OfferPreservesInvariant(prediction: seq<int>, numResults: int32, threshold: int, k: nat, q: seq<Prediction>)
    requires k < |prediction|
    requires ScanInvariant(prediction, numResults, threshold, k, q)
    ensures ScanInvariant(prediction, numResults, threshold, k + 1, Offer(q, prediction, numResults, threshold, k))
  {
    if prediction[k] < threshold {
      assert CountQualifying(prediction, threshold, k + 1) == CountQualifying(prediction, threshold, k);
    } else {
      var pushed := Push(q, Entry(prediction, k));
      if |pushed| > Capacity(numResults) {
        EvictKeepsInvariant(prediction, numResults, threshold, k, q, pushed);
      } else {
        PushKeepsInvariant(prediction, numResults, threshold, k, q, pushed);
      }
    }
  }

  /** The iteration that pushes a qualifying pair into a queue with room to spare. */
  lemma PushKeepsInvariant(prediction: seq<int>, numResults: int32, threshold: int, k: nat, q: seq<Prediction>, pushed: seq<Prediction>)
    requires k < |prediction| && Qualifies(prediction, threshold, k)
    requires ScanInvariant(prediction, numResults, threshold, k, q)
    requires pushed == Push(q, Entry(prediction, k))
    requires |pushed| <= Capacity(numResults)
    ensures ScanInvariant(prediction, numResults, threshold, k + 1, pushed)
  {
    assert Entry(prediction, k) !in q;
    assert CountQualifying(prediction, threshold, k + 1) == CountQualifying(prediction, threshold, k) + 1;
  }

  /** The iteration that pushes a qualifying pair into a full queue and evicts the smallest. */
  lemma EvictKeepsInvariant(prediction: seq<int>, numResults: int32, threshold: int, k: nat, q: seq<Prediction>, pushed: seq<Prediction>)
    requires k < |prediction| && Qualifies(prediction, threshold, k)
    requires ScanInvariant(prediction, numResults, threshold, k, q)
    requires pushed == Push(q, Entry(prediction, k))
    requires |pushed| > Capacity(numResults)
    ensures ScanInvariant(prediction, numResults, threshold, k + 1, Pop(pushed))
  {
    var x := Entry(prediction, k);
    assert x !in q;
    assert CountQualifying(prediction, threshold, k + 1) == CountQualifying(prediction, threshold, k) + 1;
    var q' := Pop(pushed);
    assert Increasing(pushed);
    assert q' == pushed[1..];
    assert |q| == Capacity(numResults);
    forall j | 0 <= j < k + 1 && Qualifies(prediction, threshold, j) && Entry(prediction, j) !in q'
      ensures forall e | e in q' :: Below(Entry(prediction, j), e)
    {
      var d := Entry(prediction, j);
      forall e | e in q'
        ensures Below(d, e)
      {
        var m :| 0 <= m < |q'| && q'[m] == e;
        assert pushed[m + 1] == e;
        assert Below(pushed[0], e);
        if d != pushed[0] {
          assert d !in pushed;
          if e !in q {
            assert pushed[0] in q;
            BelowIsStrictTotal(d, pushed[0], e);
          }
        }
      }
    }
  }

  /** The invariant holds after every prefix of the loop. */
  lemma {:induction false} ScanKeepsInvariant(prediction: seq<int>, numResults: int32, threshold: int, k: nat)
    requires k <= |prediction|
    ensures ScanInvariant(prediction, numResults, threshold, k, Scan(prediction, numResults, threshold, k))
  {
    if k > 0 {
      ScanKeepsInvariant(prediction, numResults, threshold, k - 1);
      OfferPreservesInvariant(prediction, numResults, threshold, k - 1, Scan(prediction, numResults, threshold, k - 1));
    }
  }

  /**
   `GetTopN`: `topResults` is what the output vector held on entry. The
   queue's pairs are appended after it and the whole vector is reversed, so
   the fresh pairs come first, in descending order, and what the vector held
   before ends up reversed behind them.
   */
  function GetTopN(prediction: seq<int>, numResults: int32, threshold: int, topResults: seq<Prediction>): (r: seq<Prediction>)
    ensures |r| == |topResults| + Min(Capacity(numResults), CountQualifying(prediction, threshold, |prediction|))
    ensures IsTopN(prediction, numResults, threshold, r[..|r| - |topResults|])
    ensures r[|r| - |topResults|..] == Reverse(topResults)
    ensures topResults == [] ==> IsTopN(prediction, numResults, threshold, r)
  {
    var q := Scan(prediction, numResults, threshold, |prediction|);
    ScanKeepsInvariant(prediction, numResults, threshold, |prediction|);
    DescendingQueueMeetsSpec(prediction, numResults, threshold, q);
    ReverseAppend(topResults, q);
    Reverse(Drain(q, topResults))
  }

  /** The finished queue, reversed, meets the top-N guarantee. */
  lemma DescendingQueueMeetsSpec(prediction: seq<int>, numResults: int32, threshold: int, q: seq<Prediction>)
    requires ScanInvariant(prediction, numResults, threshold, |prediction|, q)
    ensures IsTopN(prediction, numResults, threshold, Reverse(q))
  {
    ReverseIncreasing(q);
    assert forall e :: e in Reverse(q) <==> e in q by {
      forall e | e in q
        ensures e in Reverse(q)
      {
        var m :| 0 <= m < |q| && q[m] == e;
        assert Reverse(q)[|q| - 1 - m] == e;
      }
    }
  }
}
