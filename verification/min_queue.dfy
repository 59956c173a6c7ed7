/**
 The selector's working set: a `std::priority_queue` of pairs ordered by
 `std::greater`, so that `top()` is the smallest pair. The queue is held as a
 non-strictly ascending sequence; its first element is the top.
 */
module MinQueue {
  import opened Ordering

  /** `push`: the pair joins the queue, which stays ordered. */
  function Push(q: seq<Prediction>, x: Prediction): (r: seq<Prediction>)
    requires Sorted(q)
    ensures Sorted(r)
    ensures |r| == |q| + 1
    ensures multiset(r) == multiset(q) + multiset{x}
    ensures forall e :: e in r <==> e in q || e == x
    ensures Increasing(q) && x !in q ==> Increasing(r)
  {
    if |q| == 0 || NotAbove(x, q[0]) then
      forall e | e in q
        ensures NotAbove(x, e) && (x != e ==> Below(x, e))
      {
        var k :| 0 <= k < |q| && q[k] == e;
        assert k == 0 || NotAbove(q[0], q[k]);
      }
      ConsOrdered(x, q);
      [x] + q
    else
      assert q == [q[0]] + q[1..];
      assert Increasing(q) && x !in q ==> Increasing(q[1..]) && x !in q[1..];
      var rest := Push(q[1..], x);
      forall e | e in rest
        ensures NotAbove(q[0], e) && (Increasing(q) ==> Below(q[0], e))
      {
        assert e in multiset(rest);
        if e != x {
          assert e in multiset(q[1..]);
          var k :| 0 <= k < |q[1..]| && q[1..][k] == e;
          assert e == q[k + 1];
        }
      }
      ConsOrdered(q[0], rest);
      [q[0]] + rest
  }

  /** Putting a pair in front of an ordered sequence of larger pairs keeps it ordered. */
  lemma ConsOrdered(h: Prediction, t: seq<Prediction>)
    requires Sorted(t) && forall e | e in t :: NotAbove(h, e)
    ensures Sorted([h] + t)
    ensures Increasing(t) && (forall e | e in t :: Below(h, e)) ==> Increasing([h] + t)
  {
    var s := [h] + t;
    forall i, j | 0 <= i < j < |s|
      ensures NotAbove(s[i], s[j])
    {
      if i > 0 {
        assert s[i] == t[i - 1] && s[j] == t[j - 1];
      } else {
        assert s[j] in t;
      }
    }
    if Increasing(t) && forall e | e in t :: Below(h, e) {
      forall i, j | 0 <= i < j < |s|
        ensures Below(s[i], s[j])
      {
        if i > 0 {
          assert s[i] == t[i - 1] && s[j] == t[j - 1];
        } else {
          assert s[j] in t;
        }
      }
    }
  }

  /** `top`: no pair in the queue is smaller than it. */
  function Top(q: seq<Prediction>): (m: Prediction)
    requires Sorted(q) && |q| > 0
    ensures m in q
    ensures forall e | e in q :: NotAbove(m, e)
  {
    q[0]
  }

  /** `pop`: removes exactly one copy of the top. */
  function Pop(q: seq<Prediction>): (r: seq<Prediction>)
    requires Sorted(q) && |q| > 0
    ensures Sorted(r)
    ensures multiset(r) + multiset{Top(q)} == multiset(q)
  {
    assert q == [q[0]] + q[1..];
    q[1..]
  }

  /**
   The copy-out loop: while the queue is not empty, append its top to `out`
   and pop it. The queue leaves in ascending order, after what `out` held.
   */
  function Drain(q: seq<Prediction>, out: seq<Prediction>): (r: seq<Prediction>)
    requires Sorted(q)
    ensures r == out + q
    decreases |q|
  {
    if |q| == 0 then out else Drain(Pop(q), out + [Top(q)])
  }
}
