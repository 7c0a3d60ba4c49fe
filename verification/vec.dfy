/** Fixed-length number vectors, standing in for the numpy arrays of the
    reports: zero vectors, elementwise addition, sums and reversal. */
module Vec {
  function ZeroVec(n: nat): (v: seq<real>)
    ensures |v| == n
    ensures forall i | 0 <= i < n :: v[i] == 0.0
  {
    seq(n, i => 0.0)
  }

  /** Elementwise `a + b` (numpy's `+=` on two arrays of one shape). */
  function Plus(a: seq<real>, b: seq<real>): (v: seq<real>)
    requires |a| == |b|
    ensures |v| == |a|
    ensures forall i | 0 <= i < |a| :: v[i] == a[i] + b[i]
  {
    seq(|a|, i requires 0 <= i < |a| => a[i] + b[i])
  }

  lemma PlusZero(a: seq<real>)
    ensures Plus(a, ZeroVec(|a|)) == a
  {
  }

  lemma ZeroPlus(a: seq<real>)
    ensures Plus(ZeroVec(|a|), a) == a
  {
  }

  lemma PlusAssoc(a: seq<real>, b: seq<real>, c: seq<real>)
    requires |a| == |b| == |c|
    ensures Plus(Plus(a, b), c) == Plus(a, Plus(b, c))
  {
  }

  /** `sum(v)`, adding from the left. */
  function Sum(v: seq<real>): real {
    if |v| == 0 then 0.0 else Sum(v[..|v| - 1]) + v[|v| - 1]
  }

  lemma {:induction false} SumPlus(a: seq<real>, b: seq<real>)
    requires |a| == |b|
    ensures Sum(Plus(a, b)) == Sum(a) + Sum(b)
    decreases |a|
  {
    if |a| > 0 {
      var n := |a| - 1;
      assert Plus(a, b)[..n] == Plus(a[..n], b[..n]);
      SumPlus(a[..n], b[..n]);
    }
  }

  /** `v[::-1]`. */
  function Reverse(v: seq<real>): (r: seq<real>)
    ensures |r| == |v|
    ensures forall i | 0 <= i < |v| :: r[i] == v[|v| - 1 - i]
  {
    seq(|v|, i requires 0 <= i < |v| => v[|v| - 1 - i])
  }

  /** Reversing twice gives the vector back. */
  lemma ReverseTwice(v: seq<real>)
    ensures Reverse(Reverse(v)) == v
  {
  }
}
