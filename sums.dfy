/** Finite sums of real numbers, accumulated from the left as the source's loops do. */
module Sums {

  /** s[0] + s[1] + ... + s[|s|-1], added left to right. */
  function Sum(s: seq<real>): real
  {
    if s == [] then 0.0 else Sum(s[..|s| - 1]) + s[|s| - 1]
  }

  /** One more step of a running total over a prefix. */
  lemma SumStep(s: seq<real>, i: nat)
    requires i < |s|
    ensures Sum(s[..i + 1]) == Sum(s[..i]) + s[i]
  {
    assert s[..i + 1][..i] == s[..i];
  }

  predicate NonNegative(s: seq<real>)
  {
    forall i :: 0 <= i < |s| ==> s[i] >= 0.0
  }

  /** Scaling every term scales the sum. */
  lemma {:induction false} SumScaled(s: seq<real>, t: seq<real>, a: real)
    requires |t| == |s|
    requires forall i :: 0 <= i < |s| ==> t[i] == s[i] * a
    ensures Sum(t) == Sum(s) * a
  {
    if s != [] {
      var n := |s| - 1;
      SumScaled(s[..n], t[..n], a);
      calc {
        Sum(t);
        Sum(t[..n]) + t[n];
        Sum(s[..n]) * a + s[n] * a;
        (Sum(s[..n]) + s[n]) * a;
        Sum(s) * a;
      }
    }
  }

  /** A sum of termwise sums is the sum of the two sums. */
  lemma {:induction false} SumAdd(s: seq<real>, t: seq<real>, u: seq<real>)
    requires |t| == |s| && |u| == |s|
    requires forall i :: 0 <= i < |s| ==> u[i] == s[i] + t[i]
    ensures Sum(u) == Sum(s) + Sum(t)
  {
    if s != [] {
      var n := |s| - 1;
      SumAdd(s[..n], t[..n], u[..n]);
    }
  }

  /** The sum of n copies of v is n * v. */
  lemma {:induction false} SumConst(s: seq<real>, v: real)
    requires forall i :: 0 <= i < |s| ==> s[i] == v
    ensures Sum(s) == |s| as real * v
  {
    if s != [] {
      var n := |s| - 1;
      SumConst(s[..n], v);
      assert (n + 1) as real * v == n as real * v + v;
    }
  }

  /** Non-negative terms have a non-negative sum. */
  lemma {:induction false} SumNonNegative(s: seq<real>)
    requires NonNegative(s)
    ensures Sum(s) >= 0.0
  {
    if s != [] {
      SumNonNegative(s[..|s| - 1]);
    }
  }

  /** Non-negative terms one of which is positive have a positive sum. */
  lemma {:induction false} SumPositive(s: seq<real>, k: nat)
    requires NonNegative(s)
    requires k < |s| && s[k] > 0.0
    ensures Sum(s) > 0.0
  {
    var n := |s| - 1;
    if k == n {
      SumNonNegative(s[..n]);
    } else {
      SumPositive(s[..n], k);
    }
  }
}
