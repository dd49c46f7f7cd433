/** The aggregates pandas computes over a group's temperatures: max, min,
    mean, the count above a threshold and the first position of a value.
    The functions carry only what their callers need to be well-formed; what
    they mean is stated by the lemmas after each. */
module Stats {

  function Max(xs: seq<real>): real
    requires |xs| > 0
  {
    if |xs| == 1 then xs[0]
    else
      var rest := Max(xs[1..]);
      if xs[0] >= rest then xs[0] else rest
  }

  /** The maximum bounds every value and is one of them. */
  lemma {:induction false} MaxIsGreatest(xs: seq<real>)
    requires |xs| > 0
    ensures forall i :: 0 <= i < |xs| ==> xs[i] <= Max(xs)
    ensures exists i :: 0 <= i < |xs| && xs[i] == Max(xs)
  {
    if |xs| > 1 {
      MaxIsGreatest(xs[1..]);
      assert forall i :: 1 <= i < |xs| ==> xs[i] == xs[1..][i - 1];
      var k :| 0 <= k < |xs[1..]| && xs[1..][k] == Max(xs[1..]);
      if xs[0] >= Max(xs[1..]) {
        assert xs[0] == Max(xs);
      } else {
        assert xs[k + 1] == Max(xs);
      }
    } else {
      assert xs[0] == Max(xs);
    }
  }

  function Min(xs: seq<real>): real
    requires |xs| > 0
  {
    if |xs| == 1 then xs[0]
    else
      var rest := Min(xs[1..]);
      if xs[0] <= rest then xs[0] else rest
  }

  /** A bound that every value respects and some value attains is the maximum. */
  lemma MaxIsAttainedBound(xs: seq<real>, v: real)
    requires forall i :: 0 <= i < |xs| ==> xs[i] <= v
    requires exists i :: 0 <= i < |xs| && xs[i] == v
    ensures Max(xs) == v
  {
    MaxIsGreatest(xs);
  }

  /** The minimum is bounded by every value and is one of them. */
  lemma {:induction false} MinIsLeast(xs: seq<real>)
    requires |xs| > 0
    ensures forall i :: 0 <= i < |xs| ==> Min(xs) <= xs[i]
    ensures exists i :: 0 <= i < |xs| && xs[i] == Min(xs)
  {
    if |xs| > 1 {
      MinIsLeast(xs[1..]);
      assert forall i :: 1 <= i < |xs| ==> xs[i] == xs[1..][i - 1];
      var k :| 0 <= k < |xs[1..]| && xs[1..][k] == Min(xs[1..]);
      if xs[0] <= Min(xs[1..]) {
        assert xs[0] == Min(xs);
      } else {
        assert xs[k + 1] == Min(xs);
      }
    } else {
      assert xs[0] == Min(xs);
    }
  }

  function Sum(xs: seq<real>): real
  {
    if xs == [] then 0.0 else xs[0] + Sum(xs[1..])
  }

  /** A sum of values that all lie in [lo, hi] lies between n * lo and n * hi. */
  lemma {:induction false} SumBounds(xs: seq<real>, lo: real, hi: real)
    requires forall i :: 0 <= i < |xs| ==> lo <= xs[i] <= hi
    ensures |xs| as real * lo <= Sum(xs) <= |xs| as real * hi
  {
    if xs != [] {
      assert forall i :: 0 <= i < |xs[1..]| ==> xs[1..][i] == xs[i + 1];
      SumBounds(xs[1..], lo, hi);
    }
  }

  /** The arithmetic mean. */
  function Mean(xs: seq<real>): real
    requires |xs| > 0
  {
    Sum(xs) / |xs| as real
  }

  lemma DivideBounds(s: real, n: real, lo: real, hi: real)
    requires n > 0.0 && n * lo <= s <= n * hi
    ensures lo <= s / n <= hi
  {
    assert s / n * n == s;
  }

  /** The mean lies between the minimum and the maximum. */
  lemma MeanBetweenMinAndMax(xs: seq<real>)
    requires |xs| > 0
    ensures Min(xs) <= Mean(xs) <= Max(xs)
  {
    MaxIsGreatest(xs);
    MinIsLeast(xs);
    MeanWithinBounds(xs, Min(xs), Max(xs));
  }

  /** Values within [lo, hi] have their mean within [lo, hi]. */
  lemma MeanWithinBounds(xs: seq<real>, lo: real, hi: real)
    requires |xs| > 0
    requires forall i :: 0 <= i < |xs| ==> lo <= xs[i] <= hi
    ensures lo <= Mean(xs) <= hi
  {
    SumBounds(xs, lo, hi);
    DivideBounds(Sum(xs), |xs| as real, lo, hi);
  }

  /** The mean of five values is their sum over five. */
  lemma MeanOfFive(w: seq<real>)
    requires |w| == 5
    ensures Mean(w) == (w[0] + w[1] + w[2] + w[3] + w[4]) / 5.0
  {
    var w1, w2, w3, w4 := w[1..], w[2..], w[3..], w[4..];
    assert w1[1..] == w2 && w2[1..] == w3 && w3[1..] == w4 && w4[1..] == [];
    assert Sum(w4) == w[4];
    assert Sum(w3) == w[3] + w[4];
    assert Sum(w2) == w[2] + w[3] + w[4];
    assert Sum(w1) == w[1] + w[2] + w[3] + w[4];
  }

  /** The number of values strictly above the reference. */
  function CountAbove(xs: seq<real>, reference: real): (n: nat)
    ensures n <= |xs|
  {
    if xs == [] then 0
    else (if xs[0] > reference then 1 else 0) + CountAbove(xs[1..], reference)
  }

  /** Every value exceeds the reference exactly when all of them are counted,
      and none does exactly when the count is zero. */
  lemma {:induction false} CountAboveExtremes(xs: seq<real>, reference: real)
    ensures CountAbove(xs, reference) == |xs| <==> forall i :: 0 <= i < |xs| ==> xs[i] > reference
    ensures CountAbove(xs, reference) == 0 <==> forall i :: 0 <= i < |xs| ==> xs[i] <= reference
  {
    if xs != [] {
      CountAboveExtremes(xs[1..], reference);
      assert forall i :: 1 <= i < |xs| ==> xs[i] == xs[1..][i - 1];
    }
  }

  /** `part / whole * 100`. */
  function Percent(part: nat, whole: nat): real
    requires 0 < whole
  {
    part as real / whole as real * 100.0
  }

  /** A part of a whole is between 0 and 100 percent of it: 100 exactly when
      it is the whole and 0 exactly when it is empty. */
  lemma PercentRange(part: nat, whole: nat)
    requires 0 < whole && part <= whole
    ensures 0.0 <= Percent(part, whole) <= 100.0
    ensures Percent(part, whole) == 100.0 <==> part == whole
    ensures Percent(part, whole) == 0.0 <==> part == 0
  {
    var p, w := part as real, whole as real;
    assert Percent(part, whole) == p / w * 100.0;
    DivideBounds(p, w, 0.0, 1.0);
    assert p / w * w == p;
    if part == whole {
      DivideBounds(p, w, 1.0, 1.0);
    }
    if part == 0 {
      DivideBounds(p, w, 0.0, 0.0);
    }
  }

  /** The first position holding v, as idxmax and idxmin report it. */
  function FirstIndexOf(xs: seq<real>, v: real): (i: nat)
    requires exists k :: 0 <= k < |xs| && xs[k] == v
    ensures i < |xs| && xs[i] == v
    ensures forall j :: 0 <= j < i ==> xs[j] != v
  {
    if xs[0] == v then 0
    else
      assert exists k :: 0 <= k < |xs[1..]| && xs[1..][k] == v by {
        var k :| 0 <= k < |xs| && xs[k] == v;
        assert xs[1..][k - 1] == v;
      }
      1 + FirstIndexOf(xs[1..], v)
  }
}
