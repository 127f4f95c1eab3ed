/** The radius sequence of the polar mesh.

    Starting from the inner radius r0, each radius is the previous one times
    (1 + delta_theta), so that a cell's radial thickness matches its arc
    length and cells stay roughly square. Generation stops before the first
    value above r_max, or once n_radial values have been appended. */
module Radii {

  function Last(rs: seq<real>): real
    requires |rs| > 0
  {
    rs[|rs| - 1]
  }

  /** The radius at position i is the one before it times (1 + dTheta). */
  ghost predicate GrowsAt(rs: seq<real>, i: nat, dTheta: real)
    requires 0 < i < |rs|
  {
    rs[i] == rs[i - 1] * (1.0 + dTheta)
  }

  /** Consecutive radii grow by the factor (1 + dTheta). */
  ghost predicate Geometric(rs: seq<real>, dTheta: real) {
    forall i: nat :: 0 < i < |rs| ==> GrowsAt(rs, i, dTheta)
  }

  /** What the generation loop produces: it starts at r0, every appended
      value follows the growth rule and stays within rMax, at most nRadial
      values are appended, and the loop only stops early because the next
      value would have exceeded rMax. */
  ghost predicate IsRadiusSequence(rs: seq<real>, r0: real, dTheta: real, rMax: real, nRadial: nat) {
    && 1 <= |rs| <= nRadial + 1
    && rs[0] == r0
    && Geometric(rs, dTheta)
    && (forall i :: 0 < i < |rs| ==> rs[i] <= rMax)
    && (|rs| == nRadial + 1 || Last(rs) * (1.0 + dTheta) > rMax)
  }

  /** The generation loop: `for _ in range(n_radial)`, breaking before the
      first value above rMax. */
  method GenerateRadii(r0: real, dTheta: real, rMax: real, nRadial: nat) returns (radii: seq<real>)
    ensures IsRadiusSequence(radii, r0, dTheta, rMax, nRadial)
  {
    radii := [r0];
    var step := 0;
    while step < nRadial
      invariant step <= nRadial
      invariant |radii| == step + 1
      invariant radii[0] == r0
      invariant Geometric(radii, dTheta)
      invariant forall i :: 0 < i < |radii| ==> radii[i] <= rMax
    {
      var next := Last(radii) * (1.0 + dTheta);
      if next > rMax {
        return;
      }
      GeometricSnoc(radii, next, dTheta);
      radii := radii + [next];
      step := step + 1;
    }
  }

  /** Appending the next value of the growth rule keeps the sequence geometric. */
  lemma GeometricSnoc(rs: seq<real>, x: real, dTheta: real)
    requires |rs| > 0 && Geometric(rs, dTheta) && x == Last(rs) * (1.0 + dTheta)
    ensures Geometric(rs + [x], dTheta)
  {
    var rs' := rs + [x];
    forall i: nat | 0 < i < |rs'|
      ensures GrowsAt(rs', i, dTheta)
    {
      if i < |rs| {
        assert GrowsAt(rs, i, dTheta);
      }
    }
  }

  function Pow(b: real, n: nat): real {
    if n == 0 then 1.0 else b * Pow(b, n - 1)
  }

  /** Closed form: the i-th radius is r0 * (1 + dTheta)^i. */
  lemma {:induction false} ClosedForm(rs: seq<real>, r0: real, dTheta: real, rMax: real, nRadial: nat, i: nat)
    requires IsRadiusSequence(rs, r0, dTheta, rMax, nRadial)
    requires i < |rs|
    ensures rs[i] == r0 * Pow(1.0 + dTheta, i)
  {
    if i > 0 {
      ClosedForm(rs, r0, dTheta, rMax, nRadial, i - 1);
      assert GrowsAt(rs, i, dTheta);
    }
  }

  /** With a positive inner radius and a positive angular step the radii
      are strictly increasing, so no two radial layers coincide. */
  lemma {:induction false} StrictlyIncreasing(rs: seq<real>, r0: real, dTheta: real, rMax: real, nRadial: nat)
    requires IsRadiusSequence(rs, r0, dTheta, rMax, nRadial)
    requires r0 > 0.0 && dTheta > 0.0
    ensures forall i, j :: 0 <= i < j < |rs| ==> rs[i] < rs[j]
  {
    forall j | 0 <= j < |rs|
      ensures rs[j] > 0.0
      ensures forall i :: 0 <= i < j ==> rs[i] < rs[j]
    {
      IncreasingUpTo(rs, dTheta, r0, j);
    }
  }

  lemma {:induction false} IncreasingUpTo(rs: seq<real>, dTheta: real, r0: real, j: nat)
    requires 0 < |rs| && rs[0] == r0 && Geometric(rs, dTheta)
    requires r0 > 0.0 && dTheta > 0.0
    requires j < |rs|
    ensures rs[j] > 0.0
    ensures forall i :: 0 <= i < j ==> rs[i] < rs[j]
  {
    if j > 0 {
      IncreasingUpTo(rs, dTheta, r0, j - 1);
      var p := rs[j - 1];
      assert GrowsAt(rs, j, dTheta);
      assert rs[j] == p * (1.0 + dTheta) == p + p * dTheta;
      assert p * dTheta > 0.0;
    }
  }

  /** When r0 itself lies within rMax, every radius lies in [r0, rMax];
      otherwise nothing is appended and the sequence is just [r0]. */
  lemma Bounds(rs: seq<real>, r0: real, dTheta: real, rMax: real, nRadial: nat)
    requires IsRadiusSequence(rs, r0, dTheta, rMax, nRadial)
    requires r0 > 0.0 && dTheta > 0.0
    ensures r0 <= rMax ==> forall i :: 0 <= i < |rs| ==> r0 <= rs[i] <= rMax
    ensures r0 * (1.0 + dTheta) > rMax ==> rs == [r0]
  {
    StrictlyIncreasing(rs, r0, dTheta, rMax, nRadial);
    if |rs| > 1 {
      assert GrowsAt(rs, 1, dTheta);
      assert rs[1] == r0 * (1.0 + dTheta) <= rMax;
    }
  }

  /** Whatever the signs, the loop appends nothing when its first step
      already exceeds rMax. With a non-negative r0 and growth rate that is
      the case as soon as r0 itself exceeds rMax. */
  lemma SingleRadius(rs: seq<real>, r0: real, dTheta: real, rMax: real, nRadial: nat)
    requires IsRadiusSequence(rs, r0, dTheta, rMax, nRadial)
    ensures r0 * (1.0 + dTheta) > rMax ==> rs == [r0]
    ensures r0 >= 0.0 && dTheta >= 0.0 && r0 > rMax ==> rs == [r0]
  {
    if |rs| > 1 {
      assert GrowsAt(rs, 1, dTheta);
      assert rs[1] == r0 * (1.0 + dTheta) <= rMax;
    }
    if r0 >= 0.0 && dTheta >= 0.0 {
      assert r0 * (1.0 + dTheta) == r0 + r0 * dTheta;
      assert r0 * dTheta >= 0.0;
    }
  }

  /** The description pins the sequence down: two sequences satisfying it
      for the same parameters are equal. */
  lemma {:induction false} Unique(a: seq<real>, b: seq<real>, r0: real, dTheta: real, rMax: real, nRadial: nat)
    requires IsRadiusSequence(a, r0, dTheta, rMax, nRadial)
    requires IsRadiusSequence(b, r0, dTheta, rMax, nRadial)
    ensures a == b
  {
    var n := if |a| < |b| then |a| else |b|;
    forall i | 0 <= i < n
      ensures a[i] == b[i]
    {
      ClosedForm(a, r0, dTheta, rMax, nRadial, i);
      ClosedForm(b, r0, dTheta, rMax, nRadial, i);
    }
    NotLonger(a, b, r0, dTheta, rMax, nRadial);
    NotLonger(b, a, r0, dTheta, rMax, nRadial);
  }

  /** A sequence satisfying the description cannot run past the point where
      another one stopped: both follow the same closed form, and the other
      stopped either at the cap or because the next value exceeds rMax. */
  lemma NotLonger(a: seq<real>, b: seq<real>, r0: real, dTheta: real, rMax: real, nRadial: nat)
    requires IsRadiusSequence(a, r0, dTheta, rMax, nRadial)
    requires IsRadiusSequence(b, r0, dTheta, rMax, nRadial)
    ensures |b| <= |a|
  {
    var k := if |a| < |b| then |a| else 0;
    ClosedForm(b, r0, dTheta, rMax, nRadial, k);
    ClosedForm(a, r0, dTheta, rMax, nRadial, |a| - 1);
    assert r0 * Pow(1.0 + dTheta, |a|) == Last(a) * (1.0 + dTheta);
  }
}
