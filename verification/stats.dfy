/**
 The completion percentage shown on the dashboard and the focus page:
 `Math.round(part / whole * 100)`, and 0 when `whole` is 0.
 Computed exactly on integers; `Math.round` rounds halves up.
 */
module Stats {

  /** `Math.round(100 * part / whole)`, guarded against a zero `whole`. */
  function RoundedPercent(part: nat, whole: nat): (r: nat)
    ensures whole == 0 ==> r == 0
    // r is the integer nearest to 100 * part / whole, halves going up:
    // r <= 100 * part / whole + 1/2 < r + 1
    ensures whole > 0 ==> 2 * whole * r <= 200 * part + whole < 2 * whole * r + 2 * whole
    ensures part <= whole ==> r <= 100
  {
    if whole == 0 then 0
    else
      var n := 200 * part + whole;
      var d := 2 * whole;
      var q := n / d;
      assert n == d * q + n % d;
      assert part <= whole ==> q <= 100 by {
        if part <= whole && q > 100 {
          MulMonotone(d, 101, q);
        }
      }
      q
  }

  lemma MulMonotone(d: nat, a: nat, b: nat)
    requires a <= b
    ensures d * a <= d * b
  {
  }

  /** The percentage never goes down when one more of the same rows is completed. */
  lemma {:induction false} PercentMonotone(part: nat, whole: nat)
    requires part < whole
    ensures RoundedPercent(part, whole) <= RoundedPercent(part + 1, whole)
  {
    var r0 := RoundedPercent(part, whole);
    var r1 := RoundedPercent(part + 1, whole);
    if r1 < r0 {
      // 2w*r1 + 2w <= 2w*r0, hence 200p + w + 200 < 200(p+1) + w: impossible
      MulMonotone(2 * whole, r1 + 1, r0);
    }
  }

  /** Everything done reads 100%, nothing done reads 0%. */
  lemma PercentEnds(whole: nat)
    requires whole > 0
    ensures RoundedPercent(whole, whole) == 100
    ensures RoundedPercent(0, whole) == 0
  {
    var r := RoundedPercent(whole, whole);
    if r < 100 {
      MulMonotone(2 * whole, r + 1, 100);
    }
    var z := RoundedPercent(0, whole);
    if z > 0 {
      MulMonotone(2 * whole, 1, z);
    }
  }
}
