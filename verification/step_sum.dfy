/** The stepped summation exercise. */
module StepSum {
  import opened RustInt

  /** The sum of `low + step * n` for `n` from 0 to `k` inclusive; zero when `k < 0`, the range `0..=k` then being empty. */
  function StepTerms(low: int, step: int, k: int): int
    decreases if k < 0 then 0 else k + 1
  {
    if k < 0 then 0 else StepTerms(low, step, k - 1) + low + step * k
  }

  /** Gauss's closed form of the arithmetic series. */
  lemma {:induction false} StepTermsClosedForm(low: int, step: int, k: int)
    requires k >= 0
    ensures StepTerms(low, step, k) == (k + 1) * low + step * (k * (k + 1) / 2)
    decreases k
  {
    if k > 0 {
      StepTermsClosedForm(low, step, k - 1);
      var t := (k - 1) * k / 2;
      assert k * (k + 1) == (k - 1) * k + 2 * k;
      assert k * (k + 1) / 2 == t + k;
      assert step * t + step * k == step * (t + k);
      assert k * low + low == (k + 1) * low;
    }
  }

  /**
   * `sum_with_step`: adds `low + step * n` to the running total for every
   * `n` in `0..=(high - low) / step`, the division truncating toward zero.
   * It adds to the total it is given rather than replacing it, and adds
   * nothing when the range is empty. A zero step is a division by zero.
   * `StepTermsClosedForm` gives the amount added in closed form.
   */
  method SumWithStep(total: int, low: int32, high: int32, step: int32) returns (newTotal: int)
    requires step != 0
    ensures newTotal - total == StepTerms(low, step, TruncDiv(high - low, step))
    ensures TruncDiv(high - low, step) < 0 ==> newTotal == total
  {
    newTotal := total;
    var last := TruncDiv(high - low, step);
    var n := 0;
    while n <= last
      invariant n == 0 || n <= last + 1
      invariant newTotal == total + StepTerms(low, step, n - 1)
      decreases last + 1 - n
    {
      newTotal := newTotal + (low + step * n);
      n := n + 1;
    }
  }

  /** The three sums the exercise prints, each starting from a total of 0. */
  lemma SumWithStepSamples()
    ensures TruncDiv(100 - 0, 1) == 100 && StepTerms(0, 1, 100) == 5050
    ensures TruncDiv(10 - 0, 2) == 5 && StepTerms(0, 2, 5) == 30
    ensures TruncDiv(15 - 5, 3) == 3 && StepTerms(5, 3, 3) == 38
  {
    StepTermsClosedForm(0, 1, 100);
    StepTermsClosedForm(0, 2, 5);
    StepTermsClosedForm(5, 3, 3);
  }
}
