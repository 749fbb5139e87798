/** Remainders, for the modules that divide by a variable. */
module Arithmetic {

  lemma {:induction false} QuotientIs(n: nat, step: nat, q: int, rest: nat)
    requires 0 <= rest < step && n == step * q + rest
    ensures n % step == rest
  {
    var d := n / step - q;
    assert n == step * (n / step) + n % step;
    assert step * (n / step) == step * q + step * d;
    if d != 0 {
      MultipleIsLarge(step, d);
    }
  }

  lemma MultipleIsLarge(step: nat, d: int)
    requires d != 0
    ensures step * d >= step || step * d + step <= 0
  {
  }
}
