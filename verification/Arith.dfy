/** Facts about remainders. */
module Arith {

  lemma ModUnique(x: nat, q: nat, m: nat, a: nat)
    requires m < a
    requires x == q * a + m
    ensures x % a == m && x / a == q
  {
    var d := x / a - q;
    assert x == (x / a) * a + x % a;
    assert d * a == (x / a) * a - q * a;
    assert d * a == m - x % a;
    OneStep(d, a);
  }

  lemma OneStep(d: int, a: nat)
    ensures d >= 1 ==> d * a >= a
    ensures d <= -1 ==> d * a + a <= 0
  {
    if d >= 1 {
      assert (d - 1) * a >= 0;
    } else if d <= -1 {
      assert (-d - 1) * a >= 0;
    }
  }
}
