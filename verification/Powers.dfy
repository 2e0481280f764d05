/** Integer powers of positive reals. */
module Powers {
  function Power(x: real, e: int): (r: real)
    requires x > 0.0
    ensures r > 0.0
    decreases if e < 0 then -e else e
  {
    if e == 0 then 1.0 else if e > 0 then Times(x, Power(x, e - 1)) else Power(x, e + 1) / x
  }

  function Times(x: real, y: real): (r: real)
    requires x > 0.0 && y > 0.0
    ensures r > 0.0
  {
    x * y
  }

  lemma PowerStep(x: real, e: int)
    requires x > 0.0
    ensures Power(x, e + 1) == x * Power(x, e)
  {
  }

  lemma {:induction false} PowerAdd(x: real, a: int, b: int)
    requires x > 0.0
    ensures Power(x, a + b) == Power(x, a) * Power(x, b)
    decreases if b < 0 then -b else b
  {
    hide Power;
    if b > 0 {
      PowerAdd(x, a, b - 1);
      PowerStep(x, a + b - 1);
      PowerStep(x, b - 1);
      Swap(x, Power(x, a), Power(x, b - 1));
    } else if b < 0 {
      PowerAdd(x, a, b + 1);
      PowerStep(x, a + b);
      PowerStep(x, b);
      Swap(x, Power(x, a), Power(x, b));
      Cancel(x, Power(x, a + b), Power(x, a) * Power(x, b));
    } else {
      PowerZero(x);
    }
  }

  lemma PowerZero(x: real)
    requires x > 0.0
    ensures Power(x, 0) == 1.0
  {
  }

  lemma Swap(x: real, y: real, z: real)
    ensures x * (y * z) == y * (x * z)
  {
  }

  lemma Cancel(x: real, y: real, z: real)
    requires x > 0.0 && x * y == x * z
    ensures y == z
  {
  }
}
