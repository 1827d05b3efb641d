/** The natural exponential and logarithm, known only through the laws the
    thermistor algebra needs. They are passed to the model as function values
    `exp` and `log`; every property that depends on them assumes `Laws(exp, log)`. */
module ExpLog {

  /** `exp(a + b) == exp(a) * exp(b)` at one pair of arguments. */
  ghost predicate Additive(exp: real -> real, a: real, b: real)
  {
    exp(a + b) == exp(a) * exp(b)
  }

  /** `exp` and `log` are inverse to each other (log on the positive reals)
      and `exp` turns sums into products. */
  ghost predicate Laws(exp: real -> real, log: real -> real)
  {
    (forall x: real :: x > 0.0 ==> exp(log(x)) == x) &&
    (forall y: real :: log(exp(y)) == y) &&
    (forall a: real, b: real :: Additive(exp, a, b))
  }

  lemma ExpAdd(exp: real -> real, log: real -> real, a: real, b: real, s: real)
    requires Laws(exp, log)
    requires s == a + b
    ensures exp(s) == exp(a) * exp(b)
  {
    assert Additive(exp, a, b);
  }

  /** `exp(0) == 1`: if it were 0, every `exp(y)` would be 0 and `log(0)` would
      have to equal every `y`. */
  lemma ExpZero(exp: real -> real, log: real -> real)
    requires Laws(exp, log)
    ensures exp(0.0) == 1.0
  {
    var e := exp(0.0);
    ExpAdd(exp, log, 0.0, 0.0, 0.0);
    assert e == e * e;
    if e == 0.0 {
      ExpAdd(exp, log, 1.0, 0.0, 1.0);
      assert false;
    }
  }

  /** `exp` is positive everywhere. */
  lemma ExpPositive(exp: real -> real, log: real -> real, y: real)
    requires Laws(exp, log)
    ensures exp(y) > 0.0
  {
    ExpZero(exp, log);
    ExpAdd(exp, log, y, -y, 0.0);
    ExpAdd(exp, log, y / 2.0, y / 2.0, y);
    var h := exp(y / 2.0);
    assert exp(y) == h * h;
    assert exp(y) != 0.0;
  }

  /** `log(x) == 0` exactly at `x == 1`, on the positive reals. */
  lemma LogZeroIff(exp: real -> real, log: real -> real, x: real)
    requires Laws(exp, log)
    requires x > 0.0
    ensures log(x) == 0.0 <==> x == 1.0
  {
    ExpZero(exp, log);
    assert exp(log(x)) == x;
    assert log(exp(0.0)) == 0.0;
  }
}
