/** The `Thermistor` class of createTemperatureLookup.py: a thermistor with the
    beta parameterisation R(T) = R0 * exp(beta * (1/T - 1/T0)), read through the
    divider  Vref - R2 - Vout - (Rth || R1) - GND  by a 10-bit ADC.
    The object is built once and never mutated, so it is a datatype; `temp` and
    `setting` are functions of it. Float arithmetic is exact `real` arithmetic;
    a Python float division by zero or `log` of a non-positive number is an
    `Err` result. */
module Thermistor {
  import opened PyNum
  import ExpLog

  /** Celsius to Kelvin, used by the constructor, `temp` and `setting` alike. */
  const KelvinOffset: real := 273.15
  /** The ADC reference voltage and the divider supply voltage. */
  const AdcReference: real := 5.0
  const Supply: real := 5.0
  /** Steps of the 10-bit ADC. */
  const AdcSteps: real := 1024.0

  /** The fields the constructor assigns. `t0` is in Kelvin; `vs` and `rs` are
      the Thevenin equivalent source voltage and impedance seen by the thermistor. */
  datatype Thermistor = Thermistor(
    r0: real, t0: real, beta: real, vadc: real, vcc: real,
    k: real, vs: real, rs: real)

  /** The Thevenin reduction of R1 (to ground, optional) and R2 (to vcc).
      An absent R1 behaves as `r1 > 0` being false. */
  function Thevenin(r1: Option<real>, r2: real, vcc: real): (r: Result<(real, real)>)
    ensures r.Err? <==> r1.Some? && r1.value > 0.0 && r1.value + r2 == 0.0
    ensures r.Err? ==> r.error == ZeroDivisionError
  {
    if r1.Some? && r1.value > 0.0 then
      var a := r1.value;
      if a + r2 == 0.0 then Err(ZeroDivisionError)
      else Ok((a * vcc / (a + r2), a * r2 / (a + r2)))
    else
      Ok((vcc, r2))
  }

  /** `Thermistor(r0, t0, beta, r1, r2)`: `t0` is given in Celsius. */
  function New(r0: real, t0: real, beta: real, r1: Option<real>, r2: real,
               exp: real -> real): (r: Result<Thermistor>)
    ensures r.Err? <==> t0 + KelvinOffset == 0.0 || Thevenin(r1, r2, Supply).Err?
    ensures r.Ok? ==> r.value.t0 == t0 + KelvinOffset && r.value.r0 == r0 && r.value.beta == beta
    ensures r.Ok? ==> r.value.vadc == AdcReference && r.value.vcc == Supply
    ensures r.Ok? ==> r.value.k == r0 * exp(-beta / (t0 + KelvinOffset))
    ensures r.Ok? ==> (r.value.vs, r.value.rs) == Thevenin(r1, r2, Supply).value
  {
    var t0k := t0 + KelvinOffset;
    if t0k == 0.0 then Err(ZeroDivisionError)
    else
      var k := r0 * exp(-beta / t0k);
      match Thevenin(r1, r2, Supply)
      case Err(e) => Err(e)
      case Ok((vs, rs)) => Ok(Thermistor(r0, t0k, beta, AdcReference, Supply, k, vs, rs))
  }

  /** Line 51 of `temp`: an ADC code as a voltage. */
  function AdcVoltage(th: Thermistor, adc: real): real
  {
    adc * th.vadc / AdcSteps
  }

  /** Line 52 of `temp`: the thermistor's resistance from the divider voltage. */
  function Resistance(th: Thermistor, v: real): (r: Result<real>)
    ensures r.Err? <==> v == th.vs
  {
    if th.vs - v == 0.0 then Err(ZeroDivisionError)
    else Ok(th.rs * v / (th.vs - v))
  }

  /** Line 53 of `temp`: the Celsius temperature at which the beta law gives
      resistance `r`. */
  function TempFromResistance(th: Thermistor, r: real, log: real -> real): (t: Result<real>)
    ensures t.Err? ==> t.error == ZeroDivisionError || t.error == MathDomainError
    ensures t.Ok? ==> th.k != 0.0 && r / th.k > 0.0 && log(r / th.k) * (t.value + KelvinOffset) == th.beta
  {
    if th.k == 0.0 then Err(ZeroDivisionError)
    else if r / th.k <= 0.0 then Err(MathDomainError)
    else if log(r / th.k) == 0.0 then Err(ZeroDivisionError)
    else Ok(th.beta / log(r / th.k) - KelvinOffset)
  }

  /** `temp(adc)`: an ADC reading to a temperature in Celsius. */
  function Temp(th: Thermistor, adc: real, log: real -> real): (t: Result<real>)
    ensures t.Err? ==> t.error == ZeroDivisionError || t.error == MathDomainError
    ensures t.Ok? ==> Resistance(th, AdcVoltage(th, adc)).Ok?
  {
    match Resistance(th, AdcVoltage(th, adc))
    case Err(e) => Err(e)
    case Ok(r) => TempFromResistance(th, r, log)
  }

  /** The exponent of the beta law at `t` Celsius: beta * (1/T - 1/T0). */
  function Exponent(th: Thermistor, t: real): real
    requires t + KelvinOffset != 0.0 && th.t0 != 0.0
  {
    th.beta * (1.0 / (t + KelvinOffset) - 1.0 / th.t0)
  }

  /** Line 57 of `setting`: the beta law's resistance at `t` Celsius. */
  function BetaResistance(th: Thermistor, t: real, exp: real -> real): (r: Result<real>)
    ensures r.Err? <==> t + KelvinOffset == 0.0 || th.t0 == 0.0
  {
    if t + KelvinOffset == 0.0 || th.t0 == 0.0 then Err(ZeroDivisionError)
    else Ok(th.r0 * exp(Exponent(th, t)))
  }

  /** Line 58 of `setting`: the divider voltage with the thermistor at `r`. */
  function DividerVoltage(th: Thermistor, r: real): (v: Result<real>)
    ensures v.Err? <==> th.rs + r == 0.0
  {
    if th.rs + r == 0.0 then Err(ZeroDivisionError)
    else Ok(th.vs * r / (th.rs + r))
  }

  /** `setting(t)` before `round`: the exact ADC code at `t` Celsius. */
  function SettingCode(th: Thermistor, t: real, exp: real -> real): Result<real>
  {
    match BetaResistance(th, t, exp)
    case Err(e) => Err(e)
    case Ok(r) =>
      match DividerVoltage(th, r)
      case Err(e) => Err(e)
      case Ok(v) => if th.vadc == 0.0 then Err(ZeroDivisionError) else Ok(v / th.vadc * AdcSteps)
  }

  /** `setting(t)`: the ADC code, rounded half away from zero. */
  function Setting(th: Thermistor, t: real, exp: real -> real): (c: Result<int>)
    ensures c.Ok? <==> SettingCode(th, t, exp).Ok?
    ensures c.Ok? ==> SettingCode(th, t, exp).value - 0.5 <= c.value as real <= SettingCode(th, t, exp).value + 0.5
  {
    match SettingCode(th, t, exp)
    case Err(e) => Err(e)
    case Ok(x) => Ok(Round(x))
  }

  // ---------------------------------------------------------------------
  // Construction

  /** The parameter ranges under which the model is physically meaningful. */
  ghost predicate Physical(r0: real, t0: real, beta: real, r1: Option<real>, r2: real)
  {
    r0 > 0.0 && beta > 0.0 && r2 > 0.0 && t0 + KelvinOffset > 0.0 &&
    (r1.Some? ==> r1.value >= 0.0)
  }

  /** A thermistor whose divider has positive source voltage and impedance. */
  ghost predicate Divider(th: Thermistor)
  {
    th.vs > 0.0 && th.rs > 0.0 && th.vadc > 0.0
  }

  /** With both resistors positive the Thevenin source lies strictly between
      0 and vcc and its impedance is below both resistors (they are in parallel). */
  lemma TheveninBounds(r1: real, r2: real, vcc: real)
    requires r1 > 0.0 && r2 > 0.0 && vcc > 0.0
    ensures Thevenin(Some(r1), r2, vcc).Ok?
    ensures var (vs, rs) := Thevenin(Some(r1), r2, vcc).value;
      0.0 < vs < vcc && 0.0 < rs < r1 && rs < r2
  {
    var s := r1 + r2;
    assert s > 0.0;
    var vs := r1 * vcc / s;
    var rs := r1 * r2 / s;
    assert vs * s == r1 * vcc;
    assert rs * s == r1 * r2;
    assert r1 * vcc < s * vcc;
    assert r1 * r2 < s * r2;
    assert r1 * r2 < s * r1;
  }

  /** A quotient times a multiple of its divisor. */
  lemma QuotientScaled(n: real, d: real, m: real, q: real)
    requires d != 0.0 && q == n / d
    ensures q * (d * m) == n * m
  {
    assert q * d == n;
  }

  /** Real-arithmetic core of `TheveninEquivalent`: both voltages equal
      r1 * vcc * r / den with den = r1 * r2 + r * (r1 + r2). */
  lemma ParallelDivider(r1: real, r2: real, vcc: real, r: real, vs: real, rs: real, p: real)
    requires r1 > 0.0 && r2 > 0.0 && r >= 0.0
    requires vs == r1 * vcc / (r1 + r2) && rs == r1 * r2 / (r1 + r2)
    requires p == r * r1 / (r + r1)
    ensures rs + r > 0.0 && r2 + p > 0.0
    ensures vs * r / (rs + r) == vcc * p / (r2 + p)
  {
    var s := r1 + r2;
    var den := r1 * r2 + r * s;
    assert den > 0.0;
    assert rs * s == r1 * r2;
    assert (rs + r) * s == den;
    assert p * (r + r1) == r * r1;
    assert p >= 0.0;
    assert (r2 + p) * (r + r1) == den;
    var a := vs * r / (rs + r);
    var b := vcc * p / (r2 + p);
    QuotientScaled(vs * r, rs + r, s, a);
    assert vs * s == r1 * vcc;
    assert a * den == r1 * vcc * r;
    QuotientScaled(vcc * p, r2 + p, r + r1, b);
    assert b * den == r1 * vcc * r;
  }

  /** The reduction is the Thevenin equivalent of the drawn circuit: for every
      thermistor resistance r, the divider voltage `vs * r / (rs + r)` equals
      the output of R2 (from vcc) over the thermistor in parallel with R1. */
  lemma TheveninEquivalent(r1: real, r2: real, vcc: real, r: real)
    requires r1 > 0.0 && r2 > 0.0 && r >= 0.0
    ensures Thevenin(Some(r1), r2, vcc).Ok?
    ensures var (vs, rs) := Thevenin(Some(r1), r2, vcc).value;
      var p := r * r1 / (r + r1);
      rs + r > 0.0 && r2 + p > 0.0 && vs * r / (rs + r) == vcc * p / (r2 + p)
  {
    var (vs, rs) := Thevenin(Some(r1), r2, vcc).value;
    ParallelDivider(r1, r2, vcc, r, vs, rs, r * r1 / (r + r1));
  }

  /** Without a positive R1 the thermistor sees vcc through R2 unchanged. */
  lemma TheveninDirect(r1: Option<real>, r2: real, vcc: real)
    requires r1.None? || r1.value <= 0.0
    ensures Thevenin(r1, r2, vcc) == Ok((vcc, r2))
  {
  }

  /** Physical parameters always construct, and give a usable divider with
      `vs <= vcc` and a positive `k = r0 * exp(-beta / T0)`: with a positive R1
      the source is below vcc and the impedance below both resistors, and
      otherwise the thermistor sees vcc through R2 unchanged. */
  lemma NewPhysical(r0: real, t0: real, beta: real, r1: Option<real>, r2: real,
                    exp: real -> real, log: real -> real)
    requires ExpLog.Laws(exp, log)
    requires Physical(r0, t0, beta, r1, r2)
    ensures New(r0, t0, beta, r1, r2, exp).Ok?
    ensures Built(New(r0, t0, beta, r1, r2, exp).value, exp)
    ensures New(r0, t0, beta, r1, r2, exp).value.vs <= Supply
    ensures New(r0, t0, beta, r1, r2, exp).value.k > 0.0
    ensures var th := New(r0, t0, beta, r1, r2, exp).value;
      r1.Some? && r1.value > 0.0 ==> th.vs < Supply && th.rs < r1.value && th.rs < r2
    ensures var th := New(r0, t0, beta, r1, r2, exp).value;
      !(r1.Some? && r1.value > 0.0) ==> th.vs == Supply && th.rs == r2
  {
    ExpLog.ExpPositive(exp, log, -beta / (t0 + KelvinOffset));
    if r1.Some? && r1.value > 0.0 {
      TheveninBounds(r1.value, r2, Supply);
    }
  }

  // ---------------------------------------------------------------------
  // The divider algebra

  /** Real-arithmetic core of line 52 followed by line 58. */
  lemma SolveThenDivide(vs: real, rs: real, v: real, r: real)
    requires vs > 0.0 && rs > 0.0 && 0.0 <= v < vs
    requires r == rs * v / (vs - v)
    ensures r >= 0.0 && rs + r > 0.0
    ensures vs * r / (rs + r) == v
  {
    var d := vs - v;
    assert r * d == rs * v;
    var s := rs + r;
    assert s * d == rs * vs;
    assert (vs * r) * d == v * (rs * vs);
    assert vs * r == v * s;
  }

  /** Real-arithmetic core of line 58 followed by line 52. */
  lemma DivideThenSolve(vs: real, rs: real, r: real, v: real)
    requires vs > 0.0 && rs > 0.0 && r >= 0.0
    requires v == vs * r / (rs + r)
    ensures 0.0 <= v < vs
    ensures rs * v / (vs - v) == r
  {
    var s := rs + r;
    assert v * s == vs * r;
    assert v * s < vs * s;
    var d := vs - v;
    assert d * s == vs * rs;
    assert (rs * v) * s == r * (vs * rs);
    assert rs * v == r * d;
  }

  /** Line 52 inverts line 58: a voltage below `vs` gives a non-negative
      resistance, and the divider at that resistance gives the voltage back. */
  lemma VoltageResistanceVoltage(th: Thermistor, v: real)
    requires th.vs > 0.0 && th.rs > 0.0
    requires 0.0 <= v < th.vs
    ensures Resistance(th, v).Ok? && Resistance(th, v).value >= 0.0
    ensures DividerVoltage(th, Resistance(th, v).value) == Ok(v)
  {
    var r := th.rs * v / (th.vs - v);
    assert Resistance(th, v).value == r;
    SolveThenDivide(th.vs, th.rs, v, r);
    assert DividerVoltage(th, r).Ok?;
    assert DividerVoltage(th, r).value == th.vs * r / (th.rs + r);
    assert DividerVoltage(th, r).value == v;
  }

  /** Line 58 inverts line 52: a non-negative resistance gives a divider voltage
      in [0, vs), from which line 52 recovers the resistance. */
  lemma ResistanceVoltageResistance(th: Thermistor, r: real)
    requires th.vs > 0.0 && th.rs > 0.0
    requires r >= 0.0
    ensures DividerVoltage(th, r).Ok?
    ensures 0.0 <= DividerVoltage(th, r).value < th.vs
    ensures Resistance(th, DividerVoltage(th, r).value) == Ok(r)
  {
    var v := th.vs * r / (th.rs + r);
    assert DividerVoltage(th, r).value == v;
    DivideThenSolve(th.vs, th.rs, r, v);
    assert Resistance(th, v).Ok?;
    assert Resistance(th, v).value == th.rs * v / (th.vs - v);
    assert Resistance(th, v).value == r;
  }

  /** Real-arithmetic core of the monotonicity of line 58. */
  lemma DivideMonotone(vs: real, rs: real, r: real, r': real)
    requires vs > 0.0 && rs > 0.0 && 0.0 <= r < r'
    ensures vs * r / (rs + r) < vs * r' / (rs + r')
  {
  }

  /** The divider voltage rises strictly with the thermistor's resistance. */
  lemma DividerMonotone(th: Thermistor, r: real, r': real)
    requires th.vs > 0.0 && th.rs > 0.0
    requires 0.0 <= r < r'
    ensures DividerVoltage(th, r).Ok? && DividerVoltage(th, r').Ok?
    ensures DividerVoltage(th, r).value < DividerVoltage(th, r').value
  {
    DivideMonotone(th.vs, th.rs, r, r');
  }

  /** The sign of line 52's resistance: positive strictly inside (0, vs),
      zero at 0, negative above `vs`. */
  lemma SolveSign(vs: real, rs: real, v: real, r: real)
    requires vs > 0.0 && rs > 0.0 && v != vs
    requires r == rs * v / (vs - v)
    ensures r > 0.0 <==> 0.0 < v < vs
    ensures r >= 0.0 <==> 0.0 <= v < vs
  {
    var d := vs - v;
    assert r * d == rs * v;
    if 0.0 < v < vs { assert r * d > 0.0; }
    if v < 0.0 { assert r * d < 0.0; }
    if v > vs { assert r * d > 0.0; }
  }

  /** A non-negative ADC code has a well-defined, non-negative resistance
      exactly when its voltage is below `vs`. */
  lemma ResistanceDefinedIff(th: Thermistor, adc: real)
    requires Divider(th)
    requires adc >= 0.0
    ensures (Resistance(th, AdcVoltage(th, adc)).Ok? && Resistance(th, AdcVoltage(th, adc)).value >= 0.0)
      <==> AdcVoltage(th, adc) < th.vs
  {
    var v := AdcVoltage(th, adc);
    assert v >= 0.0;
    if v != th.vs {
      SolveSign(th.vs, th.rs, v, Resistance(th, v).value);
    }
  }

  /** Code 0 reads as resistance 0. */
  lemma ZeroCodeZeroResistance(th: Thermistor)
    requires th.vs != 0.0
    ensures Resistance(th, AdcVoltage(th, 0.0)) == Ok(0.0)
  {
    assert AdcVoltage(th, 0.0) == 0.0;
    assert Resistance(th, 0.0).value == th.rs * 0.0 / th.vs;
    assert th.rs * 0.0 / th.vs == 0.0;
    assert Resistance(th, 0.0).value == 0.0;
  }

  // ---------------------------------------------------------------------
  // The beta law

  /** A thermistor as `New` builds it from physical parameters. */
  ghost predicate Built(th: Thermistor, exp: real -> real)
  {
    Divider(th) && th.r0 > 0.0 && th.beta > 0.0 && th.t0 > 0.0 &&
    th.k == th.r0 * exp(-th.beta / th.t0)
  }

  /** The exponent at line 57 splits into the temperature's part and the
      constant part folded into `k`. */
  lemma SplitExponent(th: Thermistor, t: real)
    requires t + KelvinOffset != 0.0 && th.t0 != 0.0
    ensures Exponent(th, t) == th.beta / (t + KelvinOffset) + -th.beta / th.t0
  {
  }

  /** A built thermistor has a positive `k`. */
  lemma BuiltPositiveK(th: Thermistor, exp: real -> real, log: real -> real)
    requires ExpLog.Laws(exp, log)
    requires Built(th, exp)
    ensures th.k > 0.0
  {
    ExpLog.ExpPositive(exp, log, -th.beta / th.t0);
  }

  /** With `k = r0 * exp(-beta / T0)`, line 57's resistance is `k * exp(beta / T)`. */
  lemma BetaLaw(th: Thermistor, t: real, exp: real -> real, log: real -> real)
    requires ExpLog.Laws(exp, log)
    requires th.t0 != 0.0 && th.k == th.r0 * exp(-th.beta / th.t0)
    requires t + KelvinOffset != 0.0
    ensures BetaResistance(th, t, exp).Ok?
    ensures BetaResistance(th, t, exp).value == th.k * exp(th.beta / (t + KelvinOffset))
  {
    var tk := t + KelvinOffset;
    var a, b := th.beta / tk, -th.beta / th.t0;
    var e := Exponent(th, t);
    assert BetaResistance(th, t, exp).value == th.r0 * exp(e);
    SplitExponent(th, t);
    ExpLog.ExpAdd(exp, log, a, b, e);
    assert th.r0 * (exp(a) * exp(b)) == (th.r0 * exp(b)) * exp(a);
  }

  /** Real-arithmetic core of line 53 after line 57. */
  lemma InvertBeta(beta: real, tk: real, y: real)
    requires beta != 0.0 && tk != 0.0 && y == beta / tk
    ensures y != 0.0 && beta / y == tk
  {
  }

  /** Line 53 undoes line 57: `temp` recovers the Celsius temperature from the
      beta law's resistance, with the same 273.15 offset in both directions. */
  lemma TempUndoesBetaResistance(th: Thermistor, t: real, exp: real -> real, log: real -> real)
    requires ExpLog.Laws(exp, log)
    requires Built(th, exp)
    requires t + KelvinOffset != 0.0
    ensures BetaResistance(th, t, exp).Ok?
    ensures TempFromResistance(th, BetaResistance(th, t, exp).value, log) == Ok(t)
  {
    var tk := t + KelvinOffset;
    var y := th.beta / tk;
    BetaLaw(th, t, exp, log);
    ExpLog.ExpPositive(exp, log, -th.beta / th.t0);
    ExpLog.ExpPositive(exp, log, y);
    InvertBeta(th.beta, tk, y);
    var r := BetaResistance(th, t, exp).value;
    assert r == th.k * exp(y);
    assert th.k > 0.0;
    assert r / th.k == exp(y);
    assert log(exp(y)) == y;
    assert TempFromResistance(th, r, log).value == th.beta / y - KelvinOffset;
  }

  /** The exact code `setting` computes lies at a voltage `AdcVoltage` maps back to. */
  lemma CodeVoltage(th: Thermistor, v: real)
    requires th.vadc > 0.0
    ensures AdcVoltage(th, v / th.vadc * AdcSteps) == v
  {
  }

  /** `temp` undoes `setting` before rounding: reading the exact code that
      `setting` computes for `t` Celsius gives `t` back. */
  lemma TempUndoesSetting(th: Thermistor, t: real, exp: real -> real, log: real -> real)
    requires ExpLog.Laws(exp, log)
    requires Built(th, exp)
    requires t + KelvinOffset != 0.0
    ensures SettingCode(th, t, exp).Ok?
    ensures Temp(th, SettingCode(th, t, exp).value, log) == Ok(t)
  {
    TempUndoesBetaResistance(th, t, exp, log);
    var r := BetaResistance(th, t, exp).value;
    ExpLog.ExpPositive(exp, log, Exponent(th, t));
    assert r == th.r0 * exp(Exponent(th, t));
    assert r > 0.0;
    ResistanceVoltageResistance(th, r);
    var v := DividerVoltage(th, r).value;
    var c := v / th.vadc * AdcSteps;
    assert SettingCode(th, t, exp).value == c;
    CodeVoltage(th, v);
    assert Resistance(th, AdcVoltage(th, c)).value == r;
  }

  /** The code `setting` computes maps back to the voltage `AdcVoltage` gives. */
  lemma VoltageCode(th: Thermistor, adc: real)
    requires th.vadc > 0.0
    ensures AdcVoltage(th, adc) / th.vadc * AdcSteps == adc
  {
  }

  /** `setting` undoes `temp`: whenever `temp(adc)` is defined, `setting` before
      rounding maps that temperature back to `adc`. */
  lemma SettingUndoesTemp(th: Thermistor, adc: real, exp: real -> real, log: real -> real)
    requires ExpLog.Laws(exp, log)
    requires Built(th, exp)
    requires Temp(th, adc, log).Ok?
    ensures SettingCode(th, Temp(th, adc, log).value, exp) == Ok(adc)
  {
    BuiltPositiveK(th, exp, log);
    var v := AdcVoltage(th, adc);
    var r := Resistance(th, v).value;
    var q := r / th.k;
    var l := log(q);
    var t := th.beta / l - KelvinOffset;
    assert Temp(th, adc, log).value == t;
    var tk := t + KelvinOffset;
    InvertBeta(th.beta, l, tk);
    BetaLaw(th, t, exp, log);
    assert exp(l) == q;
    assert BetaResistance(th, t, exp).value == r by {
      assert th.k * q == r;
    }
    assert r > 0.0 by {
      assert q * th.k == r;
    }
    SolveSign(th.vs, th.rs, v, r);
    VoltageResistanceVoltage(th, v);
    assert DividerVoltage(th, r).value == v;
    VoltageCode(th, adc);
  }

  /** The rounded round trip on integer codes: wherever `temp(c)` is defined,
      `setting` of that temperature returns `c` itself. */
  lemma SettingUndoesTempAtCode(th: Thermistor, c: int, exp: real -> real, log: real -> real)
    requires ExpLog.Laws(exp, log)
    requires Built(th, exp)
    requires Temp(th, c as real, log).Ok?
    ensures Setting(th, Temp(th, c as real, log).value, exp) == Ok(c)
  {
    SettingUndoesTemp(th, c as real, exp, log);
    assert Round(c as real) == c;
  }

  /** `temp` is defined at a code exactly when its voltage is strictly between
      0 and `vs` and the resistance there is not `k` itself (where the beta law
      would need an infinite temperature). */
  lemma TempDefinedIff(th: Thermistor, adc: real, exp: real -> real, log: real -> real)
    requires ExpLog.Laws(exp, log)
    requires Built(th, exp)
    ensures Temp(th, adc, log).Ok? <==>
      0.0 < AdcVoltage(th, adc) < th.vs && Resistance(th, AdcVoltage(th, adc)).value != th.k
  {
    BuiltPositiveK(th, exp, log);
    var v := AdcVoltage(th, adc);
    if v != th.vs {
      var r := Resistance(th, v).value;
      SolveSign(th.vs, th.rs, v, r);
      var q := r / th.k;
      assert q * th.k == r;
      assert q > 0.0 <==> r > 0.0;
      assert Temp(th, adc, log) == TempFromResistance(th, r, log);
      assert Temp(th, adc, log).Ok? <==> q > 0.0 && log(q) != 0.0;
      if q > 0.0 {
        ExpLog.LogZeroIff(exp, log, q);
        assert q == 1.0 <==> r == th.k;
      }
    }
  }

  /** `temp(0)` fails: code 0 reads as resistance 0, whose logarithm is undefined. */
  lemma ZeroCodeFails(th: Thermistor, exp: real -> real, log: real -> real)
    requires ExpLog.Laws(exp, log)
    requires Built(th, exp)
    ensures Temp(th, 0.0, log) == Err(MathDomainError)
  {
    BuiltPositiveK(th, exp, log);
    ZeroCodeZeroResistance(th);
    assert 0.0 / th.k == 0.0;
  }

  /** At the stated temperature the beta law gives the stated resistance:
      the constructor's Kelvin conversion and `setting`'s agree. */
  lemma StatedPoint(r0: real, t0: real, beta: real, r1: Option<real>, r2: real,
                    exp: real -> real, log: real -> real)
    requires ExpLog.Laws(exp, log)
    requires Physical(r0, t0, beta, r1, r2)
    ensures New(r0, t0, beta, r1, r2, exp).Ok?
    ensures BetaResistance(New(r0, t0, beta, r1, r2, exp).value, t0, exp) == Ok(r0)
  {
    NewPhysical(r0, t0, beta, r1, r2, exp, log);
    var th := New(r0, t0, beta, r1, r2, exp).value;
    assert th.t0 == t0 + KelvinOffset;
    assert Exponent(th, t0) == 0.0;
    ExpLog.ExpZero(exp, log);
    assert BetaResistance(th, t0, exp).value == r0 * exp(Exponent(th, t0));
  }
}
