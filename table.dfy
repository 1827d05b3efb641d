/** The table-building part of `main` in createTemperatureLookup.py: the
    maximum ADC code, the sampling increment, the codes
    `range(1, max_adc, increment)` (Python 2 builds the list) and the rows
    `(adc, int(t.temp(adc)))` the emitted table holds, one per code. */
module TableSampler {
  import opened PyNum
  import Thermistor

  /** Full scale of the 10-bit ADC used for the R1 ceiling. */
  const FullScale: int := 1023

  // ---------------------------------------------------------------------
  // Python 2 range

  /** `range(start, stop, step)` for a positive step. */
  function RangeUp(start: int, stop: int, step: int): seq<int>
    requires step > 0
    decreases stop - start
  {
    if start >= stop then [] else [start] + RangeUp(start + step, stop, step)
  }

  /** `range(start, stop, step)` for a negative step. */
  function RangeDown(start: int, stop: int, step: int): seq<int>
    requires step < 0
    decreases start - stop
  {
    if start <= stop then [] else [start] + RangeDown(start + step, stop, step)
  }

  /** `range(start, stop, step)`; a zero step raises ValueError. */
  function Range(start: int, stop: int, step: int): (r: Result<seq<int>>)
    ensures r.Err? <==> step == 0
    ensures r.Err? ==> r.error == RangeStepZero
  {
    if step == 0 then Err(RangeStepZero)
    else if step > 0 then Ok(RangeUp(start, stop, step))
    else Ok(RangeDown(start, stop, step))
  }

  /** Number of elements of `range(start, stop, step)` for a positive step:
      the ceiling of (stop - start) / step, or 0 for an empty range. */
  function CountUp(start: int, stop: int, step: int): nat
    requires step > 0
  {
    if start < stop then (stop - start + step - 1) / step else 0
  }

  lemma {:induction false} RangeUpLength(start: int, stop: int, step: int)
    requires step > 0
    ensures |RangeUp(start, stop, step)| == CountUp(start, stop, step)
    decreases stop - start
  {
    if start < stop {
      RangeUpLength(start + step, stop, step);
      var n := stop - start + step - 1;
      DivShift(n - step, step);
      if start + step >= stop {
        DivModUnique(n - step, step, 0, n - step);
      }
    }
  }

  /** The i-th element of an ascending range is start + i * step. */
  lemma {:induction false} RangeUpAt(start: int, stop: int, step: int, i: nat)
    requires step > 0
    requires i < |RangeUp(start, stop, step)|
    ensures RangeUp(start, stop, step)[i] == start + i * step
    decreases i
  {
    if i > 0 {
      RangeUpAt(start + step, stop, step, i - 1);
    }
  }

  /** Every element of an ascending range lies in [start, stop). */
  lemma {:induction false} RangeUpBounds(start: int, stop: int, step: int, x: int)
    requires step > 0
    requires x in RangeUp(start, stop, step)
    ensures start <= x < stop
    decreases stop - start
  {
    if x != start {
      RangeUpBounds(start + step, stop, step, x);
    }
  }

  /** The elements of an ascending range are exactly the values in
      [start, stop) reachable from start by whole steps. */
  lemma {:induction false} RangeUpMember(start: int, stop: int, step: int, x: int)
    requires step > 0
    ensures x in RangeUp(start, stop, step) <==> start <= x < stop && (x - start) % step == 0
    decreases stop - start
  {
    if start < stop {
      RangeUpMember(start + step, stop, step, x);
      DivShift(x - (start + step), step);
      if x == start {
        DivModUnique(0, step, 0, 0);
      } else if start < x < start + step {
        DivModUnique(x - start, step, 0, x - start);
      }
    }
  }

  /** Every element of a descending range lies in (stop, start]. */
  lemma {:induction false} RangeDownBounds(start: int, stop: int, step: int, x: int)
    requires step < 0
    requires x in RangeDown(start, stop, step)
    ensures stop < x <= start
    decreases start - stop
  {
    if x != start {
      RangeDownBounds(start + step, stop, step, x);
    }
  }

  // ---------------------------------------------------------------------
  // The sampling schedule (lines 91-92)

  /** `int(max_adc/(num_temps-1))`: Python 2 floor division of two ints. */
  function Increment(maxAdc: int, numTemps: int): (r: Result<int>)
    ensures r.Err? <==> numTemps == 1
    ensures r.Ok? && numTemps > 1 ==> (numTemps - 1) * r.value <= maxAdc < (numTemps - 1) * (r.value + 1)
    ensures r.Ok? && numTemps < 1 ==> (numTemps - 1) * r.value >= maxAdc > (numTemps - 1) * (r.value + 1)
  {
    FloorDiv(maxAdc, numTemps - 1)
  }

  /** `adcs = range(1, max_adc, increment)`. */
  function Codes(maxAdc: int, numTemps: int): Result<seq<int>>
  {
    match Increment(maxAdc, numTemps)
    case Err(e) => Err(e)
    case Ok(inc) => Range(1, maxAdc, inc)
  }

  /** Moving the head of a non-empty ascending range onto the built prefix. */
  lemma AppendRangeUp(codes: seq<int>, c: int, stop: int, step: int)
    requires step > 0 && c < stop
    ensures codes + RangeUp(c, stop, step) == (codes + [c]) + RangeUp(c + step, stop, step)
  {
    assert RangeUp(c, stop, step) == [c] + RangeUp(c + step, stop, step);
  }

  /** Moving the head of a non-empty descending range onto the built prefix. */
  lemma AppendRangeDown(codes: seq<int>, c: int, stop: int, step: int)
    requires step < 0 && c > stop
    ensures codes + RangeDown(c, stop, step) == (codes + [c]) + RangeDown(c + step, stop, step)
  {
    assert RangeDown(c, stop, step) == [c] + RangeDown(c + step, stop, step);
  }

  /** Once an ascending range is exhausted the built prefix is the whole range. */
  lemma FinishRangeUp(codes: seq<int>, c: int, stop: int, step: int, whole: seq<int>)
    requires step > 0 && c >= stop
    requires codes + RangeUp(c, stop, step) == whole
    ensures codes == whole
  {
    assert codes + [] == codes;
  }

  /** Once a descending range is exhausted the built prefix is the whole range. */
  lemma FinishRangeDown(codes: seq<int>, c: int, stop: int, step: int, whole: seq<int>)
    requires step < 0 && c <= stop
    requires codes + RangeDown(c, stop, step) == whole
    ensures codes == whole
  {
    assert codes + [] == codes;
  }

  /** Builds the list of codes element by element. */
  method Adcs(maxAdc: int, numTemps: int) returns (r: Result<seq<int>>)
    ensures r == Codes(maxAdc, numTemps)
  {
    var inc := Increment(maxAdc, numTemps);
    if inc.Err? {
      return Err(inc.error);
    }
    var step := inc.value;
    if step == 0 {
      return Err(RangeStepZero);
    }
    var codes: seq<int> := [];
    var c := 1;
    if step > 0 {
      while c < maxAdc
        invariant codes + RangeUp(c, maxAdc, step) == RangeUp(1, maxAdc, step)
        decreases maxAdc - c
      {
        AppendRangeUp(codes, c, maxAdc, step);
        codes := codes + [c];
        c := c + step;
      }
      FinishRangeUp(codes, c, maxAdc, step, RangeUp(1, maxAdc, step));
    } else {
      while c > maxAdc
        invariant codes + RangeDown(c, maxAdc, step) == RangeDown(1, maxAdc, step)
        decreases c - maxAdc
      {
        AppendRangeDown(codes, c, maxAdc, step);
        codes := codes + [c];
        c := c + step;
      }
      FinishRangeDown(codes, c, maxAdc, step, RangeDown(1, maxAdc, step));
    }
    return Ok(codes);
  }

  /** The shape of an ascending range from 1: it starts at 1 when non-empty,
      rises by exactly `step`, stays in [1, stop) and never reaches `stop`. */
  lemma RangeUpShape(stop: int, step: int)
    requires step > 0
    ensures var cs := RangeUp(1, stop, step);
      (stop > 1 ==> |cs| > 0 && cs[0] == 1) &&
      (forall i :: 0 <= i < |cs| - 1 ==> cs[i + 1] - cs[i] == step) &&
      (forall i :: 0 <= i < |cs| ==> 1 <= cs[i] < stop) &&
      stop !in cs
  {
    var cs := RangeUp(1, stop, step);
    forall i | 0 <= i < |cs| - 1
      ensures cs[i + 1] - cs[i] == step
    {
      RangeUpAt(1, stop, step, i);
      RangeUpAt(1, stop, step, i + 1);
    }
    forall i | 0 <= i < |cs|
      ensures 1 <= cs[i] < stop
    {
      RangeUpBounds(1, stop, step, cs[i]);
    }
    if stop in cs {
      RangeUpBounds(1, stop, step, stop);
    }
  }

  /** With at least two points requested and `max_adc >= num_temps - 1`, the
      increment is `max_adc // (num_temps - 1)`, at least 1, and the codes
      are the ascending range from 1 below `max_adc`. */
  lemma CodesIncrement(maxAdc: int, numTemps: int)
    requires numTemps >= 2 && maxAdc >= numTemps - 1
    ensures Increment(maxAdc, numTemps).Ok?
    ensures Increment(maxAdc, numTemps).value == maxAdc / (numTemps - 1)
    ensures Increment(maxAdc, numTemps).value >= 1
    ensures Codes(maxAdc, numTemps) == Ok(RangeUp(1, maxAdc, Increment(maxAdc, numTemps).value))
  {
  }

  /** With at least two points requested and `max_adc >= num_temps - 1`: the
      codes start at 1, rise by exactly the increment, stay in [1, max_adc) (so
      `max_adc` itself is never sampled) and number ceil((max_adc - 1) / increment);
      that is at least `num_temps - 1`, except that `max_adc == num_temps - 1`
      gives one code fewer. */
  lemma CodesShape(maxAdc: int, numTemps: int)
    requires numTemps >= 2 && maxAdc >= numTemps - 1
    ensures Codes(maxAdc, numTemps).Ok?
    ensures var inc := Increment(maxAdc, numTemps).value;
      var cs := Codes(maxAdc, numTemps).value;
      inc >= 1 &&
      |cs| == CountUp(1, maxAdc, inc) &&
      (maxAdc > numTemps - 1 ==> |cs| >= numTemps - 1) &&
      (maxAdc == numTemps - 1 ==> |cs| == numTemps - 2) &&
      (maxAdc > 1 ==> cs[0] == 1) &&
      (forall i :: 0 <= i < |cs| - 1 ==> cs[i + 1] - cs[i] == inc) &&
      (forall i :: 0 <= i < |cs| ==> 1 <= cs[i] < maxAdc) &&
      maxAdc !in cs
  {
    CodesIncrement(maxAdc, numTemps);
    var inc := Increment(maxAdc, numTemps).value;
    RangeUpLength(1, maxAdc, inc);
    RangeUpShape(maxAdc, inc);
    CountAtLeast(maxAdc, numTemps - 1, inc);
  }

  /** ceil((m - 1) / (m / d)) is at least d when m > d, and d - 1 when m == d. */
  lemma CountAtLeast(m: int, d: int, inc: int)
    requires d >= 1 && m >= d && inc == m / d && inc >= 1
    ensures m > d ==> CountUp(1, m, inc) >= d
    ensures m == d ==> CountUp(1, m, inc) == d - 1
  {
  }

  /** The default schedule: `max_adc = 1023`, `num_temps = 20` give increment 53
      and the 20 codes 1, 54, ..., 1008. */
  lemma DefaultCodes()
    ensures Increment(1023, 20) == Ok(53)
    ensures Codes(1023, 20).Ok?
    ensures |Codes(1023, 20).value| == 20
    ensures forall i :: 0 <= i < 20 ==> Codes(1023, 20).value[i] == 1 + 53 * i
    ensures Codes(1023, 20).value[19] == 1008
  {
    CodesShape(1023, 20);
    RangeUpLength(1, 1023, 53);
    forall i | 0 <= i < 20
      ensures Codes(1023, 20).value[i] == 1 + 53 * i
    {
      RangeUpAt(1, 1023, 53, i);
    }
  }

  /** When the increment rounds down to 1 the table holds far more rows than
      `num_temps`: 11 points over `max_adc = 19` give the 18 codes 1..18. */
  lemma MoreCodesThanRequested()
    ensures Codes(19, 11).Ok? && |Codes(19, 11).value| == 18
  {
    CodesShape(19, 11);
  }

  /** `num_temps == 1` divides by zero; otherwise the schedule fails exactly
      when the increment is 0 and `range` rejects it: for `num_temps >= 2` that
      is `0 <= max_adc < num_temps - 1`, and for `num_temps <= 0` it is
      `num_temps - 1 < max_adc <= 0`. */
  lemma CodesErrors(maxAdc: int, numTemps: int)
    ensures numTemps == 1 ==> Codes(maxAdc, numTemps) == Err(ZeroDivisionError)
    ensures numTemps >= 2 ==>
      (Codes(maxAdc, numTemps).Err? <==> 0 <= maxAdc < numTemps - 1)
    ensures numTemps >= 2 && 0 <= maxAdc < numTemps - 1 ==>
      Codes(maxAdc, numTemps) == Err(RangeStepZero)
    ensures numTemps <= 0 ==>
      (Codes(maxAdc, numTemps).Err? <==> numTemps - 1 < maxAdc <= 0)
    ensures numTemps <= 0 && numTemps - 1 < maxAdc <= 0 ==>
      Codes(maxAdc, numTemps) == Err(RangeStepZero)
  {
    if numTemps >= 2 {
      var d := numTemps - 1;
      if maxAdc >= d {
        DivLowerBound(maxAdc, d, 1);
      } else if maxAdc >= 0 {
        DivModUnique(maxAdc, d, 0, maxAdc);
      }
    } else if numTemps <= 0 {
      var e, m := 1 - numTemps, -maxAdc;
      if m >= e {
        DivLowerBound(m, e, 1);
      } else if m >= 0 {
        DivModUnique(m, e, 0, m);
      }
    }
  }

  // ---------------------------------------------------------------------
  // The maximum code (lines 85-87)

  /** `max_adc` as evidently intended: the `--max-adc` argument, or with an R1
      the truncated full-scale fraction `int(1023 * r1 / (r1 + r2))`. */
  function MaxAdc(argMaxAdc: int, r1: Option<real>, r2: real): (r: Result<int>)
    ensures r1.None? ==> r == Ok(argMaxAdc)
    ensures r.Err? <==> r1.Some? && r1.value + r2 == 0.0
  {
    match r1
    case None => Ok(argMaxAdc)
    case Some(a) =>
      if a + r2 == 0.0 then Err(ZeroDivisionError)
      else Ok(Trunc(FullScale as real * a / (a + r2)))
  }

  /** `max_adc` as written: line 87 names `r1` and `r2`, which are not bound in
      `main` (the arguments are `args.r1` and `args.r2`), so supplying R1 raises
      NameError. */
  function MaxAdcAsWritten(argMaxAdc: int, r1: Option<real>, r2: real): (r: Result<int>)
    ensures r1.None? ==> r == Ok(argMaxAdc)
    ensures r.Err? <==> r1.Some?
  {
    match r1
    case None => Ok(argMaxAdc)
    case Some(_) => Err(NameError)
  }

  /** With an R1 the intended ceiling is the floor of 1023 * r1 / (r1 + r2),
      a code in [0, 1023). */
  lemma MaxAdcBounds(argMaxAdc: int, r1: real, r2: real)
    requires r1 >= 0.0 && r2 > 0.0
    ensures MaxAdc(argMaxAdc, Some(r1), r2).Ok?
    ensures var m := MaxAdc(argMaxAdc, Some(r1), r2).value;
      0 <= m < FullScale &&
      m as real <= FullScale as real * r1 / (r1 + r2) < m as real + 1.0
  {
    var s := r1 + r2;
    var x := FullScale as real * r1 / s;
    assert x * s == FullScale as real * r1;
    assert x < FullScale as real by {
      assert FullScale as real * r1 < FullScale as real * s;
    }
    assert x >= 0.0;
  }

  /** The discrepancy at line 87: for any R1 the code as written fails while
      the intended ceiling exists; 4.7k over 4.7k gives 511. */
  lemma MaxAdcFinding(argMaxAdc: int, r1: real, r2: real)
    requires r1 >= 0.0 && r2 > 0.0
    ensures MaxAdcAsWritten(argMaxAdc, Some(r1), r2) == Err(NameError)
    ensures MaxAdc(argMaxAdc, Some(r1), r2).Ok?
    ensures MaxAdc(1023, Some(4700.0), 4700.0) == Ok(511)
  {
  }

  // ---------------------------------------------------------------------
  // The rows of the table (lines 101-102)

  /** One emitted row: the raw code and the truncated Celsius temperature. */
  datatype Row = Row(adc: int, temp: int)

  /** The rows for the given codes in order, each temperature truncated toward
      zero as `int(t.temp(adc))` does; the first code at which `temp` fails
      aborts the table with that error. */
  method Table(th: Thermistor.Thermistor, codes: seq<int>, log: real -> real)
    returns (r: Result<seq<Row>>)
    ensures r.Ok? <==> forall i :: 0 <= i < |codes| ==> Thermistor.Temp(th, codes[i] as real, log).Ok?
    ensures r.Ok? ==> (
      |r.value| == |codes| &&
      forall i :: 0 <= i < |codes| ==>
        r.value[i] == Row(codes[i], Trunc(Thermistor.Temp(th, codes[i] as real, log).value)))
    ensures r.Err? ==> (
      exists i :: 0 <= i < |codes| &&
        Thermistor.Temp(th, codes[i] as real, log) == Err(r.error) &&
        forall j :: 0 <= j < i ==> Thermistor.Temp(th, codes[j] as real, log).Ok?)
  {
    var rows: seq<Row> := [];
    var n := 0;
    while n < |codes|
      invariant 0 <= n <= |codes| && |rows| == n
      invariant forall j :: 0 <= j < n ==> Thermistor.Temp(th, codes[j] as real, log).Ok?
      invariant forall j :: 0 <= j < n ==>
        rows[j] == Row(codes[j], Trunc(Thermistor.Temp(th, codes[j] as real, log).value))
    {
      var t := Thermistor.Temp(th, codes[n] as real, log);
      if t.Err? {
        return Err(t.error);
      }
      rows := rows + [Row(codes[n], Trunc(t.value))];
      n := n + 1;
    }
    return Ok(rows);
  }
}
