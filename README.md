# Thermistor lookup-table generator, modelled in Dafny

`Marlin/createTemperatureLookup.py` builds the table of ADC codes and
Celsius temperatures that the Marlin firmware embeds for a thermistor. The
thermistor follows the beta law R(T) = R0 * exp(beta * (1/T - 1/T0)). It sits
in a divider: R2 runs from the reference voltage to the output, and the
thermistor and an optional R1 run from the output to ground. A 10-bit ADC
reads the output.

The model has four modules:

- `PyNum` (`pynum.dfy`) holds the Python 2 semantics the script relies on:
  its exceptions as a `Result`, `None` as `Option`, integer floor division,
  `int()` of a float (truncation toward zero) and `round()` (ties away from
  zero).
- `ExpLog` (`explog.dfy`) holds the exponential and the logarithm. They are
  function values `exp` and `log`, known only through three laws:
  `exp(log x) = x` for x > 0, `log(exp y) = y`, and
  `exp(a + b) = exp(a) * exp(b)`. Every result that needs them assumes
  `Laws(exp, log)`. From the laws the module derives `exp(0) = 1`, `exp > 0`,
  and that `log x = 0` exactly when `x = 1`.
- `Thermistor` (`thermistor.dfy`) models the `Thermistor` class. The object
  is built once and never changed, so it is an immutable datatype with the
  fields `__init__` assigns; `New` is the constructor. `temp` is `Temp` and
  `setting` is `Setting`. Each line of `temp` and `setting` has its own
  function: `AdcVoltage`, `Resistance`, `TempFromResistance`,
  `BetaResistance`, `DividerVoltage` and `SettingCode` (which is `setting`
  before `round`). Float arithmetic is exact `real` arithmetic. A float
  division by zero is `Err(ZeroDivisionError)` and `log` of a non-positive
  number is `Err(MathDomainError)`.
- `TableSampler` (`table.dfy`) models `main` without its printing:
  - `MaxAdc` computes the ceiling code;
  - `Increment` computes `int(max_adc/(num_temps-1))`;
  - `Codes` is the pure recursive specification of `range(1, max_adc, increment)`;
  - the method `Adcs` builds the code list in a loop and is proved equal to `Codes`;
  - the method `Table` walks the codes and collects `(adc, int(t.temp(adc)))`, stopping at the first failing code.

`temp` takes its code as a real, because Python lets any number through.
The table passes it integer codes.

With `max_adc = 1023` and `num_temps = 20` the increment is 53.
`range(1, 1023, 53)` is half-open: it stops before 1023 and yields the 20
codes 1, 54, ..., 1008 (`DefaultCodes`). The number of rows does not follow
`num_temps` in general. It is ceil((max_adc - 1) / increment). That is at least
`num_temps - 1` when `max_adc > num_temps - 1`, and can be much larger: 11
points over `max_adc = 19` give 18 codes (`MoreCodesThanRequested`).

## Model

| member | source | states |
|---|---|---|
| `PyNum.FloorDiv` | Marlin/createTemperatureLookup.py:91 | Python 2 int division fails exactly when the divisor is 0; otherwise the quotient q satisfies b*q <= a < b*q + b for b > 0, and the mirror-image bounds for b < 0 (rounding toward minus infinity) |
| `PyNum.Trunc` | Marlin/createTemperatureLookup.py:102 | `int()` of a float truncates toward zero: the result has the sign of x and lies within 1 of x, on the side toward zero |
| `PyNum.Round` | Marlin/createTemperatureLookup.py:59 | `round()` gives an integer within 1/2 of x, and a tie is rounded away from zero |
| `Thermistor.Thevenin` | Marlin/createTemperatureLookup.py:42-47 | the Thevenin reduction fails exactly when r1 > 0 and r1 + r2 == 0 (ZeroDivisionError); an absent R1 takes the else branch; `TheveninEquivalent` proves the pair is the circuit's Thevenin equivalent and `TheveninDirect` gives the else branch |
| `Thermistor.TheveninEquivalent` | Marlin/createTemperatureLookup.py:42-44 | with r1, r2 > 0, for every thermistor resistance r >= 0 the reduced divider vs*r/(rs + r) equals the output vcc*p/(r2 + p) of the circuit drawn in the module docstring (lines 11-22), where p = r*r1/(r + r1) is the thermistor in parallel with R1 |
| `Thermistor.TheveninBounds` | Marlin/createTemperatureLookup.py:42-44 | with r1 > 0, r2 > 0 and vcc > 0: 0 < vs < vcc and 0 < rs < min(r1, r2) |
| `Thermistor.TheveninDirect` | Marlin/createTemperatureLookup.py:45-47 | with R1 absent or not positive, vs == vcc and rs == r2 exactly |
| `Thermistor.New` | Marlin/createTemperatureLookup.py:34-47 | construction fails exactly when t0 + 273.15 == 0 or the Thevenin reduction fails; t0 is stored as Celsius + 273.15; vadc and vcc are 5.0; k is r0*exp(-beta/T0); vs and rs are the Thevenin source and impedance of R1, R2 and vcc |
| `Thermistor.NewPhysical` | Marlin/createTemperatureLookup.py:34-47 | physical parameters (r0, beta, r2 > 0, T0 above absolute zero, R1 absent or >= 0) always construct a thermistor with vs, rs > 0, vs <= vcc and k = r0*exp(-beta/T0) > 0; with R1 > 0, vs < vcc and rs < min(r1, r2); otherwise vs == vcc and rs == r2 |
| `Thermistor.AdcVoltage` | Marlin/createTemperatureLookup.py:51 | no contract of its own: the code-to-voltage step, specified by `VoltageCode` and `CodeVoltage` as the inverse of the last step of `setting` |
| `Thermistor.VoltageCode` | Marlin/createTemperatureLookup.py:51-59 | the voltage line 51 gives for a code, scaled back to a code as line 59 does (v / vadc * 1024), is the code again |
| `Thermistor.CodeVoltage` | Marlin/createTemperatureLookup.py:51-59 | the code line 59 computes from a voltage (v / vadc * 1024, before `round`) reads back, through line 51, as that voltage |
| `Thermistor.Resistance` | Marlin/createTemperatureLookup.py:52 | line 52 fails exactly at v == vs |
| `Thermistor.TempFromResistance` | Marlin/createTemperatureLookup.py:53 | line 53 raises only ZeroDivisionError or the math domain error; a result t satisfies log(r/k)*(t + 273.15) == beta with r/k > 0, i.e. the beta law at t gives r |
| `Thermistor.Temp` | Marlin/createTemperatureLookup.py:49-53 | `temp` raises only ZeroDivisionError or the math domain error; a result needs a defined resistance; its domain and meaning are stated by `TempDefinedIff`, `TempUndoesSetting`, `SettingUndoesTemp` and `ZeroCodeFails` |
| `Thermistor.Exponent` | Marlin/createTemperatureLookup.py:57 | no contract of its own: the exponent beta*(1/T - 1/T0), split by `SplitExponent` |
| `Thermistor.SplitExponent` | Marlin/createTemperatureLookup.py:40-57 | the exponent of line 57 is beta/T plus the constant -beta/T0 that line 40 folds into k |
| `Thermistor.BetaResistance` | Marlin/createTemperatureLookup.py:57 | line 57 fails exactly when T == 0 K (t == -273.15) or T0 == 0 |
| `Thermistor.DividerVoltage` | Marlin/createTemperatureLookup.py:58 | line 58 fails exactly when rs + r == 0 |
| `Thermistor.SettingCode` | Marlin/createTemperatureLookup.py:55-59 | no contract of its own: `setting` before `round`; `TempUndoesSetting` and `SettingUndoesTemp` prove it the two-sided inverse of `temp` |
| `Thermistor.Setting` | Marlin/createTemperatureLookup.py:55-59 | `setting` is defined exactly when its unrounded code is, and lies within 1/2 of it |
| `Thermistor.VoltageResistanceVoltage` | Marlin/createTemperatureLookup.py:52-58 | for 0 <= v < vs, line 52 gives r >= 0, and line 58 at that r gives back v exactly |
| `Thermistor.ResistanceVoltageResistance` | Marlin/createTemperatureLookup.py:52-58 | for r >= 0, line 58 gives a voltage in [0, vs), and line 52 recovers r exactly |
| `Thermistor.DividerMonotone` | Marlin/createTemperatureLookup.py:58 | vs*r/(rs+r) is strictly increasing in r >= 0 |
| `Thermistor.ResistanceDefinedIff` | Marlin/createTemperatureLookup.py:51-52 | a non-negative code has a defined, non-negative resistance if and only if adc*vadc/1024 < vs |
| `Thermistor.ZeroCodeZeroResistance` | Marlin/createTemperatureLookup.py:51-52 | code 0 reads as resistance 0 |
| `Thermistor.ZeroCodeFails` | Marlin/createTemperatureLookup.py:49-53 | `temp(0)` raises the math domain error, since log(0/k) is undefined |
| `Thermistor.BetaLaw` | Marlin/createTemperatureLookup.py:40-57 | with k = r0*exp(-beta/T0) (line 40), line 57's resistance equals k*exp(beta/T) |
| `Thermistor.TempUndoesBetaResistance` | Marlin/createTemperatureLookup.py:53-57 | line 53 applied to line 57's resistance returns exactly the Celsius temperature line 57 started from |
| `Thermistor.TempUndoesSetting` | Marlin/createTemperatureLookup.py:49-59 | `temp` at the unrounded code `setting` computes for t returns t (the law in the module docstring, line 26) |
| `Thermistor.SettingUndoesTemp` | Marlin/createTemperatureLookup.py:49-59 | wherever `temp(adc)` is defined, unrounded `setting` of that temperature returns adc |
| `Thermistor.SettingUndoesTempAtCode` | Marlin/createTemperatureLookup.py:49-59 | wherever `temp(c)` is defined at an integer code c, the rounded `setting` of that temperature is exactly c |
| `Thermistor.TempDefinedIff` | Marlin/createTemperatureLookup.py:49-53 | `temp(adc)` is defined if and only if 0 < adc*vadc/1024 < vs and the resistance there differs from k |
| `Thermistor.StatedPoint` | Marlin/createTemperatureLookup.py:36-57 | the beta law at the stated t0 gives the stated r0, so the constructor's and `setting`'s 273.15 offsets agree |
| `TableSampler.RangeUp` | Marlin/createTemperatureLookup.py:92 | no contract of its own: `range` with a positive step, specified by `RangeUpLength`, `RangeUpAt`, `RangeUpBounds` and `RangeUpMember` |
| `TableSampler.RangeDown` | Marlin/createTemperatureLookup.py:92 | no contract of its own: `range` with a negative step, bounded by `RangeDownBounds` |
| `TableSampler.Range` | Marlin/createTemperatureLookup.py:92 | `range` fails exactly when the step is 0, with the zero-step ValueError |
| `TableSampler.CountUp` | Marlin/createTemperatureLookup.py:92 | no contract of its own: the ceiling count that `RangeUpLength` proves is the length of an ascending range |
| `TableSampler.RangeUpLength` | Marlin/createTemperatureLookup.py:92 | `range(start, stop, step)` with step > 0 has ceil((stop - start)/step) elements, or none when start >= stop |
| `TableSampler.RangeUpAt` | Marlin/createTemperatureLookup.py:92 | the i-th element of an ascending range is start + i*step |
| `TableSampler.RangeUpBounds` | Marlin/createTemperatureLookup.py:92 | every element of an ascending range lies in [start, stop) |
| `TableSampler.RangeUpMember` | Marlin/createTemperatureLookup.py:92 | x is in an ascending range if and only if start <= x < stop and x - start is a multiple of step |
| `TableSampler.RangeDownBounds` | Marlin/createTemperatureLookup.py:92 | every element of a descending range (negative increment) lies in (stop, start] |
| `TableSampler.RangeUpShape` | Marlin/createTemperatureLookup.py:92 | a range from 1 starts at 1 when stop > 1, rises by exactly step, stays in [1, stop) and never contains stop |
| `TableSampler.Increment` | Marlin/createTemperatureLookup.py:91 | the increment fails exactly when num_temps == 1; otherwise it is the floor quotient: (num_temps-1)*inc <= max_adc < (num_temps-1)*(inc+1) for num_temps > 1, and the mirror-image bounds for num_temps < 1 |
| `TableSampler.Codes` | Marlin/createTemperatureLookup.py:91-92 | no contract of its own: `range(1, max_adc, increment)`, specified by `CodesShape`, `CodesErrors`, `DefaultCodes` and `MoreCodesThanRequested`, and computed by `Adcs` |
| `TableSampler.Adcs` | Marlin/createTemperatureLookup.py:91-92 | the loop that builds the codes returns exactly `Codes(max_adc, num_temps)`, errors included |
| `TableSampler.CodesIncrement` | Marlin/createTemperatureLookup.py:91 | for num_temps >= 2 and max_adc >= num_temps - 1, the increment is max_adc // (num_temps - 1) and at least 1 |
| `TableSampler.CodesShape` | Marlin/createTemperatureLookup.py:91-92 | then the codes start at 1 and rise by exactly the increment; every code c has 1 <= c < max_adc, so max_adc is never included; their number is ceil((max_adc - 1)/increment), at least num_temps - 1, or num_temps - 2 when max_adc == num_temps - 1 |
| `TableSampler.CodesErrors` | Marlin/createTemperatureLookup.py:91-92 | num_temps == 1 divides by zero; for num_temps >= 2 the schedule fails if and only if 0 <= max_adc < num_temps - 1, and for num_temps <= 0 if and only if num_temps - 1 < max_adc <= 0; the failure is then `range`'s zero-step error |
| `TableSampler.DefaultCodes` | Marlin/createTemperatureLookup.py:77-92 | the defaults max_adc = 1023, num_temps = 20 give increment 53 and the 20 codes 1 + 53*i, ending at 1008 |
| `TableSampler.MoreCodesThanRequested` | Marlin/createTemperatureLookup.py:77-92 | num_temps = 11 over max_adc = 19 gives 18 codes, more than were asked for |
| `TableSampler.MaxAdc` | Marlin/createTemperatureLookup.py:85-87 | the intended ceiling is the `--max-adc` argument without an R1, and fails exactly when r1 + r2 == 0 |
| `TableSampler.MaxAdcAsWritten` | Marlin/createTemperatureLookup.py:85-87 | line 87 as written keeps the `--max-adc` argument without an R1 and fails (NameError) exactly when an R1 is given |
| `TableSampler.MaxAdcBounds` | Marlin/createTemperatureLookup.py:85-87 | with R1 >= 0 and R2 > 0, the intended ceiling is the floor of 1023*r1/(r1+r2) and lies in [0, 1023) |
| `TableSampler.MaxAdcFinding` | Marlin/createTemperatureLookup.py:85-87 | line 87 as written raises NameError for every R1, while the intended ceiling exists (511 for R1 = R2 = 4700) |
| `TableSampler.Table` | Marlin/createTemperatureLookup.py:101-102 | the table succeeds if and only if `temp` is defined at every code; its rows are then, in order, (code, int(temp(code))); otherwise it fails with the error of the first failing code |

## Left out

- Argument parsing (lines 62-83) is not modelled. Its values are the model's
  parameters, and its defaults appear only in `DefaultCodes`.
- The printed header, array declaration and row formatting are not modelled
  (lines 94-105, 107-111). That includes the trailing-comma test `n==len(adcs)`,
  which is never true. Each row is printed inside the loop, so when `temp`
  fails at a code the rows before it are already on standard output; `Table`
  returns only the error and does not model that partial output.
- Floating point is not modelled: rounding error, overflow, infinities and
  NaN. Python floats are exact reals here, so `round`, `int()` and the
  divisions are exact.
- Python 2 integer division inside the Thevenin reduction, which happens
  only if the resistors are ints, is not modelled. The script always passes
  floats.
- Concrete values of `exp` and `log` are not modelled. They are known only
  through `ExpLog.Laws`, so no numeric temperature for a given code is stated.
- Monotonicity of `temp` in the code is not stated. The three laws admit
  exponentials that are not monotone, so they cannot prove it.
- The order in which `main` runs the steps is not modelled as one member. It
  would be `MaxAdc`, then `New`, then `Adcs`, then `Table`, each propagating
  its error.
- An absent R1 is `None`. Python 2's `None > 0` is false, so `Thevenin` takes
  the else branch for it, as for any R1 <= 0.

## Findings

| source | as written | input that shows it | evidently intended | confidence | as-written member | corrected member |
|---|---|---|---|---|---|---|
| Marlin/createTemperatureLookup.py:87 | `max_adc = int(1023 * r1 / (r1 + r2))` names `r1` and `r2`, which are not bound inside `main` | `--r0 100000 --beta 4092 --r1 4700 --r2 4700` raises NameError before any row is produced | `int(1023 * args.r1 / (args.r1 + args.r2))`, which is 511 for this input | high (the names are visibly unbound); not executed | `TableSampler.MaxAdcAsWritten`, exhibited by `TableSampler.MaxAdcFinding` | `TableSampler.MaxAdc`, bounded by `TableSampler.MaxAdcBounds` |
