/**
 * Conversion of amounts between the node's denominations (`Rai.unit`).
 *
 * An amount is an exact decimal: an integer mantissa times a power of ten.
 * The conversion shifts the decimal point up by the input unit's exponent,
 * then down by the output unit's exponent, and renders the result with zero
 * fractional digits.
 */
module Units {

  /** `mantissa · 10^exponent`, the arbitrary-precision decimal the client works on. */
  datatype Decimal = Decimal(mantissa: int, exponent: int)

  function Pow10(n: nat): (r: nat)
    ensures r >= 1 && (n > 0 ==> r >= 10)
  {
    if n == 0 then 1 else 10 * Pow10(n - 1)
  }

  lemma {:induction false} Pow10Add(a: nat, b: nat)
    ensures Pow10(a + b) == Pow10(a) * Pow10(b)
  {
    if a > 0 {
      Pow10Add(a - 1, b);
      assert Pow10(a + b) == 10 * Pow10(a - 1 + b);
    }
  }

  /** Arithmetic helpers: the solver does not find these products and quotients by itself. */
  lemma {:induction false} MulAtLeast(c: int, p: int)
    requires c >= 1 && p > 0
    ensures c * p >= p
  {
    if c > 1 {
      MulAtLeast(c - 1, p);
      assert c * p == (c - 1) * p + p;
    }
  }

  lemma DivUnique(x: int, p: int, q: int, s: int)
    requires p > 0 && 0 <= s < p && x == q * p + s
    ensures x / p == q && x % p == s
  {
    var q0, s0 := x / p, x % p;
    assert x == q0 * p + s0 && 0 <= s0 < p;
    assert (q - q0) * p == s0 - s;
    if q > q0 {
      MulAtLeast(q - q0, p);
    } else if q < q0 {
      assert (q0 - q) * p == s - s0;
      MulAtLeast(q0 - q, p);
    }
  }

  /** `d` is exactly the whole number `n`. */
  ghost predicate Denotes(d: Decimal, n: int)
  {
    if d.exponent >= 0 then n == d.mantissa * Pow10(d.exponent)
    else d.mantissa == n * Pow10(-d.exponent)
  }

  /** BigNumber's `shift(n)`: move the decimal point `n` places, exactly (only the exponent changes). */
  function Shift(d: Decimal, n: int): Decimal
  {
    Decimal(d.mantissa, d.exponent + n)
  }

  /** The denomination table: exponent of each unit relative to raw. */
  const Table: map<string, nat> :=
    map["raw" := 0, "prai" := 15, "urai" := 18, "mrai" := 21, "rai" := 24,
        "krai" := 27, "Mrai" := 30, "Grai" := 33, "Trai" := 36, "Prai" := 39]

  /** A unit's exponent; an unrecognised name counts as raw. */
  function Exponent(unit: string): (e: int)
    ensures unit !in Table ==> e == 0
    ensures 0 <= e <= 39 && e % 3 == 0
  {
    if unit in Table then Table[unit] else 0
  }

  /** The first switch of the conversion: how far a unit's amount is shifted to reach raw. */
  function ToRawShift(unit: string): int
  {
    match unit
    case "raw" => 0
    case "Prai" => 39
    case "Trai" => 36
    case "Grai" => 33
    case "Mrai" => 30
    case "krai" => 27
    case "rai" => 24
    case "mrai" => 21
    case "urai" => 18
    case "prai" => 15
    case _ => 0
  }

  /** The second switch of the conversion: how far a raw amount is shifted to reach a unit. */
  function FromRawShift(unit: string): int
  {
    match unit
    case "raw" => 0
    case "Prai" => -39
    case "Trai" => -36
    case "Grai" => -33
    case "Mrai" => -30
    case "krai" => -27
    case "rai" => -24
    case "mrai" => -21
    case "urai" => -18
    case "prai" => -15
    case _ => 0
  }

  /** Both switches follow the one table, with opposite signs. */
  lemma SwitchesFollowTable(unit: string)
    ensures ToRawShift(unit) == Exponent(unit)
    ensures FromRawShift(unit) == -Exponent(unit)
  {
  }

  /** Distinct known units have distinct exponents, so the table can be inverted. */
  lemma ExponentInjective(a: string, b: string)
    requires a in Table && b in Table && a != b
    ensures Exponent(a) != Exponent(b)
  {
  }

  /** Step 1 then step 2 of the conversion, before rendering: one net shift of `e_in - e_out`. */
  function Convert(v: Decimal, inputUnit: string, outputUnit: string): (r: Decimal)
    ensures r == Decimal(v.mantissa, v.exponent + Exponent(inputUnit) - Exponent(outputUnit))
  {
    SwitchesFollowTable(inputUnit);
    SwitchesFollowTable(outputUnit);
    Shift(Shift(v, ToRawShift(inputUnit)), FromRawShift(outputUnit))
  }

  /**
   * `round(m, k)` stands for the library's rounding of `m / 10^k` to an
   * integer. Its rounding mode is not fixed by the model.
   */
  type Rounder = (int, nat) -> int

  /**
   * A rounding rule may pick the floor or the next integer up, is exact on
   * exact quotients, and depends only on the value `m / 10^k`, not on how it
   * is written (`5 / 10` and `50 / 100` round alike).
   */
  ghost predicate Admissible(round: Rounder)
  {
    (forall m: int, k: nat ::
      m / Pow10(k) <= round(m, k) <= m / Pow10(k) + 1 &&
      (m % Pow10(k) == 0 ==> round(m, k) == m / Pow10(k))) &&
    (forall m: int, k: nat, m': int, k': nat ::
      m' == m * 10 && k' == k + 1 ==> round(m', k') == round(m, k))
  }

  /** Rounding toward zero, one admissible rule. */
  function Truncate(m: int, k: nat): int
  {
    if m >= 0 then m / Pow10(k) else -((-m) / Pow10(k))
  }

  lemma TruncateAdmissible()
    ensures Admissible(Truncate)
  {
    forall m: int, k: nat
      ensures m / Pow10(k) <= Truncate(m, k) <= m / Pow10(k) + 1
      ensures m % Pow10(k) == 0 ==> Truncate(m, k) == m / Pow10(k)
      ensures Truncate(m * 10, k + 1) == Truncate(m, k)
    {
      if m < 0 {
        TruncateNegative(m, Pow10(k));
        DivScale(-m, Pow10(k));
        assert -(m * 10) == 10 * -m;
      } else {
        DivScale(m, Pow10(k));
      }
    }
  }

  /** Scaling numerator and divisor by ten leaves the quotient unchanged. */
  lemma DivScale(m: int, p: int)
    requires p >= 1
    ensures (10 * m) / (10 * p) == m / p
  {
    var q, s := m / p, m % p;
    assert m == q * p + s && 0 <= s < p;
    assert 10 * m == q * (10 * p) + 10 * s;
    DivUnique(10 * m, 10 * p, q, 10 * s);
  }

  lemma TruncateNegative(m: int, p: int)
    requires m < 0 && p >= 1
    ensures m / p <= -((-m) / p) <= m / p + 1
    ensures m % p == 0 ==> -((-m) / p) == m / p
  {
    var q, s := m / p, m % p;
    assert m == q * p + s && 0 <= s < p;
    if s == 0 {
      DivUnique(-m, p, -q, 0);
    } else {
      DivUnique(-m, p, -q - 1, p - s);
    }
  }

  /** BigNumber's `toFixed(0)`: the decimal as an integer numeral with no fractional digits. */
  function ToFixed0(d: Decimal, round: Rounder): int
  {
    if d.exponent >= 0 then d.mantissa * Pow10(d.exponent) else round(d.mantissa, -d.exponent)
  }

  /** A value that is already a whole number is rendered exactly, whatever the rounding mode. */
  lemma RenderExact(d: Decimal, n: int, round: Rounder)
    requires Admissible(round)
    requires Denotes(d, n)
    ensures ToFixed0(d, round) == n
  {
    if d.exponent < 0 {
      DivUnique(d.mantissa, Pow10(-d.exponent), n, 0);
    }
  }

  /** `Rai.unit(input, input_unit, output_unit)`. */
  function Unit(input: Decimal, inputUnit: string, outputUnit: string, round: Rounder): int
  {
    ToFixed0(Convert(input, inputUnit, outputUnit), round)
  }

  /** Exact conversion: when the shifted value is a whole number, that number is the result. */
  lemma UnitExact(v: Decimal, a: string, b: string, n: int, round: Rounder)
    requires Admissible(round)
    requires Denotes(Decimal(v.mantissa, v.exponent + Exponent(a) - Exponent(b)), n)
    ensures Unit(v, a, b, round) == n
  {
    RenderExact(Convert(v, a, b), n, round);
  }

  /** An unrecognised unit name, in either position, behaves exactly like "raw". */
  lemma UnknownUnitIsRaw(v: Decimal, unknown: string, other: string, round: Rounder)
    requires unknown !in Table
    ensures Unit(v, unknown, other, round) == Unit(v, "raw", other, round)
    ensures Unit(v, other, unknown, round) == Unit(v, other, "raw", round)
  {
  }

  /** Converting a whole number of any unit into that same unit returns it unchanged. */
  lemma UnitIdentity(v: int, a: string, round: Rounder)
    ensures Unit(Decimal(v, 0), a, a, round) == v
  {
  }

  /** Converting into raw is exact: a whole number of unit `a` becomes `v · 10^e_a` raw. */
  lemma ToRawExact(v: int, a: string, round: Rounder)
    ensures Unit(Decimal(v, 0), a, "raw", round) == v * Pow10(Exponent(a))
  {
  }

  /** Up to raw and back down by the same exponent returns the original whole number. */
  lemma RoundTripThroughRaw(v: int, a: string, round: Rounder)
    requires Admissible(round)
    ensures Unit(Decimal(Unit(Decimal(v, 0), a, "raw", round), 0), "raw", a, round) == v
  {
    ToRawExact(v, a, round);
    UnitExact(Decimal(v * Pow10(Exponent(a)), 0), "raw", a, v, round);
  }

  /**
   * Round trip between any two units, whenever the first conversion leaves no
   * fractional raw remainder.
   */
  lemma RoundTrip(v: int, a: string, b: string, round: Rounder)
    requires Admissible(round)
    requires Exponent(a) >= Exponent(b) || v % Pow10(Exponent(b) - Exponent(a)) == 0
    ensures Unit(Decimal(Unit(Decimal(v, 0), a, b, round), 0), b, a, round) == v
  {
    var n := ShiftedWhole(v, Exponent(a) - Exponent(b));
    UnitExact(Decimal(v, 0), a, b, n, round);
    UnitExact(Decimal(n, 0), b, a, v, round);
  }

  /** A whole number shifted by `d` places, when that leaves no fraction, and shifted back. */
  lemma ShiftedWhole(v: int, d: int) returns (n: int)
    requires d >= 0 || v % Pow10(-d) == 0
    ensures Denotes(Decimal(v, d), n) && Denotes(Decimal(n, -d), v)
  {
    if d >= 0 {
      n := v * Pow10(d);
    } else {
      var p := Pow10(-d);
      n := v / p;
      assert v == n * p + v % p;
    }
  }

  /** One raw is less than one Mrai, so rounding toward zero renders it as 0. */
  lemma OneRawInMrai()
    ensures Unit(Decimal(1, 0), "raw", "Mrai", Truncate) == 0
  {
    assert Convert(Decimal(1, 0), "raw", "Mrai") == Decimal(1, -30);
    assert Unit(Decimal(1, 0), "raw", "Mrai", Truncate) == Truncate(1, 30);
    DivUnique(1, Pow10(30), 0, 1);
  }

  /** 10^30 raw is exactly 1 Mrai, whatever the rounding mode. */
  lemma OneMraiInRaw(round: Rounder)
    requires Admissible(round)
    ensures Unit(Decimal(Pow10(30), 0), "raw", "Mrai", round) == 1
  {
    UnitExact(Decimal(Pow10(30), 0), "raw", "Mrai", 1, round);
  }
}
