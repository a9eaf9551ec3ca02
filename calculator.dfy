/**
 * The coffee-husk ("cisco") production calculator: tonnes of husk to square
 * metres of material, exact and rounded to the nearest thousand.  Numbers are
 * exact reals; the input is the value `parseFloat` produced, or None when it
 * produced NaN.
 */
module Calculator {
  import opened Wrappers

  datatype Production = Production(exact: real, rounded: int)

  /** What `parseFloat` makes of the field's initial text `'196'`. */
  const InitialTonnes: real := 196.0

  /** `parseFloat(input) || 0`: a failed parse (NaN) and zero both give zero. */
  function ParsedOrZero(parsed: Option<real>): (t: real)
    ensures parsed.None? ==> t == 0.0
    ensures parsed.Some? ==> t == parsed.value
  {
    match parsed
    case None => 0.0
    case Some(x) => x
  }

  /** `Math.round`: the nearest integer, halves rounded up (towards +infinity). */
  function JsRound(x: real): (n: int)
    ensures n as real - 0.5 <= x < n as real + 0.5
  {
    (x + 0.5).Floor
  }

  /** `calculateCiscoProduction`: `exact = t * 1000 / 9`, `rounded = round(exact / 1000) * 1000`. */
  function CalculateCiscoProduction(tonnes: real): (r: Production)
    ensures r.exact * 9.0 == tonnes * 1000.0
    ensures r.rounded % 1000 == 0
    ensures r.rounded as real - 500.0 <= r.exact < r.rounded as real + 500.0
  {
    var metrosCuadrados := (tonnes * 1000.0) / 9.0;
    var n := JsRound(metrosCuadrados / 1000.0);
    ScaleBounds(metrosCuadrados, n);
    Production(metrosCuadrados, n * 1000)
  }

  lemma ScaleBounds(m: real, n: int)
    requires n as real - 0.5 <= m / 1000.0 < n as real + 0.5
    ensures (n * 1000) as real - 500.0 <= m < (n * 1000) as real + 500.0
  {
    assert m == (m / 1000.0) * 1000.0;
  }

  /**
   * The rounded value is the only multiple of 1000 within half a thousand of
   * the exact value (ties going up), so it is the nearest thousand.
   */
  lemma RoundedIsNearestThousand(tonnes: real, m: int)
    requires m % 1000 == 0
    requires m as real - 500.0 <= CalculateCiscoProduction(tonnes).exact < m as real + 500.0
    ensures m == CalculateCiscoProduction(tonnes).rounded
  {
    var r := CalculateCiscoProduction(tonnes);
    var a, b := m / 1000, r.rounded / 1000;
    assert m == 1000 * a && r.rounded == 1000 * b;
    // both lie within 500 of the exact value, so they are less than 1000 apart
    assert (m - r.rounded) as real < 1000.0 && (r.rounded - m) as real < 1000.0;
    assert -1 < a - b < 1;
  }

  /** The page's initial input, 196 tonnes, gives 21777.7... square metres, rounded to 22000. */
  lemma InitialInput()
    ensures CalculateCiscoProduction(InitialTonnes) == Production(196000.0 / 9.0, 22000)
  {
    var x := (196.0 * 1000.0 / 9.0) / 1000.0 + 0.5;
    assert 22.0 <= x < 23.0;
    assert x.Floor == 22;
  }

  /** Input that does not parse is treated as 0 and gives 0 for both outputs. */
  lemma UnparsableInput()
    ensures CalculateCiscoProduction(ParsedOrZero(None)) == Production(0.0, 0)
  {
    assert (0.0 + 0.5).Floor == 0;
  }
}
