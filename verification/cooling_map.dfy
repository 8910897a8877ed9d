/** The cooling map: a grid of densities and temperatures spaced evenly in
    their base-ten logarithms, the radiative cooling rate at each grid
    point, and for each temperature the density at which the gas turns
    optically thick (the optical depth first rises past one).

    The power of ten and the opacity table are parameters; the rate's
    fourth power of the temperature is written out as a product. */
module CoolingMap {
  import opened Wrappers

  // ---------------------------------------------------------------------
  // Log-spaced grids
  // ---------------------------------------------------------------------

  /** The step between exponents: the distance between the bounds over the
      number of bins, whichever bound is larger. */
  function Step(lo: real, hi: real, bins: nat): real
    requires bins > 0
  {
    (if hi >= lo then hi - lo else lo - hi) / bins as real
  }

  /** The exponent of grid point `i`. */
  function Exponent(lo: real, hi: real, bins: nat, i: nat): real
    requires bins > 0
  {
    lo + i as real * Step(lo, hi, bins)
  }

  /** One grid: `bins` powers of ten (none when `bins` is not positive),
      the i-th at exponent `lo + i * step`. */
  method FillGrid(lo: real, hi: real, bins: int, pow10: real -> real) returns (grid: seq<real>)
    ensures bins <= 0 ==> grid == []
    ensures bins > 0 ==> |grid| == bins
    ensures bins > 0 ==> forall i :: 0 <= i < |grid| ==> grid[i] == pow10(Exponent(lo, hi, bins, i))
  {
    grid := [];
    if bins <= 0 {
      return;
    }
    var step := (if hi >= lo then hi - lo else lo - hi) / bins as real;
    assert step == Step(lo, hi, bins);
    var i := 0;
    while i < bins
      invariant 0 <= i <= bins && |grid| == i
      invariant forall k :: 0 <= k < i ==> grid[k] == pow10(Exponent(lo, hi, bins, k))
    {
      assert lo + i as real * step == Exponent(lo, hi, bins, i);
      grid := grid + [pow10(lo + i as real * step)];
      i := i + 1;
    }
  }

  /** Both axes of the map. */
  method FillVectors(densMin: real, densMax: real, densBins: int, tempMin: real, tempMax: real, tempBins: int,
                     pow10: real -> real) returns (densities: seq<real>, temperatures: seq<real>)
    ensures |densities| == if densBins > 0 then densBins else 0
    ensures |temperatures| == if tempBins > 0 then tempBins else 0
    ensures densBins > 0 ==> forall i :: 0 <= i < |densities| ==> densities[i] == pow10(Exponent(densMin, densMax, densBins, i))
    ensures tempBins > 0 ==> forall i :: 0 <= i < |temperatures| ==> temperatures[i] == pow10(Exponent(tempMin, tempMax, tempBins, i))
  {
    densities := FillGrid(densMin, densMax, densBins, pow10);
    temperatures := FillGrid(tempMin, tempMax, tempBins, pow10);
  }

  /** The exponents start at the lower bound as given and climb by equal
      steps, staying below it plus the width of the range; with the bounds
      swapped they climb upward from the larger one. */
  lemma ExponentsClimb(lo: real, hi: real, bins: nat, i: nat, j: nat)
    requires bins > 0 && i <= j < bins
    ensures Exponent(lo, hi, bins, 0) == lo
    ensures Exponent(lo, hi, bins, i) <= Exponent(lo, hi, bins, j)
    ensures Exponent(lo, hi, bins, j) < lo + (if hi >= lo then hi - lo else lo - hi)
            || (hi == lo && Exponent(lo, hi, bins, j) == lo)
  {
    var w := if hi >= lo then hi - lo else lo - hi;
    var step := Step(lo, hi, bins);
    assert step >= 0.0;
    assert i as real * step <= j as real * step by {
      assert (j as real - i as real) * step >= 0.0;
    }
    if w > 0.0 {
      assert step * bins as real == w;
      assert j as real * step < bins as real * step by {
        assert (bins as real - j as real) * step > 0.0;
      }
    }
  }

  /** Powers of ten grow with the exponent. */
  ghost predicate Increasing(f: real -> real)
  {
    forall a: real, b: real :: a <= b ==> f(a) <= f(b)
  }

  /** So each axis is in ascending order. */
  lemma GridAscending(lo: real, hi: real, bins: nat, pow10: real -> real, grid: seq<real>)
    requires bins > 0 && Increasing(pow10) && |grid| == bins
    requires forall i :: 0 <= i < |grid| ==> grid[i] == pow10(Exponent(lo, hi, bins, i))
    ensures forall i, j :: 0 <= i <= j < |grid| ==> grid[i] <= grid[j]
  {
    forall i, j | 0 <= i <= j < |grid|
      ensures grid[i] <= grid[j]
    {
      ExponentsClimb(lo, hi, bins, i, j);
    }
  }

  // ---------------------------------------------------------------------
  // Cooling rate
  // ---------------------------------------------------------------------

  function Denominator(dens: real, kappa: real, auToCm: real): real
    requires kappa != 0.0
  {
    var sigma := dens * auToCm;
    sigma * sigma * kappa + 1.0 / kappa
  }

  /** The radiative cooling rate 4 SB T^4 / (Sigma^2 kappa + 1/kappa), with
      the column Sigma = density times the unit length in centimetres. */
  function CalculateDUDT(dens: real, temp: real, kappa: real, sb: real, auToCm: real): (r: real)
    requires kappa != 0.0 && Denominator(dens, kappa, auToCm) != 0.0
    ensures kappa > 0.0 && sb > 0.0 && temp != 0.0 ==>
              && r > 0.0
              && r <= 4.0 * sb * (temp * temp * temp * temp) * kappa
              && (dens * auToCm != 0.0 ==>
                    r <= 4.0 * sb * (temp * temp * temp * temp) / (dens * auToCm * dens * auToCm * kappa))
  {
    var numer := 4.0 * sb * (temp * temp * temp * temp);
    if kappa > 0.0 && sb > 0.0 && temp != 0.0 then
      CoolingQuotientBounds(dens, temp, kappa, sb, auToCm);
      numer / Denominator(dens, kappa, auToCm)
    else
      numer / Denominator(dens, kappa, auToCm)
  }

  // Sign facts about products, each naming the product as a separate
  // quantity so that later steps can use it without re-deriving it.

  lemma SquareNonNegative(x: real, s: real)
    requires s == x * x
    ensures s >= 0.0
  {
  }

  lemma SquareNonZero(x: real, s: real)
    requires x != 0.0 && s == x * x
    ensures s != 0.0
  {
    if x > 0.0 {
      ProductPositive(x, x, s);
    } else {
      ProductPositive(-x, -x, s);
    }
  }

  lemma SquareSign(x: real, s: real)
    requires s == x * x
    ensures s >= 0.0 && (x != 0.0 ==> s > 0.0)
  {
    SquareNonNegative(x, s);
    if x != 0.0 {
      SquareNonZero(x, s);
    }
  }

  lemma ProductPositive(a: real, b: real, p: real)
    requires a > 0.0 && b > 0.0 && p == a * b
    ensures p > 0.0
  {
  }

  lemma ProductNonNegative(a: real, b: real, p: real)
    requires a >= 0.0 && b > 0.0 && p == a * b
    ensures p >= 0.0 && (a > 0.0 ==> p > 0.0)
  {
    if a > 0.0 {
      ProductPositive(a, b, p);
    }
  }

  /** The radiative numerator 4 SB T^4 is positive for a positive constant
      and a non-zero temperature. */
  lemma NumeratorPositive(sb: real, temp: real, numer: real)
    requires sb > 0.0 && temp != 0.0 && numer == 4.0 * sb * (temp * temp * temp * temp)
    ensures numer > 0.0
  {
    SquareSign(temp, temp * temp);
    ProductPositive(temp * temp, temp * temp, temp * temp * (temp * temp));
    ProductPositive(4.0 * sb, temp * temp * temp * temp, numer);
  }

  lemma DivPositive(a: real, b: real)
    requires a > 0.0 && b > 0.0
    ensures a / b > 0.0
  {
  }

  lemma DivSmaller(a: real, b: real, c: real)
    requires a >= 0.0 && 0.0 < b <= c
    ensures a / c <= a / b
  {
    assert a / c * c == a && a / b * b == a;
    assert (a / b - a / c) * (b * c) == a * c - a * b;
    assert a * c - a * b >= 0.0 by {
      assert a * (c - b) >= 0.0;
    }
    assert b * c > 0.0;
  }

  /** A positive quantity over a sum of a non-negative and a positive part
      is positive and at most its quotient by either part. */
  lemma QuotientOfSum(numer: real, thick: real, thin: real)
    requires numer > 0.0 && thick >= 0.0 && thin > 0.0
    ensures numer / (thick + thin) > 0.0
    ensures numer / (thick + thin) <= numer / thin
    ensures thick > 0.0 ==> numer / (thick + thin) <= numer / thick
  {
    DivPositive(numer, thick + thin);
    DivSmaller(numer, thin, thick + thin);
    if thick > 0.0 {
      DivSmaller(numer, thick, thick + thin);
    }
  }

  lemma OverReciprocal(numer: real, kappa: real)
    requires kappa > 0.0
    ensures numer / (1.0 / kappa) == numer * kappa
  {
  }

  /** With positive opacity and Stefan-Boltzmann constant and a non-zero
      temperature the denominator is positive, the quotient is positive,
      and it stays below both the optically thin limit (4 SB T^4 kappa)
      and, for a non-zero column, the optically thick limit
      (4 SB T^4 / (Sigma^2 kappa)). */
  lemma CoolingQuotientBounds(dens: real, temp: real, kappa: real, sb: real, auToCm: real)
    requires kappa > 0.0 && sb > 0.0 && temp != 0.0
    ensures Denominator(dens, kappa, auToCm) > 0.0
    ensures var q := 4.0 * sb * (temp * temp * temp * temp) / Denominator(dens, kappa, auToCm);
            && q > 0.0
            && q <= 4.0 * sb * (temp * temp * temp * temp) * kappa
            && (dens * auToCm != 0.0 ==>
                  q <= 4.0 * sb * (temp * temp * temp * temp) / (dens * auToCm * dens * auToCm * kappa))
  {
    NumeratorPositive(sb, temp, 4.0 * sb * (temp * temp * temp * temp));
    SquareSign(dens * auToCm, dens * auToCm * (dens * auToCm));
    ProductNonNegative(dens * auToCm * (dens * auToCm), kappa, dens * auToCm * (dens * auToCm) * kappa);
    assert 1.0 / kappa > 0.0;
    QuotientOfSum(4.0 * sb * (temp * temp * temp * temp), dens * auToCm * (dens * auToCm) * kappa, 1.0 / kappa);
    OverReciprocal(4.0 * sb * (temp * temp * temp * temp), kappa);
  }

  // ---------------------------------------------------------------------
  // Optically thick contour
  // ---------------------------------------------------------------------

  /** The optical depth the scan compares with one. */
  function Tau(dens: real, temp: real, kappa: (real, real) -> real, modifier: real, auToCm: real): real
  {
    kappa(dens, temp) * modifier * dens * auToCm
  }

  /** The depth carried from the previous density: none before the first. */
  function Previous(taus: seq<real>, d: nat): real
    requires d < |taus|
  {
    if d == 0 then 0.0 else taus[d - 1]
  }

  /** The depth passes one between density `d - 1` and density `d`. */
  predicate CrossesAt(taus: seq<real>, d: nat)
  {
    d < |taus| && Previous(taus, d) < 1.0 && taus[d] > 1.0
  }

  /** Walks the densities of one temperature and stops at the first
      crossing. */
  method ScanRow(taus: seq<real>) returns (c: Option<nat>)
    ensures c.Some? ==> CrossesAt(taus, c.value) && forall k :: 0 <= k < c.value ==> !CrossesAt(taus, k)
    ensures c.None? ==> forall k :: 0 <= k < |taus| ==> !CrossesAt(taus, k)
  {
    var cur := 0.0;
    var d := 0;
    while d < |taus|
      invariant 0 <= d <= |taus|
      invariant cur == if d == 0 then 0.0 else taus[d - 1]
      invariant forall k :: 0 <= k < d ==> !CrossesAt(taus, k)
    {
      var tau := taus[d];
      if cur < 1.0 && tau > 1.0 {
        return Some(d);
      }
      cur := tau;
      d := d + 1;
    }
    return None;
  }

  /** A row whose first density is already thick crosses there, before any
      density to average with. */
  lemma ThickFromTheStart(taus: seq<real>)
    requires |taus| >= 1 && taus[0] > 1.0
    ensures CrossesAt(taus, 0)
  {
  }

  /** Both comparisons are strict: a depth of exactly one is neither thin
      nor thick, so a row that reaches one and then rises further has no
      crossing there. */
  lemma ExactlyOneIsNotACrossing(taus: seq<real>, d: nat)
    requires d < |taus| && taus[d] == 1.0
    ensures !CrossesAt(taus, d)
    ensures d + 1 < |taus| ==> !CrossesAt(taus, d + 1)
  {
  }

  /** After a thin density, the next thick density is a crossing. */
  lemma ThinThenThick(taus: seq<real>, d: nat)
    requires 1 <= d < |taus| && taus[d - 1] < 1.0 && taus[d] > 1.0
    ensures CrossesAt(taus, d)
  {
  }

  /** One contour entry per temperature. */
  datatype ContourCell =
    | NoCrossing
    | Crossing(dens: real, temp: real)   // the midpoints with the previous density and temperature
    | OutOfRange(d: nat, t: nat)          // the crossing needs index d - 1 or t - 1 and one of them is zero

  /** The cell for temperature `t` whose row crosses at `c`. */
  function Cell(densities: seq<real>, temperatures: seq<real>, t: nat, c: Option<nat>): ContourCell
    requires t < |temperatures| && (c.Some? ==> c.value < |densities|)
  {
    match c
    case None => NoCrossing
    case Some(d) =>
      if d == 0 || t == 0 then OutOfRange(d, t)
      else Crossing(0.5 * (densities[d] + densities[d - 1]), 0.5 * (temperatures[t] + temperatures[t - 1]))
  }

  function Row(densities: seq<real>, temp: real, kappa: (real, real) -> real, modifier: real, auToCm: real): (r: seq<real>)
    ensures |r| == |densities|
  {
    seq(|densities|, d requires 0 <= d < |densities| => Tau(densities[d], temp, kappa, modifier, auToCm))
  }

  /** The cell for temperature `t` is the one of its row's first crossing:
      `NoCrossing` exactly when the row never crosses, and otherwise the
      midpoint cell (or the out-of-range marker) of the first crossing. */
  predicate CellCorrect(densities: seq<real>, temperatures: seq<real>, kappa: (real, real) -> real, modifier: real,
                        auToCm: real, t: nat, cell: ContourCell)
    requires t < |temperatures|
  {
    var taus := Row(densities, temperatures[t], kappa, modifier, auToCm);
    && (cell == NoCrossing <==> forall d :: 0 <= d < |taus| ==> !CrossesAt(taus, d))
    && (forall d :: 0 <= d < |taus| && CrossesAt(taus, d) && (forall k :: 0 <= k < d ==> !CrossesAt(taus, k))
          ==> cell == Cell(densities, temperatures, t, Some(d)))
  }

  /** The cell a scan of the row of temperature `t` yields is correct. */
  lemma ScannedCellCorrect(densities: seq<real>, temperatures: seq<real>, kappa: (real, real) -> real, modifier: real,
                           auToCm: real, t: nat, c: Option<nat>)
    requires t < |temperatures|
    requires var taus := Row(densities, temperatures[t], kappa, modifier, auToCm);
             && (c.Some? ==> CrossesAt(taus, c.value) && forall k :: 0 <= k < c.value ==> !CrossesAt(taus, k))
             && (c.None? ==> forall k :: 0 <= k < |taus| ==> !CrossesAt(taus, k))
    ensures c.Some? ==> c.value < |densities| && CellCorrect(densities, temperatures, kappa, modifier, auToCm, t, Cell(densities, temperatures, t, c))
    ensures c.None? ==> CellCorrect(densities, temperatures, kappa, modifier, auToCm, t, Cell(densities, temperatures, t, c))
  {
  }

  /** The contour for one opacity modifier: at most one entry per
      temperature, at the first density where the depth rises past one. */
  method Contour(densities: seq<real>, temperatures: seq<real>, kappa: (real, real) -> real, modifier: real,
                 auToCm: real) returns (cells: seq<ContourCell>)
    ensures |cells| == |temperatures|
    ensures forall t :: 0 <= t < |cells| ==> CellCorrect(densities, temperatures, kappa, modifier, auToCm, t, cells[t])
  {
    cells := [];
    var t := 0;
    while t < |temperatures|
      invariant 0 <= t <= |temperatures| && |cells| == t
      invariant forall u :: 0 <= u < t ==> CellCorrect(densities, temperatures, kappa, modifier, auToCm, u, cells[u])
    {
      var taus := Row(densities, temperatures[t], kappa, modifier, auToCm);
      var c := ScanRow(taus);
      ScannedCellCorrect(densities, temperatures, kappa, modifier, auToCm, t, c);
      cells := cells + [Cell(densities, temperatures, t, c)];
      t := t + 1;
    }
  }
}
