/** Floating point numbers as reals: rounding to the nearest number with 53 or 24 binary digits,
    ties to even (IEEE 754). The exponent is not bounded. On top of it, what graph/networkxml.go
    makes of the weight of an edge when it saves it and loads it again. */
module Floats {

  /** The power of two that x lies at or above, and below twice of. */
  function Binade(x: real): (p: real)
    requires x > 0.0
    ensures 0.0 < p <= x < 2.0 * p
    ensures (x >= 1.0 ==> p >= 1.0) && (x < 2.0 ==> p <= 1.0) && (x < 1.0 ==> p <= 0.5)
    decreases if x >= 1.0 then x.Floor else (1.0 / x).Floor + 2
  {
    if x >= 2.0 then 2.0 * Binade(x / 2.0)
    else if x < 1.0 then
      HalfTheInverse(x);
      Binade(2.0 * x) / 2.0
    else 1.0
  }

  lemma HalfTheInverse(x: real)
    requires 0.0 < x < 1.0
    ensures 1.0 / (2.0 * x) == (1.0 / x) / 2.0 && 1.0 / x > 1.0
  {
    var y := 1.0 / x;
    assert y * x == 1.0;
    assert (y / 2.0) * (2.0 * x) == 1.0;
  }

  /** The integer nearest to q, an even one when two are. */
  function RoundEven(q: real): (m: int)
    ensures q - 0.5 <= m as real <= q + 0.5
  {
    var n := q.Floor;
    if q - n as real < 0.5 || (q - n as real == 0.5 && n % 2 == 0) then n else n + 1
  }

  /** Half way between two integers it is the even one. */
  lemma TiesGoToEven(n: int)
    ensures RoundEven(n as real + 0.5) == if n % 2 == 0 then n else n + 1
  {
  }

  function Times(m: int, unit: real): real { m as real * unit }

  function Over(a: real, b: real): real
    requires b > 0.0
  {
    a / b
  }

  /** The multiple of unit nearest to x. */
  function Nearest(x: real, unit: real): real
    requires unit > 0.0
  {
    Times(RoundEven(Over(x, unit)), unit)
  }

  const UNIT64 := 4503599627370496.0  // 2 to the 52
  const UNIT32 := 8388608.0           // 2 to the 23

  // What the last digit of x counts, when it has so many units below its leading one.
  function Unit(x: real, units: real): (u: real)
    requires x > 0.0 && units > 0.0
    ensures u > 0.0
  {
    Positive(Binade(x), units);
    Over(Binade(x), units)
  }

  lemma Positive(a: real, b: real)
    requires a > 0.0 && b > 0.0
    ensures Over(a, b) > 0.0
  {
  }

  function Rounded(x: real, units: real): real
    requires units > 0.0
  {
    if x == 0.0 then 0.0
    else if x < 0.0 then -Nearest(-x, Unit(-x, units))
    else Nearest(x, Unit(x, units))
  }

  function F64(x: real): real { Rounded(x, UNIT64) }

  function F32(x: real): real { Rounded(x, UNIT32) }

  // ---------------------------------------------------------------- rounding

  lemma Ordered(a: real, b: real, unit: real)
    requires unit > 0.0
    ensures a <= b <==> a * unit <= b * unit
  {
    if a < b {
      assert (b - a) * unit > 0.0;
    } else if b < a {
      assert (a - b) * unit > 0.0;
    }
  }

  lemma TimesOrdered(m: int, n: int, unit: real)
    requires unit > 0.0
    ensures m <= n <==> Times(m, unit) <= Times(n, unit)
  {
    Ordered(m as real, n as real, unit);
  }

  lemma OverIs(x: real, unit: real, q: real)
    requires unit > 0.0
    ensures q == Over(x, unit) <==> q * unit == x
  {
    if q * unit == x {
      assert (q * unit) / unit == q;
    }
  }

  // How x compares with n units.
  lemma InUnits(x: real, unit: real, n: int)
    requires unit > 0.0
    ensures Times(n, unit) <= x <==> n as real <= Over(x, unit)
    ensures x <= Times(n, unit) <==> Over(x, unit) <= n as real
  {
    var q := Over(x, unit);
    OverIs(x, unit, q);
    hide Over;
    Ordered(n as real, q, unit);
    Ordered(q, n as real, unit);
  }

  lemma HowFarOff(x: real, unit: real, n: int)
    requires unit > 0.0 && -0.5 <= n as real - Over(x, unit) <= 0.5
    ensures -0.5 * unit <= Times(n, unit) - x <= 0.5 * unit
  {
    var q := Over(x, unit);
    OverIs(x, unit, q);
    Distributed(q, n as real, unit);
    assert (n as real - q) * unit == Times(n, unit) - x;
    hide Over, Times;
    HalfAtMost(n as real - q, unit);
  }

  lemma HalfAtMost(d: real, unit: real)
    requires -0.5 <= d <= 0.5 && unit > 0.0
    ensures -0.5 * unit <= d * unit <= 0.5 * unit
  {
  }

  lemma Distributed(a: real, b: real, unit: real)
    ensures (b - a) * unit == b * unit - a * unit
  {
  }

  lemma NearestIsNear(x: real, unit: real)
    requires unit > 0.0
    ensures -0.5 * unit <= Nearest(x, unit) - x <= 0.5 * unit
  {
    hide RoundEven, Over, Times;
    HowFarOff(x, unit, RoundEven(Over(x, unit)));
  }

  lemma MultipleStays(m: int, unit: real)
    requires unit > 0.0
    ensures Nearest(Times(m, unit), unit) == Times(m, unit)
  {
    OverIs(Times(m, unit), unit, m as real);
    hide Over, Times;
  }

  lemma {:induction false} BinadeUnique(z: real, y: real)
    requires z > 0.0 && Binade(z) <= y < 2.0 * Binade(z)
    ensures Binade(y) == Binade(z)
    decreases if z >= 1.0 then z.Floor else (1.0 / z).Floor + 2
  {
    if z >= 2.0 {
      BinadeUnique(z / 2.0, y / 2.0);
    } else if z < 1.0 {
      HalfTheInverse(z);
      BinadeUnique(2.0 * z, 2.0 * y);
    }
  }

  lemma {:induction false} BinadeDoubles(x: real)
    requires x > 0.0
    ensures Binade(2.0 * x) == 2.0 * Binade(x)
    decreases if x >= 1.0 then x.Floor else (1.0 / x).Floor + 2
  {
    if x >= 1.0 {
      assert (2.0 * x) / 2.0 == x;
    } else {
      assert Binade(x) == Binade(2.0 * x) / 2.0;
    }
  }

  // 100 lies between 64 and 128.
  lemma HundredTimesBinade(x: real)
    requires x > 0.0
    ensures Binade(100.0 * x) == 64.0 * Binade(x) || Binade(100.0 * x) == 128.0 * Binade(x)
  {
    hide Binade;
    var p := Binade(x);
    BinadeDoubles(x);
    BinadeDoubles(2.0 * x);
    BinadeDoubles(4.0 * x);
    BinadeDoubles(8.0 * x);
    BinadeDoubles(16.0 * x);
    BinadeDoubles(32.0 * x);
    BinadeDoubles(64.0 * x);
    assert Binade(64.0 * x) == 64.0 * p && Binade(128.0 * x) == 128.0 * p;
    if 100.0 * x < 128.0 * p {
      BinadeUnique(64.0 * x, 100.0 * x);
    } else {
      BinadeUnique(128.0 * x, 100.0 * x);
    }
  }

  /** A number of 24 digits times 100 needs no rounding in 53 digits. */
  lemma HundredTimesIsExact(m: int, x: real)
    requires x > 0.0 && x == Times(m, Unit(x, UNIT32))
    ensures F64(100.0 * x) == 100.0 * x
  {
    hide Binade, Nearest, Times;
    var p, q := Binade(x), Binade(100.0 * x);
    HundredTimesBinade(x);
    var factor := if q == 64.0 * p then 838860800 else 419430400;
    var unit := q / UNIT64;
    assert 100.0 * (p / UNIT32) == factor as real * unit;
    Regroup(m, factor, p / UNIT32, unit);
    MultipleStays(m * factor, unit);
  }

  lemma Regroup(m: int, factor: int, a: real, unit: real)
    requires 100.0 * a == factor as real * unit
    ensures 100.0 * Times(m, a) == Times(m * factor, unit)
  {
    assert 100.0 * (m as real * a) == m as real * (100.0 * a);
    assert (m * factor) as real == m as real * factor as real;
    assert m as real * (factor as real * unit) == (m as real * factor as real) * unit;
  }

  // A number between n and 2 * n units rounds to one.
  lemma NearestStaysInside(x: real, unit: real, n: int)
    requires unit > 0.0 && Times(n, unit) <= x <= Times(2 * n, unit)
    ensures Times(n, unit) <= Nearest(x, unit) <= Times(2 * n, unit)
  {
    hide Over, Times;
    var m := RoundEven(Over(x, unit));
    InUnits(x, unit, n);
    InUnits(x, unit, 2 * n);
    hide RoundEven;
    TimesOrdered(n, m, unit);
    TimesOrdered(m, 2 * n, unit);
  }

  /** A rounded number has no more digits than it was rounded to, and is as near as can be. */
  lemma RoundedFits(x: real, n: int) returns (m: int)
    requires x > 0.0 && n > 0
    ensures var r := Rounded(x, n as real);
            && r > 0.0 && r == Times(m, Unit(r, n as real))
            && -0.5 * Unit(x, n as real) <= r - x <= 0.5 * Unit(x, n as real)
  {
    hide Binade, RoundEven, Times, Over;
    var p := Binade(x);
    var unit := Unit(x, n as real);
    NearestIsNear(x, unit);
    AllUnits(p, n);
    NearestStaysInside(x, unit, n);
    m := RoundEven(Over(x, unit));
    var r := Nearest(x, unit);
    assert p <= r <= 2.0 * p;
    BinadeUnique(x, p);
    if r < 2.0 * p {
      BinadeUnique(x, r);
    } else {
      BinadeDoubles(p);
      m := n;
      AllUnits(2.0 * p, n);
    }
  }

  lemma AllUnits(p: real, n: int)
    requires n > 0
    ensures var u := Over(p, n as real); Times(n, u) == p && Times(2 * n, u) == 2.0 * p
  {
    OverIs(p, n as real, p / n as real);
    var u := p / n as real;
    assert (2 * n) as real * u == 2.0 * (n as real * u);
  }

  // ---------------------------------------------------------------- saving and loading a weight

  /** What is written for a weight: math.Floor(w * 100) / 100. */
  function Stored(w: real): real { F64(F64(100.0 * w).Floor as real / 100.0) }

  /** What the weight is after saving and loading: it is read as a number of 32 bits. */
  function Reloaded(w: real): real { F32(Stored(w)) }

  function ReloadedTimes(w: real, n: nat): real
    decreases n
  {
    if n == 0 then w else ReloadedTimes(Reloaded(w), n - 1)
  }

  /** k hundredths, as a discovered cost is and as one is loaded. */
  function Hundredths(k: nat): real { F64(k as real / 100.0) }

  function LoadedHundredths(k: nat): real { F32(Hundredths(k)) }

  /** What is written are the most hundredths that the product with 100 reaches. */
  lemma StoredIs(w: real) returns (k: nat)
    requires w >= 0.0
    ensures Stored(w) == Hundredths(k) && k as real <= F64(100.0 * w) < (k + 1) as real
  {
    if w > 0.0 {
      OffByAtMost(100.0 * w, 4503599627370496);
    }
    hide Rounded;
    k := F64(100.0 * w).Floor;
  }

  /** Rounding to 32 bits does not take k hundredths below their value. */
  predicate Survives(k: nat) { k as real <= 100.0 * LoadedHundredths(k) }

  lemma OffByAtMost(x: real, n: int)
    requires x > 0.0 && n > 0
    ensures var r, part := Rounded(x, n as real), x / (2.0 * n as real); r > 0.0 && x - part <= r <= x + part
  {
    var _ := RoundedFits(x, n);
    var p := Binade(x);
    var h := 2.0 * n as real;
    hide Binade, Rounded;
    assert 0.5 * Unit(x, n as real) == p / h by { HalfAUnit(p, n as real); }
    assert p / h <= x / h by { SmallerPart(p, x, h); }
  }

  lemma HalfAUnit(p: real, units: real)
    requires units > 0.0
    ensures 0.5 * Over(p, units) == p / (2.0 * units)
  {
    assert (0.5 * (p / units)) * (2.0 * units) == p;
  }

  lemma SmallerPart(p: real, x: real, h: real)
    requires h > 0.0 && p <= x
    ensures p / h <= x / h
  {
  }

  lemma NearHundredths(k: nat)
    requires 0 < k <= 1_000_000
    ensures var c, l := Hundredths(k), LoadedHundredths(k);
            && c > 0.0 && l > 0.0
            && k as real - 0.01 <= 100.0 * c <= k as real + 0.01
            && k as real - 0.2 <= 100.0 * l <= k as real + 0.2
  {
    hide Rounded;
    OffByAtMost(k as real / 100.0, 4503599627370496);
    OffByAtMost(Hundredths(k), 8388608);
  }

  /** A weight of k hundredths that was loaded comes back from saving and loading as it is
      exactly when it survives, and else one hundredth smaller. */
  lemma LoadedAgain(k: nat)
    requires 0 < k <= 1_000_000
    ensures Reloaded(LoadedHundredths(k)) == LoadedHundredths(if Survives(k) then k else k - 1)
    ensures LoadedHundredths(k - 1) != LoadedHundredths(k)
  {
    NearHundredths(k);
    var c, l := Hundredths(k), LoadedHundredths(k);
    var m := RoundedFits(c, 8388608);
    HundredTimesIsExact(m, l);
    if k > 1 { NearHundredths(k - 1); }
    hide Rounded;
    assert F64(100.0 * l).Floor == if Survives(k) then k else k - 1;
  }

  /** A cost of k hundredths that was just discovered, saved and loaded: it loses one of them
      exactly when the product with 100 rounds to less than k. */
  lemma LoadedFirst(k: nat)
    requires 0 < k <= 1_000_000
    ensures Reloaded(Hundredths(k))
      == LoadedHundredths(if k as real <= F64(100.0 * Hundredths(k)) then k else k - 1)
  {
    NearHundredths(k);
    ProductIsNear(Hundredths(k), k);
    hide F64, F32;
  }

  lemma ProductIsNear(c: real, k: nat)
    requires 0 < k <= 1_000_000 && c > 0.0 && k as real - 0.01 <= 100.0 * c <= k as real + 0.01
    ensures var p := F64(100.0 * c); p.Floor == if k as real <= p then k else k - 1
  {
    OffByAtMost(100.0 * c, 4503599627370496);
    hide Rounded;
    var x := 100.0 * c;
    var part := x / 9007199254740992.0;
    assert part <= 0.1;
  }

  // The hundredths that are left after n times.
  function Left(k: nat, n: nat): nat {
    if n == 0 || Survives(k) || k == 0 then k else Left(k - 1, n - 1)
  }

  /** However often a network is saved and loaded, a weight goes down a hundredth each time
      until it is one that survives. */
  lemma {:induction false} WeightGoesDown(k: nat, n: nat)
    requires k <= 1_000_000
    ensures ReloadedTimes(LoadedHundredths(k), n) == LoadedHundredths(Left(k, n))
    decreases n
  {
    hide Survives, Reloaded, LoadedHundredths;
    if n > 0 {
      if k == 0 {
        ZeroStays();
      } else {
        LoadedAgain(k);
      }
      WeightGoesDown(if Survives(k) || k == 0 then k else k - 1, n - 1);
    }
  }

  lemma ZeroStays()
    ensures Reloaded(LoadedHundredths(0)) == LoadedHundredths(0) && Survives(0)
  {
    assert F64(0.0) == 0.0 && F32(0.0) == 0.0;
    assert (0.0).Floor == 0;
  }

  /** So a loaded weight keeps its value for ever exactly when it survives. */
  lemma WeightIsKept(k: nat)
    requires k <= 1_000_000
    ensures (forall n: nat :: ReloadedTimes(LoadedHundredths(k), n) == LoadedHundredths(k)) <==> Survives(k)
  {
    hide Survives, Reloaded, LoadedHundredths;
    if Survives(k) {
      forall n: nat ensures ReloadedTimes(LoadedHundredths(k), n) == LoadedHundredths(k) {
        WeightGoesDown(k, n);
      }
    } else {
      if k == 0 { ZeroStays(); }
      LoadedAgain(k);
      assert ReloadedTimes(LoadedHundredths(k), 1) == ReloadedTimes(Reloaded(LoadedHundredths(k)), 0);
    }
  }

  // ---------------------------------------------------------------- some weights

  lemma StrictlyOrdered(a: real, b: real, unit: real)
    requires unit > 0.0 && a * unit < b * unit
    ensures a < b
  {
    Ordered(b, a, unit);
  }

  lemma HalfOff(m: int, unit: real)
    ensures (m as real - 0.5) * unit == Times(m, unit) - 0.5 * unit
    ensures (m as real + 0.5) * unit == Times(m, unit) + 0.5 * unit
  {
  }

  lemma NearestInteger(q: real, m: int)
    requires m as real - 0.5 < q < m as real + 0.5
    ensures RoundEven(q) == m
  {
  }

  lemma RoundsTo(x: real, n: int, unit: real, m: int)
    requires x > 0.0 && n > 0 && unit == Unit(x, n as real)
    requires Times(m, unit) - 0.5 * unit < x < Times(m, unit) + 0.5 * unit
    ensures Rounded(x, n as real) == Times(m, unit)
  {
    hide Binade, Times, RoundEven;
    var q := Over(x, unit);
    OverIs(x, unit, q);
    HalfOff(m, unit);
    hide Over;
    var low, high := m as real - 0.5, m as real + 0.5;
    StrictlyOrdered(low, q, unit);
    StrictlyOrdered(q, high, unit);
    NearestInteger(q, m);
  }

  lemma SmallBinades()
    ensures Binade(0.29) == 0.25 && Binade(28.9) == 16.0
    ensures Binade(0.04) == 0.03125 && Binade(0.03) == 0.015625 && Binade(0.02) == 0.015625 && Binade(0.01) == 0.0078125
  {
    assert Binade(1.16) == 1.0 && Binade(0.58) == 0.5;
    assert Binade(28.9 / 8.0) == 2.0 && Binade(28.9 / 4.0) == 4.0 && Binade(28.9 / 2.0) == 8.0;
    assert Binade(1.28) == 1.0 && Binade(0.64) == 0.5 && Binade(0.32) == 0.25 && Binade(0.16) == 0.125;
    assert Binade(0.08) == 0.0625;
    assert Binade(1.92) == 1.0 && Binade(0.96) == 0.5 && Binade(0.48) == 0.25 && Binade(0.24) == 0.125;
    assert Binade(0.12) == 0.0625 && Binade(0.06) == 0.03125;
  }

  // k hundredths in 53 and in 24 digits, with the leading digit at p.
  lemma LoadedIs(k: nat, p: real, m: int, n: int)
    requires k > 0 && Binade(k as real / 100.0) == p
    requires var x, u := k as real / 100.0, p / UNIT64; Times(m, u) - 0.5 * u < x < Times(m, u) + 0.5 * u
    requires var c, u := Times(m, p / UNIT64), p / UNIT32; Times(n, u) - 0.5 * u < c < Times(n, u) + 0.5 * u
    requires p <= Times(m, p / UNIT64) < 2.0 * p
    ensures Hundredths(k) == Times(m, p / UNIT64) && LoadedHundredths(k) == Times(n, p / UNIT32)
  {
    hide Binade, Times, Rounded;
    var x, c := k as real / 100.0, Times(m, p / UNIT64);
    RoundsTo(x, 4503599627370496, p / UNIT64, m);
    BinadeUnique(x, c);
    RoundsTo(c, 8388608, p / UNIT32, n);
  }

  /** Saved and loaded four times more, a cost of 0.04 is 0. */
  lemma FourHundredthsVanish()
    ensures !Survives(4) && !Survives(3) && !Survives(2) && !Survives(1)
    ensures ReloadedTimes(LoadedHundredths(4), 4) == 0.0
  {
    SmallBinades();
    hide Binade, Rounded;
    LoadedIs(4, 0.03125, 5764607523034235, 10737418);
    LoadedIs(3, 0.015625, 8646911284551352, 16106127);
    LoadedIs(2, 0.015625, 5764607523034235, 10737418);
    LoadedIs(1, 0.0078125, 5764607523034235, 10737418);
    WeightGoesDown(4, 4);
    assert Left(1, 1) == 0 && Left(2, 2) == 0 && Left(3, 3) == 0;
    ZeroIsZero();
  }

  lemma ZeroIsZero()
    ensures LoadedHundredths(0) == 0.0
  {
  }

  /** A cost of 0.29 is one of those that lose a hundredth when they are saved for the first
      time. */
  lemma TwentyNineIsTwentyEight()
    ensures Reloaded(Hundredths(29)) == LoadedHundredths(28)
  {
    SmallBinades();
    hide Binade, Rounded;
    LoadedIs(29, 0.25, 5224175567749775, 9730785);
    var x := 100.0 * Hundredths(29);
    BinadeUnique(28.9, x);
    RoundsTo(x, 4503599627370496, 16.0 / UNIT64, 8162774324609023);
    LoadedFirst(29);
  }
}
