/**
  The 16-bit linear congruential generator behind the random LED effects, and the two
  retry loops that draw from it until they like what they get. Both loops terminate
  only because the generator visits every 16-bit seed.
*/
module Random {
  import opened Words

  function Next(seed: uint16): uint16 {
    (seed * 2053 + 13849) % 0x1_0000
  }

  /** What random8 returns for a seed: its two bytes folded together. */
  function Fold(seed: uint16): uint8 {
    (seed + seed / 256) % 256
  }

  /** What random8(lim) makes of a random byte. */
  function Scale(r: uint8, lim: uint8): int {
    r * lim / 256
  }

  lemma ScaleBelow(r: uint8, lim: uint8)
    ensures 0 <= Scale(r, lim) <= lim
    ensures lim > 0 ==> Scale(r, lim) < lim
  {
    ProductMonotone(r, 255, lim);
    SameSignProduct(r, lim);
    FractionBelow(r * lim, lim);
  }

  lemma FractionBelow(x: nat, lim: nat)
    requires x <= 255 * lim
    ensures 0 <= x / 256 <= lim && (lim > 0 ==> x / 256 < lim)
  {
  }

  /** The generator can be run backwards: 33997 is the inverse of 2053 modulo 2^16. */
  lemma StepBack(seed: uint16)
    ensures Next((33997 * seed + 51707) % 0x1_0000) == seed
    ensures (33997 * Next(seed) + 51707) % 0x1_0000 == seed
  {
    UnwindStep(33997, 51707, 2053, 13849, seed, 1065 * seed + 1620);
    UnwindStep(2053, 13849, 33997, 51707, seed, 1065 * seed + 7185);
  }

  lemma UnwindStep(a: nat, b: nat, c: nat, d: nat, seed: uint16, q: nat)
    requires c * (a * seed + b) + d == 0x1_0000 * q + seed
    ensures (c * ((a * seed + b) % 0x1_0000) + d) % 0x1_0000 == seed
  {
    var x := a * seed + b;
    var k, r := x / 0x1_0000, x % 0x1_0000;
    assert c * x == c * (0x1_0000 * k) + c * r by { assert x == 0x1_0000 * k + r; }
    assert c * (0x1_0000 * k) == 0x1_0000 * (c * k);
    RemainderIsUnique(c * r + d, 0x1_0000, q - c * k, seed);
  }

  /** Every byte comes from exactly one low byte for each high byte, so none is preferred. */
  lemma FoldIsFair(high: uint8, low: uint8, r: uint8)
    ensures Fold(256 * high + low) == r <==> low == (r - high) % 256
  {
    RemainderIsUnique(256 * high + low, 256, high, low);
    FoldedBytes(high, low, if low + high < 256 then 0 else 1);
    if r >= high {
      RemainderIsUnique(r - high, 256, 0, r - high);
    } else {
      RemainderIsUnique(r - high, 256, -1, r - high + 256);
    }
  }

  lemma FoldedBytes(high: uint8, low: uint8, carry: nat)
    requires 256 * carry <= low + high < 256 * carry + 256
    requires (256 * high + low) / 256 == high
    ensures Fold(256 * high + low) == low + high - 256 * carry
  {
    RemainderIsUnique(256 * high + low + high, 256, high + carry, low + high - 256 * carry);
  }

  /** A byte below a limit is the byte's share of it, rounded down. */
  lemma ScaleIsShare(r: uint8, lim: uint8, k: int)
    ensures Scale(r, lim) == k <==> 256 * k <= r * lim < 256 * (k + 1)
  {
  }

  ghost function SeedAfter(n: nat, seed: uint16): uint16 {
    if n == 0 then seed else Next(SeedAfter(n - 1, seed))
  }

  // ---- The generator without its modulus ----

  ghost function Unreduced(n: nat, seed: int): int {
    if n == 0 then seed else 2053 * Unreduced(n - 1, seed) + 13849
  }

  /** 1 + 2053 + ... + 2053^(n-1) */
  ghost function Geometric(n: nat): nat {
    if n == 0 then 0 else 2053 * Geometric(n - 1) + 1
  }

  lemma ReduceEarly(u: int)
    ensures (2053 * u + 13849) % 0x1_0000 == (2053 * (u % 0x1_0000) + 13849) % 0x1_0000
  {
    WordShift(2053 * (u % 0x1_0000) + 13849, 2053 * (u / 0x1_0000));
  }

  lemma {:induction false} SeedIsReduced(n: nat, seed: uint16)
    ensures SeedAfter(n, seed) == Unreduced(n, seed) % 0x1_0000
  {
    if n > 0 {
      SeedIsReduced(n - 1, seed);
      ReduceEarly(Unreduced(n - 1, seed));
    }
  }

  lemma DisplacementStep(u: int, seed: int, g: int, w: int)
    requires u - seed == g * w && w == 2052 * seed + 13849
    ensures 2053 * u + 13849 - seed == (2053 * g + 1) * w
  {
    assert (2053 * g + 1) * w == 2053 * (g * w) + w;
  }

  /** n steps move a seed by a geometric sum times an odd number. */
  lemma {:induction false} Displacement(n: nat, seed: int)
    ensures Unreduced(n, seed) - seed == Geometric(n) * (2052 * seed + 13849)
  {
    if n > 0 {
      Displacement(n - 1, seed);
      DisplacementStep(Unreduced(n - 1, seed), seed, Geometric(n - 1), 2052 * seed + 13849);
    }
  }

  lemma AddStep(a: int, b: int, c: int)
    requires c == a + b + 2052 * (a * b)
    ensures 2053 * c + 1 == (2053 * a + 1) + b + 2052 * ((2053 * a + 1) * b)
  {
    assert (2053 * a + 1) * b == 2053 * (a * b) + b;
  }

  lemma {:induction false} GeometricAdd(m: nat, n: nat)
    ensures Geometric(m + n) == Geometric(m) + Geometric(n) + 2052 * (Geometric(m) * Geometric(n))
  {
    if m > 0 {
      GeometricAdd(m - 1, n);
      AddStep(Geometric(m - 1), Geometric(n), Geometric(m - 1 + n));
    }
  }

  lemma GeometricDouble(m: nat)
    ensures Geometric(m + m) == 2 * (Geometric(m) * (1026 * Geometric(m) + 1))
  {
    GeometricAdd(m, m);
    FactoredSum(Geometric(m));
  }

  lemma FactoredSum(g: int)
    ensures 2 * (g * (1026 * g + 1)) == g + g + 2052 * (g * g)
  {
  }

  lemma {:induction false} GeometricParity(n: nat)
    ensures Geometric(n) % 2 == n % 2
  {
    if n > 0 {
      GeometricParity(n - 1);
      ParityStep(Geometric(n - 1), n - 1);
    }
  }

  lemma ParityStep(g: nat, n: nat)
    requires g % 2 == n % 2
    ensures (2053 * g + 1) % 2 == (n + 1) % 2
  {
    var half, bit := g / 2, g % 2;
    assert 2053 * g + 1 == 2 * (2053 * half + 1026 * bit) + bit + 1;
  }

  // ---- Divisibility by powers of two ----

  /** 2^k divides x */
  ghost predicate Halvable(k: nat, x: int) {
    k == 0 || (x % 2 == 0 && Halvable(k - 1, x / 2))
  }

  lemma {:induction false} OddFactor(k: nat, x: int, odd: int)
    requires odd % 2 == 1
    ensures Halvable(k, x * odd) <==> Halvable(k, x)
  {
    if k > 0 {
      OddProduct(x, odd);
      if x % 2 == 0 {
        HalfProduct(x, odd);
        OddFactor(k - 1, x / 2, odd);
      }
    }
  }

  lemma OddProduct(x: int, odd: int)
    requires odd % 2 == 1
    ensures x * odd % 2 == x % 2
  {
    OddExpansion(x, odd, odd / 2);
    EvenPlus(x * (odd / 2), x);
  }

  lemma OddExpansion(x: int, odd: int, h: int)
    requires odd == 2 * h + 1
    ensures x * odd == 2 * (x * h) + x
  {
  }

  lemma EvenPlus(k: int, x: int)
    ensures (2 * k + x) % 2 == x % 2
  {
  }

  lemma HalfProduct(x: int, odd: int)
    requires x % 2 == 0
    ensures x * odd / 2 == x / 2 * odd
  {
    var y := x / 2;
    assert x == 2 * y;
    assert 2 * y * odd == 2 * (y * odd);
  }

  /** The geometric sum is divisible by exactly the powers of two that divide its length. */
  lemma {:induction false} GeometricHalvable(k: nat, n: nat)
    ensures Halvable(k, Geometric(n)) <==> Halvable(k, n)
  {
    if k > 0 {
      GeometricParity(n);
      if n % 2 == 0 {
        var m := n / 2;
        var g := Geometric(m);
        GeometricDouble(m);
        assert m + m == n;
        OddAfterEven(513 * g);
        HalvableDouble(k, Geometric(n), g, 1026 * g + 1);
        GeometricHalvable(k - 1, m);
      }
    }
  }

  lemma OddAfterEven(h: int)
    ensures (2 * h + 1) % 2 == 1
  {
  }

  lemma HalvableDouble(k: nat, x: int, g: int, odd: int)
    requires k > 0 && odd % 2 == 1 && x == 2 * (g * odd)
    ensures Halvable(k, x) <==> Halvable(k - 1, g)
  {
    OddFactor(k - 1, g, odd);
  }

  lemma {:induction false} HalvableIsDivisible(k: nat, x: int)
    ensures Halvable(k, x) <==> x % PowerOfTwo(k) == 0
  {
    if k > 0 {
      HalvableIsDivisible(k - 1, x / 2);
      DivisibleByDouble(x, PowerOfTwo(k - 1));
    }
  }

  lemma DivisibleByDouble(x: int, p: nat)
    requires p > 0
    ensures x % (2 * p) == 0 <==> x % 2 == 0 && (x / 2) % p == 0
  {
    var half, bit := x / 2, x % 2;
    assert x == 2 * half + bit;
    var q, r := half / p, half % p;
    assert half == p * q + r;
    DoubledRemainder(x, p, q, r, bit);
  }

  lemma DoubledRemainder(x: int, p: nat, q: int, r: nat, bit: nat)
    requires r < p && bit < 2 && x == 2 * (p * q + r) + bit
    ensures x % (2 * p) == 2 * r + bit
  {
    assert (2 * p) * q == 2 * (p * q);
    RemainderIsUnique(x, 2 * p, q, 2 * r + bit);
  }

  // ---- Full period ----

  lemma SameResidue(x: int, s: uint16)
    ensures x % 0x1_0000 == s <==> (x - s) % 0x1_0000 == 0
  {
    WordShift(x % 0x1_0000 - s, x / 0x1_0000);
  }

  lemma IncrementIsOdd(seed: int)
    ensures (2052 * seed + 13849) % 2 == 1
  {
    OddAfterEven(1026 * seed + 6924);
  }

  lemma HalvableProduct(k: nat, x: int, g: int, odd: int, n: int)
    requires x == g * odd && odd % 2 == 1
    requires Halvable(k, g) <==> Halvable(k, n)
    ensures Halvable(k, x) <==> Halvable(k, n)
  {
    OddFactor(k, g, odd);
  }

  lemma DisplacementHalvable(k: nat, n: nat, seed: int)
    ensures Halvable(k, Unreduced(n, seed) - seed) <==> Halvable(k, n)
  {
    Displacement(n, seed);
    IncrementIsOdd(seed);
    GeometricHalvable(k, n);
    HalvableProduct(k, Unreduced(n, seed) - seed, Geometric(n), 2052 * seed + 13849, n);
  }

  /** The displacement after n steps is divisible by the same powers of two as n. */
  lemma DisplacementDivisible(k: nat, n: nat, seed: int)
    ensures (Unreduced(n, seed) - seed) % PowerOfTwo(k) == 0 <==> n % PowerOfTwo(k) == 0
  {
    DisplacementHalvable(k, n, seed);
    HalvableIsDivisible(k, Unreduced(n, seed) - seed);
    HalvableIsDivisible(k, n);
  }

  /** A seed comes back after n steps exactly when n is a multiple of 2^16. */
  lemma FullPeriod(n: nat, seed: uint16)
    ensures SeedAfter(n, seed) == seed <==> n % 0x1_0000 == 0
  {
    SeedIsReduced(n, seed);
    SameResidue(Unreduced(n, seed), seed);
    DisplacementDivisible(16, n, seed);
    SixteenthPower();
  }

  lemma {:induction false} SeedAfterAdd(m: nat, n: nat, seed: uint16)
    ensures SeedAfter(m + n, seed) == SeedAfter(m, SeedAfter(n, seed))
  {
    if m > 0 {
      SeedAfterAdd(m - 1, n, seed);
    }
  }

  /** The first m seeds of a run. */
  ghost function Orbit(m: nat, seed: uint16): set<int> {
    if m == 0 then {} else Orbit(m - 1, seed) + {SeedAfter(m - 1, seed)}
  }

  lemma {:induction false} OrbitMember(m: nat, seed: uint16, v: int) returns (i: nat)
    requires v in Orbit(m, seed)
    ensures i < m && SeedAfter(i, seed) == v
  {
    if v == SeedAfter(m - 1, seed) {
      i := m - 1;
    } else {
      i := OrbitMember(m - 1, seed, v);
    }
  }

  lemma NoReturn(i: nat, m: nat, seed: uint16)
    requires i < m < 0x1_0000
    ensures SeedAfter(i, seed) != SeedAfter(m, seed)
  {
    var d := m - i;
    assert d % 0x1_0000 != 0;
    SeedAfterAdd(d, i, seed);
    FullPeriod(d, SeedAfter(i, seed));
  }

  lemma {:induction false} OrbitSize(m: nat, seed: uint16)
    requires m <= 0x1_0000
    ensures |Orbit(m, seed)| == m
  {
    if m > 0 {
      OrbitSize(m - 1, seed);
      if SeedAfter(m - 1, seed) in Orbit(m - 1, seed) {
        var i := OrbitMember(m - 1, seed, SeedAfter(m - 1, seed));
        NoReturn(i, m - 1, seed);
      }
    }
  }

  ghost function Below(n: nat): (range: set<int>)
    ensures |range| == n
    ensures forall v :: v in range <==> 0 <= v < n
  {
    if n == 0 then {} else Below(n - 1) + {n - 1}
  }

  lemma SubsetOfSameSize<T>(a: set<T>, b: set<T>)
    requires a <= b && |a| == |b|
    ensures a == b
  {
    assert |b - a| == 0;
  }

  /** Every seed is reached from every seed, in fewer than 2^16 steps. */
  lemma ReachesEverySeed(from: uint16, to: uint16)
    ensures exists n :: 0 <= n < 0x1_0000 && SeedAfter(n, from) == to
  {
    var n := 0x1_0000;
    OrbitSize(n, from);
    forall v | v in Orbit(n, from) ensures v in Below(n) {
      var i := OrbitMember(n, from, v);
    }
    SubsetOfSameSize(Orbit(n, from), Below(n));
    var i := OrbitMember(n, from, to);
  }

  // ---- The retry loops ----

  function WheelDistance(pos: uint8, r: uint8): int {
    Min(Abs(pos - r), 255 - Abs(pos - r))
  }

  /** At least 42 away on the wheel, both ways round. */
  predicate FarFrom(pos: uint8, r: uint8) {
    42 <= Abs(pos - r) <= 213
  }

  /** What a retry loop is drawing for. */
  datatype Goal = WheelIndex(pos: uint8) | PaletteColor(first: uint32, second: uint32, third: uint32) {
    function Color(i: int): uint32
      requires PaletteColor? && 0 <= i < 3
    {
      if i == 0 then first else if i == 1 then second else third
    }

    predicate Accepts(seed: uint16) {
      match this
      case WheelIndex(pos) => FarFrom(pos, Fold(seed))
      case PaletteColor(_, _, _) => Color(Scale(Fold(seed), 3)) != 0
    }
  }

  /** n is the first draw, counting from 1, whose seed is accepted. */
  ghost predicate FirstAccepted(goal: Goal, seed: uint16, n: nat) {
    && n >= 1
    && goal.Accepts(SeedAfter(n, seed))
    && forall m :: 1 <= m < n ==> !goal.Accepts(SeedAfter(m, seed))
  }

  /** What the wheel draw looks for, and which bytes the palette draw turns into which colour. */
  lemma GoalsAre(pos: uint8, first: uint32, second: uint32, third: uint32, seed: uint16)
    ensures WheelIndex(pos).Accepts(seed) <==> 42 <= Abs(pos - Fold(seed)) <= 213
    ensures PaletteColor(first, second, third).Accepts(seed) <==>
              0 != if Fold(seed) <= 85 then first else if Fold(seed) <= 170 then second else third
  {
    var r := Fold(seed);
    hide Fold;
    ScaleIsShare(r, 3, 0);
    ScaleIsShare(r, 3, 1);
    ScaleIsShare(r, 3, 2);
  }

  /** A retry loop that accepts even one seed accepts one of its first 2^16 draws. */
  lemma RetrySucceeds(goal: Goal, seed: uint16, wanted: uint16) returns (n: nat)
    requires goal.Accepts(wanted)
    ensures n <= 0x1_0000 && FirstAccepted(goal, seed, n)
  {
    ReachesEverySeed(Next(seed), wanted);
    var k :| 0 <= k < 0x1_0000 && SeedAfter(k, Next(seed)) == wanted;
    SeedAfterAdd(k, 1, seed);
    assert SeedAfter(1, seed) == Next(seed) by { assert SeedAfter(0, seed) == seed; }
    n := 1;
    while !goal.Accepts(SeedAfter(n, seed))
      invariant 1 <= n <= k + 1
      invariant forall m :: 1 <= m < n ==> !goal.Accepts(SeedAfter(m, seed))
      decreases k + 1 - n
    {
      n := n + 1;
    }
  }

  /** The wheel draw accepts the index opposite to pos, so it terminates from every seed. */
  lemma WheelTerminates(pos: uint8, seed: uint16) returns (n: nat)
    ensures n <= 0x1_0000 && FirstAccepted(WheelIndex(pos), seed, n)
  {
    var opposite: uint16 := if pos < 128 then pos + 128 else pos - 128;
    hide Fold;
    ByteFoldsToItself(opposite);
    n := RetrySucceeds(WheelIndex(pos), seed, opposite);
  }

  lemma ByteFoldsToItself(seed: uint16)
    requires seed < 256
    ensures Fold(seed) == seed
  {
  }

  lemma PickTerminates(palette: Goal, seed: uint16) returns (n: nat)
    requires palette.PaletteColor?
    requires palette.first != 0 || palette.second != 0 || palette.third != 0
    ensures n <= 0x1_0000 && FirstAccepted(palette, seed, n)
  {
    var wanted := if palette.first != 0 then 0 else if palette.second != 0 then 86 else 171;
    n := RetrySucceeds(palette, seed, wanted);
  }

  /** The palette draw of the fireworks effect terminates exactly when some colour is not black. */
  lemma PickTerminatesIff(palette: Goal, seed: uint16)
    requires palette.PaletteColor?
    ensures (exists n: nat :: FirstAccepted(palette, seed, n))
        <==> (palette.first != 0 || palette.second != 0 || palette.third != 0)
  {
    if palette.first != 0 || palette.second != 0 || palette.third != 0 {
      var n := PickTerminates(palette, seed);
    }
  }

  class RandomSource {
    var seed: uint16

    constructor (start: uint16)
      ensures seed == start
    {
      seed := start;
    }

    method Random8() returns (r: uint8)
      modifies this
      ensures seed == Next(old(seed)) && r == Fold(seed)
    {
      seed := (seed * 2053 + 13849) % 0x1_0000;
      r := (seed + seed / 256) % 0x100;
    }

    method Random8Below(lim: uint8) returns (r: uint8)
      modifies this
      ensures seed == Next(old(seed)) && r == Scale(Fold(seed), lim)
      ensures lim > 0 ==> r < lim
    {
      r := Random8();
      ScaleBelow(r, lim);
      r := r * lim / 256;
    }

    /** One draw and its distance from pos. */
    method DrawWheelIndex(pos: uint8) returns (r: uint8, d: int)
      modifies this
      ensures seed == Next(old(seed)) && r == Fold(seed)
      ensures d == WheelDistance(pos, r) && (d >= 42 <==> FarFrom(pos, r))
    {
      r := Random8();
      var x := Abs(pos - r);
      var y := 255 - x;
      d := Min(x, y);
    }

    /** A wheel index at least 42 away from pos on the 255-step wheel, after at most 2^16 draws. */
    method GetRandomWheelIndex(pos: uint8) returns (r: uint8, ghost draws: nat)
      modifies this
      ensures draws <= 0x1_0000 && FirstAccepted(WheelIndex(pos), old(seed), draws)
      ensures seed == SeedAfter(draws, old(seed)) && r == Fold(seed) && 42 <= Abs(pos - r) <= 213
      ensures forall m :: 1 <= m < draws ==> !(42 <= Abs(pos - Fold(SeedAfter(m, old(seed)))) <= 213)
    {
      hide Next, Fold, FarFrom, WheelDistance;
      ghost var last := WheelTerminates(pos, seed);
      draws := 0;
      r := 0;
      var d := 0;
      while d < 42
        invariant draws <= last && seed == SeedAfter(draws, old(seed))
        invariant draws == 0 ==> d == 0
        invariant draws > 0 ==> r == Fold(seed) && (d >= 42 <==> FarFrom(pos, r))
        decreases last - draws
      {
        assert draws < last;
        r, d := DrawWheelIndex(pos);
        draws := draws + 1;
      }
      forall m | 1 <= m < draws ensures !(42 <= Abs(pos - Fold(SeedAfter(m, old(seed)))) <= 213) {
        GoalsAre(pos, 0, 0, 0, SeedAfter(m, old(seed)));
        assert !WheelIndex(pos).Accepts(SeedAfter(m, old(seed)));
      }
      GoalsAre(pos, 0, 0, 0, seed);
    }

    /** The fireworks effect's draw: the first non-black palette colour. */
    method PickColor(palette: Goal) returns (color: uint32, ghost draws: nat)
      requires palette.PaletteColor?
      requires palette.first != 0 || palette.second != 0 || palette.third != 0
      modifies this
      ensures color != 0
      ensures draws <= 0x1_0000 && FirstAccepted(palette, old(seed), draws)
      ensures seed == SeedAfter(draws, old(seed)) && color == palette.Color(Scale(Fold(seed), 3))
    {
      hide Next, Fold;
      ghost var last := PickTerminates(palette, seed);
      draws := 0;
      color := 0;
      while color == 0
        invariant draws <= last && seed == SeedAfter(draws, old(seed))
        invariant draws == 0 ==> color == 0
        invariant draws > 0 ==> color == palette.Color(Scale(Fold(seed), 3))
        decreases last - draws
      {
        assert draws < last;
        var index := Random8Below(3);
        color := palette.Color(index);
        draws := draws + 1;
      }
    }
  }
}
