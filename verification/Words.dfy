/** Fixed-width unsigned integers of the firmware, as ranges of the mathematical integers. */
module Words {
  type uint8 = x: int | 0 <= x < 0x100
  type uint16 = x: int | 0 <= x < 0x1_0000
  type uint32 = x: int | 0 <= x < 0x1_0000_0000

  /** The low 8 bits. */
  function ToUint8(x: int): uint8 {
    x % 0x100
  }

  /** The low 16 bits. */
  function ToUint16(x: int): uint16 {
    if 0 <= x < 0x1_0000 then x else x % 0x1_0000
  }

  /** The low 32 bits. */
  function ToUint32(x: int): uint32 {
    if 0 <= x < 0x1_0000_0000 then x else x % 0x1_0000_0000
  }

  /** What a clock of 32 bits shows at a time. */
  function Clock(t: int): uint32 {
    t % 0x1_0000_0000
  }

  function Abs(x: int): nat {
    if x < 0 then -x else x
  }

  function Min(a: int, b: int): int {
    if a < b then a else b
  }

  function PowerOfTwo(k: nat): (p: nat)
    ensures p > 0
  {
    if k == 0 then 1 else 2 * PowerOfTwo(k - 1)
  }

  lemma EighthPower()
    ensures PowerOfTwo(8) == 0x100
  {
    assert PowerOfTwo(4) == 16;
  }

  lemma SixteenthPower()
    ensures PowerOfTwo(16) == 0x1_0000
  {
    EighthPower();
    assert PowerOfTwo(12) == 4096;
  }

  // ---- Arithmetic the solver needs spelled out ----

  lemma WordShift(x: int, k: int)
    ensures (x + 0x1_0000 * k) % 0x1_0000 == x % 0x1_0000
  {
  }

  /** The difference of two readings is the time between them, as far as the clock can show it. */
  lemma ClockDifference(a: nat, b: nat)
    requires a <= b
    ensures ToUint32(Clock(b) - Clock(a)) == Clock(b - a) <= b - a
  {
    var word := 0x1_0000_0000;
    var x := b % word - a % word;
    assert b - a == word * (b / word - a / word) + x;
    if x >= 0 {
      RemainderIsUnique(b - a, word, b / word - a / word, x);
    } else {
      RemainderIsUnique(b - a, word, b / word - a / word - 1, x + word);
    }
  }

  lemma ProductAtLeast(d: int, k: int)
    requires d >= 0 && k >= 1
    ensures d * k >= d
  {
    assert d * (k - 1) >= 0;
    assert d * (k - 1) == d * k - d;
  }

  /** Quotient and remainder are determined by x == d * q + r. */
  lemma DivisionIsUnique(d: int, q: int, r: int, q': int, r': int)
    requires 0 <= r < d && 0 <= r' < d && d * q + r == d * q' + r'
    ensures q == q' && r == r'
  {
    assert d * (q' - q) == d * q' - d * q == r - r';
    assert d * (q - q') == d * q - d * q' == r' - r;
    if q < q' {
      ProductAtLeast(d, q' - q);
    } else if q > q' {
      ProductAtLeast(d, q - q');
    }
  }

  lemma RemainderIsUnique(x: int, d: int, q: int, r: int)
    requires 0 <= r < d && x == d * q + r
    ensures x / d == q && x % d == r
  {
    assert x == d * (x / d) + x % d;
    DivisionIsUnique(d, q, r, x / d, x % d);
  }

  lemma SameSignProduct(d: int, k: int)
    ensures d >= 0 && k >= 0 ==> d * k >= 0
  {
  }

  lemma ProductMonotone(a: int, b: int, c: int)
    requires a <= b && c >= 0
    ensures a * c <= b * c
  {
    SameSignProduct(b - a, c);
    assert (b - a) * c == b * c - a * c;
  }
}
