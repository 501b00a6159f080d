/** Signed 64-bit arithmetic as the interpreter's C++ performs it: results outside the type and
    oversized shifts are undefined, division truncates toward zero. */
module Int64 {

  const MIN: int := -0x8000_0000_0000_0000
  const MAX: int := 0x7FFF_FFFF_FFFF_FFFF
  const TWO_64: int := 0x1_0000_0000_0000_0000
  const TWO_32: int := 0x1_0000_0000

  /** The outcome of one arithmetic operation. */
  datatype Arith = Value(v: int) | Trap | Undefined

  predicate Fits(x: int) { MIN <= x <= MAX }

  function Checked(x: int): Arith { if Fits(x) then Value(x) else Undefined }

  function Bit(b: bool): Arith { Value(if b then 1 else 0) }

  /** The int64 congruent to `x` modulo 2^64. */
  function Wrap(x: int): (r: int)
    ensures Fits(r) && (r - x) % TWO_64 == 0
  {
    var u := x % TWO_64;
    if u <= MAX then u else u - TWO_64
  }

  function Pow2(n: nat): (r: int)
    ensures r >= 1
  {
    if n == 0 then 1 else 2 * Pow2(n - 1)
  }

  function Abs(x: int): nat { if x < 0 then -x else x }

  /** C++ `/`: the quotient rounded toward zero. */
  function TruncDiv(x: int, y: int): int
    requires y != 0
  {
    var q := Abs(x) / Abs(y);
    if (x < 0) == (y < 0) then q else -q
  }

  /** C++ `%`: takes the sign of the dividend. */
  function TruncRem(x: int, y: int): int
    requires y != 0
  {
    var r := Abs(x) % Abs(y);
    if x < 0 then -r else r
  }

  function Mul(x: int, y: int): Arith { Checked(x * y) }

  function Div(x: int, y: int): Arith
  {
    if y == 0 then Trap else if x == MIN && y == -1 then Undefined else Value(TruncDiv(x, y))
  }

  function Rem(x: int, y: int): Arith
  {
    if y == 0 then Trap else if x == MIN && y == -1 then Undefined else Value(TruncRem(x, y))
  }

  /** Shifts by 64 or more are undefined; the others keep the low 64 bits, or extend the sign. */
  function ShiftLeft(x: int, n: nat): (r: Arith)
    ensures !r.Trap?
  {
    if n >= 64 then Undefined else Value(Wrap(x * Pow2(n)))
  }

  function ShiftRight(x: int, n: nat): (r: Arith)
    ensures !r.Trap?
  {
    if n >= 64 then Undefined else Value(x / Pow2(n))
  }

  /** Conversion of a non-negative value to `unsigned`. */
  function ToU32(x: nat): (r: nat)
    ensures r < TWO_32 && (x - r) % TWO_32 == 0
  {
    x % TWO_32
  }

  lemma ToU32Small(x: nat)
    requires x < TWO_32
    ensures ToU32(x) == x
  {
  }

  /** Bitwise exclusive or of the two's complement representations. */
  function Xor(x: int, y: int): int
  {
    Wrap(XorLow(x, y, 64))
  }

  /** Of the low `n` bits. */
  function XorLow(x: int, y: int, n: nat): nat
    decreases n
  {
    if n == 0 then 0 else (if x % 2 == y % 2 then 0 else 1) + 2 * XorLow(x / 2, y / 2, n - 1)
  }

  /** Quotient and remainder fit together as the C++ standard requires. */
  lemma TruncatedDivision(x: int, y: int)
    requires y != 0
    ensures TruncDiv(x, y) * y + TruncRem(x, y) == x
    ensures Abs(TruncRem(x, y)) < Abs(y)
    ensures TruncRem(x, y) != 0 ==> (TruncRem(x, y) < 0 <==> x < 0)
  {
    var a: int, b: int := Abs(x), Abs(y);
    var q: int := a / b;
    assert a == b * q + a % b;
    assert TruncDiv(x, y) * y == if x < 0 then -(q * b) else q * b;
  }

  // ---- what shifts and bits are ----

  /** `x` added to itself `n` times over. */
  function Doubled(x: int, n: nat): int
    decreases n
  {
    if n == 0 then x else Doubled(x + x, n - 1)
  }

  lemma TwiceTimes(x: int, p: int, q: int)
    requires q == p + p
    ensures (x + x) * p == x * q
  {
    assert (x + x) * p == x * p + x * p;
    assert x * q == x * p + x * p;
  }

  lemma {:induction false} DoubledIsTimes(x: int, n: nat)
    ensures Doubled(x, n) == x * Pow2(n)
    decreases n
  {
    if n > 0 {
      DoubledIsTimes(x + x, n - 1);
      TwiceTimes(x, Pow2(n - 1), Pow2(n));
    }
  }

  /** Shifting right is the greatest number that doubled again does not exceed the operand. */
  lemma ShiftRightHalves(x: int, n: nat)
    ensures n >= 64 ==> ShiftRight(x, n) == Undefined
    ensures n < 64 ==> forall v :: ShiftRight(x, n) == Value(v) <==> Doubled(v, n) <= x < Doubled(v + 1, n)
  {
    hide Pow2, Doubled, ShiftRight;
    forall v | n < 64
      ensures ShiftRight(x, n) == Value(v) <==> Doubled(v, n) <= x < Doubled(v + 1, n)
    {
      ShiftRightIff(x, n, v);
    }
    if n >= 64 {
      ShiftRightTooFar(x, n);
    }
  }

  lemma ShiftRightTooFar(x: int, n: nat)
    requires n >= 64
    ensures ShiftRight(x, n) == Undefined
  {
  }

  lemma ShiftRightIff(x: int, n: nat, v: int)
    requires n < 64
    ensures ShiftRight(x, n) == Value(v) <==> Doubled(v, n) <= x < Doubled(v + 1, n)
  {
    hide Pow2, Doubled;
    DoubledIsTimes(v, n);
    DoubledIsTimes(v + 1, n);
    QuotientIff(x, Pow2(n), v);
  }

  lemma QuotientIff(x: int, d: int, v: int)
    requires d >= 1
    ensures x / d == v <==> v * d <= x < (v + 1) * d
  {
    var q := x / d;
    QuotientFits(x, d);
    if v < q {
      TimesMonotone(v + 1, q, d);
    } else if v > q {
      TimesMonotone(q + 1, v, d);
    }
  }

  lemma QuotientFits(x: int, d: int)
    requires d >= 1
    ensures x / d * d <= x < (x / d + 1) * d
  {
    assert x == x / d * d + x % d;
    assert (x / d + 1) * d == x / d * d + d;
  }

  lemma TimesMonotone(a: int, b: int, d: int)
    requires a <= b && d >= 1
    ensures a * d <= b * d
  {
    assert b * d - a * d == (b - a) * d >= 0;
  }

  /** Shifting left keeps the low 64 bits of the operand doubled. */
  lemma {:induction false} ShiftLeftDoubles(x: int, n: nat)
    ensures n >= 64 ==> ShiftLeft(x, n) == Undefined
    ensures n < 64 ==> forall v :: ShiftLeft(x, n) == Value(v) <==> Fits(v) && (v - Doubled(x, n)) % TWO_64 == 0
  {
    DoubledIsTimes(x, n);
    forall v | Fits(v) && (v - Doubled(x, n)) % TWO_64 == 0
      ensures v == Wrap(Doubled(x, n))
    {
      OneRepresentative(v, Wrap(Doubled(x, n)), Doubled(x, n));
    }
  }

  lemma OneRepresentative(v: int, w: int, x: int)
    requires Fits(v) && Fits(w) && (v - x) % TWO_64 == 0 && (w - x) % TWO_64 == 0
    ensures v == w
  {
  }

  /** Bit `k` of the two's complement representation. */
  function BitAt(x: int, k: nat): int
    decreases k
  {
    if k == 0 then x % 2 else BitAt(x / 2, k - 1)
  }

  lemma {:induction false} BitOfXorLow(x: int, y: int, n: nat, k: nat)
    requires k < n
    ensures BitAt(XorLow(x, y, n), k) == 1 <==> BitAt(x, k) != BitAt(y, k)
    decreases k
  {
    var low := XorLow(x, y, n);
    assert low / 2 == XorLow(x / 2, y / 2, n - 1);
    if k > 0 {
      BitOfXorLow(x / 2, y / 2, n - 1, k - 1);
    }
  }

  /** Numbers that are congruent modulo 2^n have the same low bits. */
  lemma {:induction false} CongruentBits(x: int, c: int, n: nat, k: nat)
    requires k < n
    ensures BitAt(x + c * Pow2(n), k) == BitAt(x, k)
    decreases k
  {
    var y := x + c * Pow2(n);
    assert y == x + 2 * (c * Pow2(n - 1));
    assert y / 2 == x / 2 + c * Pow2(n - 1) && y % 2 == x % 2;
    if k > 0 {
      CongruentBits(x / 2, c, n - 1, k - 1);
    }
  }

  /** Exclusive or, bit by bit. */
  lemma XorBitwise(x: int, y: int, k: nat)
    requires k < 64
    ensures Fits(Xor(x, y)) && (BitAt(Xor(x, y), k) == 1 <==> BitAt(x, k) != BitAt(y, k))
  {
    hide Pow2, BitAt, XorLow;
    BitOfXorLow(x, y, 64, k);
    var low, v := XorLow(x, y, 64), Xor(x, y);
    Pow2Of64();
    var c := (v - low) / TWO_64;
    CongruentBits(low, c, 64, k);
  }

  lemma {:induction false} Pow2Adds(m: nat, n: nat)
    ensures Pow2(m + n) == Pow2(m) * Pow2(n)
  {
    if m > 0 {
      Pow2Adds(m - 1, n);
      assert 2 * (Pow2(m - 1) * Pow2(n)) == 2 * Pow2(m - 1) * Pow2(n);
    }
  }

  lemma Pow2Of16()
    ensures Pow2(16) == 0x1_0000
  {
    assert Pow2(1) == 2 && Pow2(2) == 4;
    Pow2Adds(2, 2);
    Pow2Adds(4, 4);
    Pow2Adds(8, 8);
  }

  lemma Pow2Of64()
    ensures Pow2(64) == TWO_64 && Pow2(32) == TWO_32
  {
    hide Pow2;
    Pow2Of16();
    Pow2Adds(16, 16);
    Pow2Adds(32, 32);
  }

  /** The values of a signed 64-bit integer. */
  lemma FitsIff(x: int)
    ensures Fits(x) <==> -Doubled(1, 63) <= x < Doubled(1, 63)
  {
    DoubledIsTimes(1, 63);
    Pow2Of64();
    Pow2Adds(1, 63);
  }
}
