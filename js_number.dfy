/**
 * The parts of JavaScript number semantics the core relies on: powers of two
 * (`Math.pow(2, n)`), the 32-bit conversions ToUint32 and ToInt32 applied by
 * the bitwise operators, the bitwise `&` itself, and `Number.prototype.toString(radix)`
 * on non-negative integers together with its inverse `parseInt(s, radix)`.
 */
module JsNumber {

  const TWO_31: int := 0x8000_0000
  const TWO_32: int := 0x1_0000_0000

  function Pow2(n: nat): (r: nat)
    ensures r >= 1
  {
    if n == 0 then 1 else 2 * Pow2(n - 1)
  }

  lemma {:induction false} Pow2Add(a: nat, b: nat)
    ensures Pow2(a + b) == Pow2(a) * Pow2(b)
  {
    if a > 0 {
      Pow2Add(a - 1, b);
    }
  }

  lemma {:induction false} Pow2Monotone(a: nat, b: nat)
    requires a <= b
    ensures Pow2(a) <= Pow2(b)
  {
    if a < b {
      Pow2Monotone(a, b - 1);
    }
  }

  /** Powers of two are ordered as their exponents. */
  lemma Pow2Order(a: nat, b: nat)
    ensures Pow2(a) < Pow2(b) ==> a < b
  {
    if a >= b {
      Pow2Monotone(b, a);
    }
  }

  lemma Pow2Constants()
    ensures Pow2(8) == 256
    ensures Pow2(31) == TWO_31
    ensures Pow2(32) == TWO_32
  {
    assert Pow2(4) == 16 by {
      assert Pow2(2) == 4;
    }
    assert Pow2(8) == 256 by {
      Pow2Add(4, 4);
    }
    Pow2Add(8, 8);
    Pow2Add(16, 16);
    Pow2Add(16, 15);
    Pow2Add(8, 7);
    assert Pow2(7) == 128 by {
      Pow2Add(4, 3);
    }
  }

  /** ToUint32: the integer modulo 2^32. */
  function ToUint32(x: int): (r: int)
    ensures 0 <= r < TWO_32
    ensures 0 <= x < TWO_32 ==> r == x
  {
    x % TWO_32
  }

  /** ToInt32: the integer modulo 2^32, read as a two's-complement signed value. */
  function ToInt32(x: int): (r: int)
    ensures -TWO_31 <= r < TWO_31
    ensures 0 <= x < TWO_31 ==> r == x
    ensures TWO_31 <= x < TWO_32 ==> r == x - TWO_32
    ensures ToUint32(r) == ToUint32(x)
  {
    var u := ToUint32(x);
    if u >= TWO_31 then u - TWO_32 else u
  }

  /** Bitwise AND of the low `n` bits of two naturals, bit by bit from the least significant. */
  function AndBits(a: nat, b: nat, n: nat): (r: nat)
    ensures r < Pow2(n)
  {
    if n == 0 then 0
    else 2 * AndBits(a / 2, b / 2, n - 1) + (if a % 2 == 1 && b % 2 == 1 then 1 else 0)
  }

  /** The JavaScript expression `a & b`: both operands go through ToInt32, the result is signed. */
  function BitAnd(a: int, b: int): (r: int)
    ensures -TWO_31 <= r < TWO_31
  {
    ToInt32(AndBits(ToUint32(a), ToUint32(b), 32))
  }

  lemma {:induction false} MulMonotone(d: nat, x: nat, y: nat)
    requires x <= y
    ensures d * x <= d * y
    decreases y - x
  {
    if x < y {
      MulMonotone(d, x, y - 1);
      assert d * y == d * (y - 1) + d;
    }
  }

  lemma MulSign(d: int, x: int)
    requires d > 0
    ensures x >= 1 ==> d * x >= d
    ensures x <= -1 ==> d * x <= -d
  {
    if x >= 1 {
      MulMonotone(d, 1, x);
    } else if x <= -1 {
      MulMonotone(d, 1, -x);
      assert d * x == -(d * -x);
    }
  }

  /** Euclidean division is determined by its quotient and remainder. */
  lemma DivModUnique(a: int, d: int, q: int, s: int)
    requires d > 0 && a == d * q + s && 0 <= s < d
    ensures a / d == q && a % d == s
  {
    var q', s' := a / d, a % d;
    assert d * (q' - q) == s - s';
    MulSign(d, q' - q);
  }

  lemma DivShrinks(n: nat, radix: nat)
    requires radix >= 2 && n >= radix
    ensures 1 <= n / radix < n
  {
    var q := n / radix;
    assert n == radix * q + n % radix;
    MulSign(radix, q);
    assert q >= 1;
    MulMonotone(q, 2, radix);
  }

  /** Splitting off the lowest bit: a mod 2p is its lowest bit plus twice (a / 2) mod p. */
  lemma ModDouble(a: nat, p: nat)
    requires p > 0
    ensures a % (2 * p) == 2 * ((a / 2) % p) + a % 2
  {
    var q, t := a / 2, (a / 2) / p;
    var s := q % p;
    assert a == 2 * p * t + (2 * s + a % 2);
    DivModUnique(a, 2 * p, t, 2 * s + a % 2);
  }

  /** The mask `2^k - 1` with `k >= 1` is odd, and halving it gives `2^(k-1) - 1`. */
  lemma HalfMask(k: nat)
    requires k >= 1
    ensures (Pow2(k) - 1) / 2 == Pow2(k - 1) - 1
    ensures (Pow2(k) - 1) % 2 == 1
  {
    var p := Pow2(k - 1);
    assert Pow2(k) - 1 == 2 * (p - 1) + 1;
  }

  /** One bit of the AND against the mask `2^k - 1`. */
  lemma AndLowMaskStep(a: nat, k: nat, n: nat)
    requires 1 <= k <= n
    requires AndBits(a / 2, Pow2(k - 1) - 1, n - 1) == (a / 2) % Pow2(k - 1)
    ensures AndBits(a, Pow2(k) - 1, n) == a % Pow2(k)
  {
    HalfMask(k);
    var rest := AndBits(a / 2, Pow2(k - 1) - 1, n - 1);
    assert AndBits(a, Pow2(k) - 1, n) == 2 * rest + a % 2;
    ModDouble(a, Pow2(k - 1));
  }

  lemma {:induction false} AndZero(a: nat, n: nat)
    ensures AndBits(a, 0, n) == 0
  {
    if n > 0 {
      AndZero(a / 2, n - 1);
    }
  }

  /** Masking with `2^k - 1` keeps exactly the value modulo 2^k. */
  lemma {:induction false} AndLowMask(a: nat, k: nat, n: nat)
    requires k <= n
    ensures AndBits(a, Pow2(k) - 1, n) == a % Pow2(k)
  {
    if k == 0 {
      AndZero(a, n);
    } else {
      AndLowMask(a / 2, k - 1, n - 1);
      AndLowMaskStep(a, k, n);
    }
  }

  /** The character `toString` uses for digit `v`. */
  function DigitChar(v: nat): (c: char)
    requires v < 36
    ensures ('0' <= c <= '9') || ('a' <= c <= 'z')
  {
    if v < 10 then ('0' as int + v) as char else ('a' as int + v - 10) as char
  }

  /** The digit value `parseInt` gives a character, or -1 when it is not a digit of base 36. */
  function DigitValue(c: char): (v: int)
    ensures -1 <= v < 36
    ensures v >= 0 <==> ('0' <= c <= '9') || ('a' <= c <= 'z')
  {
    if '0' <= c <= '9' then c as int - '0' as int
    else if 'a' <= c <= 'z' then c as int - 'a' as int + 10
    else -1
  }

  lemma DigitRoundTrip(v: nat)
    requires v < 36
    ensures DigitValue(DigitChar(v)) == v
  {
  }

  /** `n.toString(radix)` for a non-negative integer `n`. */
  function ToRadixString(n: nat, radix: nat): (s: string)
    requires 2 <= radix <= 36
    decreases n
    ensures |s| >= 1
    ensures forall i | 0 <= i < |s| :: 0 <= DigitValue(s[i]) < radix
  {
    if n < radix then [DigitChar(n)]
    else
      DivShrinks(n, radix);
      ToRadixString(n / radix, radix) + [DigitChar(n % radix)]
  }

  /** `parseInt(s, radix)` on a string made only of digits below `radix`. */
  function ParseRadix(s: string, radix: nat): (n: nat)
    requires 2 <= radix <= 36
    requires forall i | 0 <= i < |s| :: 0 <= DigitValue(s[i]) < radix
  {
    if s == [] then 0
    else ParseRadix(s[..|s| - 1], radix) * radix + DigitValue(s[|s| - 1])
  }

  lemma ParseSnoc(front: string, c: char, radix: nat)
    requires 2 <= radix <= 36
    requires forall i | 0 <= i < |front| :: 0 <= DigitValue(front[i]) < radix
    requires 0 <= DigitValue(c) < radix
    ensures ParseRadix(front + [c], radix) == ParseRadix(front, radix) * radix + DigitValue(c)
  {
    assert (front + [c])[..|front|] == front;
  }

  lemma DivModSplit(n: nat, radix: nat)
    requires radix > 0
    ensures n == (n / radix) * radix + n % radix
  {
  }

  /** One step of the round trip: the last digit and the digits before it. */
  lemma ParseToRadixStep(n: nat, radix: nat)
    requires 2 <= radix <= 36 && n >= radix
    requires ParseRadix(ToRadixString(n / radix, radix), radix) == n / radix
    ensures ParseRadix(ToRadixString(n, radix), radix) == n
  {
    var q, r := n / radix, n % radix;
    DigitRoundTrip(r);
    DivShrinks(n, radix);
    var front := ToRadixString(q, radix);
    assert ToRadixString(n, radix) == front + [DigitChar(r)];
    ParseSnoc(front, DigitChar(r), radix);
    DivModSplit(n, radix);
  }

  lemma {:induction false} ParseToRadix(n: nat, radix: nat)
    requires 2 <= radix <= 36
    ensures ParseRadix(ToRadixString(n, radix), radix) == n
    decreases n
  {
    if n < radix {
      DigitRoundTrip(n);
      assert ToRadixString(n, radix) == [] + [DigitChar(n)];
      ParseSnoc([], DigitChar(n), radix);
    } else {
      DivShrinks(n, radix);
      ParseToRadix(n / radix, radix);
      ParseToRadixStep(n, radix);
    }
  }

  /** A single digit renders as one character. */
  lemma SingleDigit(v: nat, radix: nat)
    requires 2 <= radix <= 36 && v < radix
    ensures ToRadixString(v, radix) == [DigitChar(v)]
    ensures DigitValue(DigitChar(v)) == v
  {
    DigitRoundTrip(v);
  }

  /** The binary representation of `n >= 1` has `b` digits exactly when 2^(b-1) <= n < 2^b. */
  lemma {:induction false} BinaryLength(n: nat)
    ensures n < Pow2(|ToRadixString(n, 2)|)
    ensures n >= 1 ==> Pow2(|ToRadixString(n, 2)| - 1) <= n
    ensures n == 0 ==> |ToRadixString(n, 2)| == 1
  {
    if n >= 2 {
      BinaryLength(n / 2);
    }
  }
}
