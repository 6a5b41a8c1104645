// Powers of two and fixed-width binary digits, as the encoder uses them.

module Bits {

  /** An 8-bit unsigned value (Rust's `u8`). */
  newtype byte = x: int | 0 <= x < 256

  function Min(a: int, b: int): int
  {
    if a <= b then a else b
  }

  /** 2 raised to the power k. */
  function Pow2(k: nat): (r: nat)
    ensures r >= 1
  {
    if k == 0 then 1 else 2 * Pow2(k - 1)
  }

  /** n is one of 1, 2, 4, 8, ... (like Rust's `usize::is_power_of_two`, false for 0). */
  predicate IsPow2(n: nat)
  {
    n == 1 || (n >= 2 && n % 2 == 0 && IsPow2(n / 2))
  }

  /** Base-2 logarithm of a positive number, rounded down. */
  function Log2(n: nat): nat
    requires n >= 1
  {
    if n == 1 then 0 else 1 + Log2(n / 2)
  }

  /** Every power of two passes IsPow2. */
  lemma {:induction false} Pow2IsPow2(k: nat)
    ensures IsPow2(Pow2(k))
  {
    if k > 0 {
      Pow2IsPow2(k - 1);
      Pow2Double(Pow2(k - 1));
    }
  }

  /** IsPow2 holds of exactly the numbers 2^k. */
  lemma IsPow2Iff(n: nat)
    ensures IsPow2(n) <==> exists k: nat :: n == Pow2(k)
  {
    if IsPow2(n) {
      Log2OfPow2(n);
    }
    if exists k: nat :: n == Pow2(k) {
      var k: nat :| n == Pow2(k);
      Pow2IsPow2(k);
    }
  }

  /** A power of two is 2 raised to its logarithm. */
  lemma {:induction false} Log2OfPow2(n: nat)
    requires IsPow2(n)
    ensures Pow2(Log2(n)) == n
  {
    if n != 1 {
      Log2OfPow2(n / 2);
    }
  }

  /** Doubling a power of two gives a power of two. */
  lemma Pow2Double(n: nat)
    requires IsPow2(n)
    ensures IsPow2(2 * n)
  {
    assert (2 * n) / 2 == n;
  }

  /** Two distinct powers of two are at least a factor two apart. */
  lemma {:induction false} Pow2Gap(a: nat, b: nat)
    requires IsPow2(a) && IsPow2(b) && a < b
    ensures 2 * a <= b
  {
    if a != 1 {
      Pow2Gap(a / 2, b / 2);
    }
  }

  /**
   * Every power of two below 64 is one of the six the encoder handles by name;
   * every larger one is a multiple of 64.
   */
  lemma {:induction false} Pow2Aligned(n: nat)
    requires IsPow2(n)
    ensures n < 64 ==> n == 1 || n == 2 || n == 4 || n == 8 || n == 16 || n == 32
    ensures n >= 64 ==> n % 64 == 0
  {
    if n != 1 {
      Pow2Aligned(n / 2);
    }
  }

  /**
   * `usize::next_power_of_two`: the smallest power of two that is at least n
   * (1 for n == 0). The last conjunct says no smaller power of two fits.
   */
  function NextPowerOfTwo(n: nat): (r: nat)
    ensures IsPow2(r) && n <= r && (r == 1 || r / 2 < n)
  {
    NextPowerFrom(n, 1)
  }

  function NextPowerFrom(n: nat, q: nat): (r: nat)
    requires IsPow2(q) && (q == 1 || q / 2 < n)
    ensures IsPow2(r) && n <= r && (r == 1 || r / 2 < n)
    decreases n - q
  {
    if n <= q then q else NextPowerFrom(n, 2 * q)
  }

  /** The result is below every power of two that is at least n. */
  lemma NextPowerOfTwoIsLeast(n: nat, q: nat)
    requires IsPow2(q) && n <= q
    ensures NextPowerOfTwo(n) <= q
  {
    var r := NextPowerOfTwo(n);
    if q < r {
      Pow2Gap(q, r);
    }
  }

  /** The w low bits of n, most significant first (Rust's `{:0w b}` for n < 2^w). */
  function Digits(n: nat, w: nat): (r: seq<bool>)
    ensures |r| == w
  {
    if w == 0 then [] else Digits(n / 2, w - 1) + [n % 2 == 1]
  }

  /** Digit k of the w-digit form of n is bit w - 1 - k of n. */
  lemma {:induction false} DigitsAt(n: nat, w: nat, k: nat)
    requires k < w
    ensures Digits(n, w)[k] == ((n / Pow2(w - 1 - k)) % 2 == 1)
  {
    if k < w - 1 {
      DigitsAt(n / 2, w - 1, k);
      HalveTwice(n, Pow2(w - 2 - k));
    }
  }

  lemma HalveTwice(n: nat, a: nat)
    requires a >= 1
    ensures (n / 2) / a == n / (2 * a)
  {
    var m := n / 2;
    var q, r := m / a, m % a;
    assert n == 2 * m + n % 2;
    assert m == a * q + r;
    assert n == (2 * a) * q + (2 * r + n % 2);
    DivUnique(n, 2 * a, q, 2 * r + n % 2);
  }

  /** Quotient and remainder are unique. */
  lemma DivUnique(n: nat, d: nat, q: nat, r: nat)
    requires d >= 1 && n == d * q + r && r < d
    ensures n / d == q
  {
    var q', r' := n / d, n % d;
    assert n == d * q' + r' && r' < d;
    if q > q' {
      MulStep(d, q', q - q');
    } else if q < q' {
      MulStep(d, q, q' - q);
    }
  }

  lemma MulStep(d: nat, x: nat, t: nat)
    requires t >= 1
    ensures d * (x + t) >= d * x + d
  {
    assert d * (x + t) == d * x + d * t;
    assert d * t >= d * 1;
  }

  /** The number a most-significant-first bit string denotes. */
  function FromBits(bs: seq<bool>): nat
  {
    if bs == [] then 0 else 2 * FromBits(bs[..|bs| - 1]) + (if bs[|bs| - 1] then 1 else 0)
  }

  /** Reading back the w digits of a number below 2^w gives the number. */
  lemma {:induction false} FromDigits(n: nat, w: nat)
    requires n < Pow2(w)
    ensures FromBits(Digits(n, w)) == n
  {
    if w > 0 {
      FromDigits(n / 2, w - 1);
      var d := Digits(n, w);
      assert d[..|d| - 1] == Digits(n / 2, w - 1);
    }
  }

  /** w binary digits denote a number below 2^w. */
  lemma {:induction false} FromBitsBound(bs: seq<bool>)
    ensures FromBits(bs) < Pow2(|bs|)
  {
    if bs != [] {
      FromBitsBound(bs[..|bs| - 1]);
    }
  }
}
