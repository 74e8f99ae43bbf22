/** C `unsigned int` arithmetic on a 32-bit target: values, wrap-around and bit-wise and. */
module Word32 {

  /** 2^32: one more than the largest `unsigned int` (UINT_MAX + 1). */
  const Modulus: int := 0x1_0000_0000

  /** A value of C type `unsigned int`. */
  type uint32 = x: int | 0 <= x < Modulus

  /** A byte, C type `unsigned char`. */
  type byte = x: int | 0 <= x < 256

  /** Conversion of a mathematical integer to `unsigned int` (reduction modulo 2^32). */
  function Wrap(x: int): (r: uint32)
    ensures 0 <= x < Modulus ==> r == x
  {
    x % Modulus
  }

  /** `a - b` on `unsigned int`. */
  function Sub(a: uint32, b: uint32): (r: uint32)
    ensures a >= b ==> r == a - b
    ensures a < b ==> r == a - b + Modulus
  {
    Wrap(a - b)
  }

  /** `a + 1` (and `a++`) on `unsigned int`. */
  function Inc(a: uint32): (r: uint32)
    ensures a < Modulus - 1 ==> r == a + 1
    ensures a == Modulus - 1 ==> r == 0
  {
    Wrap(a + 1)
  }

  /** Bit-wise and `a & b` of two naturals, one binary digit at a time. */
  function BitAnd(a: nat, b: nat): (r: nat)
    ensures r <= a && r <= b
  {
    if a == 0 || b == 0 then 0
    else 2 * BitAnd(a / 2, b / 2) + (if a % 2 == 1 && b % 2 == 1 then 1 else 0)
  }

  /** `a & b` on `unsigned int`. */
  function And(a: uint32, b: uint32): (r: uint32)
    ensures r <= a && r <= b
  {
    BitAnd(a, b)
  }

  /** Reference definition: n is 1, 2, 4, 8, ... */
  predicate IsPowerOfTwo(n: nat) {
    n == 1 || (n >= 2 && n % 2 == 0 && IsPowerOfTwo(n / 2))
  }

  /** The test `((n - 1) & n) == 0` evaluated with `unsigned int` semantics. */
  predicate PassesPowerOfTwoTest(n: uint32) {
    And(Sub(n, 1), n) == 0
  }

  /** A positive multiple of d is at least d. */
  lemma {:induction false} MulAtLeast(d: int, k: int)
    requires d > 0 && k >= 1
    ensures d * k >= d
  {
    if k > 1 {
      MulAtLeast(d, k - 1);
      assert d * k == d * (k - 1) + d;
    }
  }

  /** Euclidean division is unique: any quotient and remainder in range are the ones `/` and `%` give. */
  lemma DivModUnique(x: int, d: int, q: int, r: int)
    requires d > 0 && 0 <= r < d && x == d * q + r
    ensures x % d == r && x / d == q
  {
    var q', r' := x / d, x % d;
    assert d * (q - q') == r' - r;
    if q > q' {
      MulAtLeast(d, q - q');
    } else if q < q' {
      MulAtLeast(d, q' - q);
    }
  }

  /** `a & a == a`. */
  lemma {:induction false} BitAndSelf(a: nat)
    ensures BitAnd(a, a) == a
  {
    if a != 0 {
      BitAndSelf(a / 2);
    }
  }

  /** For n >= 1, `(n - 1) & n` is zero exactly when n is a power of two. */
  lemma {:induction false} PredecessorAndSelf(n: nat)
    requires n >= 1
    ensures BitAnd(n - 1, n) == 0 <==> IsPowerOfTwo(n)
  {
    if n == 1 {
    } else if n % 2 == 0 {
      assert (n - 1) / 2 == n / 2 - 1;
      PredecessorAndSelf(n / 2);
    } else {
      assert (n - 1) / 2 == n / 2;
      BitAndSelf(n / 2);
    }
  }

  /** The 32-bit test accepts the powers of two and also 0, because `0 - 1` wraps to UINT_MAX and `UINT_MAX & 0 == 0`. */
  lemma PowerOfTwoTestAccepts(n: uint32)
    ensures PassesPowerOfTwoTest(n) <==> n == 0 || IsPowerOfTwo(n)
  {
    if n >= 1 {
      PredecessorAndSelf(n);
    }
  }

  /** The remainder modulo 2m, rebuilt from the remainder of c / 2 modulo m and the low bit of c. */
  lemma HalveMod(c: nat, m: nat)
    requires m >= 1
    ensures 2 * ((c / 2) % m) + c % 2 == c % (2 * m)
  {
    var q, r := c / 2, c % 2;
    var s, t := q / m, q % m;
    assert c == (2 * m) * s + (2 * t + r);
    DivModUnique(c, 2 * m, s, 2 * t + r);
  }

  /** Masking with n - 1 is reduction modulo n, for a power of two n. */
  lemma {:induction false} MaskIsRemainder(c: nat, n: nat)
    requires IsPowerOfTwo(n)
    ensures BitAnd(c, n - 1) == c % n
    decreases n
  {
    if n != 1 && c != 0 {
      var m := n / 2;
      assert n == 2 * m && (n - 1) / 2 == m - 1 && (n - 1) % 2 == 1;
      assert BitAnd(c, n - 1) == 2 * BitAnd(c / 2, m - 1) + c % 2;
      MaskIsRemainder(c / 2, m);
      HalveMod(c, m);
    }
  }

  /** A power of two divides every power of two at least as large. */
  lemma {:induction false} PowerOfTwoDivides(a: nat, b: nat)
    requires IsPowerOfTwo(a) && IsPowerOfTwo(b) && a <= b
    ensures b % a == 0
    decreases a
  {
    if a != 1 {
      PowerOfTwoDivides(a / 2, b / 2);
      var k := (b / 2) / (a / 2);
      assert b == a * k;
      DivModUnique(b, a, k, 0);
    }
  }

  /** The product of two powers of two is a power of two. */
  lemma {:induction false} PowerOfTwoProduct(a: nat, b: nat)
    requires IsPowerOfTwo(a) && IsPowerOfTwo(b)
    ensures IsPowerOfTwo(a * b)
    decreases a
  {
    if a != 1 {
      var h := a / 2;
      PowerOfTwoProduct(h, b);
      var p := h * b;
      assert a * b == 2 * p by {
        assert a == 2 * h;
      }
      assert IsPowerOfTwo(2 * p);
    }
  }

  /** 2^32 is a power of two. */
  lemma ModulusIsPowerOfTwo()
    ensures IsPowerOfTwo(Modulus)
  {
    assert IsPowerOfTwo(0x1_0000);
    PowerOfTwoProduct(0x1_0000, 0x1_0000);
  }

  /** Adding a multiple of n does not change the remainder modulo n. */
  lemma AddMultiple(y: int, n: int, k: int)
    requires n > 0
    ensures (n * k + y) % n == y % n
  {
    var s, t := y / n, y % n;
    assert n * k + y == n * (k + s) + t;
    DivModUnique(n * k + y, n, k + s, t);
  }

  /** Every power of two up to 2^32 divides 2^32. */
  lemma PowerOfTwoDividesModulus(n: nat)
    requires IsPowerOfTwo(n) && n <= Modulus
    ensures Modulus % n == 0
  {
    ModulusIsPowerOfTwo();
    PowerOfTwoDivides(n, Modulus);
  }

  /** Wrapping at 2^32 does not change the remainder modulo a power of two up to 2^32. */
  lemma WrapThenRemainder(x: int, n: nat)
    requires IsPowerOfTwo(n) && n <= Modulus
    ensures Wrap(x) % n == x % n
  {
    PowerOfTwoDividesModulus(n);
    var j, q := Modulus / n, x / Modulus;
    assert x == n * (j * q) + Wrap(x) by {
      assert Modulus == n * j;
      assert (n * j) * q == n * (j * q);
    }
    AddMultiple(Wrap(x), n, j * q);
  }

  /** Numbers between 1 and n - 1 apart have different remainders modulo n. */
  lemma RemaindersDiffer(t: int, d: int, n: int)
    requires 0 < d < n
    ensures (t + d) % n != t % n
  {
    var q, r := t / n, t % n;
    if r + d < n {
      DivModUnique(t + d, n, q, r + d);
    } else {
      DivModUnique(t + d, n, q + 1, r + d - n);
    }
  }
}
