/** Unsigned machine arithmetic of the C codec, stated on mathematical integers.

    The C code works on `uint8_t`, `uint64_t` and `__uint128_t`. Here every such
    value is a `nat` with an upper bound. A left shift `x << k` is
    `x * Pow(2, k)` and `n += x` is `n + x`, each reduced modulo 2^width where
    the C operation can wrap; where the model instead assigns the unreduced
    result to a `U64` or `U128` variable, the verifier proves that the C
    operation cannot wrap there. Right shifts and masks of unsigned values are
    exact: `x >> k` is `x / Pow(2, k)` and `x & (2^k - 1)` is `x % Pow(2, k)`.
 */
module Arith {

  const TWO_64: nat := 0x1_0000_0000_0000_0000
  const TWO_80: nat := 0x1_0000_0000_0000_0000_0000
  const TWO_128: nat := 0x1_0000_0000_0000_0000_0000_0000_0000_0000

  /** `unsigned char` / `uint8_t` */
  type Byte = b: nat | b < 256

  /** `uint64_t` */
  type U64 = n: nat | n < TWO_64

  /** `__uint128_t` */
  type U128 = n: nat | n < TWO_128

  function Pow(b: nat, k: nat): (r: nat)
    ensures b > 0 ==> r > 0
  {
    if k == 0 then 1 else b * Pow(b, k - 1)
  }

  lemma {:induction false} PowAdd(b: nat, m: nat, n: nat)
    ensures Pow(b, m + n) == Pow(b, m) * Pow(b, n)
  {
    if m > 0 {
      var x, y := Pow(b, m - 1), Pow(b, n);
      assert Pow(b, m + n) == b * (x * y) by {
        PowAdd(b, m - 1, n);
        assert m + n - 1 == m - 1 + n;
      }
      assert Pow(b, m) == b * x;
      MulAssoc(b, x, y);
    }
  }

  /** Shifting by `width * k` bits is multiplying by `(2^width)^k`. */
  lemma {:induction false} PowMul(b: nat, m: nat, k: nat)
    ensures Pow(b, m * k) == Pow(Pow(b, m), k)
  {
    if k > 0 {
      PowMul(b, m, k - 1);
      PowAdd(b, m, m * (k - 1));
      assert m * k == m + m * (k - 1);
    }
  }

  lemma {:induction false} PowMonotone(b: nat, j: nat, k: nat)
    requires b > 0 && j <= k
    ensures Pow(b, j) <= Pow(b, k)
  {
    if j < k {
      PowMonotone(b, j, k - 1);
      assert Pow(b, k) == b * Pow(b, k - 1);
    }
  }

  /** A shift by `8 * pos` bits is a multiplication by 256^pos, and one by
      `7 * pos` bits a multiplication by 128^pos. */
  lemma ShiftIsPow(pos: nat)
    ensures Pow(2, 8 * pos) == Pow(256, pos)
    ensures Pow(2, 7 * pos) == Pow(128, pos)
  {
    PowMul(2, 8, pos);
    PowMul(2, 7, pos);
  }

  /** Division is unique: a quotient and remainder that rebuild `a` are `a / d`
      and `a % d`. */
  lemma DivModUnique(a: nat, d: nat, q: nat, r: nat)
    requires d > 0 && r < d && a == q * d + r
    ensures a / d == q && a % d == r
  {
    var q', r' := a / d, a % d;
    assert a == q' * d + r';
    if q > q' {
      MulAtLeast(q - q', d, q * d, q' * d);
      assert false;
    } else if q' > q {
      MulAtLeast(q' - q, d, q' * d, q * d);
      assert false;
    }
  }

  lemma MulAtLeast(k: nat, d: nat, x: nat, y: nat)
    requires k >= 1 && x - y == k * d
    ensures x - y >= d
  {
  }

  lemma DivDiv(a: nat, b: nat, c: nat)
    requires b > 0 && c > 0
    ensures a / b / c == a / (b * c)
  {
    var q, r := a / b, a % b;
    var q2, r2 := q / c, q % c;
    assert a == q * b + r;
    assert q == q2 * c + r2;
    Distrib3(q2 * c, r2, b);
    MulAssoc(q2, c, b);
    assert a == q2 * (b * c) + (r2 * b + r);
    assert r2 * b + r < b * c by {
      Distrib3(r2, 1, b);
      MulMono(r2 + 1, c, b);
    }
    DivModUnique(a, b * c, q2, r2 * b + r);
  }

  /** Reducing both summands modulo 2^64 before adding does not change the
      sum modulo 2^64: per-step wrap-around in a `uint64_t` accumulator is one
      wrap-around of the exact sum. */
  lemma AddMod64(a: nat, b: nat)
    ensures (a % TWO_64 + b % TWO_64) % TWO_64 == (a + b) % TWO_64
  {
  }

  lemma Distrib3(x: nat, y: nat, m: nat)
    ensures (x + y) * m == x * m + y * m
  {
  }

  lemma MulAssoc(x: nat, y: nat, z: nat)
    ensures x * y * z == x * (z * y)
  {
  }

  lemma MulMono(x: nat, y: nat, m: nat)
    requires x <= y
    ensures x * m <= y * m
  {
  }
}
