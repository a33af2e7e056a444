/** Facts about multiplication, remainders and powers of two that the solver does not find by itself. */
module Arithmetic {
  const TWO_32: int := 0x1_0000_0000
  const TWO_63: int := 0x8000_0000_0000_0000
  const TWO_64: int := 0x1_0000_0000_0000_0000

  function Pow2(n: nat): (p: nat)
    ensures p >= 1
  {
    if n == 0 then 1 else 2 * Pow2(n - 1)
  }

  lemma {:induction false} Pow2Monotone(m: nat, n: nat)
    requires m <= n
    ensures Pow2(m) <= Pow2(n)
  {
    if n > m {
      Pow2Monotone(m, n - 1);
    }
  }

  lemma Pow2Of64()
    ensures Pow2(64) == TWO_64
  {
    assert Pow2(8) == 0x100;
    assert Pow2(16) == 0x1_0000;
    assert Pow2(24) == 0x100_0000;
    assert Pow2(32) == 0x1_0000_0000;
    assert Pow2(40) == 0x100_0000_0000;
    assert Pow2(48) == 0x1_0000_0000_0000;
    assert Pow2(56) == 0x100_0000_0000_0000;
  }

  lemma OtherWordSizes()
    ensures Pow2(32) == TWO_32 && 2 * TWO_63 == TWO_64
  {
    assert Pow2(8) == 0x100;
    assert Pow2(16) == 0x1_0000;
    assert Pow2(24) == 0x100_0000;
  }

  lemma MulMonotone(a: int, x: int, y: int)
    requires 0 <= a && x <= y
    ensures a * x <= a * y
  {}

  lemma Distribute(a: int, x: int, y: int)
    ensures a * x + a * y == a * (x + y) && (x + y) * a == x * a + y * a
  {}

  lemma RemainderUnique(x: int, b: int, q: int, r: int)
    requires 0 < b && x == b * q + r && 0 <= r < b
    ensures x % b == r && x / b == q
  {
    var d := q - x / b;
    Distribute(b, d, x / b);
    assert b * d == x % b - r;
    if d >= 1 {
      MulMonotone(b, 1, d);
    } else if d <= -1 {
      MulMonotone(b, d, -1);
    }
  }

  lemma RemainderOfSum(x: int, b: int, k: int)
    requires 0 < b
    ensures (b * k + x) % b == x % b
  {
    Distribute(b, k, x / b);
    RemainderUnique(b * k + x, b, k + x / b, x % b);
  }

  lemma RemainderOfShift(x: int, y: int, b: int)
    requires 0 < b
    ensures (x % b + y) % b == (x + y) % b
  {
    RemainderOfSum(x % b + y, b, x / b);
  }

  lemma Associate(a: int, b: int, c: int)
    ensures (a * b) * c == a * (b * c)
  {}

  lemma DropMultiple(x: int, b: int, c: int, d: int, r: int)
    requires 0 < b && x == (b * c) * d + r
    ensures x % b == r % b
  {
    Associate(b, c, d);
    RemainderOfSum(r, b, c * d);
  }

  /** Reducing modulo a multiple of `b` first does not change the remainder modulo `b`. */
  lemma RemainderOfRemainder(x: int, a: int, b: int)
    requires 0 < a && 0 < b && a % b == 0
    ensures (x % a) % b == x % b
  {
    DropMultiple(x, b, a / b, x / a, x % a);
  }

  lemma AffineRemainder(x: int, a: int, m: int)
    requires 0 < m
    ensures (x * a + 1) % m == ((x % m) * a + 1) % m
  {
    var q, low := x / m, x % m;
    assert x * a == m * (q * a) + low * a by {
      Distribute(a, m * q, low);
      assert x == m * q + low;
      assert a * (m * q) == m * (q * a);
    }
    RemainderOfSum(low * a + 1, m, q * a);
  }

  lemma DoubleMultiple(h: int, q: int, a: int)
    requires 0 < q && h == q * a
    ensures (2 * h) % (2 * q) == 0
  {
    Associate(2, q, a);
    RemainderUnique(2 * h, 2 * q, a, 0);
  }

  lemma DoubleDivides(h: int, q: int)
    requires 0 < q && h % q == 0
    ensures (2 * h) % (2 * q) == 0
  {
    DoubleMultiple(h, q, h / q);
  }

  lemma DividesProduct(a: int, b: int, c: int)
    requires 0 < b && a % b == 0
    ensures (a * c) % b == 0
  {
    assert a * c == b * (a / b * c);
    RemainderOfSum(0, b, a / b * c);
  }
}
