/**
  Bit operations of Python's unbounded integers.  A negative integer has
  infinitely many leading one bits; `/` and `%` by 2 round towards minus
  infinity, so x / 2 is the arithmetic shift and x % 2 the lowest bit.
 */
module PyBits {
  function Pow2(k: nat): (r: nat)
    ensures r >= 1
  {
    if k == 0 then 1 else 2 * Pow2(k - 1)
  }

  function Abs(x: int): nat {
    if x < 0 then -x else x
  }

  /** x ^ y */
  function Xor(x: int, y: int): int
    decreases Abs(x) + Abs(y)
  {
    if x in {0, -1} && y in {0, -1} then (if x == y then 0 else -1)
    else 2 * Xor(x / 2, y / 2) + (x + y) % 2
  }

  /** x | y */
  function Or(x: nat, y: nat): nat
    decreases x + y
  {
    if x == 0 && y == 0 then 0
    else 2 * Or(x / 2, y / 2) + (if x % 2 == 1 || y % 2 == 1 then 1 else 0)
  }

  /** x << k and x >> k */
  function Shl(x: int, k: nat): (r: int)
    ensures x >= 0 ==> r >= 0
  {
    x * Pow2(k)
  }

  function Shr(x: int, k: nat): int { x / Pow2(k) }

  lemma XorStep(x: int, y: int)
    ensures Xor(x, y) == 2 * Xor(x / 2, y / 2) + (x + y) % 2
  {
  }

  /** The `k` low bits. */
  function Low(x: int, k: nat): (r: nat)
    ensures r < Pow2(k)
  {
    x % Pow2(k)
  }

  lemma LowStep(x: int, k: nat)
    ensures Low(x, k + 1) == 2 * Low(x / 2, k) + x % 2
  {
    var m := Pow2(k);
    var h := x / 2;
    var q := h / m;
    assert h == m * q + h % m;
    assert x == 2 * h + x % 2;
    var r := 2 * (h % m) + x % 2;
    assert x == (2 * m) * q + r;
    ModUnique(x, 2 * m, q, r);
  }

  lemma ModUnique(x: int, m: nat, q: int, r: int)
    requires m > 0 && x == m * q + r && 0 <= r < m
    ensures x % m == r && x / m == q
  {
    var q' := x / m;
    var r' := x % m;
    assert x == m * q' + r' && 0 <= r' < m;
    assert m * (q - q') == r' - r;
    if q != q' {
      BigMultiple(m, q - q');
    }
  }

  lemma BigMultiple(m: nat, d: int)
    requires m > 0 && d != 0
    ensures m * d >= m || m * d <= -(m as int)
  {
    if d > 0 {
      Product(m, d - 1);
      assert m * d == m + m * (d - 1);
    } else {
      Product(m, -d - 1);
      assert m * d == 0 - m - m * (-d - 1);
    }
  }

  lemma Product(m: nat, e: nat)
    ensures m * e >= 0
  {
  }

  lemma Parity(x: int, y: int)
    ensures (x + y) % 2 == (x % 2 + y % 2) % 2
  {
  }

  lemma Halves(x: int, h: int, r: int)
    requires x == 2 * h + r && 0 <= r < 2
    ensures x / 2 == h && x % 2 == r
  {
  }

  lemma LowNone(x: int)
    ensures Low(x, 0) == 0
  {
  }

  lemma SumParity(x: int, y: int, a: int, b: int)
    requires a % 2 == x % 2 && b % 2 == y % 2
    ensures (a + b) % 2 == (x + y) % 2
  {
    Parity(x, y);
    Parity(a, b);
  }

  lemma XorOfSteps(a: int, b: int, h: int, l: int, x: int, y: int)
    requires a == 2 * h + x % 2 && b == 2 * l + y % 2
    ensures Xor(a, b) == 2 * Xor(h, l) + (x + y) % 2
  {
    XorStep(a, b);
    hide *;
    Halves(a, h, x % 2);
    Halves(b, l, y % 2);
    SumParity(x, y, a, b);
  }

  /** Only the low bits of the operands reach the low bits of the result. */
  lemma {:induction false} XorLow(x: int, y: int, k: nat)
    ensures Low(Xor(x, y), k) == Xor(Low(x, k), Low(y, k))
    decreases k
  {
    var a, b, z := Low(x, k), Low(y, k), Xor(x, y);
    if k > 0 {
      XorLow(x / 2, y / 2, k - 1);
      hide *;
      LowStep(x, k - 1);
      LowStep(y, k - 1);
      LowStep(z, k - 1);
      XorStep(x, y);
      Halves(z, Xor(x / 2, y / 2), (x + y) % 2);
      XorOfSteps(a, b, Low(x / 2, k - 1), Low(y / 2, k - 1), x, y);
    } else {
      LowNone(x);
      LowNone(y);
      LowNone(z);
    }
  }

  lemma {:induction false} XorCancel(x: int, y: int)
    ensures Xor(Xor(x, y), y) == x
    decreases Abs(x) + Abs(y)
  {
    if !(x in {0, -1} && y in {0, -1}) {
      HalfSmaller(x);
      HalfSmaller(y);
      XorCancel(x / 2, y / 2);
      XorCancelStep(x, y);
    }
  }

  lemma HalfSmaller(x: int)
    ensures Abs(x / 2) <= Abs(x) && (x !in {0, -1} ==> Abs(x / 2) < Abs(x))
  {
  }

  lemma XorCancelStep(x: int, y: int)
    requires Xor(Xor(x / 2, y / 2), y / 2) == x / 2
    ensures Xor(Xor(x, y), y) == x
  {
    var z := Xor(x, y);
    XorStep(x, y);
    XorStep(z, y);
    hide *;
    Halves(z, Xor(x / 2, y / 2), (x + y) % 2);
    Parity(z, y);
    Parity(x, y);
    FlipTwice(x % 2, y % 2);
  }

  lemma FlipTwice(u: nat, v: nat)
    requires u < 2 && v < 2
    ensures ((u + v) % 2 + v) % 2 == u
  {
  }

  /** Bits that do not overlap: or is addition. */
  lemma {:induction false} OrDisjoint(x: nat, y: nat, k: nat)
    requires x < Pow2(k)
    ensures Or(x, y * Pow2(k)) == x + y * Pow2(k)
    decreases k
  {
    if k == 0 {
      OrZero(y);
    } else if !(x == 0 && y == 0) {
      var p := Pow2(k - 1);
      assert y * Pow2(k) == 2 * (y * p);
      OrDisjoint(x / 2, y, k - 1);
    }
  }

  lemma {:induction false} OrZero(y: nat)
    ensures Or(0, y) == y
  {
    if y > 0 {
      OrZero(y / 2);
    }
  }

  lemma {:induction false} Pow2Add(j: nat, k: nat)
    ensures Pow2(j + k) == Pow2(j) * Pow2(k)
    decreases j
  {
    if j > 0 {
      Pow2Add(j - 1, k);
      Regroup(Pow2(j - 1), Pow2(k));
    }
  }

  lemma Regroup(p: nat, x: int)
    ensures 2 * p * x == 2 * (p * x)
  {
  }
}
