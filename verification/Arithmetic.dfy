/** Facts about division with a variable divisor, and powers of two. */
module Arithmetic {

  lemma MulMono(d: int, k: int)
    requires d > 0 && k >= 1
    ensures d * k >= d
  {
  }

  lemma SmallMultiple(d: int, k: int)
    requires d > 0 && -d < d * k < d
    ensures k == 0
  {
    if k >= 1 {
      MulMono(d, k);
    } else if k <= -1 {
      assert d * -k == -(d * k);
      MulMono(d, -k);
    }
  }

  /** Two values of the form `d * q + r` that agree have the same quotient and remainder. */
  lemma QuotientUnique(d: int, q: int, r: int, q': int, r': int)
    requires d > 0 && 0 <= r < d && 0 <= r' < d
    requires d * q + r == d * q' + r'
    ensures q == q' && r == r'
  {
    assert d * (q - q') == d * q - d * q';
    SmallMultiple(d, q - q');
  }

  lemma DivMod(n: int, d: int)
    requires d > 0
    ensures n == d * (n / d) + n % d && 0 <= n % d < d
  {
  }

  lemma DivModUnique(d: int, n: int, q: int, r: int)
    requires d > 0 && 0 <= r < d && n == d * q + r
    ensures n % d == r && n / d == q
  {
    DivMod(n, d);
    QuotientUnique(d, q, r, n / d, n % d);
  }

  lemma ModFacts(n: int, d: int)
    requires d > 0
    ensures 0 <= n % d < d && (0 <= n < d ==> n % d == n)
  {
    DivMod(n, d);
    if 0 <= n < d {
      DivModUnique(d, n, 0, n);
    }
  }

  lemma ModShift(size: int, x: int, b: int)
    requires size > 0
    ensures (size * x + b) % size == b % size
  {
    DivMod(b, size);
    assert size * x + b == size * (x + b / size) + b % size;
    DivModUnique(size, size * x + b, x + b / size, b % size);
  }

  lemma ModDistinct(size: int, k: int, n: int)
    requires size > 0 && k < n < k + size
    ensures k % size != n % size
  {
    DivMod(k, size);
    DivMod(n, size);
    if k % size == n % size {
      assert n - k == size * (n / size - k / size);
      SmallMultiple(size, n / size - k / size);
    }
  }

  /** Counting up by one crosses a multiple of `d` exactly when the new number is one. */
  lemma DivStep(y: int, d: int)
    requires d > 0
    ensures y / d == (y - 1) / d + if y % d == 0 then 1 else 0
  {
    DivMod(y - 1, d);
    var q, r := (y - 1) / d, (y - 1) % d;
    if r == d - 1 {
      DivModUnique(d, y, q + 1, 0);
    } else {
      DivModUnique(d, y, q, r + 1);
    }
  }

  /** Reducing modulo a multiple of `size` first does not change the remainder. */
  lemma ModOfMod(n: int, big: int, size: int)
    requires size > 0 && big > 0 && big % size == 0
    ensures n % big % size == n % size
  {
    DivMod(n, big);
    DivMod(big, size);
    assert big * (n / big) == size * (big / size * (n / big));
    ModShift(size, big / size * (n / big), n % big);
  }

  function Pow2(k: nat): (p: nat)
    ensures p > 0
  {
    if k == 0 then 1 else 2 * Pow2(k - 1)
  }

  lemma Pow2Of16()
    ensures Pow2(16) == 0x1_0000
  {
    assert Pow2(4) == 16;
    assert Pow2(8) == 16 * Pow2(4);
    assert Pow2(12) == 16 * Pow2(8);
    assert Pow2(16) == 16 * Pow2(12);
  }

  lemma {:induction false} Pow2Splits(j: nat, k: nat)
    requires j <= k
    ensures Pow2(j) * Pow2(k - j) == Pow2(k)
    decreases k
  {
    if j < k {
      Pow2Splits(j, k - 1);
      assert Pow2(j) * (2 * Pow2(k - 1 - j)) == 2 * (Pow2(j) * Pow2(k - 1 - j));
    }
  }

  lemma OddProduct(d: nat, c: nat)
    requires d % 2 == 1 && c % 2 == 1
    ensures d * c % 2 == 1
  {
    var a, b := d / 2, c / 2;
    assert d * c == (2 * a + 1) * (2 * b + 1) == 2 * (2 * (a * b) + a + b) + 1;
  }

  lemma UnitProduct(d: nat, c: nat)
    requires d * c == 1
    ensures d == 1
  {
    if d >= 2 && c >= 1 { MulMono(d, c); }
  }

  lemma HalfProduct(d: nat, c: nat)
    requires d % 2 == 0
    ensures d * c == 2 * (d / 2 * c)
  {
    assert d == 2 * (d / 2);
  }

  lemma {:induction false} DivisorOfPow2(d: nat, c: nat, k: nat)
    requires d * c == Pow2(k)
    ensures exists j: nat :: j <= k && d == Pow2(j)
    decreases k
  {
    if k == 0 {
      UnitProduct(d, c);
      assert d == Pow2(0);
    } else if d % 2 == 0 {
      HalfProduct(d, c);
      DivisorOfPow2(d / 2, c, k - 1);
      var j: nat :| j <= k - 1 && d / 2 == Pow2(j);
      assert d == Pow2(j + 1);
    } else {
      if c % 2 == 1 { OddProduct(d, c); }
      HalfProduct(c, d);
      assert d * c == c * d && d * (c / 2) == c / 2 * d;
      DivisorOfPow2(d, c / 2, k - 1);
    }
  }
}
