/** 64-bit arithmetic over the integers: powers of two, masks and remainders. */
module Arithmetic {

  const MOD64: nat := 0x1_0000_0000_0000_0000

  function Min(a: int, b: int): int { if a <= b then a else b }

  function Pow2(k: nat): (r: nat)
    ensures r > 0
  {
    if k == 0 then 1 else 2 * Pow2(k - 1)
  }

  /** Bitwise and. */
  function BitAnd(a: nat, b: nat): nat
    decreases a
  {
    if a == 0 then 0 else (a % 2) * (b % 2) + 2 * BitAnd(a / 2, b / 2)
  }

  /** A mask of `k` ones selects the remainder modulo 2 to the `k`. */
  lemma {:induction false} MaskIsRemainder(a: nat, k: nat)
    ensures BitAnd(a, Pow2(k) - 1) == a % Pow2(k)
    decreases k
  {
    if k == 0 {
      AndZero(a);
    } else {
      var m := Pow2(k - 1);
      assert (2 * m - 1) % 2 == 1 && (2 * m - 1) / 2 == m - 1;
      MaskIsRemainder(a / 2, k - 1);
      HalfRemainder(a, m);
    }
  }

  lemma {:induction false} AndZero(a: nat)
    ensures BitAnd(a, 0) == 0
    decreases a
  {
    if a > 0 {
      AndZero(a / 2);
    }
  }

  lemma HalfRemainder(a: nat, m: nat)
    requires m > 0
    ensures a % (2 * m) == a % 2 + 2 * ((a / 2) % m)
  {
    var q, r := (a / 2) / m, (a / 2) % m;
    assert a == 2 * (q * m + r) + a % 2;
    UniqueRemainder(a, 2 * m, q, 2 * r + a % 2);
  }

  lemma UniqueRemainder(a: int, m: int, q: int, r: int)
    requires m > 0 && 0 <= r < m && a == q * m + r
    ensures a % m == r
  {
    var p, s := a / m, a % m;
    Distance(p, q, m, s, r);
  }

  lemma UniqueQuotient(a: int, m: int, q: int, r: int)
    requires m > 0 && 0 <= r < m && a == q * m + r
    ensures a / m == q && a % m == r
  {
    var p, s := a / m, a % m;
    Distance(p, q, m, s, r);
  }

  lemma ProductGrows(a: nat, b: nat, n: nat)
    requires a <= b
    ensures a * n <= b * n
  {
    assert b * n == a * n + (b - a) * n;
  }

  lemma DivideTwice(i: nat, n: nat, m: nat)
    requires n > 0 && m > 0
    ensures m * n > 0 && i / n / m == i / (m * n)
  {
    AtLeastOne(m, n);
    QuotientOfProduct(i, n, m, m * n, i / n, i % n, i / n / m, i / n % m);
  }

  lemma QuotientOfProduct(i: nat, n: nat, m: nat, k: nat, q: nat, r: nat, a: nat, b: nat)
    requires i == q * n + r && r < n && q == a * m + b && b < m && k == m * n && k > 0
    ensures i / k == a
  {
    Regroup(a, b, m, n);
    ProductGrows(b + 1, m, n);
    UniqueQuotient(i, k, a, b * n + r);
  }

  lemma Regroup(a: nat, b: nat, m: nat, n: nat)
    ensures (a * m + b) * n == a * (m * n) + b * n
  {
  }

  lemma Distance(p: int, q: int, m: int, s: int, r: int)
    requires m > 0 && 0 <= r < m && 0 <= s < m && p * m + s == q * m + r
    ensures p == q && s == r
  {
    AtLeastOne(p - q, m);
    AtLeastOne(q - p, m);
  }

  lemma AtLeastOne(d: int, m: int)
    requires m > 0
    ensures d >= 1 ==> d * m >= m
  {
    if d >= 1 {
      assert d * m == m + (d - 1) * m;
    }
  }

  lemma ShiftByMultiple(x: int, q: int, a: int)
    requires q > 0
    ensures (x + a * q) % q == x % q
  {
    var d, r := x / q, x % q;
    assert x + a * q == (d + a) * q + r;
    UniqueRemainder(x + a * q, q, d + a, r);
  }

  lemma RemainderOfRemainder(x: int, q: int, r: int)
    requires q > 0 && r > 0
    ensures q * r > 0 && (x % (q * r)) % q == x % q
  {
    AtLeastOne(q, r);
    var t, y := x / (q * r), x % (q * r);
    assert x == t * (q * r) + y;
    assert t * (q * r) == (t * r) * q;
    ShiftByMultiple(y, q, t * r);
  }

  lemma RemainderOfStep(hash: nat, gear: nat, m: nat, r: nat)
    requires m > 0 && r > 0
    ensures var q := 2 * m;
      q * r > 0 && ((hash * 2 % (q * r) + gear) % (q * r)) % q == (2 * (hash % m) + gear) % q
  {
    var q := 2 * m;
    var x := hash * 2;
    RemainderOfRemainder(x, q, r);
    var y := x % (q * r);
    RemainderOfRemainder(y + gear, q, r);
    SameRemainderPlus(y, x, gear, q);
    var a, low := hash / m, hash % m;
    DoubleDivision(hash, m);
    ShiftByMultiple(2 * low + gear, q, a);
  }

  lemma DoubleDivision(x: nat, m: nat)
    requires m > 0
    ensures x * 2 == 2 * (x % m) + (x / m) * (2 * m)
  {
    var a := x / m;
    assert x == a * m + x % m;
    assert a * (2 * m) == 2 * (a * m);
  }

  lemma SameRemainderPlus(x: int, y: int, g: int, q: int)
    requires q > 0 && x % q == y % q
    ensures (x + g) % q == (y + g) % q
  {
    var d := x / q - y / q;
    assert x == (x / q) * q + x % q && y == (y / q) * q + y % q;
    assert x == y + d * q;
    ShiftByMultiple(y + g, q, d);
  }

  lemma {:induction false} Pow2Adds(a: nat, b: nat)
    ensures Pow2(a + b) == Pow2(a) * Pow2(b)
    decreases a
  {
    if a > 0 {
      Pow2Adds(a - 1, b);
      TwiceProduct(Pow2(a - 1), Pow2(b));
    }
  }

  lemma TwiceProduct(x: nat, y: nat)
    ensures (2 * x) * y == 2 * (x * y)
  {
  }

  lemma Pow2Of32()
    ensures Pow2(32) == 0x1_0000_0000
  {
    assert Pow2(4) == 16;
    Pow2Adds(4, 4);
    Pow2Adds(8, 8);
    Pow2Adds(16, 16);
  }

  lemma Pow2Of64()
    ensures Pow2(64) == MOD64
  {
    Pow2Of32();
    Pow2Adds(32, 32);
  }

  /** Base-two logarithm rounded up: the trailing zeros of the next power of two. */
  function CeilLog2(n: nat): (k: nat)
    ensures Pow2(k) >= n && (k > 0 ==> Pow2(k - 1) < n)
  {
    if n <= 1 then 0 else 1 + CeilLog2((n + 1) / 2)
  }

  lemma {:induction false} Pow2Grows(a: nat, b: nat)
    requires a <= b
    ensures Pow2(a) <= Pow2(b)
    decreases b - a
  {
    if a < b {
      Pow2Grows(a, b - 1);
    }
  }

  /** The logarithm is the only exponent that fits. */
  lemma CeilLog2IsOnly(n: nat, b: nat)
    requires b > 0 && Pow2(b - 1) < n <= Pow2(b)
    ensures CeilLog2(n) == b
  {
    hide Pow2;
    var k := CeilLog2(n);
    if k < b {
      Pow2Grows(k, b - 1);
    } else if k > b {
      Pow2Grows(b, k - 1);
    }
  }

  /** Twice a remainder stands for twice the number. */
  lemma DoubledRemainder(x: nat, g: nat, m: nat)
    requires m > 0
    ensures (2 * (x % m) + g) % (2 * m) == (2 * x + g) % (2 * m)
  {
    DoubleDivision(x, m);
    ShiftByMultiple(2 * (x % m) + g, 2 * m, x / m);
  }
}
