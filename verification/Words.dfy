/** Unsigned 64-bit words as naturals: modular arithmetic, bitwise `&`, powers of two. */
module Words {

  const MODULUS: nat := 0x1_0000_0000_0000_0000

  datatype Option<+T> = None | Some(value: T)

  /** Addition of two `uint64_t` values. */
  function Add(x: nat, y: nat): nat { (x + y) % MODULUS }

  /** Subtraction of two `uint64_t` values. */
  function Sub(x: nat, y: nat): nat { (x - y) % MODULUS }

  function Min(x: nat, y: nat): nat {
    if x <= y then x else y
  }

  function Pow2(k: nat): (r: nat)
    ensures r > 0
  {
    if k == 0 then 1 else 2 * Pow2(k - 1)
  }

  /** The bitwise `&` of two naturals, bit by bit. */
  function And(x: nat, y: nat): (r: nat)
    ensures r <= x && r <= y
  {
    if x == 0 || y == 0 then 0
    else (if x % 2 == 1 && y % 2 == 1 then 1 else 0) + 2 * And(x / 2, y / 2)
  }

  lemma {:induction false} DoubleModulus(x: nat, m: nat)
    requires m > 0
    ensures x % (2 * m) == x % 2 + 2 * ((x / 2) % m)
  {
    var q := (x / 2) / m;
    assert x / 2 == q * m + (x / 2) % m;
    assert x == q * (2 * m) + (x % 2 + 2 * ((x / 2) % m)) by {
      assert q * (2 * m) == 2 * (q * m);
    }
    ModUnique(x, 2 * m, q, x % 2 + 2 * ((x / 2) % m));
  }

  lemma MulGrows(d: int, m: int)
    requires m > 0
    ensures d >= 1 ==> d * m >= m
    ensures d <= -1 ==> d * m <= -m
  {
    if d >= 1 {
      assert d * m == (d - 1) * m + m;
    }
    if d <= -1 {
      assert d * m == (d + 1) * m - m;
    }
  }

  /** The remainder is determined by any quotient that leaves it in range. */
  lemma ModUnique(x: int, m: int, q: int, r: int)
    requires m > 0 && 0 <= r < m && x == q * m + r
    ensures x % m == r && x / m == q
  {
    var d := x / m - q;
    assert x == (x / m) * m + x % m;
    assert d * m == r - x % m;
    MulGrows(d, m);
  }

  lemma AndUnfold(x: nat, y: nat)
    ensures And(x, y) == (if x % 2 == 1 && y % 2 == 1 then 1 else 0) + 2 * And(x / 2, y / 2)
  {
  }

  /** Masking with `2^k - 1` is the remainder modulo `2^k`. */
  lemma {:induction false} AndMask(x: nat, k: nat)
    ensures And(x, Pow2(k) - 1) == x % Pow2(k)
  {
    hide And;
    if k == 0 {
      AndZero(x);
    } else {
      var m := Pow2(k - 1);
      AndMask(x / 2, k - 1);
      DoubleModulus(x, m);
      HalfOfMask(m);
      var mask := 2 * m - 1;
      AndUnfold(x, mask);
    }
  }

  lemma AndZero(x: nat)
    ensures And(x, 0) == 0
  {
  }

  lemma HalfOfMask(m: int)
    ensures (2 * m - 1) / 2 == m - 1 && (2 * m - 1) % 2 == 1
  {
  }

  ghost predicate IsPow2(c: nat) {
    exists k: nat :: c == Pow2(k)
  }

  lemma DoublePow2(c: nat)
    requires c > 0
    ensures IsPow2(2 * c) <==> IsPow2(c)
  {
    if IsPow2(c) {
      var k: nat :| c == Pow2(k);
      assert 2 * c == Pow2(k + 1);
    }
    if IsPow2(2 * c) {
      var k: nat :| 2 * c == Pow2(k);
      assert k > 0 && c == Pow2(k - 1);
    }
  }

  lemma OddPow2(c: nat)
    requires c % 2 == 1
    ensures IsPow2(c) <==> c == 1
  {
    if c == 1 {
      assert c == Pow2(0);
    }
    if IsPow2(c) {
      var k: nat :| c == Pow2(k);
      assert k > 0 ==> c == 2 * Pow2(k - 1);
    }
  }

  /** `c & (c - 1)` is zero exactly for the powers of two. */
  lemma {:induction false} ClearLowestBit(c: nat)
    requires c > 0
    ensures And(c, c - 1) == 0 <==> IsPow2(c)
  {
    var d := c - 1;
    AndUnfold(c, d);
    if c % 2 == 1 {
      OddPow2(c);
      assert c / 2 == d / 2;
      AndSelf(c / 2);
    } else {
      ClearLowestBit(c / 2);
      assert d / 2 == c / 2 - 1;
      DoublePow2(c / 2);
    }
  }

  lemma {:induction false} AndSelf(x: nat)
    ensures And(x, x) == x
  {
    if x > 0 { AndSelf(x / 2); }
  }

  lemma {:induction false} PowSum(j: nat, k: nat)
    ensures Pow2(j + k) == Pow2(j) * Pow2(k)
  {
    if j > 0 { PowSum(j - 1, k); }
  }

  lemma PowFour()
    ensures Pow2(4) == 16
  {
    assert Pow2(2) == 4;
  }

  lemma ModulusIsPower()
    ensures MODULUS == Pow2(64)
  {
    hide Pow2;
    PowFour();
    PowSum(4, 4);
    PowSum(8, 8);
    PowSum(16, 16);
    PowSum(32, 32);
  }

  /** Reducing modulo a multiple first does not change the remainder. */
  lemma ModOfMod(x: nat, c: nat, d: nat)
    requires c > 0 && d > 0
    ensures (x % (c * d)) % c == x % c
  {
    var m := c * d;
    var y := x % m;
    var q := x / m;
    assert x == q * m + y;
    assert q * m == (q * d) * c;
    var q' := y / c;
    assert y == q' * c + y % c;
    assert x == (q * d + q') * c + y % c by {
      assert (q * d + q') * c == (q * d) * c + q' * c;
    }
    ModUnique(x, c, q * d + q', y % c);
  }

  /** Two numbers less than `m` apart with the same remainder are equal. */
  lemma ModInjective(x: int, y: int, m: int)
    requires m > 0 && x % m == y % m && -m < x - y < m
    ensures x == y
  {
    var d := x / m - y / m;
    assert x == (x / m) * m + x % m;
    assert y == (y / m) * m + y % m;
    assert x - y == d * m;
    MulGrows(d, m);
  }

  lemma AddWraps(x: nat, y: nat)
    ensures Add(x % MODULUS, y) == (x + y) % MODULUS
  {
    AddModulo(x, y, MODULUS);
  }

  lemma AddModulo(x: nat, y: int, m: int)
    requires m > 0
    ensures (x % m + y) % m == (x + y) % m
  {
    var q := (x % m + y) / m;
    assert x % m + y == q * m + (x % m + y) % m;
    assert x == (x / m) * m + x % m;
    assert x + y == (x / m + q) * m + (x % m + y) % m by {
      assert (x / m + q) * m == (x / m) * m + q * m;
    }
    ModUnique(x + y, m, x / m + q, (x % m + y) % m);
  }

  lemma AddMultiple(x: int, q: int, m: int)
    requires m > 0
    ensures (x + q * m) % m == x % m
  {
    assert x == (x / m) * m + x % m;
    assert x + q * m == (x / m + q) * m + x % m by {
      assert (x / m + q) * m == (x / m) * m + q * m;
    }
    ModUnique(x + q * m, m, x / m + q, x % m);
  }

  /** Subtracting wrapped numbers gives the wrapped difference. */
  lemma SubModulo(x: nat, y: nat)
    ensures Sub(x % MODULUS, y % MODULUS) == (x - y) % MODULUS
  {
    var m := MODULUS as int;
    var q := y / m - x / m;
    assert x == (x / m) * m + x % m;
    assert y == (y / m) * m + y % m;
    assert x % m - y % m == (x - y) + q * m;
    AddMultiple(x - y, q, m);
  }
}
