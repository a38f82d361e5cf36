// Congruences and powers, shared by the modular exponentiations and what is built on them.

module Congruence {
  import opened Words

  ghost function Mult(k: int, m: int): int { k * m }

  /** a and b differ by a multiple of m. */
  ghost predicate Cong(a: int, b: int, m: int) {
    exists k: int :: a - b == Mult(k, m)
  }

  lemma CongBy(a: int, b: int, m: int, k: int)
    requires a - b == k * m
    ensures Cong(a, b, m)
  {
    assert a - b == Mult(k, m);
  }

  lemma CongRefl(a: int, m: int)
    ensures Cong(a, a, m)
  {
    CongBy(a, a, m, 0);
  }

  lemma CongSym(a: int, b: int, m: int)
    requires Cong(a, b, m)
    ensures Cong(b, a, m)
  {
    var k :| a - b == Mult(k, m);
    assert (-k) * m == -(k * m);
    CongBy(b, a, m, -k);
  }

  lemma CongTrans(a: int, b: int, c: int, m: int)
    requires Cong(a, b, m) && Cong(b, c, m)
    ensures Cong(a, c, m)
  {
    var k :| a - b == Mult(k, m);
    var l :| b - c == Mult(l, m);
    MulDist(m, k, l);
    CongBy(a, c, m, k + l);
  }

  lemma CongAdd(a: int, b: int, c: int, d: int, m: int)
    requires Cong(a, b, m) && Cong(c, d, m)
    ensures Cong(a + c, b + d, m) && Cong(a - c, b - d, m)
  {
    var k :| a - b == Mult(k, m);
    var l :| c - d == Mult(l, m);
    MulDist(m, k, l);
    CongBy(a + c, b + d, m, k + l);
    CongBy(a - c, b - d, m, k - l);
  }

  lemma CongMul(a: int, b: int, c: int, d: int, m: int)
    requires Cong(a, b, m) && Cong(c, d, m)
    ensures Cong(a * c, b * d, m)
  {
    var k :| a - b == Mult(k, m);
    var l :| c - d == Mult(l, m);
    // a*c - b*d == (a-b)*c + b*(c-d)
    MulDist(c, a, b);
    MulDist(b, c, d);
    MulAssoc(c, k, m);
    MulComm(c, k * m);
    MulAssoc(b, l, m);
    MulDist(m, c * k, b * l);
    CongBy(a * c, b * d, m, c * k + b * l);
  }

  lemma CongScale(a: int, b: int, c: int, m: int)
    requires Cong(a, b, m)
    ensures Cong(a * c, b * c, m) && Cong(c * a, c * b, m)
  {
    CongRefl(c, m);
    CongMul(a, b, c, c, m);
    CongMul(c, c, a, b, m);
  }

  /** Adding a multiple of the modulus changes nothing. */
  lemma CongAddMultiple(a: int, k: int, m: int)
    ensures Cong(a + k * m, a, m) && Cong(a - k * m, a, m)
  {
    CongBy(a + k * m, a, m, k);
    assert (-k) * m == -(k * m);
    CongBy(a - k * m, a, m, -k);
  }

  lemma CongRem(a: nat, m: nat)
    requires m > 0
    ensures Cong(a, a % m, m)
  {
    MulComm(a / m, m);
    CongBy(a, a % m, m, a / m);
  }

  /** Two residues below m that are congruent are equal. */
  lemma CongUnique(a: nat, b: nat, m: nat)
    requires a < m && b < m && Cong(a, b, m)
    ensures a == b
  {
    var k :| a - b == Mult(k, m);
    assert (-k) * m == -(k * m);
    if k >= 1 { MulMono(1, k, m, m); }
    if k <= -1 { MulMono(1, -k, m, m); }
  }

  /** A multiplier with an inverse can be cancelled. */
  lemma CongCancel(a: int, b: int, c: int, inv: int, m: int)
    requires Cong(a * c, b * c, m) && Cong(c * inv, 1, m)
    ensures Cong(a, b, m)
  {
    CongScale(a * c, b * c, inv, m);
    MulAssoc(a, c, inv);
    MulAssoc(b, c, inv);
    CongScale(c * inv, 1, a, m);
    CongScale(c * inv, 1, b, m);
    CongSym(a * (c * inv), a * 1, m);
    CongTrans(a, a * (c * inv), b * (c * inv), m);
    CongTrans(a, b * (c * inv), b, m);
  }

  // --- powers ---

  ghost function Exp(a: int, e: nat): int {
    if e == 0 then 1 else a * Exp(a, e - 1)
  }

  lemma {:induction false} ExpAdd(a: int, m: nat, n: nat)
    ensures Exp(a, m + n) == Exp(a, m) * Exp(a, n)
  {
    if m > 0 {
      ExpAdd(a, m - 1, n);
      assert Exp(a, m + n) == a * Exp(a, m - 1 + n);
      MulAssoc(a, Exp(a, m - 1), Exp(a, n));
    }
  }

  lemma {:induction false} ExpMul(a: int, m: nat, n: nat)
    ensures m * n >= 0 && Exp(Exp(a, m), n) == Exp(a, m * n)
    decreases n
  {
    if n == 0 {
      assert m * 0 == 0;
    } else {
      ExpMul(a, m, n - 1);
      MulDist(m, n - 1, 1);
      ExpAdd(a, m, m * (n - 1));
    }
  }

  lemma {:induction false} ExpOne(e: nat)
    ensures Exp(1, e) == 1
  {
    if e > 0 { ExpOne(e - 1); }
  }

  lemma {:induction false} ExpProduct(a: int, b: int, e: nat)
    ensures Exp(a * b, e) == Exp(a, e) * Exp(b, e)
  {
    if e > 0 {
      ExpProduct(a, b, e - 1);
      var x, y := Exp(a, e - 1), Exp(b, e - 1);
      Interchange(a, b, x, y);
    }
  }

  lemma Interchange(a: int, b: int, x: int, y: int)
    ensures (a * b) * (x * y) == (a * x) * (b * y)
  {
    MulAssoc(a * b, x, y);
    MulAssoc(a, b, x);
    MulComm(b, x);
    MulAssoc(a, x, b);
    MulAssoc(a * x, b, y);
  }

  lemma {:induction false} CongExp(a: int, b: int, e: nat, m: int)
    requires Cong(a, b, m)
    ensures Cong(Exp(a, e), Exp(b, e), m)
  {
    if e == 0 {
      CongRefl(1, m);
    } else {
      CongExp(a, b, e - 1, m);
      CongMul(a, b, Exp(a, e - 1), Exp(b, e - 1), m);
    }
  }

  lemma {:induction false} ExpPositive(a: nat, e: nat)
    ensures Exp(a, e) >= 0 && (a > 0 ==> Exp(a, e) > 0)
  {
    if e > 0 {
      ExpPositive(a, e - 1);
      MulMono(0, a, 0, Exp(a, e - 1));
      if a > 0 { MulMono(1, a, 1, Exp(a, e - 1)); }
    }
  }

  // --- units ---

  ghost predicate Inverse(a: int, b: int, m: int) {
    Cong(a * b, 1, m)
  }

  /** a has an inverse modulo m, that is, it is coprime to m. */
  ghost predicate Unit(a: int, m: int) {
    exists b: int :: Inverse(a, b, m)
  }

  /** A power of a unit is never congruent to the modulus. */
  lemma UnitPower(a: int, e: nat, m: nat)
    requires Unit(a, m) && m >= 2
    ensures !Cong(m, Exp(a, e), m) && !Cong(0, Exp(a, e), m)
  {
    hide Cong, Exp;
    var b :| Inverse(a, b, m);
    CongExp(a * b, 1, e, m);
    ExpOne(e);
    ExpProduct(a, b, e);
    var x, y := Exp(a, e), Exp(b, e);
    CongAddMultiple(0, 1, m);
    if Cong(m, x, m) {
      CongSym(m, 0, m);
      CongTrans(0, m, x, m);
    }
    if Cong(0, x, m) {
      CongScale(0, x, y, m);
      CongTrans(0, x * y, 1, m);
      CongUnique(0, 1, m);
    }
  }
}
