// Fermat's little theorem and what the public-key routines need of prime moduli.

module NumberTheory {
  import opened Words
  import opened Congruence

  ghost predicate Divides(d: int, a: int) {
    Cong(a, 0, d)
  }

  ghost predicate Prime(p: nat) {
    p >= 2 && forall d: nat | 2 <= d < p :: p % d != 0
  }

  // --- units modulo a prime ---

  /** A number below a prime, other than zero, has an inverse: Euclid's descent on p mod a. */
  lemma {:induction false} SmallUnit(p: nat, a: nat) returns (b: int)
    requires Prime(p) && 1 <= a < p
    ensures Inverse(a, b, p)
    decreases a
  {
    hide Cong;
    if a == 1 {
      b := 1;
      CongRefl(1, p);
    } else {
      var q, r := p / a, p % a;
      var c := SmallUnit(p, r);
      b := -(q * c);
      MulNeg(a, q * c);
      DescentStep(p, a, q, r, c);
    }
  }

  lemma MulNeg(a: int, b: int)
    ensures a * (-b) == -(a * b) == (-a) * b
  {}

  lemma DescentStep(p: nat, a: nat, q: nat, r: nat, c: int)
    requires p == a * q + r && Cong(r * c, 1, p)
    ensures Cong(-(a * (q * c)), 1, p)
  {
    hide Cong;
    MulDist(c, a * q, r);
    MulComm(c, a * q + r);
    MulComm(a * q, c);
    MulAssoc(a, q, c);
    MulComm(c, r);
    CongAddMultiple(r * c, c, p);
    CongSym(r * c - c * p, r * c, p);
    CongSym(r * c, r * c - c * p, p);
    CongTrans(-(a * (q * c)), r * c, 1, p);
  }

  lemma PrimeUnit(p: nat, a: int)
    requires Prime(p) && !Divides(p, a)
    ensures Unit(a, p)
  {
    hide Cong;
    var r := a % p;
    CongMod(a, p);
    if r == 0 { assert false; }
    var b := SmallUnit(p, r);
    CongScale(a, r, b, p);
    CongTrans(a * b, r * b, 1, p);
    assert Inverse(a, b, p);
  }

  lemma CongMod(a: int, m: nat)
    requires m > 0
    ensures Cong(a, a % m, m) && Cong(a % m, a, m)
  {
    MulComm(a / m, m);
    CongBy(a, a % m, m, a / m);
    CongSym(a, a % m, m);
  }

  /** Euclid's lemma. */
  lemma PrimeDivides(p: nat, a: int, b: int)
    requires Prime(p) && Divides(p, a * b)
    ensures Divides(p, a) || Divides(p, b)
  {
    hide Cong;
    if !Divides(p, a) {
      PrimeUnit(p, a);
      var c :| Inverse(a, c, p);
      MulComm(a, b);
      CongRefl(0, p);
      assert 0 * a == 0;
      CongCancel(b, 0, a, c, p);
    }
  }

  // --- binomial coefficients ---

  ghost function Choose(n: nat, k: nat): nat {
    if k == 0 then 1 else if n == 0 then 0 else Choose(n - 1, k - 1) + Choose(n - 1, k)
  }

  lemma {:induction false} ChooseAbove(n: nat, k: nat)
    requires k > n
    ensures Choose(n, k) == 0
  {
    if n > 0 {
      ChooseAbove(n - 1, k - 1);
      ChooseAbove(n - 1, k);
    }
  }

  lemma {:induction false} ChooseAll(n: nat)
    ensures Choose(n, n) == 1
  {
    if n > 0 {
      ChooseAll(n - 1);
      ChooseAbove(n - 1, n);
    }
  }

  lemma {:induction false} Absorb(n: nat, k: nat)
    requires n >= 1 && k >= 1
    ensures k * Choose(n, k) == n * Choose(n - 1, k - 1)
  {
    if n == 1 {
      if k >= 2 {
        ChooseAbove(1, k);
        ChooseAbove(0, k - 1);
      }
    } else if k == 1 {
      Absorb(n - 1, 1);
    } else {
      Absorb(n - 1, k - 1);
      Absorb(n - 1, k);
      var x, y := Choose(n - 2, k - 2), Choose(n - 2, k - 1);
      assert Choose(n - 1, k - 1) == x + y;
      MulDist(k, Choose(n - 1, k - 1), Choose(n - 1, k));
      AbsorbStep(n, k, Choose(n - 1, k - 1), Choose(n - 1, k), x, y);
    }
  }

  lemma AbsorbStep(n: int, k: int, c: int, d: int, x: int, y: int)
    requires c == x + y && (k - 1) * c == (n - 1) * x && k * d == (n - 1) * y
    ensures k * c + k * d == n * c
  {
    MulDist(c, k - 1, 1);
    MulDist(n - 1, x, y);
    MulComm(c, k);
    MulDist(c, n - 1, 1);
  }

  lemma PrimeChoose(p: nat, k: nat)
    requires Prime(p) && 1 <= k < p
    ensures Divides(p, Choose(p, k))
  {
    hide Cong, Choose;
    Absorb(p, k);
    MulComm(p, Choose(p - 1, k - 1));
    CongAddMultiple(0, Choose(p - 1, k - 1), p);
    assert Divides(p, k * Choose(p, k));
    PrimeDivides(p, k, Choose(p, k));
    if Divides(p, k) { CongUnique(k, 0, p); }
  }

  /** The first m + 1 terms of the binomial expansion of (1 + a)^n. */
  ghost function Terms(n: nat, m: nat, a: int): int {
    Choose(n, m) * Exp(a, m) + if m == 0 then 0 else Terms(n, m - 1, a)
  }

  lemma {:induction false} TermsStep(n: nat, m: nat, a: int)
    requires n >= 1
    ensures Terms(n, m, a) == Terms(n - 1, m, a) + if m == 0 then 0 else a * Terms(n - 1, m - 1, a)
  {
    if m > 0 {
      TermsStep(n, m - 1, a);
      var x, y, e := Choose(n - 1, m - 1), Choose(n - 1, m), Exp(a, m - 1);
      MulDist(Exp(a, m), x, y);
      MulComm(Exp(a, m), x + y);
      MulAssoc(x, a, e);
      MulComm(x, a);
      MulAssoc(a, x, e);
      if m >= 2 { MulDist(a, x * e, Terms(n - 1, m - 2, a)); }
      TermsSum(x, y, a, e, Exp(a, m));
    }
  }

  lemma TermsSum(x: int, y: int, a: int, e: int, f: int)
    requires f == a * e
    ensures (x + y) * f == a * (x * e) + y * f
  {
    MulDist(f, x, y);
    MulComm(f, x + y);
    MulComm(f, x);
    MulComm(f, y);
    MulAssoc(x, a, e);
    MulComm(x, a);
    MulAssoc(a, x, e);
  }

  lemma {:induction false} Binomial(n: nat, a: int)
    ensures Exp(1 + a, n) == Terms(n, n, a)
  {
    if n > 0 {
      Binomial(n - 1, a);
      TermsStep(n, n, a);
      ChooseAbove(n - 1, n);
      var t := Terms(n - 1, n - 1, a);
      assert Terms(n - 1, n, a) == t;
      MulDist(t, 1, a);
      MulComm(t, 1 + a);
      MulComm(t, a);
    }
  }

  lemma {:induction false} TermsModPrime(p: nat, m: nat, a: int)
    requires Prime(p) && m < p
    ensures Cong(Terms(p, m, a), 1, p)
  {
    hide Cong, Choose;
    if m == 0 {
      assert Choose(p, 0) == 1 by { ChooseNone(p); }
      CongRefl(1, p);
    } else {
      TermsModPrime(p, m - 1, a);
      PrimeChoose(p, m);
      CongScale(Choose(p, m), 0, Exp(a, m), p);
      CongAdd(Choose(p, m) * Exp(a, m), 0 * Exp(a, m), Terms(p, m - 1, a), 1, p);
    }
  }

  lemma ChooseNone(n: nat)
    ensures Choose(n, 0) == 1
  {}

  lemma NextPower(p: nat, a: nat)
    requires Prime(p)
    ensures Cong(Exp(1 + a, p), 1 + Exp(a, p), p)
  {
    hide Cong, Choose, Exp;
    Binomial(p, a);
    ChooseAll(p);
    TermsModPrime(p, p - 1, a);
    CongRefl(Exp(a, p), p);
    CongAdd(Exp(a, p), Exp(a, p), Terms(p, p - 1, a), 1, p);
  }

  /** a to the p is a. */
  lemma {:induction false} FermatPower(p: nat, a: nat)
    requires Prime(p)
    ensures Cong(Exp(a, p), a, p)
  {
    hide Cong;
    if a == 0 {
      CongRefl(0, p);
    } else {
      FermatPower(p, a - 1);
      NextPower(p, a - 1);
      CongRefl(1, p);
      CongAdd(1, 1, Exp(a - 1, p), a - 1, p);
      CongTrans(Exp(a, p), 1 + Exp(a - 1, p), a, p);
    }
  }

  /** Fermat's little theorem. */
  lemma Fermat(p: nat, a: nat)
    requires Prime(p) && !Divides(p, a)
    ensures Cong(Exp(a, p - 1), 1, p)
  {
    hide Cong;
    FermatPower(p, a);
    PrimeUnit(p, a);
    var b :| Inverse(a, b, p);
    MulComm(a, Exp(a, p - 1));
    CongCancel(Exp(a, p - 1), 1, a, b, p);
  }

  /** Raising to an exponent that is one more than a multiple of p - 1 gives the base back. */
  lemma FermatRoundTrip(p: nat, a: nat, e: nat, k: nat)
    requires Prime(p) && k * (p - 1) >= 0 && e == 1 + k * (p - 1)
    ensures Cong(Exp(a, e), a, p)
  {
    hide Cong;
    if Divides(p, a) {
      CongScale(a, 0, Exp(a, e - 1), p);
      CongSym(a, 0, p);
      CongTrans(Exp(a, e), 0, a, p);
    } else {
      Fermat(p, a);
      ExpMul(a, p - 1, k);
      MulComm(k, p - 1);
      CongExp(Exp(a, p - 1), 1, k, p);
      ExpOne(k);
      CongScale(Exp(a, e - 1), 1, a, p);
    }
  }

  // --- two primes ---

  /** A number divisible by two distinct primes is divisible by their product. */
  lemma BothPrimes(p: nat, q: nat, a: int, b: int)
    requires Prime(p) && Prime(q) && p != q
    requires Cong(a, b, p) && Cong(a, b, q)
    ensures Cong(a, b, p * q)
  {
    var k :| a - b == Mult(k, p);
    var x := a - b;
    CongAdd(a, b, b, b, q) by { CongRefl(b, q); }
    assert Divides(q, k * p);
    PrimeDivides(q, k, p);
    if Divides(q, p) { PrimeNotMultiple(p, q); }
    var l :| k - 0 == Mult(l, q);
    MulAssoc(l, q, p);
    MulComm(q, p);
    CongBy(a, b, p * q, l);
  }

  lemma PrimeNotMultiple(p: nat, q: nat)
    requires Prime(p) && Prime(q) && p != q
    ensures !Divides(q, p)
  {
    if Divides(q, p) {
      var l :| p - 0 == Mult(l, q);
      if l <= 0 { MulMono(0, -l, 0, q); MulNeg(l, q); }
      if q > p { MulMono(1, l, q, q); }
      MulComm(l, q);
      DivUnique(p, q, l, 0);
    }
  }

  lemma CongModFactor(a: int, b: int, p: int, q: int)
    requires Cong(a, b, p * q)
    ensures Cong(a, b, p) && Cong(a, b, q)
  {
    var k :| a - b == Mult(k, p * q);
    MulAssoc(k, p, q);
    CongBy(a, b, q, k * p);
    MulComm(p, q);
    MulAssoc(k, q, p);
    CongBy(a, b, p, k * q);
  }

  /** A prime has no odd-one-out square roots of one. */
  lemma SquareRootOfOne(p: nat, y: int)
    requires Prime(p) && Cong(y * y, 1, p)
    ensures Cong(y, 1, p) || Cong(y, -1, p)
  {
    hide Cong;
    MulDist(y - 1, y, 1);
    MulDist(y, y, -1);
    CongRefl(1, p);
    CongAdd(y * y, 1, 1, 1, p);
    assert (y - 1) * (y + 1) == y * y - 1;
    PrimeDivides(p, y - 1, y + 1);
    if Divides(p, y - 1) {
      CongAdd(y - 1, 0, 1, 1, p);
    } else {
      CongAdd(y + 1, 0, 1, 1, p);
    }
  }
}
