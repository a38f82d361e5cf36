// RSA by the Chinese remainder theorem: crypt/negate.c, crypt/crtCombine.c, crypt/bigCube.c and the
// encryption and decryption of crypt/rsa.c.

module Rsa {
  import opened Words
  import opened BigInts
  import opened Multiply
  import opened Additive
  import opened Reduction
  import opened Congruence
  import opened Montgomery
  import opened ModPow
  import opened NumberTheory

  /** A number with a positive sign and no leading zero word. */
  ghost predicate Plain(x: BigInt)
    reads x, x.num
  {
    x.Valid() && x.Trimmed() && x.sign == POS
  }

  /** A modulus the reductions accept. */
  ghost predicate Modulus(x: BigInt)
    reads x, x.num
  {
    Plain(x) && x.length >= 2
  }

  ghost function WordCount(x: nat): nat {
    if x < BASE then 1 else 1 + WordCount(x / BASE)
  }

  lemma {:induction false} WordCountIs(x: nat, n: nat)
    requires n >= 1 && x < Pow(n) && (n == 1 || Pow(n - 1) <= x)
    ensures WordCount(x) == n
  {
    if n == 1 {
      assert Pow(1) == BASE * Pow(0);
    } else {
      PowPositive(n - 2);
      assert Pow(n) == BASE * Pow(n - 1) && Pow(n - 1) == BASE * Pow(n - 2);
      DivBetween(x, Pow(n - 2), Pow(n - 1));
      if n == 2 { assert x / BASE >= 1; }
      WordCountIs(x / BASE, n - 1);
    }
  }

  lemma DivBetween(x: nat, lo: nat, hi: nat)
    requires BASE * lo <= x < BASE * hi
    ensures lo <= x / BASE < hi
  {}

  lemma LengthIsCount(x: BigInt)
    requires Plain(x)
    ensures x.length == WordCount(x.Mag())
  {
    hide Val, Pow;
    ValBound(x.num[..x.length]);
    if x.length >= 2 { LengthBounds1(x); }
    WordCountIs(x.Mag(), x.length);
  }

  lemma MinusOneMod(a: int, p: int)
    ensures Cong(a * (p - 1), -a, p)
  {
    MulDist(a, p, 1);
    CongBy(a * (p - 1), -a, p, a);
  }

  method LessOne(p: BigInt) returns (minus1: BigInt)
    requires Modulus(p)
    modifies p`length
    ensures p.length == old(p.length)
    ensures fresh(minus1) && fresh(minus1.num) && Plain(minus1) && minus1.Spare() && minus1.Mag() == p.Mag() - 1
  {
    hide Val, Pow, DifferenceLoss;
    minus1 := new BigInt(0);
    var one := new BigInt(1);
    LengthBounds1(p);
    LossElsewhere(p, one, minus1);
    BigSubtract(p, one, minus1);
  }

  /** negate's general branch: times p - 1, modulo p, sign dropped. */
  method NegateByProduct(a: BigInt, p: BigInt, result: BigInt, cut: Cutoffs)
    requires cut.Valid() && a.Valid() && a.Trimmed() && Modulus(p) && result.Valid() && result.Spare()
    requires Distinct(a, p) && Distinct(p, result) && SameOrDistinct(a, result)
    modifies a`length, p, p.num, result, result.num
    ensures Modulus(p) && p.Mag() == old(p.Mag()) && (p.num == old(p.num) || fresh(p.num))
    ensures a != result ==> a.length == old(a.length)
    ensures Plain(result) && result.Spare() && (result.num == old(result.num) || fresh(result.num)) &&
        Distinct(p, result)
    ensures p.Mag() > 0 && result.Mag() == ModResult(Times(old(a.Mag()), p.Mag() - 1), p.Mag())
  {
    hide Val, Pow, Cong, ModResult, DifferenceLoss, Times;
    ghost var am: int, pm: int := a.Mag(), p.Mag();
    var tmp := new BigInt(0);
    var minus1 := LessOne(p);
    BigMultiply(a, minus1, tmp, cut);
    TimesIs(am, pm - 1);
    BigMod(tmp, p, result);
    result.sign := POS;
  }

  /** What negate computes of a number of magnitude a. */
  ghost function Negation(a: nat, positive: bool, p: nat): nat
    requires p > 0
  {
    if p > a && positive then p - a else ModResult(Times(a, p - 1), p)
  }

  /** Whatever the sign, the residue of minus the magnitude. */
  lemma NegationCong(a: nat, positive: bool, p: nat)
    requires p > 0
    ensures Negation(a, positive, p) <= p && Cong(Negation(a, positive, p), 0 - a, p)
  {
    hide Cong, ModResult, Times;
    if p > a && positive {
      CongAddMultiple(0 - a, 1, p);
    } else {
      TimesIs(a, p - 1);
      ModResultCong(Times(a, p - 1), p);
      MinusOneMod(a, p);
      CongTrans(Negation(a, positive, p), a * (p - 1), 0 - a, p);
    }
  }

  /** crypt/negate.c: whatever a's sign, the residue of minus its magnitude. */
  method Negate(a: BigInt, p: BigInt, result: BigInt, cut: Cutoffs)
    requires cut.Valid() && a.Valid() && a.Trimmed() && Modulus(p) && result.Valid() && result.Spare()
    requires Distinct(a, p) && Distinct(p, result) && SameOrDistinct(a, result)
    modifies a`length, p, p.num, result, result.num
    ensures Modulus(p) && p.Mag() == old(p.Mag()) && (p.num == old(p.num) || fresh(p.num))
    ensures a != result ==> a.length == old(a.length)
    ensures Plain(result) && result.Spare() && (result.num == old(result.num) || fresh(result.num)) &&
        Distinct(p, result)
    ensures p.Mag() > 0 && result.Mag() == Negation(old(a.Mag()), old(a.sign) == POS, p.Mag())
    ensures result.Mag() <= p.Mag() && Cong(result.Mag(), 0 - old(a.Mag()), p.Mag())
  {
    hide Val, Pow, Cong, DifferenceLoss, Times, ModResult;
    ghost var am, pm := a.Mag(), p.Mag();
    LengthBounds1(p);
    NegationCong(am, a.sign == POS, pm);
    var r := Compare(p, a);
    if r > 0 && a.sign == POS {
      LossElsewhere(p, a, result);
      BigSubtract(p, a, result);
    } else {
      NegateByProduct(a, p, result, cut);
    }
  }

  // --- recombination ---

  /** What a subtraction in place of y from x leaves too much. */
  ghost function Excess(x: nat, y: nat): nat {
    if Loses(x, y, WordCount(y)) then Pow(WordCount(y) + 1) else 0
  }

  /** b - a as crtCombine gets it: in place over b's copy. */
  ghost function Gap(a: nat, b: nat): int {
    if b >= a then b - a + Excess(b, a) else b - a
  }

  ghost function Absolute(x: int): nat {
    if x >= 0 then x else 0 - x
  }

  lemma ExcessIs(a: BigInt, b: BigInt)
    requires Plain(b) && a.Valid() && a.Trimmed()
    ensures Loss(a, b, a) == Excess(a.Mag(), b.Mag())
  {
    hide Val, Pow;
    LossIs(a, b, a);
    LengthIsCount(b);
  }

  lemma NoExcess(x: nat, y: nat)
    requires x <= y
    ensures Excess(x, y) == 0
  {
    hide Pow, WordCount;
    CountBounds(y);
    PowMono(WordCount(y), WordCount(y) + 1);
  }

  lemma {:induction false} CountBounds(x: nat)
    ensures WordCount(x) >= 1 && x < Pow(WordCount(x)) && (x >= BASE ==> WordCount(x) >= 2)
  {
    if x < BASE {
      assert Pow(1) == BASE * Pow(0);
    } else {
      CountBounds(x / BASE);
      assert Pow(WordCount(x)) == BASE * Pow(WordCount(x) - 1);
    }
  }

  /** u2 := b - a, over a copy of b. */
  method CopiedGap(a: BigInt, b: BigInt) returns (u1: BigInt, u2: BigInt)
    requires Plain(a) && Plain(b)
    ensures fresh(u1) && fresh(u1.num) && Plain(u1) && u1.Spare() && u1.Mag() == a.Mag()
    ensures fresh(u2) && fresh(u2.num) && u2.Valid() && u2.Trimmed() && Distinct(u1, u2)
    ensures u2.sign == if b.Mag() >= a.Mag() then POS else NEG
    ensures u2.Mag() == Absolute(Gap(a.Mag(), b.Mag()))
  {
    hide Val, Pow, Loss, Excess;
    u1 := new BigInt(0);
    u2 := new BigInt(0);
    Copy(a, u1);
    Copy(b, u2);
    GapInPlace(u1, u2);
  }

  method GapInPlace(u1: BigInt, u2: BigInt)
    requires Plain(u1) && Plain(u2) && Distinct(u1, u2)
    modifies u1`length, u2, u2.num
    ensures u1.length == old(u1.length)
    ensures u2.Valid() && u2.Trimmed() && (u2.num == old(u2.num) || fresh(u2.num))
    ensures u2.sign == if old(u2.Mag()) >= u1.Mag() then POS else NEG
    ensures u2.Mag() == Absolute(Gap(u1.Mag(), old(u2.Mag())))
  {
    hide Val, Pow, Loss, Excess;
    ExcessIs(u2, u1);
    if u2.Mag() == u1.Mag() { NoExcess(u2.Mag(), u1.Mag()); }
    if u2.Mag() < u1.Mag() { LossElsewhere(u2, u1, u2); }
    BigSubtract(u2, u1, u2);
  }

  /** The multiple of p that crtCombine adds to a. */
  ghost function Multiple(a: nat, b: nat, p: nat, q: nat, c12: nat): (m: int)
    requires q > 0
  {
    var t: int := ModResult(Times(c12, Absolute(Gap(a, b))), q);
    (if b >= a then t else 0 - t) * p
  }

  /** The sum as crtCombine gets it: a negative multiple is added in place too. */
  ghost function Combined(a: nat, b: nat, p: nat, q: nat, c12: nat): int
    requires q > 0
  {
    var m := Multiple(a, b, p, q, c12);
    m + a - if b >= a then 0 else Excess(Absolute(m), a)
  }

  /** c12 times the difference, modulo q, with the difference's sign. */
  method ScaledResidue(u2: BigInt, q: BigInt, c12: BigInt, cut: Cutoffs) returns (tmp: BigInt)
    requires cut.Valid() && u2.Valid() && u2.Trimmed() && Modulus(q) && Plain(c12)
    requires Distinct(u2, c12) && Distinct(u2, q) && Distinct(q, c12)
    modifies c12`length, q, q.num
    ensures c12.length == old(c12.length)
    ensures Modulus(q) && q.Mag() == old(q.Mag()) && (q.num == old(q.num) || fresh(q.num))
    ensures fresh(tmp) && fresh(tmp.num) && tmp.Valid() && tmp.Trimmed() && tmp.Spare() && tmp.sign == u2.sign &&
        Distinct(q, tmp)
    ensures q.Mag() > 0 && tmp.Mag() == ModResult(Times(c12.Mag(), u2.Mag()), q.Mag())
  {
    hide Val, Pow, ModResult, Times;
    tmp := new BigInt(0);
    TimesIs(c12.Mag(), u2.Mag());
    BigMultiply(c12, u2, tmp, cut);
    BigMod(tmp, q, tmp);
  }

  /** The multiple of p that is to be added. */
  method ScaledGap(u2: BigInt, p: BigInt, q: BigInt, c12: BigInt, result: BigInt, cut: Cutoffs)
    requires cut.Valid() && u2.Valid() && u2.Trimmed() && Plain(p) && Modulus(q) && Plain(c12)
    requires result.Valid() && result.Spare() && Distinct(u2, c12) && Distinct(u2, q) && Distinct(q, p) &&
        Distinct(q, c12)
    requires Distinct(result, p) && Distinct(result, q) && Distinct(result, c12) && Distinct(result, u2)
    modifies c12`length, q, q.num, result, result.num
    ensures c12.length == old(c12.length)
    ensures Modulus(q) && q.Mag() == old(q.Mag()) && (q.num == old(q.num) || fresh(q.num))
    ensures result.Valid() && result.Trimmed() && result.Spare() && result.sign == u2.sign
    ensures (result.num == old(result.num) || fresh(result.num)) && Distinct(result, q)
    ensures q.Mag() > 0 && result.Mag() == ModResult(Times(c12.Mag(), u2.Mag()), q.Mag()) * p.Mag()
  {
    hide Val, Pow, ModResult, Times;
    var tmp := ScaledResidue(u2, q, c12, cut);
    BigMultiply(tmp, p, result, cut);
  }

  lemma MultipleIs(a: nat, b: nat, p: nat, q: nat, c12: nat, mag: nat)
    requires q > 0 && mag == ModResult(Times(c12, Absolute(Gap(a, b))), q) * p
    ensures Multiple(a, b, p, q, c12) == if b >= a then mag else 0 - mag
  {
    hide Gap, Times, ModResult;
    MulNeg(ModResult(Times(c12, Absolute(Gap(a, b))), q), p);
  }

  /** The addition of a to the multiple, in place. */
  method AddBack(result: BigInt, u1: BigInt)
    requires Plain(u1) && result.Valid() && result.Trimmed() && Distinct(result, u1)
    modifies u1`length, result, result.num
    ensures result.Valid() && result.Trimmed() && result.Spare() && (result.num == old(result.num) || fresh(result.num))
    ensures result.Value() == old(result.Value()) + old(u1.Mag())
                              - if old(result.sign) == POS then 0 else old(Excess(result.Mag(), u1.Mag()))
  {
    hide Val, Pow, Loss, Excess;
    ExcessIs(result, u1);
    if result.Mag() <= u1.Mag() {
      NoExcess(result.Mag(), u1.Mag());
      LossElsewhere(result, u1, result) by {
        if result.Mag() == u1.Mag() { NoLossWhenEqual(result, u1, result); }
      }
    }
    BigAdd(result, u1, result);
  }

  lemma ProductLong(p: BigInt, q: BigInt, t: BigInt)
    requires Modulus(p) && Modulus(q) && t.Valid() && t.Trimmed() && t.sign == POS && t.Mag() == p.Mag() * q.Mag()
    ensures Modulus(t)
  {
    hide Val, Pow;
    LengthBounds1(p);
    LengthBounds1(q);
    PowAtLeast(p.length - 1);
    MulMono(BASE, p.Mag(), 1, q.Mag());
    ValBound(t.num[..t.length]);
    if t.length == 1 { PowOne(); }
  }

  /** What crtCombine answers for the sum v: v itself, or for a negative one negate's residue. */
  ghost function Settled(v: int, N: nat): nat
    requires N > 0
  {
    if v >= 0 then v else Negation(0 - v, false, N)
  }

  lemma SettledCong(v: int, N: nat)
    requires N > 0
    ensures Cong(Settled(v, N), v, N)
  {
    hide Cong, Negation;
    CongRefl(v, N);
    if v < 0 { NegationCong(0 - v, false, N); }
  }

  lemma SettledZero(N: nat)
    requires N > 0
    ensures Negation(0, false, N) == 0
  {
    NothingLeft(N);
    TimesIs(0, N - 1);
    hide ModResult;
  }

  /** A negative sum becomes its residue modulo p * q. */
  method Repair(result: BigInt, p: BigInt, q: BigInt, cut: Cutoffs, ghost v: int)
    requires cut.Valid() && Modulus(p) && Modulus(q) && Distinct(p, q) && Distinct(result, p) && Distinct(result, q)
    requires result.Valid() && result.Trimmed() && result.Spare() && result.Value() == v
    modifies p`length, result, result.num
    ensures Modulus(p) && p.length == old(p.length)
    ensures Plain(result) && result.Spare() && (result.num == old(result.num) || fresh(result.num))
    ensures p.Mag() * q.Mag() > 0 && result.Mag() == Settled(v, p.Mag() * q.Mag())
  {
    hide Val, Pow, Cong, Negation;
    ghost var pm, qm := p.Mag(), q.Mag();
    LengthBounds1(p);
    LengthBounds1(q);
    MulMono(1, pm, 1, qm);
    if result.sign == NEG {
      var tmp := new BigInt(0);
      BigMultiply(p, q, tmp, cut);
      ProductLong(p, q, tmp);
      Negate(result, tmp, result, cut);
      SettledZero(pm * qm);
    }
  }

  /** crypt/crtCombine.c, as it comes out, lost borrows included. */
  method CrtCombine(a: BigInt, b: BigInt, p: BigInt, q: BigInt, c12: BigInt, result: BigInt, cut: Cutoffs)
    requires cut.Valid() && Plain(a) && Plain(b) && Modulus(p) && Modulus(q) && Plain(c12)
    requires result.Valid() && result.Spare() && Distinct(p, q) && Distinct(c12, p) && Distinct(c12, q)
    requires Distinct(result, p) && Distinct(result, q) && Distinct(result, c12)
    requires Distinct(q, a) && Distinct(q, b)
    modifies c12`length, p`length, q, q.num, result, result.num
    ensures Modulus(p) && Modulus(q) && c12.length == old(c12.length) && p.length == old(p.length)
    ensures q.num == old(q.num) || fresh(q.num)
    ensures q.Mag() == old(q.Mag()) > 0 && p.Mag() == old(p.Mag())
    ensures Plain(result) && result.Spare() && (result.num == old(result.num) || fresh(result.num))
    ensures p.Mag() * q.Mag() > 0
    ensures result.Mag() ==
        Settled(Combined(old(a.Mag()), old(b.Mag()), p.Mag(), q.Mag(), c12.Mag()), p.Mag() * q.Mag())
  {
    hide Val, Pow, Cong, ModResult, Times, Excess, Gap, Combined, Multiple, Settled;
    ghost var am, bm, pm, qm, cm := a.Mag(), b.Mag(), p.Mag(), q.Mag(), c12.Mag();
    var u1, u2 := CopiedGap(a, b);
    ScaledGap(u2, p, q, c12, result, cut);
    MultipleIs(am, bm, pm, qm, cm, result.Mag());
    AddBack(result, u1);
    CombinedIs(am, bm, pm, qm, cm);
    Repair(result, p, q, cut, Combined(am, bm, pm, qm, cm));
  }

  lemma CombinedIs(a: nat, b: nat, p: nat, q: nat, c12: nat)
    requires q > 0
    ensures var m := Multiple(a, b, p, q, c12);
            Combined(a, b, p, q, c12) == m + a - if b >= a then 0 else Excess(Absolute(m), a)
  {}

  /** The inputs on which crtCombine loses a borrow, in its subtraction or in its final sum. */
  ghost predicate CrtLoses(a: nat, b: nat, p: nat, q: nat, c12: nat)
    requires q > 0
  {
    Loses(if b >= a then b else Absolute(Multiple(a, b, p, q, c12)), a, WordCount(a))
  }

  lemma PowNotZero(k: nat, N: nat)
    requires N % 2 == 1 && N >= 3
    ensures !Cong(Pow(k), 0, N)
  {
    hide Pow, Cong;
    if Cong(Pow(k), 0, N) {
      var inv := RInverse(N, k);
      CongScale(Pow(k), 0, inv, N);
      CongSym(Pow(k) * inv, 0 * inv, N);
      CongTrans(0, Pow(k) * inv, 1, N);
      CongUnique(0, 1, N);
    }
  }

  lemma ShiftedCong(x: int, y: int, e: int, m: int)
    requires Cong(x, y + e, m)
    ensures Cong(x, y, m) <==> Cong(e, 0, m)
  {
    hide Cong;
    CongRefl(y, m);
    if Cong(x, y, m) {
      CongSym(x, y + e, m);
      CongTrans(y + e, x, y, m);
      CongAdd(y + e, y, y, y, m);
    }
    if Cong(e, 0, m) {
      CongAdd(e, 0, y, y, m);
      CongTrans(x, y + e, y, m);
    }
  }

  /** The multiple is zero modulo p and the difference modulo q. */
  lemma MultipleResidues(a: nat, b: nat, p: nat, q: nat, c12: nat)
    requires q > 0 && Cong(c12 * p, 1, q)
    ensures Cong(Multiple(a, b, p, q, c12), 0, p) && Cong(Multiple(a, b, p, q, c12), Gap(a, b), q)
  {
    hide Cong, ModResult, Gap, Multiple, Times;
    var g, d := Gap(a, b), Absolute(Gap(a, b));
    TimesIs(c12, d);
    ModResultCong(Times(c12, d), q);
    var t: int := ModResult(Times(c12, d), q);
    var s: int := if b >= a then t else 0 - t;
    MultipleIs(a, b, p, q, c12, t * p);
    MulNeg(t, p);
    CongAddMultiple(0, s, p);
    GapSign(a, b);
    SignedResidue(t, c12, d, g, s, q);
    CongScale(s, c12 * g, p, q);
    MulComm(c12, g);
    MulAssoc(g, c12, p);
    CongScale(c12 * p, 1, g, q);
    CongTrans(s * p, (c12 * g) * p, g, q);
  }

  lemma GapSign(a: nat, b: nat)
    ensures b >= a <==> Gap(a, b) >= 0
  {}

  lemma SignedResidue(t: int, c12: int, d: int, g: int, s: int, q: int)
    requires Cong(t, c12 * d, q) && (if g >= 0 then d == g && s == t else d == 0 - g && s == 0 - t)
    ensures Cong(s, c12 * g, q)
  {
    hide Cong;
    if g < 0 {
      CongRefl(0, q);
      CongAdd(0, 0, t, c12 * d, q);
      MulNeg(c12, d);
    }
  }

  lemma CongNegZero(e: int, m: int)
    ensures Cong(0 - e, 0, m) <==> Cong(e, 0, m)
  {
    hide Cong;
    CongRefl(0, m);
    if Cong(0 - e, 0, m) { CongAdd(0, 0, 0 - e, 0, m); }
    if Cong(e, 0, m) { CongAdd(0, 0, e, 0, m); }
  }

  /** crtCombine meets both residues exactly when no borrow is lost. */
  lemma CrtExact(a: nat, b: nat, p: nat, q: nat, c12: nat)
    requires p % 2 == 1 && q % 2 == 1 && p >= 3 && q >= 3 && Cong(c12 * p, 1, q)
    ensures var c := Combined(a, b, p, q, c12);
            (Cong(c, a, p) && Cong(c, b, q)) <==> !CrtLoses(a, b, p, q, c12)
  {
    hide Cong, Multiple, Pow, Loses, WordCount, Gap;
    var c, m, k := Combined(a, b, p, q, c12), Multiple(a, b, p, q, c12), WordCount(a) + 1;
    var lost := CrtLoses(a, b, p, q, c12);
    var e: int := if lost then Pow(k) else 0;
    CombinedParts(a, b, p, q, c12, e);
    MultipleResidues(a, b, p, q, c12);
    CongRefl(a, p);
    CongRefl(a, q);
    CongRefl(0, p);
    CongRefl(0, q);
    CongRefl(e, p);
    CongRefl(e, q);
    CongAdd(m, 0, a, a, p);
    CongAdd(m, Gap(a, b), a, a, q);
    PowNotZero(k, p);
    PowNotZero(k, q);
    if b >= a {
      ShiftedCong(c, a, 0, p);
      ShiftedCong(c, b, e, q);
    } else {
      CongAdd(m + a, a, e, e, p);
      CongAdd(m + a, b, e, e, q);
      ShiftedCong(c, a, 0 - e, p);
      ShiftedCong(c, b, 0 - e, q);
      CongNegZero(e, p);
      CongNegZero(e, q);
    }
  }

  lemma CombinedParts(a: nat, b: nat, p: nat, q: nat, c12: nat, e: int)
    requires q > 0 && e == if CrtLoses(a, b, p, q, c12) then Pow(WordCount(a) + 1) else 0
    ensures b >= a ==> Combined(a, b, p, q, c12) == Multiple(a, b, p, q, c12) + a && Gap(a, b) + a == b + e
    ensures b < a ==> Combined(a, b, p, q, c12) == Multiple(a, b, p, q, c12) + a - e && Gap(a, b) + a == b
  {}

  // --- the exact answer ---

  /** The magnitude bigMod makes of c12 times the difference of the halves. */
  ghost function Factor(a: nat, b: nat, q: nat, c12: nat): nat
    requires q > 0
  {
    ModResult(Times(c12, Absolute(Gap(a, b))), q)
  }

  ghost predicate WordPower(x: nat) { exists j: nat :: x == Pow(j) }

  /** Halves, both multiples of the primes, for which the sum comes to p * q. */
  ghost predicate Overflows(a: nat, b: nat, p: nat, q: nat, c12: nat) {
    b == q && ((a == p && p <= q) || (a == 0 && WordPower(c12)))
  }

  /** Without a lost borrow the sum is the factor's multiple of p, with the difference's sign, plus a. */
  lemma PlainSum(a: nat, b: nat, p: nat, q: nat, c12: nat)
    requires q > 0 && !CrtLoses(a, b, p, q, c12)
    ensures Gap(a, b) == b - a
    ensures Combined(a, b, p, q, c12) == if b >= a then Factor(a, b, q, c12) * p + a else a - Factor(a, b, q, c12) * p
  {
    hide Pow, Loses, WordCount, Times, ModResult;
    MulNeg(Factor(a, b, q, c12), p);
  }

  /** The factor is q itself only for the difference q and a coefficient that moves it up by whole words. */
  lemma FactorIsModulus(g: nat, q: nat, c12: nat, p: nat)
    requires q >= 2 && g <= q && Cong(c12 * p, 1, q)
    ensures ModResult(Times(c12, g), q) <= q
    ensures ModResult(Times(c12, g), q) == q <==> g == q && WordPower(c12)
  {
    hide Cong, Pow;
    var x := Times(c12, g);
    TimesIs(c12, g);
    ModResultCong(x, q);
    ModResultIs(x, q);
    if ModResult(x, q) == q {
      var j: nat :| x == Shift(q, j);
      CongAddMultiple(0, 1, q);
      CongSym(q, x, q);
      CongTrans(x, q, 0, q);
      UnitFactor(g, q, c12, p, 0);
      if g < q {
        CongUnique(g, 0, q);
        PowPositive(j);
        MulMono(1, q, 1, Pow(j));
        assert false;
      }
      SameScale(q, c12, Pow(j));
    }
    if g == q && WordPower(c12) {
      var j: nat :| c12 == Pow(j);
      MulComm(c12, q);
      assert x == Shift(q, j);
    }
  }

  /** The inverse of p undoes p. */
  lemma UnitFactor(g: int, q: nat, c12: nat, p: nat, r: int)
    requires Cong(c12 * g, r, q) && Cong(c12 * p, 1, q)
    ensures Cong(g, r * p, q)
  {
    hide Cong;
    CongScale(c12 * g, r, p, q);
    CongScale(c12 * p, 1, g, q);
    MulAssoc(c12, g, p);
    MulComm(g, p);
    MulAssoc(c12, p, g);
    CongSym((c12 * p) * g, g, q);
    CongTrans(g, (c12 * g) * p, r * p, q);
  }

  /** Without a lost borrow the answer is below p * q, but for the halves that overflow. */
  lemma AnswerFits(a: nat, b: nat, p: nat, q: nat, c12: nat)
    requires p >= 3 && q >= 3 && p * q > 0 && a <= p && b <= q && Cong(c12 * p, 1, q)
    requires !CrtLoses(a, b, p, q, c12)
    ensures var r := Settled(Combined(a, b, p, q, c12), p * q);
            r <= p * q && (r == p * q <==> Overflows(a, b, p, q, c12))
  {
    hide Cong, CrtLoses, Combined, Settled, Overflows;
    PlainSum(a, b, p, q, c12);
    if b >= a { SumFits(a, b, p, q, c12); } else { DifferenceFits(a, b, p, q, c12); }
  }

  lemma SumFits(a: nat, b: nat, p: nat, q: nat, c12: nat)
    requires p >= 3 && q >= 3 && p * q > 0 && a <= p && a <= b <= q && Cong(c12 * p, 1, q)
    requires Gap(a, b) == b - a && Combined(a, b, p, q, c12) == Factor(a, b, q, c12) * p + a
    ensures var r := Settled(Combined(a, b, p, q, c12), p * q);
            r <= p * q && (r == p * q <==> Overflows(a, b, p, q, c12))
  {
    hide Cong, Combined, Gap, Times, ModResult, Pow;
    var t, g := Factor(a, b, q, c12), b - a;
    assert t == ModResult(Times(c12, g), q);
    FactorIsModulus(g, q, c12, p);
    MulMono(0, t, 0, p);
    MulComm(p, q);
    if t == q {
      assert Overflows(a, b, p, q, c12);
    } else {
      MulMono(t + 1, q, p, p);
      MulDist(p, t, 1);
      if a == p { LastFactor(b, p, q, c12, t); }
      if Overflows(a, b, p, q, c12) && a != p { OverflowFactor(a, b, p, q, c12); }
      if t + 1 < q {
        MulMono(t + 2, q, p, p);
        MulDist(p, t, 2);
      } else {
        assert (t + 1) * p == q * p;
      }
    }
  }

  lemma OverflowFactor(a: nat, b: nat, p: nat, q: nat, c12: nat)
    requires Overflows(a, b, p, q, c12) && a != p && q >= 2 && Cong(c12 * p, 1, q)
    ensures a == 0 && ModResult(Times(c12, b - a), q) == q
  {
    hide Cong, Times, ModResult, Pow;
    FactorIsModulus(b - a, q, c12, p);
  }

  lemma LastFactor(b: nat, p: nat, q: nat, c12: nat, t: nat)
    requires p >= 3 && q >= 3 && p <= b <= q && Cong(c12 * p, 1, q) && t < q && t == ModResult(Times(c12, b - p), q)
    ensures t == q - 1 <==> b == q
  {
    hide Cong, ModResult, Times;
    var g := b - p;
    TimesIs(c12, g);
    ModResultCong(Times(c12, g), q);
    CongSym(t, c12 * g, q);
    if t == q - 1 {
      CongAddMultiple(-1, 1, q);
      CongTrans(c12 * g, t, -1, q);
      UnitFactor(g, q, c12, p, -1);
      CongRefl(p, q);
      CongAdd(g, 0 - p, p, p, q);
      if b < q { CongUnique(b, 0, q); }
    }
    if b == q {
      MulDist(c12, q, p);
      CongAddMultiple(-(c12 * p), c12, q);
      CongRefl(0, q);
      CongSub(c12 * p, 1, q);
      CongTrans(c12 * g, -(c12 * p), -1, q);
      CongTrans(t, c12 * g, -1, q);
      CongAddMultiple(-1, 1, q);
      CongSym(q - 1, -1, q);
      CongTrans(t, -1, q - 1, q);
      CongUnique(t, q - 1, q);
    }
  }

  lemma CongSub(x: int, y: int, m: int)
    requires Cong(x, y, m)
    ensures Cong(-x, -y, m)
  {
    hide Cong;
    CongScale(x, y, -1, m);
    assert x * -1 == -x && y * -1 == -y;
  }

  lemma DifferenceFits(a: nat, b: nat, p: nat, q: nat, c12: nat)
    requires p >= 3 && q >= 3 && p * q > 0 && a <= p && b <= q && b < a && Cong(c12 * p, 1, q)
    requires Combined(a, b, p, q, c12) == a - Factor(a, b, q, c12) * p
    ensures !Overflows(a, b, p, q, c12) && Settled(Combined(a, b, p, q, c12), p * q) < p * q
  {
    hide Cong, Combined, Gap, Times, Negation, Pow;
    var t, N := Factor(a, b, q, c12), p * q;
    var v := a - t * p;
    ModResultCong(Times(c12, Absolute(Gap(a, b))), q);
    MulMono(0, t, 0, p);
    MulMono(t, q, p, p);
    MulComm(p, q);
    MulMono(p, p, 3, q);
    if v < 0 {
      var r := Negation(0 - v, false, N);
      NegationCong(0 - v, false, N);
      if r == N {
        CongAddMultiple(0, 1, N);
        CongSym(0 + 1 * N, 0, N);
        CongTrans(0, N, v, N);
        CongSub(0, v, N);
        CongUnique(0, 0 - v, N);
      }
    }
  }

  /** Below p * q the answer is the message exactly when no borrow is lost and the halves do not overflow. */
  lemma MessageBack(p: nat, q: nat, e: nat, d: nat, dp: nat, dq: nat, c12: nat, m: nat, a: nat, b: nat, r: nat)
    requires KeyNumbers(p, q, e, d, dp, dq, c12) && p * q > 0 && m < p * q && a <= p && b <= q
    requires Cong(a, m, p) && Cong(b, m, q) && r == Settled(Combined(a, b, p, q, c12), p * q)
    ensures r == m <==> !CrtLoses(a, b, p, q, c12) && !Overflows(a, b, p, q, c12)
    ensures m > 0 ==> !Overflows(a, b, p, q, c12)
  {
    hide Cong, Combined, CrtLoses, Prime, Settled, Overflows;
    var v := Combined(a, b, p, q, c12);
    SettledCong(v, p * q);
    CrtRoundTrip(p, q, e, d, dp, dq, c12, m, a, b, r);
    CongRefl(m, p * q);
    if !CrtLoses(a, b, p, q, c12) {
      AnswerFits(a, b, p, q, c12);
      if r < p * q && Cong(r, m, p * q) { CongUnique(r, m, p * q); }
    }
    if Overflows(a, b, p, q, c12) { OverflowIsZero(p, q, m, a, b, c12); }
  }

  lemma OverflowIsZero(p: nat, q: nat, m: nat, a: nat, b: nat, c12: nat)
    requires Prime(p) && Prime(q) && p != q && m < p * q && Cong(a, m, p) && Cong(b, m, q)
    requires Overflows(a, b, p, q, c12)
    ensures m == 0
  {
    hide Cong, Prime;
    if a == p { CongAddMultiple(0, 1, p); } else { CongRefl(0, p); }
    CongAddMultiple(0, 1, q);
    CongSym(a, m, p);
    CongTrans(m, a, 0, p);
    CongSym(b, m, q);
    CongTrans(m, b, 0, q);
    BothPrimes(p, q, m, 0);
    CongUnique(m, 0, p * q);
  }

  lemma SameScale(q: nat, x: nat, y: nat)
    requires q > 0 && x * q == q * y
    ensures x == y
  {
    MulComm(x, q);
    if x < y { MulMono(q, q, x + 1, y); MulDist(q, x, 1); }
    if y < x { MulMono(q, q, y + 1, x); MulDist(q, y, 1); }
  }

  // --- encryption ---

  lemma CubeStep(a: nat, d: nat, r: nat, m: nat)
    requires Cong(d, a * a, m) && Cong(r, d * a, m)
    ensures Cong(r, Exp(a, 3), m)
  {
    hide Cong;
    CongScale(d, a * a, a, m);
    CongTrans(r, d * a, (a * a) * a, m);
    assert Exp(a, 1) == a;
    assert Exp(a, 2) == a * a;
    MulComm(a, a * a);
  }

  /** crypt/bigCube.c */
  method BigCube(a: BigInt, m: BigInt, result: BigInt, cut: Cutoffs)
    requires cut.Valid() && Plain(a) && Modulus(m) && result.Valid() && result.Spare()
    requires Distinct(a, m) && Distinct(a, result) && Distinct(m, result)
    modifies a`length, m, m.num, result, result.num
    ensures a.length == old(a.length) && Modulus(m) && m.Mag() == old(m.Mag()) &&
        m.num[..m.length] == old(m.num[..m.length])
    ensures Plain(result) && result.Spare() && (result.num == old(result.num) || fresh(result.num))
    ensures m.Mag() > 0 && result.Mag() == CubeResult(a.Mag(), m.Mag())
  {
    hide Val, Pow, ModResult, Times;
    ghost var am, mm := a.Mag(), m.Mag();
    LengthBounds1(m);
    var d := new BigInt(0);
    BigMultiply(a, a, d, cut);
    TimesIs(am, am);
    BigMod(d, m, d);
    TimesIs(d.Mag(), am);
    BigMultiply(d, a, result, cut);
    BigMod(result, m, result);
  }

  /** What bigCube answers: reduced after either multiplication. */
  ghost function CubeResult(a: nat, m: nat): nat
    requires m > 0
  {
    ModResult(Times(ModResult(Times(a, a), m), a), m)
  }

  lemma CubeIs(a: nat, m: nat)
    requires m > 0
    ensures CubeResult(a, m) <= m && Cong(CubeResult(a, m), Exp(a, 3), m) && (a == 0 ==> CubeResult(a, m) == 0)
  {
    hide Cong, ModResult, Times, Exp;
    var d := ModResult(Times(a, a), m);
    TimesIs(a, a);
    TimesIs(d, a);
    ModResultCong(Times(a, a), m);
    ModResultCong(Times(d, a), m);
    CubeStep(a, d, CubeResult(a, m), m);
    NothingLeft(m);
  }

  /** The structure RSAPublicKey. */
  datatype PublicKey = PublicKey(publicExponent: BigInt, modulus: BigInt)

  /** crypt/rsa.c RSAEncrypt, for an odd modulus: the message to the public exponent. */
  method RSAEncrypt(message: BigInt, key: PublicKey, cut: Cutoffs) returns (result: BigInt)
    requires cut.Valid() && Plain(message) && Plain(key.publicExponent) && key.publicExponent.Mag() > 0
    requires Modulus(key.modulus) && key.modulus.num[0] % 2 == 1
    requires Distinct(message, key.modulus) && Distinct(key.publicExponent, key.modulus) &&
        message != key.publicExponent
    modifies message`length, key.publicExponent`length, key.modulus, key.modulus.num
    ensures fresh(result) && fresh(result.num) && Plain(result) && Modulus(key.modulus) && Plain(key.publicExponent)
    ensures key.modulus.Mag() == old(key.modulus.Mag()) && key.publicExponent.Mag() == old(key.publicExponent.Mag())
    ensures result.Mag() <= key.modulus.Mag()
    ensures Cong(result.Mag(), Exp(old(message.Mag()), key.publicExponent.Mag()), key.modulus.Mag())
    ensures key.modulus.Mag() > 0 && (old(message.Mag()) == 0 ==> result.Mag() == 0)
    ensures var m, e, N := old(message.Mag()), key.publicExponent.Mag(), key.modulus.Mag();
      if e == 3 then result.Mag() == CubeResult(m, N)
      else PowerOf(result.Mag(), m, e, N) && (result.Mag() == 0 <==> PowBase(m, N) == 0)
  {
    hide Val, Pow, Cong, ModResult, Exp, CubeResult;
    LengthBounds1(key.modulus);
    CubeIs(message.Mag(), key.modulus.Mag());
    NothingLeft(key.modulus.Mag());
    result := new BigInt(3);
    var r := Compare(key.publicExponent, result);
    if r == 0 {
      Reset(result, 0);
      BigCube(message, key.modulus, result, cut);
    } else {
      Reset(result, 0);
      BigPow(message, key.publicExponent, key.modulus, result, cut);
    }
  }

  // --- decryption ---

  /** A reduced private exponent undoes the public one modulo a prime. */
  lemma ExponentsCancel(p: nat, m: nat, e: nat, d: nat, dp: nat)
    requires Prime(p) && p >= 3 && Cong(e * d, 1, p - 1) && Cong(dp, d, p - 1)
    ensures dp > 0 && e * dp >= 0 && Cong(Exp(m, e * dp), m, p)
  {
    var n := p - 1;
    assert Cong(e * dp, 1, n) by {
      hide Cong;
      CongScale(dp, d, e, n);
      CongTrans(e * dp, e * d, 1, n);
    }
    MulMono(0, e, 0, dp);
    var k :| e * dp - 1 == Mult(k, n);
    if e * dp == 0 {
      CongSym(0, 1, n);
      CongUnique(0, 1, n);
    }
    assert k >= 0 by { if k < 0 { MulMono(1, -k, n, n); MulNeg(k, n); } }
    MulMono(0, k, 0, n);
    FermatRoundTrip(p, m, e * dp, k);
  }

  /** u, the power of c taken modulo p, is the message again. */
  lemma PrimeRoundTrip(p: nat, m: nat, e: nat, d: nat, dp: nat, c: nat, u: nat)
    requires Prime(p) && p >= 3 && Cong(e * d, 1, p - 1) && Cong(dp, d, p - 1)
    requires Cong(c, Exp(m, e), p) && Cong(u, Exp(c, dp), p)
    ensures Cong(u, m, p)
  {
    hide Cong, Exp;
    CongExp(c, Exp(m, e), dp, p);
    ExpMul(m, e, dp);
    ExponentsCancel(p, m, e, d, dp);
    CongTrans(u, Exp(c, dp), Exp(m, e * dp), p);
    CongTrans(u, Exp(m, e * dp), m, p);
  }

  lemma ResidueOf(p: nat, m: nat, u: nat)
    requires p >= 2 && u <= p && Cong(u, m, p) && !Divides(p, m)
    ensures u == m % p
  {
    hide Cong;
    if u == p {
      CongAddMultiple(0, 1, p);
      CongSym(p, 0, p);
      CongTrans(0, p, m, p);
      CongSym(0, m, p);
      assert false;
    }
    CongMod(m, p);
    CongTrans(u, m, m % p, p);
    CongUnique(u, m % p, p);
  }

  /** One half of chineseRemTheorem: the message reduced and raised modulo one prime. */
  method HalfPower(m: BigInt, dp: BigInt, p: BigInt, cut: Cutoffs) returns (u: BigInt)
    requires cut.Valid() && Plain(m) && Plain(dp) && dp.Mag() > 0 && Modulus(p) && p.num[0] % 2 == 1
    requires Distinct(m, p) && Distinct(dp, p)
    modifies m`length, p, p.num
    ensures m.length == old(m.length) && Modulus(p) && p.Mag() == old(p.Mag()) && (p.num == old(p.num) || fresh(p.num))
    ensures fresh(u) && fresh(u.num) && Plain(u) && u.Spare() && Distinct(p, u)
    ensures u.Mag() <= p.Mag() && Cong(u.Mag(), Exp(m.Mag(), dp.Mag()), p.Mag())
    ensures ModResult(m.Mag(), p.Mag()) == 0 <==> u.Mag() == 0
  {
    hide Val, Pow, Cong, ModResult, Exp;
    ghost var mm, pm, words: seq<Word> := m.Mag(), p.Mag(), p.num[..p.length];
    LengthBounds1(p);
    assert words[0] == p.num[0];
    u := new BigInt(0);
    BigMod(m, p, u);
    ModResultCong(mm, pm);
    assert p.num[..p.length][0] == p.num[0];
    ghost var r := u.Mag();
    BigPow(u, dp, p, u, cut);
    assert p.num[..p.length] == words;
    assert words[|words| - 1] != 0;
    TopWordKept(p, words);
    CongExp(r, mm, dp.Mag(), pm);
    CongTrans(u.Mag(), Exp(r, dp.Mag()), Exp(mm, dp.Mag()), pm);
  }

  /** The structure ChineseRemStruct. */
  datatype CrtKey = CrtKey(p: BigInt, q: BigInt, dp: BigInt, dq: BigInt, c12: BigInt)

  /** The numbers of a key are separate, and its primes are odd and of two words or more. */
  ghost predicate KeyShape(k: CrtKey)
    reads k.p, k.p.num, k.q, k.q.num, k.dp, k.dp.num, k.dq, k.dq.num, k.c12, k.c12.num
  {
    && Modulus(k.p) && Modulus(k.q) && Plain(k.dp) && Plain(k.dq) && Plain(k.c12)
    && k.p.num[0] % 2 == 1 && k.q.num[0] % 2 == 1
    && Distinct(k.p, k.q) && Distinct(k.p, k.dp) && Distinct(k.p, k.dq) && Distinct(k.p, k.c12)
    && Distinct(k.q, k.dp) && Distinct(k.q, k.dq) && Distinct(k.q, k.c12)
  }

  /** p and q are distinct primes, dp and dq reductions of a d with e * d = 1, and c12 inverts p modulo q. */
  ghost predicate KeyNumbers(p: nat, q: nat, e: nat, d: nat, dp: nat, dq: nat, c12: nat) {
    && Prime(p) && Prime(q) && p != q && p >= 3 && q >= 3 && p % 2 == 1 && q % 2 == 1
    && Cong(e * d, 1, (p - 1) * (q - 1)) && Cong(dp, d, p - 1) && Cong(dq, d, q - 1) && Cong(c12 * p, 1, q)
  }

  /** What decryption returns, in terms of the message and of the two halves a and b. */
  lemma CrtRoundTrip(p: nat, q: nat, e: nat, d: nat, dp: nat, dq: nat, c12: nat, m: nat, a: nat, b: nat, r: nat)
    requires KeyNumbers(p, q, e, d, dp, dq, c12)
    requires Cong(a, m, p) && Cong(b, m, q) && Cong(r, Combined(a, b, p, q, c12), p * q)
    ensures Cong(r, m, p * q) <==> !CrtLoses(a, b, p, q, c12)
  {
    hide Cong, Combined, CrtLoses, Prime;
    var c := Combined(a, b, p, q, c12);
    CrtExact(a, b, p, q, c12);
    CongModFactor(r, c, p, q);
    SameResidue(r, c, m, a, p);
    SameResidue(r, c, m, b, q);
    if Cong(r, m, p * q) { CongModFactor(r, m, p, q); }
    if Cong(r, m, p) && Cong(r, m, q) { BothPrimes(p, q, r, m); }
  }

  lemma SameResidue(r: int, c: int, m: int, a: int, p: int)
    requires Cong(r, c, p) && Cong(a, m, p)
    ensures Cong(r, m, p) <==> Cong(c, a, p)
  {
    hide Cong;
    CongSym(r, c, p);
    CongSym(a, m, p);
    if Cong(r, m, p) {
      CongTrans(c, r, m, p);
      CongTrans(c, m, a, p);
    }
    if Cong(c, a, p) {
      CongTrans(r, c, a, p);
      CongTrans(r, a, m, p);
    }
  }

  /**
   * What chineseRemTheorem makes of the number c modulo a prime p, in terms of the message m: its
   * residue, and for a message the prime divides, zero, or p when c is p moved up by whole words.
   */
  ghost function Half(m: nat, c: nat, p: nat): nat
    requires p > 0
  {
    if Divides(p, m) then ModResult(c, p) else m % p
  }

  /**
   * What decryption gives for the halves a and b of a message m: one number, congruent to the message exactly
   * when crtCombine loses no borrow; and for a message below p * q the message itself exactly when, besides,
   * the halves do not overflow, which only those of zero can.
   */
  ghost predicate Decryption(r: nat, m: nat, a: nat, b: nat, p: nat, q: nat, c12: nat) {
    && q > 0 && p * q > 0 && r == Settled(Combined(a, b, p, q, c12), p * q)
    && (Cong(r, m, p * q) <==> !CrtLoses(a, b, p, q, c12))
    && (m < p * q ==> (r == m <==> !CrtLoses(a, b, p, q, c12) && !Overflows(a, b, p, q, c12)))
    && (m > 0 && m < p * q ==> (r == m <==> !CrtLoses(a, b, p, q, c12)))
  }

  /**
   * crypt/rsa.c RSADecrypt, by way of chineseRemTheorem: given any number congruent to a message's
   * power, the message comes back exactly when crtCombine loses no borrow on the two halves, which
   * follow from the message and the number given.
   */
  method RSADecrypt(message: BigInt, key: CrtKey, cut: Cutoffs, ghost m: nat, ghost e: nat, ghost d: nat)
      returns (result: BigInt)
    requires cut.Valid() && KeyShape(key) && Plain(message) && Distinct(message, key.p) && Distinct(message, key.q)
    requires message != key.c12
    requires KeyNumbers(key.p.Mag(), key.q.Mag(), e, d, key.dp.Mag(), key.dq.Mag(), key.c12.Mag())
    requires Cong(message.Mag(), Exp(m, e), key.p.Mag() * key.q.Mag())
    modifies message`length, key.c12`length, key.p, key.p.num, key.q, key.q.num
    ensures fresh(result) && Plain(result)
    ensures key.p.Valid() && key.q.Valid() && key.p.Mag() == old(key.p.Mag()) && key.q.Mag() == old(key.q.Mag()) > 0
    ensures key.p.Mag() > 0 && Plain(message) && message.Mag() == old(message.Mag())
    ensures var p, q, c, c12 := key.p.Mag(), key.q.Mag(), old(message.Mag()), old(key.c12.Mag());
      Decryption(result.Mag(), m, Half(m, c, p), Half(m, c, q), p, q, c12)
  {
    hide Val, Pow, Cong, Exp, Prime, Combined, CrtLoses, KeyNumbers, Half, ModResult, Settled, Decryption;
    ghost var pm, qm, c := key.p.Mag(), key.q.Mag(), message.Mag();
    ghost var dp, dq, c12 := key.dp.Mag(), key.dq.Mag(), key.c12.Mag();
    HalvesFit(pm, qm, e, d, dp, dq, c12, c, Exp(m, e));
    result := new BigInt(0);
    var u1, u2 := BothHalves(message, key, cut);
    ghost var a, b := u1.Mag(), u2.Mag();
    CrtCombine(u1, u2, key.p, key.q, key.c12, result, cut);
    Decrypted(pm, qm, e, d, dp, dq, c12, m, c, a, b, result.Mag());
  }

  /** The first half of chineseRemTheorem. */
  method BothHalves(message: BigInt, key: CrtKey, cut: Cutoffs) returns (u1: BigInt, u2: BigInt)
    requires cut.Valid() && KeyShape(key) && Plain(message) && Distinct(message, key.p) && Distinct(message, key.q)
    requires message != key.c12 && key.dp.Mag() > 0 && key.dq.Mag() > 0
    modifies message`length, key.p, key.p.num, key.q, key.q.num
    ensures Modulus(key.p) && Modulus(key.q) && Plain(key.c12)
    ensures Plain(message) && message.length == old(message.length)
    ensures message.Mag() == old(message.Mag()) && Distinct(message, key.q)
    ensures Distinct(key.p, key.q) && Distinct(key.c12, key.p) && Distinct(key.c12, key.q)
    ensures key.p.Mag() == old(key.p.Mag()) && key.q.Mag() == old(key.q.Mag()) && key.c12.Mag() == old(key.c12.Mag())
    ensures (key.p.num == old(key.p.num) || fresh(key.p.num)) && (key.q.num == old(key.q.num) || fresh(key.q.num))
    ensures fresh(u1) && fresh(u1.num) && Plain(u1) && u1.Spare() && fresh(u2) && fresh(u2.num) && Plain(u2) &&
        u2.Spare()
    ensures Distinct(u1, u2) && Distinct(key.p, u1) && Distinct(key.q, u1) && Distinct(key.p, u2) && Distinct(key.q, u2)
    ensures u1.Mag() <= key.p.Mag() && Cong(u1.Mag(), Exp(message.Mag(), key.dp.Mag()), key.p.Mag())
    ensures u2.Mag() <= key.q.Mag() && Cong(u2.Mag(), Exp(message.Mag(), key.dq.Mag()), key.q.Mag())
    ensures ModResult(message.Mag(), key.p.Mag()) == 0 <==> u1.Mag() == 0
    ensures ModResult(message.Mag(), key.q.Mag()) == 0 <==> u2.Mag() == 0
  {
    hide Val, Pow, Cong, Exp, ModResult;
    u1 := HalfPower(message, key.dp, key.p, cut);
    u2 := HalfPower(message, key.dq, key.q, cut);
  }

  /**
   * The half is the message's residue, or, of a message the prime divides, what bigMod made of c: zero or the
   * prime.
   */
  lemma HalfIs(p: nat, m: nat, e: nat, c: nat, a: nat)
    requires p >= 2 && e > 0 && a <= p && Cong(a, m, p) && Cong(c, Exp(m, e), p)
    requires a == 0 <==> ModResult(c, p) == 0
    ensures a == Half(m, c, p)
  {
    hide Cong, Exp, ModResult, WordMultiple;
    ModResultIs(c, p);
    if Divides(p, m) {
      PowerDivided(p, m, e, c);
      CongTrans(a, m, 0, p);
      if a < p { CongUnique(a, 0, p); }
      DividedResult(c, p);
    } else {
      ResidueOf(p, m, a);
    }
  }

  lemma DividedResult(c: nat, p: nat)
    requires p > 0 && c % p == 0
    ensures ModResult(c, p) == if WordMultiple(c, p) then p else 0
  {}

  lemma ExponentPositive(e: nat, d: nat, p: nat)
    requires p >= 3 && Cong(e * d, 1, p - 1)
    ensures e > 0
  {
    if e == 0 {
      assert e * d == 0;
      CongUnique(0, 1, p - 1);
    }
  }

  lemma PowerDivided(p: nat, m: nat, e: nat, c: nat)
    requires p > 0 && Divides(p, m) && e > 0 && Cong(c, Exp(m, e), p)
    ensures c % p == 0
  {
    hide Cong, Exp;
    CongExp(m, 0, e, p);
    ExpZero(e);
    CongTrans(c, Exp(m, e), 0, p);
    CongRem(c, p);
    CongSym(c, c % p, p);
    CongTrans(c % p, c, 0, p);
    CongUnique(c % p, 0, p);
  }

  lemma Decrypted(p: nat, q: nat, e: nat, d: nat, dp: nat, dq: nat, c12: nat, m: nat, c: nat, a: nat, b: nat, r: nat)
    requires KeyNumbers(p, q, e, d, dp, dq, c12) && Cong(c, Exp(m, e), p * q) && 0 < p && 0 < q && a <= p && b <= q
    requires Cong(a, Exp(c, dp), p) && Cong(b, Exp(c, dq), q)
    requires p * q > 0 && r == Settled(Combined(a, b, p, q, c12), p * q)
    requires (a == 0 <==> ModResult(c, p) == 0) && (b == 0 <==> ModResult(c, q) == 0)
    ensures a == Half(m, c, p) && b == Half(m, c, q)
    ensures Decryption(r, m, a, b, p, q, c12)
  {
    hide Cong, Exp, Prime, Combined, CrtLoses, KeyNumbers, ModResult, Half, Settled, Overflows;
    HalvesFit(p, q, e, d, dp, dq, c12, c, Exp(m, e));
    PrimeRoundTrip(p, m, e, d, dp, c, a);
    PrimeRoundTrip(q, m, e, d, dq, c, b);
    SettledCong(Combined(a, b, p, q, c12), p * q);
    CrtRoundTrip(p, q, e, d, dp, dq, c12, m, a, b, r);
    if m < p * q { MessageBack(p, q, e, d, dp, dq, c12, m, a, b, r); }
    ExponentPositive(e, d, p);
    HalfIs(p, m, e, c, a);
    HalfIs(q, m, e, c, b);
  }

  lemma HalvesFit(p: nat, q: nat, e: nat, d: nat, dp: nat, dq: nat, c12: nat, c: nat, x: int)
    requires KeyNumbers(p, q, e, d, dp, dq, c12) && Cong(c, x, p * q)
    ensures Prime(p) && Prime(q) && p >= 3 && q >= 3
    ensures Cong(e * d, 1, p - 1) && Cong(e * d, 1, q - 1) && Cong(dp, d, p - 1) && Cong(dq, d, q - 1)
    ensures Cong(c, x, p) && Cong(c, x, q) && dp > 0 && dq > 0
  {
    hide Cong, Prime;
    CongModFactor(e * d, 1, p - 1, q - 1);
    CongModFactor(c, x, p, q);
    ExponentsCancel(p, 0, e, d, dp);
    ExponentsCancel(q, 0, e, d, dq);
  }

  /** A public key that shares nothing with a private one. */
  ghost predicate KeysApart(pub: PublicKey, key: CrtKey)
    reads pub.publicExponent`num, pub.modulus`num, key.p`num, key.q`num, key.dp`num, key.dq`num, key.c12`num
  {
    && Distinct(pub.modulus, key.p) && Distinct(pub.modulus, key.q) && Distinct(pub.modulus, key.dp)
    && Distinct(pub.modulus, key.dq) && Distinct(pub.modulus, key.c12)
    && pub.publicExponent !in {key.p, key.q, key.dp, key.dq, key.c12}
  }

  lemma KeyPositive(p: nat, q: nat, e: nat, d: nat, dp: nat, dq: nat, c12: nat)
    requires KeyNumbers(p, q, e, d, dp, dq, c12)
    ensures p > 0 && q > 0
  {}

  /** Zero is encrypted as zero, so its halves do not overflow. */
  lemma ZeroFits(m: nat, c: nat, p: nat, q: nat, c12: nat, r: nat)
    requires p > 0 && q > 0 && Decryption(r, m, Half(m, c, p), Half(m, c, q), p, q, c12) && (m == 0 ==> c == 0)
    ensures m < p * q ==> (r == m <==> !CrtLoses(Half(m, c, p), Half(m, c, q), p, q, c12))
  {
    hide Cong, CrtLoses, Settled, Combined;
    if m == 0 {
      CongRefl(0, q);
      NothingLeft(q);
    }
  }

  lemma NothingLeft(p: nat)
    requires p > 0
    ensures ModResult(0, p) == 0
  {
    forall j: nat ensures Shift(p, j) > 0 { PowPositive(j); MulMono(1, p, 1, Pow(j)); }
  }

  /** RSADecrypt after RSAEncrypt: the message comes back exactly when crtCombine loses no borrow. */
  method EncryptDecrypt(message: BigInt, pub: PublicKey, key: CrtKey, cut: Cutoffs, ghost d: nat)
      returns (cipher: BigInt, result: BigInt)
    requires cut.Valid() && Plain(message) && Plain(pub.publicExponent) && pub.publicExponent.Mag() > 0
    requires Modulus(pub.modulus) && pub.modulus.num[0] % 2 == 1
    requires Distinct(message, pub.modulus) && Distinct(pub.publicExponent, pub.modulus) &&
        message != pub.publicExponent
    requires KeyShape(key) && KeysApart(pub, key) && message !in {key.p, key.q, key.dp, key.dq, key.c12}
    requires KeyNumbers(key.p.Mag(), key.q.Mag(), pub.publicExponent.Mag(), d, key.dp.Mag(), key.dq.Mag(),
        key.c12.Mag())
    requires pub.modulus.Mag() == key.p.Mag() * key.q.Mag()
    modifies message`length, pub.publicExponent`length, pub.modulus, pub.modulus.num
    modifies key.c12`length, key.p, key.p.num, key.q, key.q.num
    ensures fresh(cipher) && fresh(result) && Plain(result)
    ensures key.p.Valid() && key.q.Valid() && Plain(cipher)
    ensures key.p.Mag() == old(key.p.Mag()) > 0 && key.q.Mag() == old(key.q.Mag()) > 0
    ensures cipher.Mag() <= key.p.Mag() * key.q.Mag()
    ensures Cong(cipher.Mag(), Exp(old(message.Mag()), old(pub.publicExponent.Mag())), key.p.Mag() * key.q.Mag())
    ensures var m, c, p, q, c12 := old(message.Mag()), cipher.Mag(), key.p.Mag(), key.q.Mag(), old(key.c12.Mag());
      && Decryption(result.Mag(), m, Half(m, c, p), Half(m, c, q), p, q, c12)
      && (m < p * q ==> (result.Mag() == m <==> !CrtLoses(Half(m, c, p), Half(m, c, q), p, q, c12)))
  {
    hide Val, Pow, Cong, Exp, Prime, CrtLoses, KeyNumbers, Half, Settled, Combined, Overflows, Decryption;
    ghost var m, e := message.Mag(), pub.publicExponent.Mag();
    ghost var p, q, c12 := key.p.Mag(), key.q.Mag(), key.c12.Mag();
    KeyPositive(p, q, e, d, key.dp.Mag(), key.dq.Mag(), c12);
    cipher := RSAEncrypt(message, pub, cut);
    result := RSADecrypt(cipher, key, cut, m, e, d);
    ZeroFits(m, cipher.Mag(), p, q, c12, result.Mag());
  }

  /**
   * Every key whose q exceeds 2^64 has a message decryption gets wrong: the one that leaves 1
   * modulo p and 2^64 modulo q, whose subtraction borrows through a zero word.
   */
  lemma LongKeyFailure(p: nat, q: nat, e: nat, d: nat, dp: nat, dq: nat, c12: nat) returns (m: nat)
    requires KeyNumbers(p, q, e, d, dp, dq, c12) && q > Pow(2)
    ensures m < p * q && m % p == 1 && m % q == Pow(2) && !Divides(p, m) && !Divides(q, m)
    ensures CrtLoses(m % p, m % q, p, q, c12)
  {
    hide Cong, Pow, Prime;
    PowPositive(2);
    var g := Pow(2) - 1;
    var t := (c12 * g) % q;
    m := 1 + t * p;
    CongAddMultiple(1, t, p);
    CongMod(m, p);
    CongSym(m, 1, p);
    CongTrans(1, m, m % p, p);
    CongUnique(1, m % p, p);
    FailureResidue(p, q, c12, g, t);
    CongMod(m, q);
    CongSym(m, g + 1, q);
    CongTrans(g + 1, m, m % q, q);
    CongUnique(g + 1, m % q, q);
    MulMono(t + 1, q, p, p);
    MulDist(p, t, 1);
    MulComm(p, q);
    assert !Divides(p, m) by {
      if Cong(m, 0, p) { CongTrans(1, m, 0, p); CongUnique(1, 0, p); }
    }
    assert !Divides(q, m) by {
      if Cong(m, 0, q) { CongTrans(g + 1, m, 0, q); CongUnique(g + 1, 0, q); }
    }
    DivUnique(Pow(2), Pow(2), 1, 0);
  }

  lemma FailureResidue(p: nat, q: nat, c12: nat, g: int, t: nat)
    requires q > 0 && t == (c12 * g) % q && Cong(c12 * p, 1, q)
    ensures Cong(1 + t * p, g + 1, q)
  {
    hide Cong;
    CongMod(c12 * g, q);
    CongScale(t, c12 * g, p, q);
    MulComm(c12, g);
    MulAssoc(g, c12, p);
    CongScale(c12 * p, 1, g, q);
    CongTrans(t * p, g * (c12 * p), g, q);
    CongRefl(1, q);
    CongAdd(1, 1, t * p, g, q);
  }
}
