// The Miller-Rabin step probPrimeTest of crypt/primes.c.

module Primality {
  import opened Words
  import opened BigInts
  import opened Multiply
  import opened Shifts
  import opened Reduction
  import opened Congruence
  import opened Montgomery
  import opened ModPow
  import opened NumberTheory
  import opened Rsa

  /** b squared j times. */
  ghost function Squared(b: int, j: nat): int {
    if j == 0 then b else Squared(b, j - 1) * Squared(b, j - 1)
  }

  lemma {:induction false} SquaredIs(b: int, j: nat)
    ensures Squared(b, j) == Exp(b, TwoTo(j))
  {
    hide TwoTo;
    TwoToWord();
    if j == 0 {
      assert Exp(b, 1) == b * Exp(b, 0);
    } else {
      SquaredIs(b, j - 1);
      TwoToStep(j);
      ExpAdd(b, TwoTo(j - 1), TwoTo(j - 1));
    }
  }

  ghost predicate MinusAt(b: int, j: nat, n: nat) {
    Cong(Squared(b, j), -1, n)
  }

  /** The first k squares of b, b itself the first, meet minus one. */
  ghost predicate Meets(b: int, k: nat, n: nat) {
    exists j | 0 <= j < k :: MinusAt(b, j, n)
  }

  /** n passes the strong test to base x, where n - 1 is q times a power of two. */
  ghost predicate StrongProbable(n: nat, x: nat, q: nat, k: nat) {
    Cong(Exp(x, q), 1, n) || Meets(Exp(x, q), k, n)
  }

  /** Walking back from one along the squares meets minus one, or one at the start. */
  lemma {:induction false} WalkBack(n: nat, b: int, k: nat)
    requires Prime(n) && Cong(Squared(b, k), 1, n)
    ensures Cong(b, 1, n) || Meets(b, k, n)
  {
    hide Cong, Prime;
    if k > 0 {
      SquareRootOfOne(n, Squared(b, k - 1));
      if Cong(Squared(b, k - 1), 1, n) {
        WalkBack(n, b, k - 1);
      } else {
        assert MinusAt(b, k - 1, n);
      }
    }
  }

  /** Every odd prime passes for every base from 1 to n - 1. */
  lemma PrimesPass(n: nat, x: nat, q: nat, k: nat)
    requires Prime(n) && 1 <= x < n && n - 1 == TwoTo(k) * q
    ensures StrongProbable(n, x, q, k)
  {
    hide Exp;
    if Divides(n, x) { CongUnique(x, 0, n); }
    Fermat(n, x);
    ExpMul(x, q, TwoTo(k));
    MulComm(q, TwoTo(k));
    SquaredIs(Exp(x, q), k);
    WalkBack(n, Exp(x, q), k);
  }

  lemma PowerTest(n: nat, y: nat, v: int)
    requires n >= 3 && y <= n && Cong(y, v, n)
    ensures y == 1 <==> Cong(v, 1, n)
    ensures y == n - 1 <==> Cong(v, -1, n)
  {
    hide Cong;
    CongAddMultiple(-1, 1, n);
    CongSym(n - 1, -1, n);
    CongSym(y, v, n);
    CongAddMultiple(0, 1, n);
    CongRefl(1, n);
    CongRefl(n - 1, n);
    if y == 1 { CongTrans(v, y, 1, n); }
    if y == n - 1 { CongTrans(v, y, -1, n); }
    if Cong(v, 1, n) {
      CongTrans(y, v, 1, n);
      if y == n { CongSym(n, 0, n); CongTrans(0, n, 1, n); CongUnique(0, 1, n); } else { CongUnique(y, 1, n); }
    }
    if Cong(v, -1, n) {
      CongTrans(y, v, -1, n);
      CongTrans(y, -1, n - 1, n);
      if y == n { CongSym(n, 0, n); CongTrans(0, n, n - 1, n); CongUnique(0, n - 1, n); } else {
        CongUnique(y, n - 1, n);
      }
    }
  }

  /** Once the squares reach one they never meet minus one. */
  lemma {:induction false} OnesStay(n: nat, b: int, i: nat, j: nat)
    requires n >= 3 && i <= j && Cong(Squared(b, i), 1, n)
    ensures Cong(Squared(b, j), 1, n) && !Cong(Squared(b, j), -1, n)
    decreases j
  {
    hide Cong;
    if i < j {
      OnesStay(n, b, i, j - 1);
      CongMul(Squared(b, j - 1), 1, Squared(b, j - 1), 1, n);
    }
    NotBoth(n, Squared(b, j));
  }

  lemma NotBoth(n: nat, v: int)
    requires n >= 3 && Cong(v, 1, n)
    ensures !Cong(v, -1, n)
  {
    hide Cong;
    if Cong(v, -1, n) {
      CongSym(v, 1, n);
      CongTrans(1, v, -1, n);
      CongAddMultiple(-1, 1, n);
      CongSym(n - 1, -1, n);
      CongTrans(1, -1, n - 1, n);
      CongUnique(1, n - 1, n);
    }
  }

  /** A number that passes meets Fermat's congruence for the base, so any other composite is refused. */
  lemma StrongIsFermat(n: nat, x: nat, q: nat, k: nat)
    requires n >= 3 && n - 1 == TwoTo(k) * q && StrongProbable(n, x, q, k)
    ensures Cong(Exp(x, n - 1), 1, n)
  {
    hide Cong, Exp, TwoTo;
    var b := Exp(x, q);
    ExpMul(x, q, TwoTo(k));
    MulComm(q, TwoTo(k));
    SquaredIs(b, k);
    SquaredStep(b, 0);
    if Cong(b, 1, n) {
      OnesStay(n, b, 0, k);
    } else {
      var j :| 0 <= j < k && MinusAt(b, j, n);
      SquaredStep(b, j + 1);
      CongMul(Squared(b, j), -1, Squared(b, j), -1, n);
      OnesStay(n, b, j + 1, k);
    }
  }

  lemma LowBit(x: BigInt)
    requires x.Valid()
    ensures x.Mag() % 2 == x.num[0] % 2
  {
    ghost var s: seq<Word> := x.num[..x.length];
    assert s[0] == x.num[0];
  }

  /** Halve q until it is odd, counting. */
  method OddPart(q: BigInt) returns (k: nat)
    requires Plain(q) && q.Mag() > 0
    modifies q, q.num
    ensures Plain(q) && q.num == old(q.num) && q.Mag() % 2 == 1
    ensures old(q.Mag()) == TwoTo(k) * q.Mag() && (old(q.Mag()) % 2 == 0 ==> k > 0)
    ensures old(q.Spare()) ==> q.Spare()
  {
    hide Val, TwoTo;
    ghost var m := q.Mag();
    k := 0;
    TwoToWord();
    LowBit(q);
    while q.num[0] % 2 == 0
      invariant Plain(q) && q.num == old(q.num) && q.Mag() % 2 == q.num[0] % 2
      invariant m == TwoTo(k) * q.Mag() && q.Mag() > 0 && (k == 0 ==> q.Mag() == m)
      invariant old(q.Spare()) ==> q.Spare()
      decreases q.Mag()
    {
      ghost var was := q.Mag();
      TwoToStep(1);
      TwoToStep(k + 1);
      BigRightShift(q, 1);
      HalfStep(TwoTo(k), was, q.Mag());
      LowBit(q);
      k := k + 1;
    }
  }

  lemma HalfStep(t: nat, was: nat, now: nat)
    requires was % 2 == 0 && now == was / 2
    ensures t * was == (2 * t) * now && was == 2 * now
  {
    MulAssoc(t, 2, now);
    MulComm(t, 2);
  }

  /** Whether the comparison finds y and z equal. */
  method Same(y: BigInt, z: BigInt) returns (eq: bool)
    requires Plain(y) && Plain(z)
    modifies y`length, z`length
    ensures y.length == old(y.length) && z.length == old(z.length) && (eq <==> y.Mag() == z.Mag())
  {
    hide Val;
    var r := Compare(y, z);
    eq := r == 0;
  }

  /** The squaring loop of probPrimeTest, from y congruent to b. */
  method SquaringLoop(n: BigInt, nminus1: BigInt, q: BigInt, y: BigInt, one: BigInt, k: nat, cut: Cutoffs, ghost b: int)
      returns (retval: bool)
    requires cut.Valid() && Modulus(n) && Plain(nminus1) && nminus1.Mag() == n.Mag() - 1 >= 2
    requires Plain(one) && one.Mag() == 1
    requires Plain(y) && y.Mag() <= n.Mag() && Cong(y.Mag(), b, n.Mag()) && y.Spare()
    requires q.Valid() && q.Spare() && Distinct(q, y) && Distinct(n, q) && Distinct(n, y)
    requires Distinct(one, y) && Distinct(one, q) && Distinct(one, n)
    requires Distinct(nminus1, n) && Distinct(nminus1, q) && Distinct(nminus1, y)
    modifies n, n.num, nminus1`length, q, q.num, y, y.num, one`length
    ensures Modulus(n) && n.Mag() == old(n.Mag()) && n.num[..n.length] == old(n.num[..n.length])
    ensures retval <==> Cong(b, 1, n.Mag()) || Meets(b, k, n.Mag())
  {
    hide Val, Pow, Cong, Squared, ModResult, Meets;
    ghost var nm, words: seq<Word> := n.Mag(), n.num[..n.length];
    var j := 0;
    SquaredStep(b, 0);
    MeetsNone(b, nm);
    PowerTest(nm, y.Mag(), b);
    retval := Same(y, one);
    while j < k && !retval
      invariant 0 <= j <= k && (retval ==> Cong(b, 1, nm))
      invariant !retval ==> !Cong(b, 1, nm) && !Meets(b, j, nm)
      invariant Modulus(n) && n.Mag() == nm && n.num[..n.length] == words && (n.num == old(n.num) || fresh(n.num))
      invariant Plain(nminus1) && nminus1.Mag() == nm - 1 && Plain(one) && one.Mag() == 1
      invariant q.Valid() && q.Spare() && Plain(y) && y.Spare()
      invariant (q.num == old(q.num) || fresh(q.num)) && (y.num == old(y.num) || fresh(y.num))
      invariant Distinct(q, y) && Distinct(n, q) && Distinct(n, y)
      invariant y.Mag() <= nm && Cong(y.Mag(), Squared(b, j), nm)
    {
      MeetsStep(b, j, k, nm);
      var last, unit := SquaringStep(n, nminus1, q, y, one, cut, b, j);
      if last {
        return true;
      }
      if unit {
        StayBelow(nm, b, j, k);
        return false;
      }
      j := j + 1;
    }
  }

  /** One round: the tests for n - 1 and for one, and the next square if neither holds. */
  method SquaringStep(n: BigInt, nminus1: BigInt, q: BigInt, y: BigInt, one: BigInt, cut: Cutoffs, ghost b: int,
      ghost j: nat)
      returns (last: bool, unit: bool)
    requires cut.Valid() && Modulus(n) && Plain(nminus1) && nminus1.Mag() == n.Mag() - 1 >= 2
    requires Plain(one) && one.Mag() == 1
    requires Plain(y) && y.Mag() <= n.Mag() && Cong(y.Mag(), Squared(b, j), n.Mag()) && y.Spare()
    requires q.Valid() && q.Spare() && Distinct(q, y) && Distinct(n, q) && Distinct(n, y)
    requires Distinct(one, y) && Distinct(one, q) && Distinct(one, n)
    requires Distinct(nminus1, n) && Distinct(nminus1, q) && Distinct(nminus1, y)
    modifies n, n.num, nminus1`length, q, q.num, y, y.num, one`length
    ensures Modulus(n) && n.Mag() == old(n.Mag()) && n.num[..n.length] == old(n.num[..n.length]) &&
        (n.num == old(n.num) || fresh(n.num))
    ensures Plain(nminus1) && nminus1.Mag() == old(nminus1.Mag()) && Plain(one) && one.Mag() == 1
    ensures q.Valid() && q.Spare() && Plain(y) && y.Spare() && Distinct(q, y) && Distinct(n, q) && Distinct(n, y)
    ensures (q.num == old(q.num) || fresh(q.num)) && (y.num == old(y.num) || fresh(y.num))
    ensures last <==> MinusAt(b, j, n.Mag())
    ensures !last ==> (unit <==> Cong(Squared(b, j), 1, n.Mag()))
    ensures !last && !unit ==> y.Mag() <= n.Mag() && Cong(y.Mag(), Squared(b, j + 1), n.Mag())
  {
    hide Val, Pow, Cong, Squared, ModResult;
    PowerTest(n.Mag(), y.Mag(), Squared(b, j));
    unit := false;
    last := Same(y, nminus1);
    if last {
      return;
    }
    unit := Same(y, one);
    if unit {
      return;
    }
    SquaredStep(b, j + 1);
    SquareMod(y, q, n, cut, Squared(b, j));
  }

  lemma MeetsNone(b: int, n: nat)
    ensures !Meets(b, 0, n)
  {}

  lemma SquaredStep(b: int, j: nat)
    ensures Squared(b, 0) == b && (j > 0 ==> Squared(b, j) == Squared(b, j - 1) * Squared(b, j - 1))
  {}

  lemma StayBelow(n: nat, b: int, j: nat, k: nat)
    requires n >= 3 && Cong(Squared(b, j), 1, n)
    ensures Meets(b, k, n) ==> Meets(b, j, n)
  {
    hide Cong, Squared;
    if Meets(b, k, n) {
      var i :| 0 <= i < k && MinusAt(b, i, n);
      if i >= j { OnesStay(n, b, j, i); }
    }
  }

  lemma MeetsStep(b: int, j: nat, k: nat, n: nat)
    requires j < k
    ensures MinusAt(b, j, n) ==> Meets(b, k, n)
    ensures Meets(b, j + 1, n) <==> Meets(b, j, n) || MinusAt(b, j, n)
  {
    hide MinusAt;
    if Meets(b, j + 1, n) {
      var i :| 0 <= i < j + 1 && MinusAt(b, i, n);
    }
  }

  /** y := y * y modulo n, through q. */
  method SquareMod(y: BigInt, q: BigInt, n: BigInt, cut: Cutoffs, ghost v: int)
    requires cut.Valid() && Modulus(n) && Plain(y) && y.Spare() && q.Valid() && q.Spare()
    requires Distinct(q, y) && Distinct(n, q) && Distinct(n, y) && Cong(y.Mag(), v, n.Mag())
    modifies n, n.num, q, q.num, y, y.num
    ensures Modulus(n) && n.Mag() == old(n.Mag()) && n.length == old(n.length) &&
        n.num[..n.length] == old(n.num[..n.length])
    ensures n.num == old(n.num) || fresh(n.num)
    ensures q.Valid() && q.Spare() && Plain(y) && y.Spare() && Distinct(q, y) && Distinct(n, q) && Distinct(n, y)
    ensures (q.num == old(q.num) || fresh(q.num)) && (y.num == old(y.num) || fresh(y.num))
    ensures y.Mag() <= n.Mag() && Cong(y.Mag(), v * v, n.Mag())
  {
    hide Val, Pow, Cong, ModResult;
    ghost var ym, nm := y.Mag(), n.Mag();
    BigMultiply(y, y, q, cut);
    LengthBounds1(n);
    ModResultCong(ym * ym, nm);
    BigMod(q, n, y);
    CongMul(ym, v, ym, v, nm);
    CongTrans(y.Mag(), ym * ym, v * v, nm);
  }

  /** n - 1, and its odd part with the number of halvings. */
  method SplitOff(n: BigInt) returns (nminus1: BigInt, q: BigInt, k: nat)
    requires Modulus(n) && n.num[0] % 2 == 1
    modifies n`length
    ensures n.length == old(n.length)
    ensures fresh(nminus1) && fresh(nminus1.num) && fresh(q) && fresh(q.num) && Distinct(nminus1, q)
    ensures Plain(nminus1) && nminus1.Mag() == n.Mag() - 1 >= 2 && Plain(q) && q.Spare() && q.Mag() % 2 == 1
    ensures k > 0 && nminus1.Mag() == Times(TwoTo(k), q.Mag())
  {
    hide Val, Pow, TwoTo;
    LengthBounds1(n);
    PowAtLeast(n.length - 1);
    LowBit(n);
    nminus1 := LessOne(n);
    q := new BigInt(0);
    Copy(nminus1, q);
    k := OddPart(q);
  }

  /** y := x to the q, modulo n. */
  method RaiseBase(x: BigInt, q: BigInt, n: BigInt, cut: Cutoffs) returns (y: BigInt)
    requires cut.Valid() && Modulus(n) && n.num[0] % 2 == 1 && Plain(x) && Plain(q) && q.Mag() > 0
    requires Distinct(x, n) && Distinct(q, n) && x != q
    modifies x`length, n, n.num
    ensures fresh(y) && fresh(y.num) && Distinct(n, y) && Plain(y) && y.Spare()
    ensures Modulus(n) && n.Mag() == old(n.Mag()) && n.num[..n.length] == old(n.num[..n.length])
    ensures n.num == old(n.num) || fresh(n.num)
    ensures y.Mag() <= n.Mag() && Cong(y.Mag(), Exp(old(x.Mag()), q.Mag()), n.Mag())
  {
    hide Val, Pow, Cong, Exp, Unit, PowBase;
    ghost var words: seq<Word> := n.num[..n.length];
    assert words[|words| - 1] != 0;
    y := new BigInt(0);
    BigPow(x, q, n, y, cut);
    assert n.num[..n.length] == words;
    TopWordKept(n, words);
  }

  /**
   * crypt/primes.c probPrimeTest for a given base x: it answers true exactly for the numbers that
   * pass the strong test, and so for every odd prime.
   */
  method ProbPrimeTest(n: BigInt, x: BigInt, cut: Cutoffs) returns (retval: bool, ghost q0: nat, ghost k0: nat)
    requires cut.Valid() && Modulus(n) && n.num[0] % 2 == 1
    requires Plain(x) && Distinct(x, n) && 1 <= x.Mag() < n.Mag()
    modifies n, n.num, x`length
    ensures Modulus(n) && n.Mag() == old(n.Mag()) && n.num[..n.length] == old(n.num[..n.length])
    ensures q0 % 2 == 1 && k0 > 0 && n.Mag() - 1 == TwoTo(k0) * q0
    ensures retval <==> StrongProbable(n.Mag(), old(x.Mag()), q0, k0)
    ensures Prime(n.Mag()) ==> retval
    ensures retval ==> Cong(Exp(old(x.Mag()), n.Mag() - 1), 1, n.Mag())
  {
    hide Val, Pow, Cong, Squared, TwoTo, Exp, Prime, Meets, Times;
    ghost var nm, xm := n.Mag(), x.Mag();
    var nminus1, q, k := SplitOff(n);
    q0, k0 := q.Mag(), k;
    var y := RaiseBase(x, q, n, cut);
    var one := new BigInt(1);
    retval := SquaringLoop(n, nminus1, q, y, one, k, cut, Exp(xm, q0));
    TimesIs(TwoTo(k0), q0);
    if Prime(nm) { PrimesPass(nm, xm, q0, k0); }
    if retval { StrongIsFermat(nm, xm, q0, k0); }
  }
}
