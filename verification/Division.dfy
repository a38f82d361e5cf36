// Trial quotients and reduction: crypt/longBigDivide.c and crypt/bigMod.c.

module Division {
  import opened Words
  import opened Kernels
  import opened BigInts
  import opened Additive
  import opened Shifts

  const HALF: nat := 0x1_0000

  // --- longBigDivide ---

  /** The quotient digit longBigDivide finds for a two-word x and a normalised d. */
  ghost function TrialQuotient(x: nat, d: nat): nat
    requires d > 0
  {
    if x == d * BASE then BASE - 1
    else if x < d * BASE then Quot(x, d)
    else Quot(x - d * BASE, d)
  }

  function Quot(x: nat, d: nat): nat
    requires d > 0
  {
    x / d
  }

  function Min(x: nat, y: nat): nat { if x <= y then x else y }

  lemma DivBound(x: nat, d: nat, q: nat)
    requires d > 0
    ensures q <= Quot(x, d) <==> Times(q, d) <= x
  {
    var k, r := x / d, x % d;
    assert x == d * k + r;
    MulComm(q, d);
    if q <= k {
      MulMono(d, d, q, k);
    } else {
      MulMono(d, d, k + 1, q);
      MulDist(d, k, 1);
    }
  }

  /** The first guess at a 16-bit digit, from the dividend's top bits s and the divisor's top half. */
  function Guess(s: nat, dhi: nat): nat
    requires dhi > 0
  {
    if s / HALF == dhi then HALF - 1 else Quot(s, dhi)
  }

  /** A digit guessed from the top half of the divisor is at least the true one, and no longer than 16 bits. */
  lemma HalfDigitGuess(y: nat, d: nat, dhi: nat, s: nat)
    requires 0x8000_0000 <= d < BASE && dhi == d / HALF
    requires y <= d * HALF && s == y / HALF
    ensures 0x8000 <= dhi < HALF && s / HALF <= dhi
    ensures Guess(s, dhi) < HALF && Min(Guess(s, dhi), Quot(y, d)) == Min(HALF - 1, Quot(y, d))
  {
    hide Quot;
    TopBits(y, d, dhi, s);
    if s / HALF != dhi {
      GuessIsHigh(y, d, dhi, s, Quot(y, d), Quot(s, dhi));
    }
  }

  lemma TopBits(y: nat, d: nat, dhi: nat, s: nat)
    requires 0x8000_0000 <= d < BASE && dhi == d / HALF
    requires y <= d * HALF && s == y / HALF
    ensures 0x8000 <= dhi < HALF && s / HALF <= dhi && dhi * HALF <= d
    ensures s / HALF != dhi ==> s < dhi * HALF
  {}

  lemma GuessIsHigh(y: nat, d: nat, dhi: nat, s: nat, q: nat, g: nat)
    requires 0 < dhi && 0 < d && dhi * HALF <= d && s == y / HALF && s < dhi * HALF
    requires q == Quot(y, d) && g == Quot(s, dhi)
    ensures q <= g < HALF
  {
    hide Quot;
    DivBound(y, d, q);
    MulMono(q, q, dhi * HALF, d);
    MulAssoc(q, dhi, HALF);
    assert (q * dhi) * HALF <= y;
    DivBound(s, dhi, q);
    DivBound(s, dhi, HALF);
    MulComm(HALF, dhi);
  }

  /** Two 16-bit digits make the 32-bit one. */
  lemma TwoDigits(x: nat, d: nat, q1: nat, q2: nat)
    requires 0 < d && x <= d * BASE
    requires q1 == Min(HALF - 1, Quot(x, d * HALF)) && x >= Times(q1, d * HALF)
    requires q2 == Min(HALF - 1, Quot(x - Times(q1, d * HALF), d))
    ensures x - Times(q1, d * HALF) <= d * HALF
    ensures q1 * HALF + q2 == TrialQuotient(x, d)
  {
    var e := d * HALF;
    var x2 := x - q1 * e;
    if x == d * BASE {
      DivBound(x, e, HALF);
      assert HALF * e == d * BASE;
      assert x2 == e;
      DivBound(e, d, HALF);
    } else {
      DivBound(x, e, HALF);
      assert HALF * e == d * BASE;
      assert q1 == x / e;
      DivBound(x, e, q1 + 1);
      MulDist(e, q1, 1);
      assert x2 < e;
      DivBound(x2, d, HALF);
      assert HALF * d == d * HALF;
      assert q2 == x2 / d;
      var r := x2 % d;
      assert x2 == d * q2 + r;
      assert q1 * (d * HALF) == d * (q1 * HALF);
      MulDist(d, q1 * HALF, q2);
      DivUnique(x, d, q1 * HALF + q2, r);
    }
  }

  /** A number whose second word can be read even when it has been trimmed away. */
  ghost predicate TwoWords(b: BigInt)
    reads b, b.num
  {
    b.Valid() && b.num.Length >= 2 && b.length <= 2 && (b.length == 1 ==> b.num[1] == 0)
  }

  lemma TwoWordsMag(b: BigInt)
    requires TwoWords(b)
    ensures b.Mag() == b.num[0] + BASE * b.num[1]
  {
    if b.length == 1 {
      assert b.num[..1] == [b.num[0]];
      ValOne(b.num[0]);
    } else {
      PairVal(b.num[..2]);
    }
  }

  lemma PairVal(s: seq<Word>)
    requires |s| == 2
    ensures Val(s) == s[0] + BASE * s[1]
  {
    assert s[1..] == [s[1]];
    ValOne(s[1]);
  }

  /** Clear the low words of tmp, multiply-accumulate q times the n words of src, and store the carry. */
  method MulWords(tmp: BigInt, q: Word, src: array<Word>, n: nat)
    requires tmp.Valid() && n < tmp.num.Length && n <= src.Length && src != tmp.num
    modifies tmp.num
    ensures Val(tmp.num[..n + 1]) == Times(q, Val(src[..n]))
    ensures forall k | n < k < tmp.num.Length :: tmp.num[k] == old(tmp.num[k])
  {
    hide Val, Shift;
    for i := 0 to n + 1
      invariant forall k | 0 <= k < i :: tmp.num[k] == 0
      invariant forall k | n < k < tmp.num.Length :: tmp.num[k] == old(tmp.num[k])
    {
      tmp.num[i] := 0;
    }
    ValZeros(tmp.num[0..n]);
    assert src[0..n] == src[..n];
    var carry := LMult(tmp.num, 0, q, src, 0, n);
    ghost var low: seq<Word> := tmp.num[0..n];
    tmp.num[n] := carry;
    assert tmp.num[..n + 1] == low + [carry];
    ValSnoc(low, carry);
  }

  /** Refresh tmp with another multiple of d, within the words it already has. */
  method SetMultiple(tmp: BigInt, q: Word, ms2: BigInt)
    requires ms2.Valid() && TwoWords(tmp) && Distinct(ms2, tmp)
    requires tmp.length == 2 || Times(q, ms2.num[0]) <= tmp.Mag()
    modifies tmp.num
    ensures TwoWords(tmp) && tmp.Mag() == Times(q, ms2.num[0])
  {
    hide Val, Pow;
    var d := ms2.num[0];
    assert ms2.num[..1] == [d];
    ValOne(d);
    ghost var one := tmp.length == 1;
    if one { ValBound(tmp.num[..1]); PowOne(); }
    MulWords(tmp, q, ms2.num, 1);
    assert tmp.num[..2] == tmp.num[..1 + 1];
    PairVal(tmp.num[..2]);
    TwoWordsMag(tmp);
  }

  /** The while loop of each half: lower the guess until its multiple of d is not above y. */
  method TrimDigit(q0: Word, ms2: BigInt, tmp: BigInt, y: BigInt) returns (q: Word)
    requires ms2.Valid() && ms2.length == 1 && ms2.num[0] > 0
    requires tmp.Valid() && tmp.num.Length >= 2 && y.Valid() && Distinct(ms2, tmp) && Distinct(tmp, y) &&
        Distinct(ms2, y)
    modifies tmp`length, tmp.num, y`length
    ensures tmp.Valid() && tmp.length <= 2
    ensures y.Valid() && y.Trimmed() && y.Mag() == old(y.Mag()) && y.length <= old(y.length)
    ensures old(y.Trimmed()) ==> y.length == old(y.length)
    ensures forall k | y.length <= k < old(y.length) :: y.num[k] == 0
    ensures q == Min(q0, Quot(y.Mag(), ms2.num[0]))
  {
    hide Val, Quot, Times;
    var d := ms2.num[0];
    ghost var ym := y.Mag();
    q := q0;
    tmp.length := 2;
    SetMultiple(tmp, q, ms2);
    var r := Compare(tmp, y);
    DivBound(ym, d, q);
    while r > 0
      modifies tmp`length, tmp.num, y`length
      invariant 0 <= q <= q0 && Min(q0, Quot(ym, d)) <= q
      invariant TwoWords(tmp) && tmp.Mag() == Times(q, d)
      invariant y.Valid() && y.Trimmed() && y.Mag() == ym && y.length <= old(y.length)
      invariant old(y.Trimmed()) ==> y.length == old(y.length)
      invariant forall k | y.length <= k < old(y.length) :: y.num[k] == 0
      invariant r > 0 <==> q > Quot(ym, d)
      decreases q
    {
      TimesMono(q - 1, q, d);
      q := q - 1;
      SetMultiple(tmp, q, ms2);
      r := Compare(tmp, y);
      DivBound(ym, d, q);
    }
  }

  lemma TimesMono(q: nat, r: nat, d: nat)
    requires q <= r
    ensures Times(q, d) <= Times(r, d)
  {
    MulMono(q, r, d, d);
  }

  /** A fixed two-word buffer with its words set. */
  method SetWords(b: BigInt, lo: Word, hi: Word)
    requires b.Valid()
    modifies b, b.num
    ensures TwoWords(b) && b.length == 2 && b.sign == old(b.sign) && (b.num == old(b.num) || fresh(b.num))
    ensures b.num.Length >= 4
    ensures b.num[0] == lo && b.num[1] == hi && b.Mag() == lo + BASE * hi
  {
    Guarantee(b, 3);
    b.num[0], b.num[1] := lo, hi;
    b.length := 2;
    TwoWordsMag(b);
  }

  lemma ReducedDigit(x: nat, x1: nat, d: nat)
    requires 0x8000_0000 <= d < BASE && x < BASE * BASE
    requires x1 == if x > d * BASE then x - d * BASE else x
    ensures x1 <= d * BASE && TrialQuotient(x1, d) == TrialQuotient(x, d)
  {
    hide Quot;
  }

  /** x less d * BASE when it is more than that: both operands are at most two words. */
  method ReduceOnce(x: BigInt, d: Word)
    requires TwoWords(x) && x.sign == POS && 0x8000_0000 <= d
    modifies x, x.num
    ensures TwoWords(x) && x.Trimmed() && x.sign == POS && (x.num == old(x.num) || fresh(x.num))
    ensures x.Mag() == if old(x.Mag()) > d * BASE then old(x.Mag()) - d * BASE else old(x.Mag())
  {
    hide Val, Pow;
    var div := new BigInt(0);
    SetWords(div, 0, d);
    var r := Compare(x, div);
    if r > 0 {
      ShorterIsSmaller(x, div);
      TwoLong(div, d);
      BigSub(x, div, x);
    }
  }

  lemma TwoLong(b: BigInt, d: nat)
    requires b.Valid() && b.Trimmed() && b.length <= 2 && b.Mag() == d * BASE && d > 0
    ensures b.length == 2
  {
    hide Val, Pow;
    if b.length == 1 {
      ValBound(b.num[..1]);
      PowOne();
    }
  }

  /** The first 16-bit digit: the guess from the top bits of x, lowered, and its multiple taken from x. */
  method HighDigit(x: BigInt, d: Word) returns (q: Word)
    requires TwoWords(x) && x.Trimmed() && x.sign == POS && x.Mag() <= d * BASE && 0x8000_0000 <= d
    modifies x, x.num
    ensures TwoWords(x) && x.Trimmed() && x.sign == POS && (x.num == old(x.num) || fresh(x.num))
    ensures q == Min(HALF - 1, Quot(old(x.Mag()), d * HALF))
    ensures Times(q, d * HALF) <= old(x.Mag()) && x.Mag() == old(x.Mag()) - Times(q, d * HALF)
  {
    hide Val, Quot, Pow, Times;
    q := HighGuess(x, d);
    NestedQuot(x.Mag(), d, q);
    TakeMultiple(x, q, d);
  }

  /** A copy of x, half a word further down. */
  method HalfDown(x: BigInt) returns (y: BigInt)
    requires TwoWords(x)
    ensures fresh(y) && fresh(y.num) && y.Valid() && y.Trimmed() && y.Mag() == x.Mag() / HALF
  {
    hide Val, TwoTo;
    y := new BigInt(0);
    Copy(x, y);
    TwoToWord();
    BitsRight(y, 16);
  }

  method HighGuess(x: BigInt, d: Word) returns (q: Word)
    requires TwoWords(x) && x.Mag() <= d * BASE && 0x8000_0000 <= d
    ensures q == Min(HALF - 1, Quot(x.Mag() / HALF, d))
  {
    hide Val, Quot, Pow, Guess, Times;
    var tmp := new BigInt(0);
    var ms2 := new BigInt(d);
    TwoWordsMag(x);
    var dhi := d / HALF;
    var s := x.num[1];
    HalfDigitGuess(x.Mag() / HALF, d, dhi, s);
    var tmp2 := HalfDown(x);
    var q0 := Guess(s, dhi);
    q := TrimDigit(q0, ms2, tmp, tmp2);
  }

  /** q times d * 2^16, the divisor moved up by half a word. */
  method HighMultiple(q: Word, d: Word) returns (tmp: BigInt)
    ensures fresh(tmp) && fresh(tmp.num) && tmp.Valid() && tmp.Trimmed() && tmp.sign == POS &&
        tmp.Mag() == Times(q, d * HALF)
  {
    hide Val, Pow, Shl, Times;
    var div := new BigInt(0);
    tmp := new BigInt(0);
    SetWords(tmp, 0, 0);
    var dlo := Shl(d, 16);
    ShlHigh(d);
    SetWords(div, dlo, d / HALF);
    MulWords(tmp, q, div.num, 2);
    tmp.length := 3;
    assert tmp.num[..3] == tmp.num[..2 + 1];
    Trim(tmp);
  }

  /** x less that multiple. */
  method TakeMultiple(x: BigInt, q: Word, d: Word)
    requires TwoWords(x) && x.Trimmed() && x.sign == POS && Times(q, d * HALF) <= x.Mag()
    modifies x, x.num
    ensures TwoWords(x) && x.Trimmed() && x.sign == POS && (x.num == old(x.num) || fresh(x.num))
    ensures x.Mag() == old(x.Mag()) - Times(q, d * HALF)
  {
    hide Val, Pow, Shl, Times, DifferenceLoss;
    var tmp := HighMultiple(q, d);
    ShorterIsSmaller(x, tmp);
    LossNear(x, tmp, x);
    BigSubtract(x, tmp, x);
  }

  lemma ShlHigh(d: Word)
    ensures Shl(d, 16) + BASE * (d / HALF) == d * HALF
  {
    TwoToWord();
    ShlHalves(d, 16);
  }

  lemma NestedQuot(x: nat, d: nat, q: nat)
    requires d > 0 && q == Min(HALF - 1, Quot(x / HALF, d))
    ensures q == Min(HALF - 1, Quot(x, d * HALF)) && Times(q, d * HALF) <= x
  {
    hide Quot;
    var e := d * HALF;
    var a, b := Quot(x / HALF, d), Quot(x, e);
    DivBound(x / HALF, d, a);
    DivBound(x, e, b);
    DivBound(x / HALF, d, b);
    DivBound(x, e, a);
    MulAssoc(a, d, HALF);
    MulAssoc(b, d, HALF);
    DivBound(x, e, q);
  }

  /** crypt/longBigDivide.c for a normalised divisor: the quotient digit from two 16-bit digits. */
  method LongBigDivide(big: BigInt, d: Word) returns (r: Word)
    requires big.Valid() && big.length == 2 && big.sign == POS && d >= 0x8000_0000
    ensures r == TrialQuotient(big.Mag(), d)
  {
    hide Val, Quot, Pow, Times, TrialQuotient;
    var x := new BigInt(0);
    Copy(big, x);
    ghost var xm := big.Mag();
    ValBound(big.num[..2]);
    PowOne();
    ReduceOnce(x, d);
    ghost var x1 := x.Mag();
    ReducedDigit(xm, x1, d);
    var q1 := HighDigit(x, d);
    r := q1 * HALF;
    TwoDigits(x1, d, q1, Min(HALF - 1, Quot(x.Mag(), d)));
    var q2 := LowDigit(x, d);
    r := r + q2;
  }

  /** The second 16-bit digit, from the word boundary that straddles what is left of x. */
  method LowDigit(x: BigInt, d: Word) returns (q: Word)
    requires TwoWords(x) && x.Mag() <= d * HALF && 0x8000_0000 <= d
    modifies x`length
    ensures q == Min(HALF - 1, Quot(old(x.Mag()), d))
  {
    hide Val, Quot, Pow, Guess;
    var tmp := new BigInt(0);
    var ms2 := new BigInt(d);
    TwoWordsMag(x);
    var dhi := d / HALF;
    var s := (x.num[1] % HALF) * HALF + x.num[0] / HALF;
    HalfDigitGuess(x.Mag(), d, dhi, s);
    assert s / HALF == x.num[1] % HALF;
    var q0 := Guess(s, dhi);
    q := TrimDigit(q0, ms2, tmp, x);
  }
}
