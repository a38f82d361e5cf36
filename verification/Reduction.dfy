// Reduction modulo a number of two or more words: crypt/bigMod.c.

module Reduction {
  import opened Words
  import opened BigInts
  import opened Additive
  import opened Shifts
  import opened Division

  // --- the trial digit (Knuth's algorithm D) ---

  /** The digit bigMod tries: guessed from two words, lowered until it passes the three-word test. */
  ghost function TrialDigit(top3: nat, ms2: nat, ms: nat): nat
    requires ms2 > 0 && ms > 0
  {
    var guess := if top3 / (BASE * BASE) == ms then BASE - 1 else Quot(top3 / BASE, ms);
    Min(guess, Quot(top3, ms2))
  }

  /**
   * With x and div cut at weight u below their three and two leading words: the trial digit
   * leaves more than -div, so one add-back suffices, and less than div unless x is the whole
   * next multiple.
   */
  lemma TrialDigitClose(x: nat, div: nat, u: nat, top3: nat, xl: nat, ms2: nat, dl: nat, ms: nat, q: nat)
    requires x == top3 * u + xl && xl < u
    requires div == ms2 * u + dl && dl < u
    requires 0x8000_0000 <= ms < BASE && ms * BASE <= ms2 < (ms + 1) * BASE
    requires x <= BASE * div && top3 / (BASE * BASE) <= ms
    requires q == TrialDigit(top3, ms2, ms)
    ensures q < BASE && Times(q, div) - x < div
    ensures x < BASE * div ==> x - Times(q, div) < div
    ensures x == BASE * div ==> x - Times(q, div) == div
  {
    hide Quot, Times, TrialDigit;
    TrialDigitIs(top3, ms2, ms, q);
    NotTooBig(x, div, u, top3, xl, ms2, dl, q);
    if x == BASE * div {
      WholeMultiple(x, div, u, top3, xl, ms2, dl, ms, q);
    } else {
      NotTooSmall(x, div, u, top3, xl, ms2, dl, ms, q);
    }
  }

  /** What the guess and the test say about q, without the quotients. */
  lemma TrialDigitIs(top3: nat, ms2: nat, ms: nat, q: nat)
    requires 0 < ms < BASE && ms * BASE <= ms2 && top3 / (BASE * BASE) <= ms
    requires q == TrialDigit(top3, ms2, ms)
    ensures q < BASE && q * ms2 <= top3
    ensures (q + 1) * ms2 > top3 || q == BASE - 1 || (q + 1) * ms > top3 / BASE
    ensures top3 / (BASE * BASE) == ms && (BASE - 1) * ms2 <= top3 ==> q == BASE - 1
  {
    hide Quot;
    var t2 := top3 / BASE;
    var g, h := Quot(t2, ms), Quot(top3, ms2);
    DivBound(top3, ms2, q);
    DivBound(top3, ms2, q + 1);
    DivBound(t2, ms, q + 1);
    DivBound(t2, ms, BASE);
    DivBound(top3, ms2, BASE - 1);
    if top3 / (BASE * BASE) < ms {
      assert t2 < ms * BASE;
    }
  }

  lemma NotTooBig(x: nat, div: nat, u: nat, top3: nat, xl: nat, ms2: nat, dl: nat, q: nat)
    requires x == top3 * u + xl && div == ms2 * u + dl && dl < u
    requires q < BASE && q * ms2 <= top3 && ms2 >= BASE
    ensures Times(q, div) - x < div
  {
    MulDist(q, ms2 * u, dl);
    MulAssoc(q, ms2, u);
    MulMono(q * ms2, top3, u, u);
    MulMono(q, BASE - 1, dl, u);
    MulMono(BASE, ms2, u, u);
    MulDist(u, BASE, 1);
  }

  lemma NotTooSmall(x: nat, div: nat, u: nat, top3: nat, xl: nat, ms2: nat, dl: nat, ms: nat, q: nat)
    requires x == top3 * u + xl && xl < u && div == ms2 * u + dl
    requires ms * BASE <= ms2 && x < BASE * div
    requires (q + 1) * ms2 > top3 || q == BASE - 1 || (q + 1) * ms > top3 / BASE
    ensures x - Times(q, div) < div
  {
    TimesNext(q, div);
    if (q + 1) * ms2 <= top3 && (q + 1) * ms > top3 / BASE {
      MulMono(q + 1, q + 1, ms * BASE, ms2);
      MulAssoc(q + 1, ms, BASE);
      assert false;
    }
    if (q + 1) * ms2 > top3 {
      MulDist(q + 1, ms2 * u, dl);
      MulAssoc(q + 1, ms2, u);
      MulMono(top3 + 1, (q + 1) * ms2, u, u);
      MulDist(u, top3, 1);
      MulMono(0, q + 1, 0, dl);
    }
  }

  lemma TimesNext(q: int, d: int)
    ensures q * d + d == (q + 1) * d
  {
    MulDist(d, q, 1);
  }

  lemma WholeMultiple(x: nat, div: nat, u: nat, top3: nat, xl: nat, ms2: nat, dl: nat, ms: nat, q: nat)
    requires x == top3 * u + xl && xl < u && div == ms2 * u + dl && x == BASE * div
    requires ms * BASE <= ms2 && top3 / (BASE * BASE) <= ms
    requires top3 / (BASE * BASE) == ms && (BASE - 1) * ms2 <= top3 ==> q == BASE - 1
    ensures x - Times(q, div) == div
  {
    // BASE * ms2 whole units of u fit below x, so they fit in top3
    if top3 < BASE * ms2 {
      MulMono(top3 + 1, BASE * ms2, u, u);
      MulDist(u, top3, 1);
      MulBase(ms2, u);
      assert false;
    }
    assert top3 / (BASE * BASE) >= ms;
    MulComm(BASE - 1, ms2);
    TimesNext(BASE - 1, div);
  }

  // --- remainders ---

  ghost function Rem(x: nat, d: nat): nat
    requires d > 0
  {
    x % d
  }

  lemma RemUnique(x: nat, d: nat, q: nat, r: nat)
    requires d > 0 && r < d && x == Times(q, d) + r
    ensures Rem(x, d) == r
  {
    MulComm(q, d);
    DivUnique(x, d, q, r);
  }

  lemma RemOf(x: nat, d: nat)
    requires d > 0
    ensures x == Times(Quot(x, d), d) + Rem(x, d) && Rem(x, d) < d
  {
    MulComm(Quot(x, d), d);
  }

  /** Reducing first by a multiple of m changes nothing modulo m. */
  lemma RemOfMultiple(x: nat, m: nat, k: nat)
    requires m > 0 && k > 0 && m * k > 0
    ensures Rem(Rem(x, m * k), m) == Rem(x, m)
  {
    hide Quot, Rem;
    var d := m * k;
    RemOf(x, d);
    var r := Rem(x, d);
    RemOf(r, m);
    var a, b := Quot(x, d), Quot(r, m);
    MulDist(m, a * k, b);
    MulComm(m, k);
    MulAssoc(a, k, m);
    RemUnique(x, m, a * k + b, Rem(r, m));
  }

  // --- one digit ---

  /** The three words of x from i downward, as a number. */
  ghost function Top3(x: BigInt, i: nat): nat
    requires 2 <= i < x.num.Length
    reads x, x.num
  {
    x.num[i - 2] + BASE * (x.num[i - 1] + BASE * x.num[i])
  }

  lemma Top3Splits(x: BigInt, i: nat, l: nat)
    requires 2 <= i < l && ZeroUpTo(x, l) && x.Mag() < Pow(i + 1)
    ensures x.Mag() == Times(Top3(x, i), Pow(i - 2)) + Val(x.num[..i - 2]) && Val(x.num[..i - 2]) < Pow(i - 2)
  {
    hide Val, Pow, Times;
    var s: seq<Word> := x.num[..l];
    WideMag(x, l);
    ValSplit(s, i + 1);
    ValBound(s[..i + 1]);
    ShiftGap(Val(s[..i + 1]), Val(s[i + 1..]), 0, i + 1);
    ShiftZero(0, i + 1);
    TopWordsZero(Val(s[..i + 1]), Val(s[i + 1..]), i + 1, x.Mag());
    var t: seq<Word> := s[..i + 1];
    ValSplit(t, i - 2);
    assert t[i - 2..] == [x.num[i - 2], x.num[i - 1], x.num[i]] && t[..i - 2] == x.num[..i - 2];
    ThreeVal(x.num[i - 2], x.num[i - 1], x.num[i]);
    ValBound(x.num[..i - 2]);
    ShiftIsProduct(Top3(x, i), i - 2);
  }

  lemma ShiftIsProduct(x: nat, n: nat)
    ensures Shift(x, n) == Times(x, Pow(n))
  {}

  lemma TopWordsZero(low: nat, high: nat, n: nat, total: nat)
    requires total == low + Shift(high, n) && total < Pow(n)
    ensures high == 0 && total == low
  {
    hide Pow, Shift;
    ShiftZero(1, n);
    ShiftZero(0, n);
    if high >= 1 { ShiftMono(1, high, n); }
  }

  lemma ThreeVal(a: Word, b: Word, c: Word)
    ensures Val([a, b, c]) == a + BASE * (b + BASE * c)
  {
    assert [a, b, c][1..] == [b, c];
    assert [b, c][1..] == [c];
    ValOne(c);
  }

  /** Refresh tmp with another multiple of the two leading words. */
  method Remultiply(ms2: BigInt, q: Word, tmp: BigInt)
    requires ms2.Valid() && ms2.length == 2 && tmp.Valid() && Distinct(ms2, tmp)
    modifies tmp, tmp.num
    ensures tmp.Valid() && tmp.Trimmed() && tmp.sign == POS && (tmp.num == old(tmp.num) || fresh(tmp.num))
    ensures tmp.Mag() == Times(q, ms2.Mag())
  {
    hide Val, Pow, Shift;
    Reset(tmp, 0);
    WordTimesFits(q, ms2, 2);
    PowMono(3, if tmp.num.Length < 5 then 5 else tmp.num.Length);
    ShiftZero(q * ms2.Mag(), 0);
    NumtypeBigmult(ms2, q, tmp, 0);
  }

  /** A word times an n-word number fits in n + 1 words. */
  lemma WordTimesFits(q: Word, b: BigInt, n: nat)
    requires b.Valid() && b.length <= n
    ensures 0 <= q * b.Mag() < Pow(n + 1)
  {
    hide Val, Pow;
    ValBound(b.num[..b.length]);
    PowMono(b.length, n);
    MulMono(q, BASE - 1, b.Mag(), Pow(n));
    PowStep1(n);
    MulDist(Pow(n), BASE, 1);
    PowPositive(n);
  }

  lemma PowStep1(n: nat)
    ensures Pow(n + 1) == BASE * Pow(n)
  {}

  /** The first guess: all ones when the leading words agree, else longBigDivide of the two leading words. */
  method FirstGuess(x: BigInt, i: nat, ms: Word) returns (q: Word)
    requires x.Valid() && 2 <= i < x.num.Length && 0x8000_0000 <= ms && x.num[i] <= ms
    ensures q == var t := Top3(x, i); if t / (BASE * BASE) == ms then BASE - 1 else Quot(t / BASE, ms)
  {
    hide Quot;
    var tmp := new BigInt(0);
    assert Top3(x, i) / (BASE * BASE) == x.num[i] && Top3(x, i) / BASE == x.num[i - 1] + BASE * x.num[i];
    if x.num[i] == ms {
      q := 0xFFFF_FFFF;
    } else {
      SetWords(tmp, x.num[i - 1], x.num[i]);
      q := LongBigDivide(tmp, ms);
    }
  }

  method SetThree(b: BigInt, w0: Word, w1: Word, w2: Word)
    requires b.Valid()
    modifies b, b.num
    ensures b.Valid() && b.sign == old(b.sign) && (b.num == old(b.num) || fresh(b.num))
    ensures b.Mag() == w0 + BASE * (w1 + BASE * w2)
  {
    hide Val;
    Guarantee(b, 3);
    b.num[2] := w2;
    b.num[1] := w1;
    b.num[0] := w0;
    b.length := 3;
    assert b.num[..3] == [w0, w1, w2];
    ThreeVal(w0, w1, w2);
  }

  /** The three-word test: lower the guess while its multiple of the leading words is above theirs. */
  method TestDigit(x: BigInt, i: nat, ms2: BigInt, q0: Word) returns (q: Word)
    requires x.Valid() && 2 <= i < x.num.Length && ms2.Valid() && ms2.length == 2 && ms2.Mag() > 0
    ensures q == Min(q0, Quot(Top3(x, i), ms2.Mag()))
  {
    hide Val, Quot, Times, Pow;
    var tmp := new BigInt(0);
    var tmp2 := new BigInt(0);
    q := q0;
    Remultiply(ms2, q, tmp);
    SetThree(tmp2, x.num[i - 2], x.num[i - 1], x.num[i]);
    ghost var top3, d := Top3(x, i), ms2.Mag();
    var r := Compare(tmp, tmp2);
    DivBound(top3, d, q);
    while r > 0
      invariant 0 <= q <= q0 && Min(q0, Quot(top3, d)) <= q
      invariant tmp.Valid() && fresh(tmp) && fresh(tmp.num) && tmp != tmp2 && tmp.num != tmp2.num
      invariant fresh(tmp2) && fresh(tmp2.num) && tmp2.Valid() && tmp2.Mag() == top3
      invariant r > 0 <==> q > Quot(top3, d)
      decreases q
    {
      q := q - 1;
      Remultiply(ms2, q, tmp);
      r := Compare(tmp, tmp2);
      DivBound(top3, d, q);
    }
  }

  /** The divisor at some word position: its two leading words are ms2, the first of them at least half of BASE. */
  ghost predicate Leading(div: BigInt, ms2: BigInt, i: nat)
    reads div, div.num, ms2, ms2.num
  {
    && div.Valid() && div.Trimmed() && div.sign == POS && div.length == i >= 2
    && ms2.Valid() && ms2.length == 2 && ms2.num[1] >= 0x8000_0000
    && div.num[i - 2] == ms2.num[0] && div.num[i - 1] == ms2.num[1]
  }

  lemma LeadingSplits(div: BigInt, ms2: BigInt, i: nat)
    requires Leading(div, ms2, i)
    ensures var dl := Val(div.num[..i - 2]);
      && div.Mag() == Times(ms2.Mag(), Pow(i - 2)) + dl && dl < Pow(i - 2)
      && ms2.num[1] * BASE <= ms2.Mag() < (ms2.num[1] + 1) * BASE
      && Pow(i - 1) <= div.Mag() < Pow(i)
  {
    hide Val, Pow, Times;
    var s: seq<Word> := div.num[..i];
    ValSplit(s, i - 2);
    assert s[i - 2..] == ms2.num[..2] && s[..i - 2] == div.num[..i - 2];
    PairVal(ms2.num[..2]);
    ValBound(s[..i - 2]);
    ShiftIsProduct(ms2.Mag(), i - 2);
    ValBound(s);
    TrimmedIs(s);
  }

  /** The top word of x cannot pass the divisor's. */
  lemma TopWordBound(x: nat, div: nat, u: nat, top3: nat, xl: nat, ms2: nat, dl: nat, ms: nat)
    requires x == Times(top3, u) + xl && div == Times(ms2, u) + dl && dl < u
    requires ms2 < (ms + 1) * BASE && x <= BASE * div
    ensures top3 / (BASE * BASE) <= ms
  {
    if top3 >= BASE * (ms2 + 1) {
      MulMono(BASE * (ms2 + 1), top3, u, u);
      MulBase(ms2 + 1, u);
      MulDist(u, ms2, 1);
      assert false;
    }
  }

  /** Taking q * div from x in place loses no borrow: it is zero, or as long as x to within a word. */
  lemma NoBorrowLost(x: BigInt, t: BigInt, div: nat, q: nat, i: nat)
    requires x.Valid() && t.Valid() && x.Trimmed() && t.Trimmed() && 2 <= i && x.length <= i + 1
    requires t.Mag() == q * div && Pow(i - 1) <= div && x.Mag() >= t.Mag()
    ensures Loss(x, t, x) == 0
  {
    hide Val, Pow;
    ShorterIsSmaller(x, t);
    if q > 0 {
      MulMono(1, q, div, div);
      ValBound(t.num[..t.length]);
      if t.length < i { PowMono(t.length, i - 1); }
      BorrowKept(x.num[..x.length], t.num[..t.length]);
    }
  }

  /** The tested digit, and how close it is. */
  method ChooseDigit(x: BigInt, div: BigInt, ms2: BigInt, i: nat, l: nat) returns (q: Word)
    requires ZeroUpTo(x, l) && 2 <= i < l && Leading(div, ms2, i) && x.Mag() <= BASE * div.Mag()
    ensures Times(q, div.Mag()) - x.Mag() < div.Mag()
    ensures x.Mag() < BASE * div.Mag() ==> x.Mag() - Times(q, div.Mag()) < div.Mag()
    ensures x.Mag() == BASE * div.Mag() ==> x.Mag() - Times(q, div.Mag()) == div.Mag()
  {
    hide Val, Pow, Times, Quot;
    LeadingSplits(div, ms2, i);
    PowStep1(i);
    Top3Splits(x, i, l);
    var ms := ms2.num[1];
    ghost var u, top3, xl, dl := Pow(i - 2), Top3(x, i), Val(x.num[..i - 2]), Val(div.num[..i - 2]);
    TopWordBound(x.Mag(), div.Mag(), u, top3, xl, ms2.Mag(), dl, ms);
    TopWordIs(x, i);
    q := FirstGuess(x, i, ms);
    q := TestDigit(x, i, ms2, q);
    TimesIs(top3, u);
    TimesIs(ms2.Mag(), u);
    TrialDigitClose(x.Mag(), div.Mag(), u, top3, xl, ms2.Mag(), dl, ms, q);
  }

  lemma TopWordIs(x: BigInt, i: nat)
    requires 2 <= i < x.num.Length
    ensures Top3(x, i) / (BASE * BASE) == x.num[i]
  {}

  /** Subtract the digit's multiple, and add div back once if that went below zero. */
  method SubtractDigit(x: BigInt, tmp: BigInt, div: BigInt, l: nat)
    requires ZeroUpTo(x, l) && x.Trimmed() && x.sign == POS && tmp.Valid() && tmp.Trimmed() && tmp.sign == POS
    requires div.Valid() && div.Trimmed() && div.sign == POS && tmp.length <= l && div.length <= l
    requires Distinct(x, tmp) && Distinct(x, div) && Distinct(tmp, div)
    requires tmp.Mag() - x.Mag() < div.Mag()
    requires x.Mag() >= tmp.Mag() ==> Loss(x, tmp, x) == 0
    modifies x, x.num, tmp`length, div`length
    ensures ZeroUpTo(x, l) && x.Trimmed() && x.sign == POS && x.Spare() && (x.num == old(x.num) || fresh(x.num))
    ensures div.Valid() && div.length == old(div.length)
    ensures x.Mag() == old(x.Mag()) - old(tmp.Mag()) + if old(x.Mag()) >= old(tmp.Mag()) then 0 else old(div.Mag())
  {
    hide Val, Pow;
    BigSubtract(x, tmp, x);
    if x.sign == NEG {
      BigAdd(x, div, x);
    }
  }

  /** The remainder after one digit, from how close the digit was. */
  lemma DigitRemainder(x: nat, d: nat, q: nat, t: nat, x': int)
    requires d > 0 && t == q * d && t - x < d
    requires x < BASE * d ==> x - t < d
    requires x == BASE * d ==> x - t == d
    requires x <= BASE * d
    requires x' == x - t + if x >= t then 0 else d
    ensures x' == if x == BASE * d then d else Rem(x, d)
  {
    hide Rem;
    if x < BASE * d {
      if x >= t {
        RemUnique(x, d, q, x');
      } else {
        if q == 0 { assert false; }
        MulDist(d, q, 1);
        RemUnique(x, d, q - 1, x');
      }
    }
  }

  /** One pass of the digit loop: x becomes its remainder by div, or div when x is the whole next multiple. */
  method DigitStep(x: BigInt, div: BigInt, ms2: BigInt, i: nat, l: nat)
    requires ZeroUpTo(x, l) && x.Trimmed() && x.sign == POS && 2 <= i < l
    requires Leading(div, ms2, i) && Distinct(x, div) && Distinct(x, ms2) && Distinct(div, ms2)
    requires x.Mag() <= BASE * div.Mag() && div.Mag() > 0
    modifies x, x.num, div`length
    ensures ZeroUpTo(x, l) && x.Trimmed() && x.sign == POS && x.Spare() && (x.num == old(x.num) || fresh(x.num))
    ensures div.Valid() && div.length == old(div.length)
    ensures x.Mag() == if old(x.Mag()) == BASE * div.Mag() then div.Mag() else Rem(old(x.Mag()), div.Mag())
  {
    hide Val, Pow, Times, Quot, Rem;
    LeadingSplits(div, ms2, i);
    PowStep1(i);
    ghost var xm, dm := x.Mag(), div.Mag();
    var q := ChooseDigit(x, div, ms2, i, l);
    var tmp := Multiple(div, q, i);
    ghost var t := tmp.Mag();
    TimesIs(q, dm);
    ShortEnough(x, i + 1);
    if xm >= t { NoBorrowLost(x, tmp, dm, q, i); }
    SubtractDigit(x, tmp, div, l);
    DigitRemainder(xm, dm, q, t, x.Mag());
  }

  /** tmp reset and set to q times div. */
  method Multiple(div: BigInt, q: Word, i: nat) returns (tmp: BigInt)
    requires div.Valid() && div.length == i
    ensures fresh(tmp) && fresh(tmp.num) && tmp.Valid() && tmp.Trimmed() && tmp.sign == POS && tmp.length <= i + 1
    ensures tmp.Mag() == Times(q, div.Mag())
  {
    hide Val, Pow, Shift;
    tmp := new BigInt(0);
    Reset(tmp, 0);
    WordTimesFits(q, div, i);
    ShiftZero(q * div.Mag(), 0);
    PowMono(i + 1, if tmp.num.Length < i + 3 then i + 3 else tmp.num.Length);
    NumtypeBigmult(div, q, tmp, 0);
    ShortEnough(tmp, i + 1);
  }

  // --- the digit loop ---

  /** div holds m moved up by j words. */
  ghost predicate MovedUp(div: BigInt, m: BigInt, j: nat)
    reads div, div.num, m, m.num
  {
    && div.Valid() && m.Valid() && div.length == j + m.length
    && div.num[..div.length] == seq(j, _ => 0) + m.num[..m.length]
  }

  ghost predicate Normalised(m: BigInt)
    reads m, m.num
  {
    m.Valid() && m.length >= 2 && m.sign == POS && m.num[m.length - 1] >= 0x8000_0000
  }

  lemma MovedUpIs(div: BigInt, m: BigInt, ms2: BigInt, j: nat)
    requires MovedUp(div, m, j) && Normalised(m) && div.sign == POS
    requires ms2.Valid() && ms2.length == 2 && ms2.num[0] == m.num[m.length - 2] && ms2.num[1] == m.num[m.length - 1]
    ensures div.Mag() == Shift(m.Mag(), j) && div.Trimmed() && Leading(div, ms2, j + m.length)
    ensures div.Mag() >= m.Mag() > 0
  {
    hide Val, Shift, Pow;
    var z: seq<Word>, w: seq<Word> := seq(j, _ => 0), m.num[..m.length];
    ValZeros(z);
    ValConcat(z, w);
    var d: seq<Word> := div.num[..div.length];
    assert d == z + w;
    assert d[div.length - 1] == w[m.length - 1] && d[div.length - 2] == w[m.length - 2];
    assert div.num[div.length - 1] == d[div.length - 1] && div.num[div.length - 2] == d[div.length - 2];
    assert w[m.length - 1] == m.num[m.length - 1] && w[m.length - 2] == m.num[m.length - 2];
    TrimmedIs(w);
    PowPositive(m.length - 1);
    ShiftAtLeast(m.Mag(), j);
  }

  lemma ShiftAtLeast(x: nat, n: nat)
    ensures Shift(x, n) >= x
  {
    hide Pow;
    PowPositive(n);
    MulMono(x, x, 1, Pow(n));
  }

  /** div moved down by a word. */
  method MoveDown(div: BigInt, ghost m: BigInt, ghost j: nat)
    requires MovedUp(div, m, j) && j >= 1 && Distinct(div, m) && Normalised(m) && div.sign == POS
    modifies div, div.num
    ensures MovedUp(div, m, j - 1) && div.sign == POS && div.num == old(div.num)
  {
    ghost var d: seq<Word> := div.num[..div.length];
    WordsRight(div, 1);
    assert d[1..] == seq(j - 1, _ => 0) + m.num[..m.length];
    assert div.num[..div.length] == d[1..];
  }

  /** The state of the loop: the remainder by the current divisor, or the divisor itself in the one special case. */
  ghost function Partial(x0: nat, d: nat, special: bool): nat
    requires d > 0
  {
    if special then d else Rem(x0, d)
  }

  lemma NextPartial(x0: nat, d: nat, d': nat, special: bool, x: nat, x': nat)
    requires d' > 0 && d == BASE * d' && x == Partial(x0, d, special)
    requires x' == if x == BASE * d' then d' else Rem(x, d')
    ensures x' == Partial(x0, d', special)
  {
    hide Rem;
    if !special {
      RemOf(x0, d);
      RemOfMultiple(x0, d', BASE);
    }
  }

  lemma PartialBound(x0: nat, d: nat, special: bool)
    requires d > 0
    ensures Partial(x0, d, special) <= d
  {
    hide Rem;
    RemOf(x0, d);
  }

  /** The first comparison of x with div, and the subtraction when it is greater. */
  method FirstReduce(x: BigInt, div: BigInt, l: nat)
    requires x.Valid() && x.Trimmed() && x.sign == POS && x.length == l && div.Valid() && div.Trimmed() &&
        div.length == l
    requires Distinct(x, div) && div.Mag() > 0 && 2 * div.Mag() >= Pow(l) && x.Spare()
    modifies x, x.num, div`length
    ensures ZeroUpTo(x, l) && x.Trimmed() && x.sign == POS && x.Spare() && (x.num == old(x.num) || fresh(x.num))
    ensures div.Valid() && div.length == l
    ensures x.Mag() == Partial(old(x.Mag()), div.Mag(), old(x.Mag()) == div.Mag())
  {
    hide Val, Pow, Rem;
    ghost var xm, dm := x.Mag(), div.Mag();
    ValBound(x.num[..l]);
    var r := Compare(x, div);
    if r > 0 {
      BigSub(x, div, x);
      TimesIs(1, dm);
      RemUnique(xm, dm, 1, xm - dm);
    } else if xm < dm {
      TimesIs(0, dm);
      RemUnique(xm, dm, 0, xm);
    }
  }

  lemma HalfFull(m: BigInt, div: BigInt, j: nat)
    requires Normalised(m) && MovedUp(div, m, j) && div.Mag() == Shift(m.Mag(), j)
    ensures 2 * div.Mag() >= Pow(div.length)
  {
    hide Val, Shift, Pow;
    var k := m.length;
    var w: seq<Word> := m.num[..k];
    assert w == w[..k - 1] + [w[k - 1]];
    ValSnoc(w[..k - 1], w[k - 1]);
    ShiftMono(0x8000_0000, w[k - 1], k - 1);
    ShiftAdd(0x8000_0000, 0x8000_0000, k - 1);
    ShiftUp(1, k - 1);
    ShiftZero(1, k);
    ShiftAdd(m.Mag(), m.Mag(), j);
    ShiftMono(Pow(k), 2 * m.Mag(), j);
    ShiftBy(1, k, j);
    ShiftZero(1, k + j);
    assert div.length == k + j;
  }

  /** What the digit loop keeps at index i, for x0 the value it started from. */
  ghost predicate LoopState(x: BigInt, div: BigInt, ms2: BigInt, m: BigInt, i: nat, l: nat, x0: nat, special: bool)
    requires Normalised(m)
    reads x, x.num, div, div.num, ms2, ms2.num, m, m.num
  {
    && Distinct(x, div) && Distinct(x, ms2) && Distinct(div, ms2) && Distinct(m, x) && Distinct(m, div)
    && m.length <= i + 1 <= l && MovedUp(div, m, i + 1 - m.length) && div.sign == POS
    && ms2.Valid() && ms2.length == 2 && ms2.num[0] == m.num[m.length - 2] && ms2.num[1] == m.num[m.length - 1]
    && ZeroUpTo(x, l) && x.Trimmed() && x.sign == POS && x.Spare()
    && Shift(m.Mag(), i + 1 - m.length) > 0
    && x.Mag() == Partial(x0, Shift(m.Mag(), i + 1 - m.length), special)
  }

  /** The loop body of bigMod. */
  method OneDigit(x: BigInt, div: BigInt, ms2: BigInt, ghost m: BigInt, i: nat, l: nat, ghost x0: nat,
      ghost special: bool)
    requires Normalised(m) && LoopState(x, div, ms2, m, i, l, x0, special) && m.length <= i
    modifies x, x.num, div, div.num
    ensures Normalised(m) && LoopState(x, div, ms2, m, i - 1, l, x0, special)
    ensures (x.num == old(x.num) || fresh(x.num)) && div.num == old(div.num)
  {
    hide Val, Pow, Shift, Rem, Partial;
    ghost var mm, j := m.Mag(), i - m.length;
    MoveDown(div, m, j + 1);
    MovedUpIs(div, m, ms2, j);
    ShiftUp(mm, j);
    PartialBound(x0, Shift(mm, j + 1), special);
    ghost var xm := x.Mag();
    DigitStep(x, div, ms2, i, l);
    NextPartial(x0, Shift(mm, j + 1), Shift(mm, j), special, xm, x.Mag());
  }

  /** The divisor moved up to x's length, and its two leading words. */
  method MakeDivisor(m: BigInt, l: nat) returns (div: BigInt, ms2: BigInt)
    requires Normalised(m) && l >= m.length
    ensures fresh(div) && fresh(div.num) && fresh(ms2) && fresh(ms2.num) && Distinct(div, ms2)
    ensures div.sign == POS && MovedUp(div, m, l - m.length) && div.Mag() == Shift(m.Mag(), l - m.length) &&
        div.Mag() > 0
    ensures 2 * div.Mag() >= Pow(l) && div.Trimmed() && div.length == l
    ensures ms2.Valid() && ms2.length == 2 && ms2.num[0] == m.num[m.length - 2] && ms2.num[1] == m.num[m.length - 1]
  {
    hide Val, Pow, Shift;
    var k := m.length;
    ms2 := new BigInt(0);
    div := new BigInt(0);
    WordsLeft(m, div, l - k);
    SetWords(ms2, m.num[k - 2], m.num[k - 1]);
    MovedUpIs(div, m, ms2, l - k);
    HalfFull(m, div, l - k);
  }

  /** Everything bigMod sets up before the digit loop. */
  method StartLoop(x: BigInt, m: BigInt, l: nat) returns (div: BigInt, ms2: BigInt)
    requires Normalised(m) && x.Valid() && x.Trimmed() && x.sign == POS && x.length == l >= m.length &&
        Distinct(m, x) && x.Spare()
    modifies x, x.num
    ensures fresh(div) && fresh(div.num) && fresh(ms2) && fresh(ms2.num) && (x.num == old(x.num) || fresh(x.num))
    ensures Normalised(m)
    ensures LoopState(x, div, ms2, m, l - 1, l, old(x.Mag()), old(x.Mag()) == Shift(m.Mag(), l - m.length))
  {
    hide Val, Pow, Shift, Rem, Partial;
    div, ms2 := MakeDivisor(m, l);
    FirstReduce(x, div, l);
  }

  /** bigMod between its two normalising shifts. */
  method ReduceNormalised(x: BigInt, m: BigInt)
    requires Normalised(m) && x.Valid() && x.Trimmed() && x.sign == POS && x.length >= m.length && Distinct(m, x) &&
        x.Spare()
    modifies x, x.num
    ensures x.Valid() && x.Trimmed() && x.sign == POS && x.Spare() && (x.num == old(x.num) || fresh(x.num))
    ensures m.Mag() > 0
    ensures x.Mag() == Partial(old(x.Mag()), m.Mag(), old(x.Mag()) == Shift(m.Mag(), old(x.length) - m.length))
  {
    hide Val, Pow, Shift, Rem, Partial, LoopState;
    var l, k := x.length, m.length;
    ghost var x0 := x.Mag();
    ghost var special := x0 == Shift(m.Mag(), l - k);
    var div, ms2 := StartLoop(x, m, l);
    var i := l - 1;
    while i > k - 1
      invariant k - 1 <= i <= l - 1
      invariant fresh(div) && fresh(div.num) && fresh(ms2) && fresh(ms2.num)
      invariant x.num == old(x.num) || fresh(x.num)
      invariant Normalised(m) && LoopState(x, div, ms2, m, i, l, x0, special)
    {
      OneDigit(x, div, ms2, m, i, l, x0, special);
      i := i - 1;
    }
    LoopEnd(x, div, ms2, m, l, x0, special);
  }

  lemma LoopEnd(x: BigInt, div: BigInt, ms2: BigInt, m: BigInt, l: nat, x0: nat, special: bool)
    requires Normalised(m) && LoopState(x, div, ms2, m, m.length - 1, l, x0, special)
    ensures x.Valid() && x.Trimmed() && x.sign == POS && x.Spare() && m.Mag() > 0 &&
        x.Mag() == Partial(x0, m.Mag(), special)
  {
    hide Val, Pow, Shift, Rem, Partial;
    ShiftZero(m.Mag(), 0);
  }

  // --- bigMod ---

  /** a is m moved up by some number of whole words: where the strict comparison makes bigMod answer m itself. */
  ghost predicate WordMultiple(a: nat, m: nat) {
    exists j: nat :: a == Shift(m, j)
  }

  /** What bigMod computes on magnitudes. */
  ghost function ModResult(a: nat, m: nat): nat
    requires m > 0
  {
    if WordMultiple(a, m) then m else a % m
  }

  /** It is the remainder up to one exception, and congruent always. */
  lemma ModResultIs(a: nat, m: nat)
    requires m > 0
    ensures ModResult(a, m) <= m && ModResult(a, m) % m == a % m
    ensures ModResult(a, m) == m <==> WordMultiple(a, m)
  {
    if WordMultiple(a, m) {
      var j: nat :| a == Shift(m, j);
      MulComm(m, Pow(j));
      DivUnique(a, m, Pow(j), 0);
      DivUnique(m, m, 1, 0);
    } else {
      DivUnique(a % m, m, 0, a % m);
    }
  }

  /** Scaling by a power of two scales the remainder. */
  lemma RemScaled(a: nat, m: nat, p: nat)
    requires m > 0 && p > 0 && p * m > 0
    ensures Rem(p * a, p * m) == p * Rem(a, m)
  {
    hide Quot, Rem;
    RemOf(a, m);
    var q, r := Quot(a, m), Rem(a, m);
    MulDist(p, q * m, r);
    MulAssoc(p, q, m);
    MulComm(p, q);
    MulAssoc(q, p, m);
    MulMono(p, p, r + 1, m);
    MulDist(p, r, 1);
    RemUnique(p * a, p * m, q, p * r);
  }

  /** Whole-word multiples survive scaling, and their length names the shift. */
  lemma WordMultipleScaled(a: nat, m: nat, p: nat, l: nat, k: nat)
    requires p > 0 && 1 <= k <= l
    requires Pow(k - 1) <= p * m < Pow(k) && Pow(l - 1) <= p * a < Pow(l)
    ensures WordMultiple(a, m) <==> p * a == Shift(p * m, l - k)
  {
    hide Pow, Shift;
    if WordMultiple(a, m) {
      var j: nat :| a == Shift(m, j);
      ShiftTimes(p, m, j);
      ShiftMono(Pow(k - 1), p * m, j);
      ShiftMono(p * m + 1, Pow(k), j);
      ShiftAdd(p * m, 1, j);
      ShiftZero(1, k - 1);
      ShiftZero(1, k);
      ShiftZero(1, j);
      PowPositive(j);
      ShiftBy(1, k - 1, j);
      ShiftBy(1, k, j);
      ShiftZero(1, k - 1 + j);
      ShiftZero(1, k + j);
      if l < k + j { PowMono(l, k - 1 + j); }
      if l > k + j { PowMono(k + j, l - 1); }
    }
    if p * a == Shift(p * m, l - k) {
      ShiftTimes(p, m, l - k);
      MulCancel(p, a, Shift(m, l - k));
    }
  }

  lemma MulCancel(p: nat, x: int, y: int)
    requires p > 0 && p * x == p * y
    ensures x == y
  {
    if x < y { MulMono(p, p, 0, y - x); MulDist(p, y, x); MulMono(1, p, y - x, y - x); }
    if y < x { MulMono(p, p, 0, x - y); MulDist(p, x, y); MulMono(1, p, x - y, x - y); }
  }

  /** Trimmed numbers of equal magnitude have the same words. */
  lemma SameWords(s: seq<Word>, t: seq<Word>)
    requires |s| >= 1 && |t| >= 1 && Val(s) == Val(t)
    requires (|s| == 1 || s[|s| - 1] != 0) && (|t| == 1 || t[|t| - 1] != 0)
    ensures s == t
  {
    hide Val;
    if |s| > |t| { LongerIsGreater(s, t); }
    if |t| > |s| { LongerIsGreater(t, s); }
    ValInjective(s, t);
  }

  lemma TopWordRange(s: seq<Word>, k: nat, lo: nat, hi: nat)
    requires |s| == k >= 1 && lo <= s[k - 1] < hi
    ensures Shift(lo, k - 1) <= Val(s) < Shift(hi, k - 1)
  {
    hide Val, Shift, Pow;
    assert s == s[..k - 1] + [s[k - 1]];
    ValSnoc(s[..k - 1], s[k - 1]);
    ValBound(s[..k - 1]);
    ShiftMono(lo, s[k - 1], k - 1);
    ShiftGap(Val(s[..k - 1]), s[k - 1], hi, k - 1);
  }

  lemma TopWordAtLeast(s: seq<Word>, k: nat, lo: nat)
    requires |s| == k >= 1 && Shift(lo, k - 1) <= Val(s)
    ensures s[k - 1] >= lo
  {
    hide Val, Shift, Pow;
    assert s == s[..k - 1] + [s[k - 1]];
    ValSnoc(s[..k - 1], s[k - 1]);
    ValBound(s[..k - 1]);
    ShiftGap(Val(s[..k - 1]), lo, s[k - 1], k - 1);
  }

  /** The left shift that sets the modulus's top bit, when it is not set already. */
  method Normalise(m: BigInt) returns (normbits: nat)
    requires m.Valid() && m.Trimmed() && m.length >= 2 && m.sign == POS
    modifies m, m.num
    ensures Normalised(m) && m.length == old(m.length) && (m.num == old(m.num) || fresh(m.num))
    ensures normbits <= 31 && m.Mag() == TwoTo(normbits) * old(m.Mag())
    ensures normbits == 0 ==> m.num == old(m.num)
  {
    hide Val, Shift, Pow;
    var k := m.length;
    var top := m.num[k - 1];
    normbits := 0;
    TwoToWord();
    if top < 0x8000_0000 {
      normbits := 32 - Msb(top);
      ghost var s: seq<Word> := m.num[..k];
      assert s[k - 1] == top;
      MsbRange(top);
      TopWordRange(s, k, TwoTo(Msb(top) - 1), TwoTo(Msb(top)));
      ScaledRange(m.Mag(), TwoTo(normbits), Msb(top), normbits, k);
      BigLeftShift(m, normbits);
      NormalisedLength(m, k);
    }
  }

  lemma MsbRange(top: Word)
    requires 0 < top < 0x8000_0000
    ensures 1 <= Msb(top) <= 31
  {
    TwoToWord();
    hide TwoTo;
  }

  lemma ScaledRange(m: nat, p: nat, msb: nat, n: nat, k: nat)
    requires k >= 1 && 1 <= msb && msb + n == 32 && p == TwoTo(n)
    requires Shift(TwoTo(msb - 1), k - 1) <= m < Shift(TwoTo(msb), k - 1)
    ensures Shift(0x8000_0000, k - 1) <= p * m < Pow(k)
  {
    hide Shift, Pow, TwoTo;
    TwoToWord();
    TwoToAdd(n, msb);
    TwoToAdd(n, msb - 1);
    ShiftTimes(p, TwoTo(msb - 1), k - 1);
    ShiftTimes(p, TwoTo(msb), k - 1);
    MulMono(p, p, Shift(TwoTo(msb - 1), k - 1), m);
    MulMono(p, p, m + 1, Shift(TwoTo(msb), k - 1));
    MulDist(p, m, 1);
    ShiftUp(1, k - 1);
    ShiftZero(1, k);
  }

  lemma NormalisedLength(m: BigInt, k: nat)
    requires m.Valid() && m.Trimmed() && k >= 2
    requires Shift(0x8000_0000, k - 1) <= m.Mag() < Pow(k)
    ensures m.length == k && m.num[k - 1] >= 0x8000_0000
  {
    hide Val, Shift, Pow;
    ShiftMono(1, 0x8000_0000, k - 1);
    ShiftZero(1, k - 1);
    PowPositive(k - 1);
    LengthBounds(m);
    if m.length < k { PowMono(m.length, k - 1); }
    ShortEnough(m, k);
    TopWordAtLeast(m.num[..k], k, 0x8000_0000);
  }

  /** What undoing the shift makes of the loop's result. */
  lemma Unscaled(a: nat, m: nat, p: nat, x: nat, special: bool)
    requires m > 0 && p > 0 && p * m > 0
    requires x == Partial(p * a, p * m, special) && (special <==> WordMultiple(a, m))
    ensures x / p == ModResult(a, m)
  {
    hide WordMultiple;
    if special {
      DivUnique(x, p, m, 0);
    } else {
      RemScaled(a, m, p);
      DivUnique(x, p, Rem(a, m), 0);
    }
  }

  lemma BelowIsItself(a: nat, m: nat)
    requires a < m
    ensures ModResult(a, m) == a
  {
    if WordMultiple(a, m) {
      var j: nat :| a == Shift(m, j);
      ShiftAtLeast(m, j);
    }
    DivUnique(a, m, 0, a);
  }

  /**
   * crypt/bigMod.c bigMod for a modulus of two or more words: x takes a's magnitude modulo m,
   * except that a modulus moved up by whole words reduces to the modulus itself; its sign is
   * a's. The modulus is shifted and restored.
   */
  method BigMod(a: BigInt, m: BigInt, x: BigInt)
    requires a.Valid() && a.Trimmed() && x.Valid() && m.Valid() && m.Trimmed() && m.length >= 2 && m.sign == POS
    requires SameOrDistinct(a, x) && Distinct(a, m) && Distinct(m, x) && (a == x ==> x.Spare())
    modifies a`length, m, m.num, x, x.num
    ensures a != x ==> a.length == old(a.length)
    ensures m.Valid() && m.sign == POS && (m.num == old(m.num) || fresh(m.num))
    ensures m.length == old(m.length) && m.num[..m.length] == old(m.num[..m.length])
    ensures x.Valid() && x.Trimmed() && x.Spare() && x.sign == old(a.sign) && (x.num == old(x.num) || fresh(x.num))
    ensures Distinct(m, x) && m.Trimmed()
    ensures m.Mag() == old(m.Mag()) > 0 && x.Mag() == ModResult(old(a.Mag()), m.Mag())
  {
    hide Val, Shift, Pow, ModResult;
    ghost var am, mm, words: seq<Word> := a.Mag(), m.Mag(), m.num[..m.length];
    TrimmedNonZero(m);
    if a != x {
      Copy(a, x);
    }
    var savesign := a.sign;
    var r := Compare(a, m);
    if r < 0 {
      BelowIsItself(am, mm);
      return;
    }
    ReduceLarge(x, m);
    TopWordKept(m, words);
    x.sign := savesign;
  }

  lemma TopWordKept(p: BigInt, words: seq<Word>)
    requires p.Valid() && p.length == |words| && p.num[..p.length] == words && (|words| == 1 || words[|words| - 1] != 0)
    ensures p.Trimmed()
  {
    assert p.num[p.length - 1] == words[|words| - 1];
  }

  /** bigMod once a is known to be at least m: normalise, reduce, and undo the shifts. */
  method ReduceLarge(x: BigInt, m: BigInt)
    requires x.Valid() && x.Trimmed() && m.Valid() && m.Trimmed() && m.length >= 2 && m.sign == POS && Distinct(m, x)
    requires x.Mag() >= m.Mag() > 0 && x.Spare()
    modifies m, m.num, x, x.num
    ensures m.Valid() && m.sign == POS && (m.num == old(m.num) || fresh(m.num))
    ensures m.length == old(m.length) && m.num[..m.length] == old(m.num[..m.length]) && m.Mag() == old(m.Mag())
    ensures x.Valid() && x.Trimmed() && x.Spare() && (x.num == old(x.num) || fresh(x.num)) && Distinct(m, x)
    ensures x.Mag() == ModResult(old(x.Mag()), old(m.Mag()))
  {
    hide Val, Shift, Pow, TwoTo, ModResult, Partial, WordMultiple;
    ghost var am, mm, ms: seq<Word> := x.Mag(), m.Mag(), m.num[..m.length];
    x.sign := POS;
    var normbits := Normalise(m);
    BigLeftShift(x, normbits);
    ghost var p := TwoTo(normbits);
    ScaledNonZero(am, mm, p);
    LengthBounds(m);
    LengthBounds(x);
    LongerOrEqual(x, m);
    WordMultipleScaled(am, mm, p, x.length, m.length);
    ghost var special := p * am == Shift(p * mm, x.length - m.length);
    ReduceNormalised(x, m);
    ShiftBack(x, m, normbits, am, mm, special, ms);
  }

  /** bigMod's last shifts: the modulus as it was, and the remainder by it. */
  method ShiftBack(x: BigInt, m: BigInt, normbits: nat, ghost am: nat, ghost mm: nat, ghost special: bool,
      ghost ms: seq<Word>)
    requires x.Valid() && x.Trimmed() && x.Spare() && m.Valid() && m.sign == POS && Distinct(m, x) && normbits <= 31
    requires mm > 0 && m.Mag() == TwoTo(normbits) * mm && m.Mag() > 0 && m.length == |ms| && Val(ms) == mm
    requires x.Mag() == Partial(TwoTo(normbits) * am, TwoTo(normbits) * mm, special)
    requires (special <==> WordMultiple(am, mm))
    requires |ms| >= 2 && ms[|ms| - 1] != 0
    modifies m, m.num, x, x.num
    ensures m.Valid() && m.sign == POS && m.num == old(m.num) && m.length == |ms| && m.num[..m.length] == ms &&
        m.Mag() == mm
    ensures x.Valid() && x.Trimmed() && x.Spare() && x.num == old(x.num) && x.Mag() == ModResult(am, mm)
  {
    hide Val, Shift, Pow, TwoTo, ModResult, Partial, WordMultiple;
    ghost var p := TwoTo(normbits);
    Unscaled(am, mm, p, x.Mag(), special);
    DivUnique(p * mm, p, mm, 0);
    BigRightShift(m, normbits);
    BigRightShift(x, normbits);
    SameWords(m.num[..m.length], ms);
  }

  lemma TrimmedNonZero(m: BigInt)
    requires m.Valid() && m.Trimmed() && m.length >= 2
    ensures m.Mag() > 0
  {
    hide Val, Pow;
    TrimmedIs(m.num[..m.length]);
    PowPositive(m.length - 1);
  }

  lemma ScaledNonZero(a: nat, m: nat, p: nat)
    requires 0 < m <= a && p > 0
    ensures 0 < p * m <= p * a
  {
    MulMono(p, p, m, a);
    MulMono(1, p, m, m);
  }

  lemma LongerOrEqual(x: BigInt, m: BigInt)
    requires x.Valid() && m.Valid() && x.Trimmed() && m.Trimmed() && x.Mag() >= m.Mag()
    ensures x.length >= m.length
  {
    ShorterIsSmaller(x, m);
  }
}
