// Montgomery reduction: modInverse, mont_set and REDC of crypt/bigPow.c.

module Montgomery {
  import opened Words
  import opened BigInts
  import opened Additive
  import opened Shifts
  import opened Congruence

  // --- modInverse ---

  /** One doubling step: from an inverse modulo od to one modulo 2 * od. */
  lemma InverseStep(x: Word, y: Word, od: nat, q: nat, d: nat, c: nat, xx: nat) returns (q': nat)
    requires x % 2 == 1 && od >= 2 && d == 2 * od && c * d == BASE
    requires x * y == 1 + q * od && y < od
    requires xx == ((x * y) % BASE) % d
    ensures xx < od ==> x * y == 1 + q' * d
    ensures xx >= od ==> y + od < d <= BASE && x * (y + od) == 1 + q' * d
  {
    var t, half := x * y, if q % 2 == 0 then q / 2 else (q + x) / 2;
    ModMod(t, d, c);
    ResidueStep(t, od, q, d);
    FactorBound(c, d);
    q' := half;
    if q % 2 == 1 {
      NextInverse(x, y, od, q, d);
    }
  }

  /** What the residue modulo the doubled modulus says about the quotient. */
  lemma ResidueStep(t: nat, od: nat, q: nat, d: nat)
    requires od >= 2 && d == 2 * od && t == 1 + q * od
    ensures q % 2 == 0 ==> t % d == 1 && t == 1 + (q / 2) * d
    ensures q % 2 == 1 ==> t % d == 1 + od
  {
    HalfMultiple(q, od);
    MulComm(d, q / 2);
    DivUnique(t, d, q / 2, if q % 2 == 0 then 1 else 1 + od);
  }

  lemma NextInverse(x: nat, y: nat, od: nat, q: nat, d: nat)
    requires x % 2 == 1 && q % 2 == 1 && d == 2 * od && x * y == 1 + q * od
    ensures x * (y + od) == 1 + ((q + x) / 2) * d
  {
    MulDist(x, y, od);
    MulDist(od, q, x);
    HalfMultiple(q + x, od);
  }

  lemma FactorBound(c: nat, d: nat)
    requires c * d == BASE
    ensures d <= BASE
  {
    if c > 0 { MulMono(1, c, d, d); }
  }

  lemma HalfMultiple(q: nat, od: nat)
    ensures q * od == (q / 2) * (2 * od) + if q % 2 == 0 then 0 else od
  {
    var h := q / 2;
    MulAssoc(h, 2, od);
    MulDist(od, 2 * h, 1);
  }

  lemma ModMod(a: nat, d: nat, c: nat)
    requires d > 0 && c * d == BASE
    ensures (a % BASE) % d == a % d
  {
    var q, r := a / BASE, a % BASE;
    var q2, r2 := r / d, r % d;
    MulAssoc(q, c, d);
    MulDist(d, q * c, q2);
    MulComm(d, q2);
    MulComm(d, q * c + q2);
    DivUnique(a, d, q * c + q2, r2);
  }

  /** y * (BASE - 1) is minus y; times x it is minus one. */
  lemma MinusOne(x: Word, y: Word, q: nat)
    requires x * y == 1 + q * BASE
    ensures (x * Mul32(y, 0xFFFF_FFFF)) % BASE == BASE - 1
  {
    var p := y * (BASE - 1);
    var r, k := p % BASE, p / BASE;
    MinusOneSum(x, y, r, k);
    ModMinus(x * r, q, x * k);
  }

  lemma MinusOneSum(x: int, y: int, r: int, k: int)
    requires y * (BASE - 1) == BASE * k + r
    ensures x * r == (BASE - 1) * (x * y) - BASE * (x * k)
  {
    MulDist(x, BASE * k, r);
    MulAssoc(x, y, BASE - 1);
    MulBase(k, x);
    MulComm(x, BASE * k);
    MulComm(k, x);
  }

  lemma ModMinus(t: int, q: int, k: int)
    requires t == (BASE - 1) * (1 + q * BASE) - BASE * k
    ensures t % BASE == BASE - 1
  {}

  /** y inverts x modulo w, with q times w left over. */
  ghost predicate Inverts(x: nat, y: nat, w: nat, q: nat) {
    x * y == 1 + q * w
  }

  /** One round of modInverse's loop. */
  lemma Round(x: Word, y: Word, i: nat, q: nat, od: Word, d: Word, xx: Word) returns (q': nat)
    requires 2 <= i < 33 && x % 2 == 1 && od == TwoTo(i - 1) && d == Add32(od, od)
    requires y < TwoTo(i - 1) && Inverts(x, y, TwoTo(i - 1), q)
    requires xx == if d != 0 then Mul32(x, y) % d else Mul32(x, y)
    ensures i < 32 ==> d == TwoTo(i)
    ensures xx < od ==> y < TwoTo(i) && Inverts(x, y, TwoTo(i), q')
    ensures xx >= od ==> y + od < TwoTo(i) <= BASE && Inverts(x, y + od, TwoTo(i), q')
  {
    hide TwoTo;
    TwoTo32(i);
    TwoToStep(i);
    TwoToStep(i - 1);
    TwoTo32(i - 1);
    MulComm(TwoTo(i), TwoTo(32 - i));
    WrappedRest(x * y, d, TwoTo(i));
    q' := InverseStep(x, y, TwoTo(i - 1), q, TwoTo(i), TwoTo(32 - i), xx);
  }

  /** When the doubled modulus has wrapped to zero, the word product is already reduced by it. */
  lemma WrappedRest(p: nat, d: Word, w: nat)
    requires 0 < w <= BASE && d == if w < BASE then w else 0
    ensures (p % BASE) % w == if d != 0 then (p % BASE) % d else p % BASE
  {
    if w == BASE { DivUnique(p % BASE, BASE, 0, p % BASE); }
  }

  lemma FirstRound(x: Word)
    requires x % 2 == 1
    ensures TwoTo(1) == 2 && TwoTo(32) == BASE && Inverts(x, 1, 2, (x - 1) / 2)
  {
    TwoToWord();
    TwoToStep(1);
  }

  lemma LastRound(x: Word, y: Word, q: nat)
    requires Inverts(x, y, BASE, q)
    ensures (x * Mul32(y, 0xFFFF_FFFF)) % BASE == BASE - 1
  {
    MinusOne(x, y, q);
  }

  /** crypt/bigPow.c modInverse: the word that makes x times it minus one modulo 2^32, for odd x. */
  method ModInverse(x: Word) returns (r: Word)
    requires x % 2 == 1
    ensures (x * r) % BASE == BASE - 1
  {
    hide TwoTo, Inverts, Add32, Mul32;
    var y := new Word[33];
    y[1] := 1;
    var od: Word := 2;
    ghost var q: nat := (x - 1) / 2;
    FirstRound(x);
    var i := 2;
    while i < 33
      invariant 2 <= i <= 33
      invariant i < 33 ==> od == TwoTo(i - 1)
      invariant y[i - 1] < TwoTo(i - 1) && Inverts(x, y[i - 1], TwoTo(i - 1), q)
    {
      var d := Add32(od, od);
      var xx := Mul32(x, y[i - 1]);
      if d != 0 {
        xx := xx % d;
      }
      q := Round(x, y[i - 1], i, q, od, d, xx);
      if xx < od {
        y[i] := y[i - 1];
      } else {
        NoWrap(y[i - 1], od);
        y[i] := Add32(y[i - 1], od);
      }
      od := d;
      i := i + 1;
    }
    r := Mul32(y[32], 0xFFFF_FFFF);
    LastRound(x, y[32], q);
  }

  lemma NoWrap(x: Word, y: Word)
    requires x + y < BASE
    ensures Add32(x, y) == x + y
  {}

  // --- R is invertible ---

  lemma {:induction false} PowIsExp(n: nat)
    ensures Pow(n) == Exp(2, 32 * n)
  {
    if n > 0 {
      PowIsExp(n - 1);
      ExpAdd(2, 32, 32 * (n - 1));
      TwoTo32Exp();
    }
  }

  lemma TwoTo32Exp()
    ensures Exp(2, 32) == BASE
  {
    assert Exp(2, 4) == 16 by { assert Exp(2, 2) == 4; }
    ExpMul(2, 4, 2);
    assert Exp(16, 2) == 256 by { assert Exp(16, 1) == 16; }
    ExpMul(2, 8, 2);
    assert Exp(256, 2) == 65536 by { assert Exp(256, 1) == 256; }
    ExpMul(2, 16, 2);
    assert Exp(65536, 2) == BASE by { assert Exp(65536, 1) == 65536; }
  }

  /** BASE^n has an inverse modulo an odd number. */
  lemma RInverse(N: nat, n: nat) returns (inv: int)
    requires N % 2 == 1
    ensures Cong(Pow(n) * inv, 1, N)
  {
    var half := (N + 1) / 2;
    CongBy(2 * half, 1, N, 1);
    CongExp(2 * half, 1, 32 * n, N);
    ExpOne(32 * n);
    ExpProduct(2, half, 32 * n);
    PowIsExp(n);
    inv := Exp(half, 32 * n);
  }

  lemma OddValue(s: seq<Word>)
    requires |s| >= 1 && s[0] % 2 == 1
    ensures Val(s) % 2 == 1
  {}

  // --- REDC ---

  /** An odd modulus and the word mont_set keeps beside it. */
  ghost predicate MontSet(N: BigInt, n0p: Word)
    reads N, N.num
  {
    N.Valid() && N.Trimmed() && N.sign == POS && N.num[0] % 2 == 1 && (N.num[0] * n0p) % BASE == BASE - 1
  }

  lemma LowWord(s: seq<Word>)
    requires |s| > 0
    ensures Val(s) % BASE == s[0] && Val(s) == s[0] + BASE * Val(s[1..])
  {
    hide Val;
    ValHead(s);
    ModLow(s[0], Val(s[1..]));
  }

  lemma ValHead(s: seq<Word>)
    requires |s| > 0
    ensures Val(s) == s[0] + BASE * Val(s[1..])
  {}

  lemma ModLow(a: Word, v: nat)
    ensures (a + BASE * v) % BASE == a
  {}

  /** A number divisible by BASE^i shows its next word at index i. */
  lemma NextWord(t: BigInt, i: nat, h: nat)
    requires t.Valid() && t.Mag() == Shift(h, i)
    requires i < t.num.Length && (i < t.length || ZeroUpTo(t, i + 1))
    ensures t.num[i] == h % BASE
  {
    hide Val, Shift, Pow;
    var k := if t.length <= i then i + 1 else t.length;
    WideMag(t, k);
    var s: seq<Word> := t.num[..k];
    ValSplit(s, i);
    ValBound(s[..i]);
    ShiftGap(Val(s[..i]), Val(s[i..]), h, i);
    LowWord(s[i..]);
  }

  /** The multiple REDC adds clears the word it was chosen for. */
  lemma ClearWord(h: nat, w: nat, n0: nat, n0p: nat, m: nat, N: nat, N1: nat)
    requires w == h % BASE && N == n0 + BASE * N1
    requires (n0 * n0p) % BASE == BASE - 1 && m == (w * n0p) % BASE
    ensures (h + m * N) % BASE == 0
  {
    var c, e := (w * n0p) / BASE, (n0 * n0p) / BASE;
    ClearProduct(w, n0, n0p, m, c, e);
    MulDist(m, n0, BASE * N1);
    MulComm(m, BASE * N1);
    MulBase(N1, m);
    ModClear(h, w, m * N, (e + 1) * w - c * n0 + N1 * m);
  }

  lemma ClearProduct(w: int, n0: int, n0p: int, m: int, c: int, e: int)
    requires w * n0p == BASE * c + m && n0 * n0p == BASE * e + (BASE - 1)
    ensures m * n0 == BASE * ((e + 1) * w - c * n0) - w
  {
    MulDist(n0, w * n0p, BASE * c);
    MulBase(c, n0);
    MulAssoc(w, n0p, n0);
    MulComm(n0p, n0);
    MulDist(w, BASE * e + BASE, 1);
    MulComm(w, BASE * (e + 1));
    MulBase(e + 1, w);
  }

  lemma ModClear(h: nat, w: nat, x: int, k: int)
    requires w == h % BASE && x == BASE * k - w
    ensures (h + x) % BASE == 0
  {}

  lemma RedcRoom(T: nat, M: nat, N: nat, l0: nat, n: nat, i: nat, space: nat)
    requires T < Pow(l0) && M < Pow(i + 1) && N < Pow(n) && l0 < space
    ensures M * N >= 0 && HasRoom(space, n + i + 3, T + M * N)
  {
    hide Pow;
    MulMono(M, Pow(i + 1), N, Pow(n));
    PowAdd(i + 1, n);
    var k := if space < n + i + 3 then n + i + 3 else space;
    PowMono(l0, k - 1);
    PowMono(i + 1 + n, k - 1);
    PowTop(k);
  }

  lemma PowTop(k: nat)
    requires k > 0
    ensures Pow(k) >= 2 * Pow(k - 1)
  {
    PowPositive(k - 1);
  }

  /** One pass of REDC's loop, on values: t + m * N * BASE^i is divisible by one more word. */
  lemma RedcStep(h: nat, m: Word, N: nat, i: nat, T: nat, M: nat)
    requires Shift(h, i) == T + M * N && M < Pow(i) && (h + m * N) % BASE == 0
    ensures m * N >= 0 && Shift(h, i) + Shift(m * N, i) == Shift((h + m * N) / BASE, i + 1)
    ensures Shift(m, i) >= 0 && M + Shift(m, i) < Pow(i + 1)
    ensures Shift(h, i) + Shift(m * N, i) == T + (M + Shift(m, i)) * N
  {
    hide Shift, Pow;
    MulMono(0, m, 0, N);
    ShiftAdd(h, m * N, i);
    ShiftUp((h + m * N) / BASE, i);
    ShiftTimes(m, N, i);
    MulDist(N, M, Shift(m, i));
    MulComm(N, Shift(m, i));
    ShiftZero(0, i);
    ShiftZero(1, i);
    ShiftMono(0, m, i);
    ShiftMono(m + 1, BASE, i);
    ShiftAdd(m, 1, i);
    ShiftUp(1, i);
    ShiftZero(1, i + 1);
  }

  /** The main loop of REDC: add multiples of N until the low n words are gone. */
  method RedcLoop(t: BigInt, N: BigInt, n0p: Word) returns (ghost h: nat, ghost M: nat)
    requires MontSet(N, n0p) && N.length >= 2
    requires t.Valid() && t.Trimmed() && t.sign == POS && t.Spare() && Distinct(N, t)
    modifies t, t.num
    ensures t.Valid() && t.Trimmed() && t.sign == POS && (t.num == old(t.num) || fresh(t.num))
    ensures t.num.Length >= N.length + 3
    ensures M < Pow(N.length) && t.Mag() == Shift(h, N.length) == old(t.Mag()) + M * N.Mag()
  {
    hide Val, Shift, Pow;
    var n := N.length;
    ghost var T, l0, Nm := t.Mag(), t.length, N.Mag();
    h, M := T, 0;
    ShiftZero(T, 0);
    ShiftZero(1, 0);
    ValBound(t.num[..l0]);
    ValBound(N.num[..n]);
    LowWord(N.num[..n]);
    var i := 0;
    while i < n
      invariant 0 <= i <= n && (t.num == old(t.num) || fresh(t.num))
      invariant t.Valid() && t.Trimmed() && t.sign == POS && l0 < t.num.Length
      invariant i > 0 ==> t.num.Length >= n + 3
      invariant i < n ==> i < t.num.Length && (i < t.length || ZeroUpTo(t, i + 1))
      invariant M < Pow(i) && t.Mag() == Shift(h, i) == T + M * Nm
    {
      NextWord(t, i, h);
      var m := Mul32(t.num[i], n0p);
      ClearWord(h, t.num[i], N.num[0], n0p, m, Nm, Val(N.num[..n][1..]));
      RedcStep(h, m, Nm, i, T, M);
      RedcRoom(T, M + Shift(m, i), Nm, l0, n, i, t.num.Length);
      NumtypeBigmult(N, m, t, i);
      h, M := (h + m * Nm) / BASE, M + Shift(m, i);
      i := i + 1;
    }
  }

  lemma RedcQuotient(h: nat, T: nat, M: nat, N: nat, n: nat)
    requires Shift(h, n) == T + M * N && M < Pow(n) && T < Shift(N, n) && N > 0
    ensures h < 2 * N && (T > 0 ==> h > 0) && (T == 0 ==> h < N)
    ensures Cong(Shift(h, n), T, N) && Cong(Shift(h - N, n), T, N)
  {
    hide Shift, Pow;
    MulMono(M + 1, Pow(n), N, N);
    MulMono(0, M, 0, N);
    ShiftIsTimes(h, n);
    ShiftIsTimes(N, n);
    ShiftAdd(N, N, n);
    if h >= 2 * N { ShiftMono(2 * N, h, n); }
    if T == 0 && h >= N { ShiftMono(N, h, n); }
    CongBy(Shift(h, n), T, N, M);
    ShiftAdd(h, N, n);
    MulComm(N, Pow(n));
    MulDist(N, M, Pow(n));
    CongBy(Shift(h - N, n), T, N, M - Pow(n));
  }

  /**
   * crypt/bigPow.c REDC: for T below N * R it leaves a number at most N whose R-fold is
   * congruent to T, where R is BASE to the length of N. It leaves N itself for the positive multiples of N.
   */
  method Redc(t: BigInt, N: BigInt, n0p: Word)
    requires MontSet(N, n0p) && N.length >= 2
    requires t.Valid() && t.Trimmed() && t.sign == POS && t.Spare() && Distinct(N, t)
    requires t.Mag() < Shift(N.Mag(), N.length)
    modifies t, t.num, N`length
    ensures N.length == old(N.length)
    ensures t.Valid() && t.Trimmed() && t.sign == POS && t.Spare() && (t.num == old(t.num) || fresh(t.num))
    ensures t.Mag() <= N.Mag() && Cong(Shift(t.Mag(), N.length), old(t.Mag()), N.Mag())
    ensures old(t.Mag()) > 0 ==> t.Mag() > 0
    ensures t.Mag() == N.Mag() <==> old(t.Mag()) > 0 && Cong(old(t.Mag()), 0, N.Mag())
  {
    hide Val, Shift, Pow, Cong, DifferenceLoss;
    var n := N.length;
    ghost var T, Nm := t.Mag(), N.Mag();
    LengthBounds1(N);
    ghost var h, M := RedcLoop(t, N, n0p);
    RedcQuotient(h, T, M, Nm, n);
    DropWords(t, n, h);
    var r := Compare(t, N);
    if r > 0 {
      BelowTwice(t, N);
      LossNear(t, N, t);
      BigSubtract(t, N, t);
    }
    Trim(t);
    OddValue(N.num[..n]);
    RedcModulus(t.Mag(), T, Nm, n);
  }

  /** A result that is at most N, and below N for zero, is N exactly for the positive multiples of N. */
  lemma RedcModulus(z: nat, T: nat, N: nat, n: nat)
    requires N % 2 == 1 && z <= N && Cong(Shift(z, n), T, N)
    requires (T > 0 ==> z > 0) && (T == 0 ==> z < N)
    ensures z == N <==> T > 0 && Cong(T, 0, N)
  {
    hide Shift, Pow, Cong;
    var inv := RInverse(N, n);
    ShiftIsTimes(z, n);
    ShiftIsTimes(0, n);
    CongSym(Shift(z, n), T, N);
    if z == N {
      MulComm(N, Pow(n));
      CongAddMultiple(0, Pow(n), N);
      CongSym(0, Pow(n) * N, N);
      CongTrans(T, Shift(z, n), 0, N);
    }
    if T > 0 && Cong(T, 0, N) {
      CongTrans(Shift(z, n), T, 0, N);
      CongCancel(z, 0, Pow(n), inv, N);
      if z < N { CongUnique(z, 0, N); }
    }
  }

  lemma LengthBounds1(N: BigInt)
    requires N.Valid() && N.Trimmed() && N.length >= 2
    ensures Pow(N.length - 1) <= N.Mag() < Pow(N.length) && N.Mag() > 0
  {
    hide Val, Pow;
    ValBound(N.num[..N.length]);
    TrimmedIs(N.num[..N.length]);
    PowPositive(N.length - 1);
  }

  lemma BelowTwice(t: BigInt, N: BigInt)
    requires t.Valid() && t.Trimmed() && N.Valid() && N.Trimmed() && t.Mag() < 2 * N.Mag()
    ensures t.length <= N.length + 1
  {
    hide Val, Pow;
    ValBound(N.num[..N.length]);
    PowTop(N.length + 1);
    ShortEnough(t, N.length + 1);
  }

  /** The division by R: an exact shift by whole words. */
  method DropWords(t: BigInt, n: nat, ghost h: nat)
    requires t.Valid() && t.sign == POS && t.Mag() == Shift(h, n) && n >= 1 && t.num.Length >= 2
    modifies t, t.num
    ensures t.Valid() && t.Trimmed() && t.sign == POS && t.Spare() && t.num == old(t.num) && t.Mag() == h
  {
    hide Val, Shift, Pow, TwoTo;
    var shiftbits := 32 * n;
    assert shiftbits / 32 == n && shiftbits % 32 == 0;
    BigRightShift(t, shiftbits);
    PowPositive(n);
    ShiftGap(0, t.Mag(), h, n);
    ShiftGap(0, h, t.Mag() + 1, n);
  }

  // --- Montgomery form ---

  /** x stands for v: it is at most N, congruent to v * R, and zero only for zero. */
  ghost predicate Stands(x: BigInt, v: int, Nm: nat, n: nat)
    reads x, x.num
  {
    && x.Valid() && x.Trimmed() && x.sign == POS && x.Mag() <= Nm && Cong(x.Mag(), Shift(v, n), Nm)
    && (v != 0 ==> x.Mag() > 0)
  }

  /** bigMultiply followed by REDC: the product, still in Montgomery form. */
  lemma StandsProduct(x: nat, y: nat, v: int, w: int, z: nat, Nm: nat, n: nat, inv: int)
    requires Cong(x, Shift(v, n), Nm) && Cong(y, Shift(w, n), Nm)
    requires Cong(Shift(z, n), x * y, Nm) && Cong(Pow(n) * inv, 1, Nm)
    ensures Cong(z, Shift(v * w, n), Nm)
  {
    hide Shift, Pow, Cong;
    CongMul(x, Shift(v, n), y, Shift(w, n), Nm);
    CongTrans(Shift(z, n), x * y, Shift(v, n) * Shift(w, n), Nm);
    ShiftTimes(v, Shift(w, n), n);
    ShiftTimes(v, w, n);
    var u := Shift(v * w, n);
    assert Shift(v, n) * Shift(w, n) == Shift(u, n) by {
      MulComm(Shift(v, n), Shift(w, n));
    }
    ShiftIsTimes(z, n);
    ShiftIsTimes(u, n);
    CongCancel(z, u, Pow(n), inv, Nm);
  }
}
