// Modular exponentiation for odd moduli: res_form, buildAddChainTable and bigpow of crypt/bigPow.c.

module ModPow {
  import opened Words
  import opened BigInts
  import opened Multiply
  import opened Additive
  import opened Shifts
  import opened Reduction
  import opened Congruence
  import opened Montgomery

  // --- one multiplication in Montgomery form ---

  /** The modulus as mont_set leaves it, with its value and length. */
  ghost predicate Ready(N: BigInt, n0p: Word, Nm: nat, n: nat)
    reads N, N.num
  {
    MontSet(N, n0p) && N.length == n >= 2 && N.Mag() == Nm && Nm > 0
  }

  lemma ReadyLength(N: BigInt, n0p: Word, Nm: nat, n: nat)
    requires Ready(N, n0p, Nm, n)
    ensures N.Valid() && N.length == n && Nm > 0
  {}

  lemma ProductBelow(x: nat, y: nat, Nm: nat, n: nat)
    requires x <= Nm && y <= Nm && 0 < Nm < Pow(n)
    ensures x * y < Shift(Nm, n)
  {
    hide Pow;
    MulMono(x, Nm, y, Nm);
    MulMono(Nm, Nm, Nm + 1, Pow(n));
    MulDist(Nm, Nm, 1);
  }

  /** bigMultiply then REDC: z stands for the product of what x and y stand for. */
  method MulRedc(x: BigInt, y: BigInt, z: BigInt, N: BigInt, n0p: Word, cut: Cutoffs,
                 ghost v: int, ghost w: int, ghost Nm: nat, ghost n: nat, ghost inv: int)
    requires cut.Valid() && Ready(N, n0p, Nm, n) && Cong(Pow(n) * inv, 1, Nm)
    requires Stands(x, v, Nm, n) && Stands(y, w, Nm, n) && (x == y || Distinct(x, y))
    requires z.Valid() && z.Spare() && Distinct(x, z) && Distinct(y, z) && Distinct(N, z) && Distinct(N, x) &&
        Distinct(N, y)
    modifies x`length, z, z.num, N`length
    ensures Ready(N, n0p, Nm, n) && Stands(x, v, Nm, n) && Stands(y, w, Nm, n)
    ensures Stands(z, v * w, Nm, n) && z.Spare() && (z.num == old(z.num) || fresh(z.num))
    ensures x.length == old(x.length)
  {
    hide Val, Shift, Pow, Cong;
    ghost var xm, ym := x.Mag(), y.Mag();
    LengthBounds1(N);
    BigMultiply(x, y, z, cut);
    ProductBelow(xm, ym, Nm, n);
    Redc(z, N, n0p);
    StandsProduct(xm, ym, v, w, z.Mag(), Nm, n, inv);
    NonZero(v, w, xm, ym);
  }

  lemma NonZero(v: int, w: int, x: nat, y: nat)
    requires (v != 0 ==> x > 0) && (w != 0 ==> y > 0)
    ensures v * w != 0 ==> x * y > 0
  {
    if x > 0 && y > 0 { MulMono(1, x, 1, y); }
  }

  // --- entering Montgomery form ---

  lemma ModResultCong(a: nat, m: nat)
    requires m > 0
    ensures ModResult(a, m) <= m && Cong(ModResult(a, m), a, m)
  {
    hide WordMultiple;
    ModResultIs(a, m);
    var r := ModResult(a, m);
    CongRem(a, m);
    CongRem(r, m);
    CongSym(a, a % m, m);
    CongTrans(r, a % m, a, m);
  }

  /** The number r, a * R modulo N, stands for: a's own value, or zero when r is zero. */
  lemma FormOf(a: nat, r: nat, Nm: nat, n: nat, inv: int) returns (v: nat)
    requires Nm > 0 && r == ModResult(Shift(a, n), Nm) && Cong(Pow(n) * inv, 1, Nm)
    ensures r <= Nm && Cong(r, Shift(v, n), Nm) && (v != 0 ==> r > 0)
    ensures Cong(v, a, Nm) && (0 < a <= Nm ==> v == a)
  {
    hide Shift, Pow, Cong, ModResult;
    ShiftIsTimes(a, n);
    MulMono(0, a, 0, Pow(n));
    ModResultCong(Shift(a, n), Nm);
    v := a;
    CongRefl(a, Nm);
    if r == 0 {
      v := 0;
      ShiftIsTimes(0, n);
      CongRefl(0, Nm);
      CongSym(0, Shift(a, n), Nm);
      CongCancel(a, 0, Pow(n), inv, Nm);
      CongSym(a, 0, Nm);
      if 0 < a <= Nm { FormPositive(a, Nm, n); }
    }
  }

  /** A number up to N has a residue form that is not zero: N itself goes to N. */
  lemma FormPositive(a: nat, Nm: nat, n: nat)
    requires 0 < a <= Nm && Cong(a, 0, Nm)
    ensures ModResult(Shift(a, n), Nm) == Nm
  {
    hide Shift, Cong;
    if a < Nm { CongUnique(a, 0, Nm); }
  }

  /** crypt/bigPow.c res_form: a * R modulo N. */
  method ResForm(a: BigInt, N: BigInt, ghost n0p: Word, ghost Nm: nat, ghost n: nat, ghost inv: int)
      returns (r: BigInt, ghost v: nat)
    requires a.Valid() && a.Trimmed() && a.sign == POS && Distinct(a, N) && Ready(N, n0p, Nm, n)
    requires Cong(Pow(n) * inv, 1, Nm)
    modifies N, N.num
    ensures fresh(r) && fresh(r.num) && Stands(r, v, Nm, n) && r.Spare() && Distinct(r, N)
    ensures Cong(v, a.Mag(), Nm) && (0 < a.Mag() <= Nm ==> v == a.Mag())
    ensures Ready(N, n0p, Nm, n) && (N.num == old(N.num) || fresh(N.num))
    ensures N.num[..N.length] == old(N.num[..N.length])
  {
    hide Val, Shift, Pow, Cong, ModResult;
    var tmp := new BigInt(0);
    r := new BigInt(0);
    ghost var words: seq<Word> := N.num[..N.length];
    assert words[0] == N.num[0];
    WordsLeft(a, tmp, N.length);
    BigMod(tmp, N, r);
    v := FormOf(a.Mag(), r.Mag(), Nm, n, inv);
    assert N.num[..N.length][0] == N.num[0];
  }

  // --- nibbles of the exponent ---

  /** The macro NIBBLE within a word. */
  function Nibble(w: Word, j: nat): (v: nat)
    requires j < 8
    ensures v < 16
  {
    Shr(w, 4 * j) % 16
  }

  /** The number the nibbles from i upward denote. */
  ghost function ExpAbove(s: seq<Word>, i: nat): nat
    requires i <= 8 * |s|
    decreases 8 * |s| - i
  {
    if i == 8 * |s| then 0 else Nibble(s[i / 8], i % 8) + 16 * ExpAbove(s, i + 1)
  }

  lemma NibbleTwos()
    ensures TwoTo(0) == 1 && TwoTo(4) == 16 && TwoTo(8) == 256 && TwoTo(12) == 4096
    ensures TwoTo(16) == 65536 && TwoTo(20) == 1048576 && TwoTo(24) == 16777216 && TwoTo(28) == 268435456
  {
    TwoToAdd(4, 4);
    TwoToAdd(4, 8);
    TwoToAdd(8, 8);
    TwoToAdd(4, 16);
    TwoToAdd(8, 16);
    TwoToAdd(12, 16);
  }

  lemma WordNibbles(w: Word)
    ensures Nibble(w, 0) == w % 16 && Nibble(w, 1) == (w / 16) % 16 && Nibble(w, 2) == (w / 256) % 16
    ensures Nibble(w, 3) == (w / 4096) % 16 && Nibble(w, 4) == (w / 65536) % 16 && Nibble(w, 5) == (w / 1048576) % 16
    ensures Nibble(w, 6) == (w / 16777216) % 16 && Nibble(w, 7) == (w / 268435456) % 16
  {
    NibbleTwos();
    hide TwoTo;
  }

  lemma NibbleStep(s: seq<Word>, k: nat, j: nat)
    requires k < |s| && j < 8
    ensures ExpAbove(s, 8 * k + j) == Nibble(s[k], j) + 16 * ExpAbove(s, 8 * k + j + 1)
  {
    assert (8 * k + j) / 8 == k && (8 * k + j) % 8 == j;
  }

  lemma NestedSixteenths(w: Word, c: nat, c': nat)
    requires c > 0 && c' == 16 * c
    ensures w / c == (w / c) % 16 + 16 * (w / c')
  {
    var x := w / c;
    var q, r := x / 16, x % 16;
    var rest := w % c;
    assert w == c * x + rest;
    MulDist(c, 16 * q, r);
    MulAssoc(c, 16, q);
    MulComm(c, 16);
    MulMono(c, c, r, 15);
    DivUnique(w, c', q, c * r + rest);
  }

  lemma WordOfNibbles(w: Word, e: nat)
    ensures w % 16 + 16 * ((w / 16) % 16 + 16 * ((w / 256) % 16 + 16 * ((w / 4096) % 16 + 16 * ((w / 65536) % 16
          + 16 * ((w / 1048576) % 16 + 16 * ((w / 16777216) % 16 + 16 * ((w / 268435456) % 16 + 16 * e))))))) == w + BASE * e
  {
    NestedSixteenths(w, 1, 16);
    NestedSixteenths(w, 16, 256);
    NestedSixteenths(w, 256, 4096);
    NestedSixteenths(w, 4096, 65536);
    NestedSixteenths(w, 65536, 1048576);
    NestedSixteenths(w, 1048576, 16777216);
    NestedSixteenths(w, 16777216, 268435456);
    var x1, x2, x3, x4 := w / 16, w / 256, w / 4096, w / 65536;
    var x5, x6, x7 := w / 1048576, w / 16777216, w / 268435456;
    TopNibble(w, x7);
    Horner(w, x1, x2, x3, x4, x5, x6, x7, w % 16, x1 % 16, x2 % 16, x3 % 16, x4 % 16, x5 % 16, x6 % 16, x7 % 16, e);
  }

  lemma TopNibble(w: Word, x: nat)
    requires x == w / 268435456
    ensures x % 16 == x
  {}

  lemma Horner(w: int, x1: int, x2: int, x3: int, x4: int, x5: int, x6: int, x7: int,
               n0: int, n1: int, n2: int, n3: int, n4: int, n5: int, n6: int, n7: int, e: int)
    requires w == n0 + 16 * x1 && x1 == n1 + 16 * x2 && x2 == n2 + 16 * x3 && x3 == n3 + 16 * x4
    requires x4 == n4 + 16 * x5 && x5 == n5 + 16 * x6 && x6 == n6 + 16 * x7 && x7 == n7
    ensures n0 + 16 * (n1 + 16 * (n2 + 16 * (n3 + 16 * (n4 + 16 * (n5 + 16 * (n6 + 16 * (n7 + 16 * e))))))) == w + BASE * e
  {}

  /** All the nibbles together are the exponent. */
  lemma {:induction false} ExpAboveIsVal(s: seq<Word>, k: nat)
    requires k <= |s|
    ensures ExpAbove(s, 8 * k) == Val(s[k..])
    decreases |s| - k
  {
    if k == |s| {
      assert s[k..] == [];
    } else {
      ExpAboveIsVal(s, k + 1);
      hide Val, ExpAbove, Nibble;
      ValHead(s[k..]);
      EightSteps(s, k);
      assert s[k..][1..] == s[k + 1..];
    }
  }

  lemma EightSteps(s: seq<Word>, k: nat)
    requires k < |s|
    ensures ExpAbove(s, 8 * k) == s[k] + BASE * ExpAbove(s, 8 * k + 8)
  {
    hide *;
    NibbleStep(s, k, 0);
    NibbleStep(s, k, 1);
    NibbleStep(s, k, 2);
    NibbleStep(s, k, 3);
    NibbleStep(s, k, 4);
    NibbleStep(s, k, 5);
    NibbleStep(s, k, 6);
    NibbleStep(s, k, 7);
    WordNibbles(s[k]);
    WordOfNibbles(s[k], ExpAbove(s, 8 * k + 8));
  }

  // --- the table of small powers ---

  /** Entries 1 to 15 stand for a's powers; no entry shares anything with another or with N. */
  ghost predicate Powers(at: seq<BigInt>, N: BigInt, a: nat, Nm: nat, n: nat)
    reads N`num, at, set t | t in at :: t.num
  {
    && |at| <= 16
    && (forall i | 0 <= i < |at| :: Distinct(at[i], N))
    && (forall i, j | 0 <= i < j < |at| :: Distinct(at[i], at[j]))
    && (forall i | 1 <= i < |at| :: Stands(at[i], Exp(a, i), Nm, n))
  }

  /** x shares nothing with the table. */
  ghost predicate Outside(x: BigInt, at: seq<BigInt>)
    reads x, at
  {
    forall i | 0 <= i < |at| :: Distinct(at[i], x)
  }

  lemma ExpNext(a: int, i: nat)
    ensures a * Exp(a, i) == Exp(a, i + 1) && Exp(a, 0) == 1 && Exp(a, 1) == a
  {
    assert Exp(a, 0) == 1;
  }

  /** The next entry: the base times the last one. */
  method TableStep(x: BigInt, at: seq<BigInt>, N: BigInt, n0p: Word, cut: Cutoffs,
                   ghost a: nat, ghost Nm: nat, ghost n: nat, ghost inv: int) returns (t: BigInt)
    requires cut.Valid() && Ready(N, n0p, Nm, n) && Cong(Pow(n) * inv, 1, Nm)
    requires 2 <= |at| < 16 && Powers(at, N, a, Nm, n) && Outside(x, at)
    requires Stands(x, a, Nm, n) && Distinct(x, N)
    modifies x`length, N`length
    ensures fresh(t) && fresh(t.num)
    ensures Ready(N, n0p, Nm, n) && Stands(x, a, Nm, n)
    ensures Powers(at + [t], N, a, Nm, n) && Outside(x, at + [t])
  {
    hide Val, Shift, Pow, Cong, Exp, Stands, Ready;
    t := new BigInt(0);
    var last := at[|at| - 1];
    ReadyValid(x, a, last, Exp(a, |at| - 1), N, n0p, Nm, n);
    MulRedc(x, last, t, N, n0p, cut, a, Exp(a, |at| - 1), Nm, n, inv);
    ExpNext(a, |at| - 1);
  }

  lemma ReadyValid(x: BigInt, v: int, y: BigInt, w: int, N: BigInt, n0p: Word, Nm: nat, n: nat)
    requires Stands(x, v, Nm, n) && Stands(y, w, Nm, n) && Ready(N, n0p, Nm, n)
    ensures x.Valid() && y.Valid() && N.Valid()
  {}

  /** crypt/bigPow.c buildAddChainTable */
  method BuildAddChainTable(a: BigInt, N: BigInt, n0p: Word, cut: Cutoffs, ghost Nm: nat, ghost n: nat, ghost inv: int)
      returns (at: seq<BigInt>, ghost b: nat)
    requires cut.Valid() && Ready(N, n0p, Nm, n) && Cong(Pow(n) * inv, 1, Nm)
    requires a.Valid() && a.Trimmed() && a.sign == POS && Distinct(a, N)
    modifies N, N.num
    ensures |at| == 16 && Powers(at, N, b, Nm, n)
    ensures forall i | 0 <= i < 16 :: fresh(at[i]) && fresh(at[i].num)
    ensures Cong(b, a.Mag(), Nm) && (0 < a.Mag() <= Nm ==> b == a.Mag())
    ensures Ready(N, n0p, Nm, n) && (N.num == old(N.num) || fresh(N.num))
    ensures N.num[..N.length] == old(N.num[..N.length])
  {
    hide Val, Shift, Pow, Cong, Exp, Powers, Stands, Outside;
    var x, start;
    x, start, b := FirstTwo(a, N, n0p, Nm, n, inv);
    at := MoreEntries(x, start, N, n0p, cut, b, Nm, n, inv);
    assert at[0] == at[..2][0] == start[0] && at[1] == at[..2][1] == start[1];
  }

  /** The base in Montgomery form and the first two entries, the second a copy of it. */
  method FirstTwo(a: BigInt, N: BigInt, n0p: Word, ghost Nm: nat, ghost n: nat, ghost inv: int)
      returns (x: BigInt, at: seq<BigInt>, ghost b: nat)
    requires Ready(N, n0p, Nm, n) && Cong(Pow(n) * inv, 1, Nm)
    requires a.Valid() && a.Trimmed() && a.sign == POS && Distinct(a, N)
    modifies N, N.num
    ensures |at| == 2 && Powers(at, N, b, Nm, n) && Outside(x, at)
    ensures fresh(at[0]) && fresh(at[0].num) && fresh(at[1]) && fresh(at[1].num)
    ensures fresh(x) && fresh(x.num) && Stands(x, b, Nm, n) && Distinct(x, N)
    ensures Cong(b, a.Mag(), Nm) && (0 < a.Mag() <= Nm ==> b == a.Mag())
    ensures Ready(N, n0p, Nm, n) && (N.num == old(N.num) || fresh(N.num))
    ensures N.num[..N.length] == old(N.num[..N.length])
  {
    hide Val, Shift, Pow, Cong, Exp, Powers;
    x, b := ResForm(a, N, n0p, Nm, n, inv);
    var one := new BigInt(1);
    var t1 := new BigInt(0);
    Copy(x, t1);
    ExpNext(b, 0);
    at := [one, t1];
    StartPowers(at, N, b, Nm, n);
  }

  /** The loop of buildAddChainTable. */
  method MoreEntries(x: BigInt, start: seq<BigInt>, N: BigInt, n0p: Word, cut: Cutoffs,
                     ghost a: nat, ghost Nm: nat, ghost n: nat, ghost inv: int) returns (at: seq<BigInt>)
    requires cut.Valid() && Ready(N, n0p, Nm, n) && Cong(Pow(n) * inv, 1, Nm)
    requires |start| == 2 && Powers(start, N, a, Nm, n) && Outside(x, start)
    requires Stands(x, a, Nm, n) && Distinct(x, N)
    modifies x`length, N`length
    ensures Ready(N, n0p, Nm, n) && N.length == old(N.length)
    ensures |at| == 16 && at[..2] == start && Powers(at, N, a, Nm, n)
    ensures forall i | 2 <= i < 16 :: fresh(at[i]) && fresh(at[i].num)
  {
    hide Val, Shift, Pow, Cong, Exp, Powers, Stands;
    at := start;
    for i := 2 to 16
      invariant |at| == i && at[..2] == start && Powers(at, N, a, Nm, n) && Outside(x, at)
      invariant forall j | 2 <= j < i :: fresh(at[j]) && fresh(at[j].num)
      invariant Ready(N, n0p, Nm, n) && Stands(x, a, Nm, n)
    {
      var t := TableStep(x, at, N, n0p, cut, a, Nm, n, inv);
      at := at + [t];
    }
  }

  lemma StartPowers(at: seq<BigInt>, N: BigInt, a: nat, Nm: nat, n: nat)
    requires |at| == 2 && Distinct(at[0], N) && Distinct(at[1], N) && Distinct(at[0], at[1])
    requires Stands(at[1], Exp(a, 1), Nm, n)
    ensures Powers(at, N, a, Nm, n)
  {}

  // --- bigpow ---

  /** One nibble: result gets d times the table's entry, or a copy of d for a zero nibble. */
  method TimesNibble(at: seq<BigInt>, nib: nat, d: BigInt, result: BigInt, N: BigInt, n0p: Word, cut: Cutoffs,
                     ghost a: nat, ghost e: nat, ghost Nm: nat, ghost n: nat, ghost inv: int)
    requires cut.Valid() && Ready(N, n0p, Nm, n) && Cong(Pow(n) * inv, 1, Nm)
    requires |at| == 16 && nib < 16 && Powers(at, N, a, Nm, n) && Outside(d, at) && Outside(result, at)
    requires Stands(d, Exp(a, e), Nm, n) && Distinct(N, d)
    requires result.Valid() && result.Spare() && Distinct(N, result) && Distinct(d, result)
    modifies (at[nib] as BigInt)`length, result, result.num, N`length
    ensures Ready(N, n0p, Nm, n) && Powers(at, N, a, Nm, n) && Outside(result, at)
    ensures Stands(d, Exp(a, e), Nm, n) && Stands(result, Exp(a, nib + e), Nm, n)
    ensures result.Spare() && (result.num == old(result.num) || fresh(result.num))
  {
    hide Val, Shift, Pow, Cong, Exp, Stands, Ready;
    ReadyValid(d, Exp(a, e), d, Exp(a, e), N, n0p, Nm, n);
    if nib != 0 {
      ReadyValid(d, Exp(a, e), at[nib], Exp(a, nib), N, n0p, Nm, n);
      MulRedc(at[nib], d, result, N, n0p, cut, Exp(a, nib), Exp(a, e), Nm, n, inv);
      ExpAdd(a, nib, e);
    } else {
      Copy(d, result);
      StandsCopy(d, result, Exp(a, e), Nm, n);
    }
  }

  lemma StandsCopy(x: BigInt, y: BigInt, v: int, Nm: nat, n: nat)
    requires Stands(x, v, Nm, n)
    requires y.Valid() && y.length == x.length && y.sign == x.sign && y.Mag() == x.Mag()
    requires (y.Trimmed() <==> x.Trimmed())
    ensures Stands(y, v, Nm, n)
  {}

  /** One squaring in Montgomery form. */
  method SquareRedc(x: BigInt, z: BigInt, N: BigInt, n0p: Word, cut: Cutoffs,
                    ghost a: nat, ghost e: nat, ghost Nm: nat, ghost n: nat, ghost inv: int)
    requires cut.Valid() && Ready(N, n0p, Nm, n) && Cong(Pow(n) * inv, 1, Nm)
    requires Stands(x, Exp(a, e), Nm, n) && Distinct(N, x)
    requires z.Valid() && z.Spare() && Distinct(x, z) && Distinct(N, z)
    modifies x`length, z, z.num, N`length
    ensures Ready(N, n0p, Nm, n) && Stands(x, Exp(a, e), Nm, n)
    ensures Stands(z, Exp(a, 2 * e), Nm, n) && z.Valid() && z.Spare() && (z.num == old(z.num) || fresh(z.num))
    ensures x.length == old(x.length)
  {
    hide Val, Shift, Pow, Cong, Exp, Ready;
    MulRedc(x, x, z, N, n0p, cut, Exp(a, e), Exp(a, e), Nm, n, inv);
    ExpAdd(a, e, e);
  }

  /** Four squarings, by turns into each number: the sixteenth power. */
  method SixteenthPower(x: BigInt, d: BigInt, N: BigInt, n0p: Word, cut: Cutoffs,
                        ghost a: nat, ghost e: nat, ghost Nm: nat, ghost n: nat, ghost inv: int)
    requires cut.Valid() && Ready(N, n0p, Nm, n) && Cong(Pow(n) * inv, 1, Nm)
    requires Stands(x, Exp(a, e), Nm, n) && Distinct(N, x) && x.Spare()
    requires d.Valid() && d.Spare() && Distinct(x, d) && Distinct(N, d)
    modifies x, x.num, d, d.num, N`length
    ensures Ready(N, n0p, Nm, n) && x.Valid() && x.Spare() && d.Valid() && d.Spare()
    ensures Stands(x, Exp(a, 16 * e), Nm, n)
    ensures (x.num == old(x.num) || fresh(x.num)) && (d.num == old(d.num) || fresh(d.num))
    ensures Distinct(x, d)
  {
    hide Val, Shift, Pow, Cong, Exp, Stands, Ready;
    SquareRedc(x, d, N, n0p, cut, a, e, Nm, n, inv);
    ReadyValid(x, Exp(a, e), d, Exp(a, 2 * e), N, n0p, Nm, n);
    SquareRedc(d, x, N, n0p, cut, a, 2 * e, Nm, n, inv);
    ReadyValid(d, Exp(a, 2 * e), x, Exp(a, 4 * e), N, n0p, Nm, n);
    SquareRedc(x, d, N, n0p, cut, a, 4 * e, Nm, n, inv);
    ReadyValid(x, Exp(a, 4 * e), d, Exp(a, 8 * e), N, n0p, Nm, n);
    SquareRedc(d, x, N, n0p, cut, a, 8 * e, Nm, n, inv);
    ReadyValid(x, Exp(a, 16 * e), d, Exp(a, 8 * e), N, n0p, Nm, n);
  }

  /** The four squarings between two nibbles. */
  method FourSquarings(result: BigInt, d: BigInt, N: BigInt, n0p: Word, cut: Cutoffs,
                       ghost a: nat, ghost e: nat, ghost Nm: nat, ghost n: nat, ghost inv: int)
    requires cut.Valid() && Ready(N, n0p, Nm, n) && Cong(Pow(n) * inv, 1, Nm)
    requires Stands(result, Exp(a, e), Nm, n) && Distinct(N, result) && result.Spare()
    requires d.Valid() && d.Spare() && Distinct(result, d) && Distinct(N, d)
    modifies result, result.num, d, d.num, N`length
    ensures Ready(N, n0p, Nm, n) && result.Valid() && result.Spare() && d.Spare()
    ensures Stands(d, Exp(a, 16 * e), Nm, n)
    ensures (result.num == old(result.num) || fresh(result.num)) && (d.num == old(d.num) || fresh(d.num))
    ensures Distinct(result, d)
  {
    hide Val, Shift, Pow, Cong, Exp, Stands, Ready;
    SixteenthPower(result, d, N, n0p, cut, a, e, Nm, n, inv);
    Copy(result, d);
    StandsCopy(result, d, Exp(a, 16 * e), Nm, n);
  }

  /** The table is outside what the squarings write. */
  method NextNibble(at: seq<BigInt>, result: BigInt, d: BigInt, N: BigInt, n0p: Word, cut: Cutoffs,
                    ghost a: nat, ghost e: nat, ghost Nm: nat, ghost n: nat, ghost inv: int)
    requires cut.Valid() && Ready(N, n0p, Nm, n) && Cong(Pow(n) * inv, 1, Nm)
    requires |at| == 16 && Powers(at, N, a, Nm, n) && Outside(d, at) && Outside(result, at)
    requires Stands(result, Exp(a, e), Nm, n) && Distinct(N, result) && result.Spare()
    requires d.Valid() && d.Spare() && Distinct(result, d) && Distinct(N, d)
    modifies result, result.num, d, d.num, N`length
    ensures Ready(N, n0p, Nm, n) && result.Valid() && result.Spare() && d.Spare()
    ensures Stands(d, Exp(a, 16 * e), Nm, n)
    ensures (result.num == old(result.num) || fresh(result.num)) && (d.num == old(d.num) || fresh(d.num))
    ensures Distinct(result, d) && Powers(at, N, a, Nm, n) && Outside(d, at) && Outside(result, at)
  {
    hide Val, Shift, Pow, Cong, Exp, Stands, Ready;
    FourSquarings(result, d, N, n0p, cut, a, e, Nm, n, inv);
  }

  /** The highest nonzero nibble. */
  method TopNonzero(exp: BigInt) returns (i: nat)
    requires exp.Valid() && exp.Mag() > 0
    ensures i < 8 * exp.length && ExpAbove(exp.num[..exp.length], i + 1) == 0
  {
    hide Val;
    ghost var s: seq<Word> := exp.num[..exp.length];
    ExpAboveIsVal(s, 0);
    assert s[0..] == s;
    i := 8 * exp.length - 1;
    while Nibble(exp.num[i / 8], i % 8) == 0
      invariant i < 8 * exp.length && ExpAbove(s, i + 1) == 0
      decreases i
    {
      assert exp.num[i / 8] == s[i / 8];
      assert ExpAbove(s, i) == 0;
      i := i - 1;
    }
  }

  /** Leaving Montgomery form: the last REDC divides by R. */
  lemma LeaveForm(x: nat, v: int, z: nat, Nm: nat, n: nat, inv: int)
    requires Cong(x, Shift(v, n), Nm) && Cong(Shift(z, n), x, Nm) && Cong(Pow(n) * inv, 1, Nm)
    ensures Cong(z, v, Nm)
  {
    hide Shift, Pow, Cong;
    CongTrans(Shift(z, n), x, Shift(v, n), Nm);
    ShiftIsTimes(z, n);
    ShiftIsTimes(v, n);
    CongCancel(z, v, Pow(n), inv, Nm);
  }

  lemma PowAtLeast(n: nat)
    requires n >= 1
    ensures Pow(n) >= BASE
  {
    PowPositive(n - 1);
  }

  lemma BelowShift(x: nat, Nm: nat, n: nat)
    requires x <= Nm && Nm > 0 && n >= 1
    ensures x < Shift(Nm, n)
  {
    hide Shift, Pow;
    PowAtLeast(n);
    ShiftIsTimes(Nm, n);
    MulMono(Nm, Nm, 2, Pow(n));
  }

  /** The final REDC. */
  method LeaveMontgomery(result: BigInt, N: BigInt, n0p: Word, ghost v: int, ghost Nm: nat, ghost n: nat,
      ghost inv: int)
    requires Ready(N, n0p, Nm, n) && Cong(Pow(n) * inv, 1, Nm)
    requires Stands(result, v, Nm, n) && result.Spare() && Distinct(N, result)
    modifies result, result.num, N`length
    ensures N.length == old(N.length)
    ensures result.Valid() && result.Trimmed() && result.sign == POS && result.Spare()
    ensures result.num == old(result.num) || fresh(result.num)
    ensures result.Mag() <= Nm && Cong(result.Mag(), v, Nm) && (v != 0 ==> result.Mag() > 0)
  {
    hide Val, Shift, Pow, Cong;
    ghost var x := result.Mag();
    BelowShift(x, Nm, n);
    Redc(result, N, n0p);
    LeaveForm(x, v, result.Mag(), Nm, n, inv);
  }

  /** The loop of bigpow over the nibbles of a nonzero exponent. */
  method NibbleLoop(at: seq<BigInt>, exp: BigInt, d: BigInt, result: BigInt, N: BigInt, n0p: Word, cut: Cutoffs,
                    top: nat, ghost a: nat, ghost Nm: nat, ghost n: nat, ghost inv: int)
    requires cut.Valid() && Ready(N, n0p, Nm, n) && Cong(Pow(n) * inv, 1, Nm)
    requires |at| == 16 && Powers(at, N, a, Nm, n) && Outside(d, at) && Outside(result, at) && Outside(exp, at)
    requires exp.Valid() && Distinct(exp, d) && Distinct(exp, result) && Distinct(exp, N)
    requires top < 8 * exp.length && ExpAbove(exp.num[..exp.length], top + 1) == 0
    requires Stands(d, 1, Nm, n) && d.Spare() && Distinct(N, d)
    requires result.Valid() && result.Spare() && Distinct(N, result) && Distinct(d, result)
    modifies at, d, d.num, result, result.num, N`length
    ensures Ready(N, n0p, Nm, n)
    ensures Stands(result, Exp(a, exp.Mag()), Nm, n) && result.Spare()
    ensures result.num == old(result.num) || fresh(result.num)
  {
    hide Val, Shift, Pow, Cong, Exp, Stands, Ready, Powers, ExpAbove, Nibble;
    ghost var s: seq<Word> := exp.num[..exp.length];
    var i: nat := top;
    ExpNext(a, 0);
    ghost var e: nat := 0;
    while true
      invariant i < 8 * exp.length && e == 16 * ExpAbove(s, i + 1)
      invariant Ready(N, n0p, Nm, n) && Powers(at, N, a, Nm, n) && Outside(d, at) && Outside(result, at)
      invariant Stands(d, Exp(a, e), Nm, n) && d.Spare() && Distinct(N, d)
      invariant result.Valid() && result.Spare() && Distinct(N, result) && Distinct(d, result)
      invariant (result.num == old(result.num) || fresh(result.num)) && (d.num == old(d.num) || fresh(d.num))
      invariant exp.num[..exp.length] == s && exp.length == old(exp.length)
      decreases i
    {
      var nib := Nibble(exp.num[i / 8], i % 8);
      NibbleStep(s, i / 8, i % 8);
      TimesNibble(at, nib, d, result, N, n0p, cut, a, e, Nm, n, inv);
      ReadyValid(d, Exp(a, e), result, Exp(a, nib + e), N, n0p, Nm, n);
      e := nib + e;
      if i == 0 {
        break;
      }
      NextNibble(at, result, d, N, n0p, cut, a, e, Nm, n, inv);
      e := 16 * e;
      i := i - 1;
    }
    ExpAboveIsVal(s, 0);
    assert s[0..] == s;
  }

  lemma TrimmedZero(x: BigInt)
    requires x.Valid() && x.Trimmed()
    ensures IsZero(x) <==> x.Mag() == 0
  {
    hide Val, Pow;
    if x.length == 1 {
      assert x.num[..1] == [x.num[0]];
      ValOne(x.num[0]);
    } else {
      LengthBounds1(x);
    }
  }

  lemma ExpZero(e: nat)
    ensures Exp(0, e) == if e == 0 then 1 else 0
  {}

  /** What a modular power of a to the e may be: congruent to it and at most N. */
  ghost predicate PowerOf(r: nat, a: nat, e: nat, N: nat) {
    r <= N && Cong(r, Exp(a, e), N) && (Unit(a, N) ==> r < N)
  }

  lemma IsPower(r: nat, a: nat, e: nat, N: nat)
    requires r <= N && N >= 2 && Cong(r, Exp(a, e), N)
    ensures PowerOf(r, a, e, N)
  {
    hide Cong, Exp, Unit;
    if Unit(a, N) { UnitPower(a, e, N); }
  }

  /** The number one in Montgomery form, beside an existing table. */
  method FormOne(at: seq<BigInt>, N: BigInt, n0p: Word, ghost a: nat, ghost Nm: nat, ghost n: nat, ghost inv: int)
      returns (d: BigInt)
    requires Cong(Pow(n) * inv, 1, Nm) && Ready(N, n0p, Nm, n) && |at| == 16 && Powers(at, N, a, Nm, n)
    modifies N, N.num
    ensures fresh(d) && fresh(d.num) && Stands(d, 1, Nm, n) && d.Spare() && Distinct(d, N)
    ensures Ready(N, n0p, Nm, n) && (N.num == old(N.num) || fresh(N.num))
    ensures N.num[..N.length] == old(N.num[..N.length])
    ensures Powers(at, N, a, Nm, n) && Outside(d, at)
  {
    hide Val, Shift, Pow, Cong, Exp, Stands, Ready;
    var one := new BigInt(1);
    ReadyLength(N, n0p, Nm, n);
    ghost var v;
    d, v := ResForm(one, N, n0p, Nm, n, inv);
  }

  /** mont_set, with the facts that make reduction by it work. */
  method StartMontgomery(modulus: BigInt) returns (n0p: Word, ghost inv: int)
    requires modulus.Valid() && modulus.Trimmed() && modulus.sign == POS
    requires modulus.length >= 2 && modulus.num[0] % 2 == 1
    ensures Ready(modulus, n0p, modulus.Mag(), modulus.length) && modulus.Mag() >= 2
    ensures Cong(Pow(modulus.length) * inv, 1, modulus.Mag())
  {
    hide Val, Pow, Cong;
    n0p := ModInverse(modulus.num[0]);
    LengthBounds1(modulus);
    PowAtLeast(modulus.length - 1);
    OddValue(modulus.num[..modulus.length]);
    inv := RInverse(modulus.Mag(), modulus.length);
  }

  /** The branch of bigpow for a nonzero base and a nonzero exponent. */
  method WindowPow(a: BigInt, exp: BigInt, modulus: BigInt, result: BigInt, cut: Cutoffs)
    requires cut.Valid()
    requires a.Valid() && a.Trimmed() && a.sign == POS && exp.Valid() && exp.Mag() > 0
    requires modulus.Valid() && modulus.Trimmed() && modulus.sign == POS
    requires modulus.length >= 2 && modulus.num[0] % 2 == 1
    requires result.Valid() && result.Spare() && Distinct(a, modulus) && Distinct(modulus, result)
    requires Distinct(exp, modulus) && Distinct(exp, result)
    modifies result, result.num, modulus, modulus.num
    ensures result.Valid() && result.Trimmed() && result.Spare() && result.sign == POS
    ensures result.num == old(result.num) || fresh(result.num)
    ensures modulus.Valid() && modulus.sign == POS && (modulus.num == old(modulus.num) || fresh(modulus.num))
    ensures modulus.length == old(modulus.length) && modulus.num[..modulus.length] == old(modulus.num[..modulus.length])
    ensures PowerOf(result.Mag(), old(a.Mag()), old(exp.Mag()), modulus.Mag()) && Distinct(modulus, result)
    ensures 0 < old(a.Mag()) <= modulus.Mag() ==> result.Mag() > 0
  {
    hide Val, Pow, Cong, Exp, Powers, Nibble, ExpAbove, PowerOf, Stands;
    ghost var am, em, Nm, n := a.Mag(), exp.Mag(), modulus.Mag(), modulus.length;
    var n0p, inv := StartMontgomery(modulus);
    var at, b := BuildAddChainTable(a, modulus, n0p, cut, Nm, n, inv);
    var i := TopNonzero(exp);
    var d := FormOne(at, modulus, n0p, b, Nm, n, inv);
    NibbleLoop(at, exp, d, result, modulus, n0p, cut, i, b, Nm, n, inv);
    LeaveMontgomery(result, modulus, n0p, Exp(b, em), Nm, n, inv);
    IsPower(result.Mag(), b, em, Nm);
    PowerFromResidue(result.Mag(), b, am, em, Nm);
    ExpPositive(b, em);
  }

  /** crypt/bigPow.c bigpow */
  method OddPow(a: BigInt, exp: BigInt, modulus: BigInt, result: BigInt, cut: Cutoffs)
    requires cut.Valid()
    requires a.Valid() && a.Trimmed() && a.sign == POS && exp.Valid() && exp.Trimmed()
    requires modulus.Valid() && modulus.Trimmed() && modulus.sign == POS
    requires modulus.length >= 2 && modulus.num[0] % 2 == 1
    requires result.Valid() && result.Spare() && Distinct(a, modulus) && Distinct(modulus, result)
    requires Distinct(a, result) && Distinct(exp, modulus) && Distinct(exp, result)
    modifies result, result.num, modulus, modulus.num
    ensures result.Valid() && result.Trimmed() && result.Spare() && result.sign == POS
    ensures result.num == old(result.num) || fresh(result.num)
    ensures modulus.Valid() && modulus.sign == POS && (modulus.num == old(modulus.num) || fresh(modulus.num))
    ensures modulus.length == old(modulus.length) && modulus.num[..modulus.length] == old(modulus.num[..modulus.length])
    ensures a.Mag() > 0 || exp.Mag() > 0 ==> PowerOf(result.Mag(), a.Mag(), exp.Mag(), modulus.Mag())
    ensures a.Mag() == 0 ==> result.Mag() == 0
    ensures 0 < a.Mag() <= modulus.Mag() ==> result.Mag() > 0
    ensures Distinct(modulus, result)
  {
    hide Val, Pow, Cong, Exp, PowerOf;
    TrimmedZero(a);
    TrimmedZero(exp);
    LengthBounds1(modulus);
    PowAtLeast(modulus.length - 1);
    if IsZero(a) {
      Reset(result, 0);
      ExpZero(exp.Mag());
      CongRefl(0, modulus.Mag());
      if exp.Mag() > 0 { IsPower(0, 0, exp.Mag(), modulus.Mag()); }
      return;
    } else if IsZero(exp) {
      Reset(result, 1);
      ExpNext(a.Mag(), 0);
      CongRefl(1, modulus.Mag());
      IsPower(1, a.Mag(), 0, modulus.Mag());
      return;
    }
    WindowPow(a, exp, modulus, result, cut);
  }

  lemma PowerFromResidue(r: nat, newm: nat, m: nat, e: nat, N: nat)
    requires PowerOf(r, newm, e, N) && Cong(newm, m, N) && N >= 2
    ensures PowerOf(r, m, e, N)
  {
    hide Cong, Exp, Unit;
    CongExp(newm, m, e, N);
    CongTrans(r, Exp(newm, e), Exp(m, e), N);
    IsPower(r, m, e, N);
  }

  /** A power that is not zero is N itself exactly when N divides it. */
  lemma PowerIsModulus(r: nat, a: nat, e: nat, N: nat)
    requires N >= 2 && r > 0 && PowerOf(r, a, e, N)
    ensures r == N <==> Cong(Exp(a, e), 0, N)
  {
    hide Cong, Exp, Unit;
    CongSym(r, Exp(a, e), N);
    if r == N {
      CongAddMultiple(0, 1, N);
      CongTrans(Exp(a, e), N, 0, N);
    }
    if Cong(Exp(a, e), 0, N) {
      CongTrans(r, Exp(a, e), 0, N);
      if r < N { CongUnique(r, 0, N); }
    }
  }

  /** What bigPow raises: m itself unless it exceeds the modulus. */
  ghost function PowBase(m: nat, N: nat): nat
    requires N > 0
  {
    if m > N then ModResult(m, N) else m
  }

  /**
   * crypt/bigPow.c bigPow for an odd modulus. The result may be the base's own number.
   * Zero to the zero is zero here, and the reduced base decides.
   */
  method BigPow(m: BigInt, exp: BigInt, modulus: BigInt, result: BigInt, cut: Cutoffs)
    requires cut.Valid()
    requires m.Valid() && m.Trimmed() && m.sign == POS && exp.Valid() && exp.Trimmed()
    requires modulus.Valid() && modulus.Trimmed() && modulus.sign == POS
    requires modulus.length >= 2 && modulus.num[0] % 2 == 1
    requires result.Valid() && result.Spare() && Distinct(m, modulus) && Distinct(modulus, result)
    requires SameOrDistinct(m, result) && Distinct(exp, modulus) && Distinct(exp, result)
    modifies m`length, result, result.num, modulus, modulus.num
    ensures m != result ==> m.length == old(m.length)
    ensures result.Valid() && result.Trimmed() && result.Spare() && result.sign == POS
    ensures result.num == old(result.num) || fresh(result.num)
    ensures modulus.Valid() && modulus.sign == POS && (modulus.num == old(modulus.num) || fresh(modulus.num))
    ensures modulus.length == old(modulus.length) && modulus.num[..modulus.length] == old(modulus.num[..modulus.length])
    ensures modulus.Mag() == old(modulus.Mag()) >= 2 && Distinct(modulus, result)
    ensures PowBase(old(m.Mag()), modulus.Mag()) > 0 || exp.Mag() > 0
        ==> PowerOf(result.Mag(), old(m.Mag()), exp.Mag(), modulus.Mag())
    ensures PowBase(old(m.Mag()), modulus.Mag()) == 0 <==> result.Mag() == 0
  {
    hide Val, Pow, Cong, Exp, PowerOf, ModResult;
    ghost var Nm, mm, words: seq<Word> := modulus.Mag(), m.Mag(), modulus.num[..modulus.length];
    LengthBounds1(modulus);
    PowAtLeast(modulus.length - 1);
    assert words[0] == modulus.num[0];
    var newm := new BigInt(0);
    var r := Compare(m, modulus);
    if r > 0 {
      BigMod(m, modulus, newm);
      ModResultCong(mm, Nm);
    } else {
      Copy(m, newm);
      CongRefl(mm, Nm);
    }
    assert modulus.num[..modulus.length][0] == modulus.num[0];
    ghost var base := newm.Mag();
    assert base == PowBase(mm, Nm) <= Nm;
    OddPow(newm, exp, modulus, result, cut);
    if base > 0 || exp.Mag() > 0 {
      PowerFromResidue(result.Mag(), base, mm, exp.Mag(), Nm);
    }
  }
}
