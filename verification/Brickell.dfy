// Exponentiation with a table of sixteenth powers of a fixed base: crypt/brickell_bigpow.c.

module Brickell {
  import opened Words
  import opened BigInts
  import opened Multiply
  import opened Congruence
  import opened Montgomery
  import opened ModPow

  // --- tables of powers in Montgomery form ---

  /** From entry `from` on, t[i] stands for a to the es[i]; no two entries share anything, nor with N. */
  ghost predicate Raised(t: seq<BigInt>, from: nat, es: seq<nat>, N: BigInt, a: nat, Nm: nat, n: nat)
    reads N`num, t, set x | x in t :: x.num
  {
    && |t| == |es|
    && (forall i | 0 <= i < |t| :: Distinct(t[i], N))
    && (forall i, j | 0 <= i < j < |t| :: Distinct(t[i], t[j]))
    && (forall i | from <= i < |t| :: Stands(t[i], Exp(a, es[i]), Nm, n))
  }

  ghost function Pow16(i: nat): nat {
    if i == 0 then 1 else 16 * Pow16(i - 1)
  }

  /** The exponents of the table g16_bigpow makes. */
  ghost function Sixteens(k: nat): (es: seq<nat>)
    ensures |es| == k && forall i | 0 <= i < k :: es[i] == Pow16(i)
  {
    if k == 0 then [] else Sixteens(k - 1) + [Pow16(k - 1)]
  }

  lemma StandsValid(x: BigInt, v: int, Nm: nat, n: nat)
    requires Stands(x, v, Nm, n)
    ensures x.Valid()
  {}

  /** A table extended by a fresh copy. */
  lemma RaisedMore(t: seq<BigInt>, from: nat, es: seq<nat>, x: BigInt, e: nat, N: BigInt, a: nat, Nm: nat, n: nat)
    requires Raised(t, from, es, N, a, Nm, n) && Outside(x, t) && Distinct(x, N)
    requires Stands(x, Exp(a, e), Nm, n)
    ensures Raised(t + [x], from, es + [e], N, a, Nm, n)
  {
    hide Stands, Exp;
  }

  /** crypt/brickell_bigpow.c g16_bigpow: entry i is the base to the 16^i; b is the base modulo N. */
  method G16BigPow(a: BigInt, modulus: BigInt, explength: nat, cut: Cutoffs)
      returns (t: seq<BigInt>, ghost b: nat)
    requires cut.Valid() && explength >= 1
    requires a.Valid() && a.Trimmed() && a.sign == POS && Distinct(a, modulus)
    requires modulus.Valid() && modulus.Trimmed() && modulus.sign == POS
    requires modulus.length >= 2 && modulus.num[0] % 2 == 1
    modifies modulus, modulus.num
    ensures modulus.Valid() && modulus.Trimmed() && modulus.sign == POS
    ensures modulus.num == old(modulus.num) || fresh(modulus.num)
    ensures modulus.length == old(modulus.length) && modulus.num[..modulus.length] == old(modulus.num[..modulus.length])
    ensures Raised(t, 0, Sixteens(explength), modulus, b, modulus.Mag(), modulus.length)
    ensures Cong(b, old(a.Mag()), modulus.Mag())
    ensures forall x | x in t :: fresh(x) && fresh(x.num)
  {
    hide Val, Pow, Cong, Exp, Shift, Stands, Raised, Sixteens, Pow16;
    ghost var Nm, n := modulus.Mag(), modulus.length;
    var n0p, inv := StartMontgomery(modulus);
    var c;
    c, b := ResForm(a, modulus, n0p, Nm, n, inv);
    t := SixteenthPowers(c, modulus, n0p, explength, cut, b, Nm, n, inv);
  }

  /** The table from the base in Montgomery form. */
  method SixteenthPowers(c: BigInt, N: BigInt, n0p: Word, explength: nat, cut: Cutoffs,
                         ghost a: nat, ghost Nm: nat, ghost n: nat, ghost inv: int) returns (t: seq<BigInt>)
    requires cut.Valid() && Ready(N, n0p, Nm, n) && Cong(Pow(n) * inv, 1, Nm) && explength >= 1
    requires Stands(c, a, Nm, n) && c.Spare() && Distinct(c, N)
    modifies c, c.num, N`length
    ensures Ready(N, n0p, Nm, n)
    ensures Raised(t, 0, Sixteens(explength), N, a, Nm, n)
    ensures forall x | x in t :: fresh(x) && fresh(x.num)
  {
    hide Val, Pow, Cong, Exp, Shift, Stands, Raised, Sixteens, Pow16, Ready;
    t := FirstOfTable(c, N, a, Nm, n);
    var d := new BigInt(0);
    ghost var e: nat := 1;
    FirstSixteenth(a);
    for i := 1 to explength
      invariant Ready(N, n0p, Nm, n)
      invariant |t| == i && Raised(t, 0, Sixteens(i), N, a, Nm, n) && Outside(c, t) && Outside(d, t)
      invariant e == Pow16(i - 1) && Stands(c, Exp(a, e), Nm, n) && c.Spare() && d.Valid() && d.Spare()
      invariant Distinct(c, d) && Distinct(N, c) && Distinct(N, d) && fresh(d) && fresh(d.num)
      invariant c.num == old(c.num) || fresh(c.num)
      invariant forall x | x in t :: fresh(x) && fresh(x.num)
    {
      t, e := NextEntry(t, c, d, N, n0p, cut, i, a, e, Nm, n, inv);
    }
  }

  method FirstOfTable(c: BigInt, N: BigInt, ghost a: nat, ghost Nm: nat, ghost n: nat) returns (t: seq<BigInt>)
    requires Stands(c, a, Nm, n) && Distinct(c, N)
    ensures |t| == 1 && Raised(t, 0, Sixteens(1), N, a, Nm, n) && Outside(c, t)
    ensures fresh(t[0]) && fresh(t[0].num)
  {
    hide Val, Pow, Cong, Exp, Shift, Raised, Sixteens;
    var x := new BigInt(0);
    Copy(c, x);
    FirstEntry(x, N, a, Nm, n);
    t := [x];
  }

  lemma FirstSixteenth(a: nat)
    ensures Pow16(0) == 1 && Exp(a, 1) == a
  {
    ExpNext(a, 0);
  }

  lemma FirstEntry(x: BigInt, N: BigInt, a: nat, Nm: nat, n: nat)
    requires Stands(x, a, Nm, n) && Distinct(x, N)
    ensures Raised([x], 0, Sixteens(1), N, a, Nm, n)
  {
    hide Stands;
    ExpNext(a, 0);
    assert Sixteens(1)[0] == 1;
  }

  /** One round of g16_bigpow: the sixteenth power of the last entry, copied into the table. */
  method NextEntry(t: seq<BigInt>, c: BigInt, d: BigInt, N: BigInt, n0p: Word, cut: Cutoffs, i: nat,
                   ghost a: nat, ghost e: nat, ghost Nm: nat, ghost n: nat, ghost inv: int)
      returns (t': seq<BigInt>, ghost e': nat)
    requires cut.Valid() && Ready(N, n0p, Nm, n) && Cong(Pow(n) * inv, 1, Nm)
    requires |t| == i >= 1 && Raised(t, 0, Sixteens(i), N, a, Nm, n) && Outside(c, t) && Outside(d, t)
    requires e == Pow16(i - 1) && Stands(c, Exp(a, e), Nm, n) && c.Spare() && d.Valid() && d.Spare()
    requires Distinct(c, d) && Distinct(N, c) && Distinct(N, d)
    modifies c, c.num, d, d.num, N`length
    ensures Ready(N, n0p, Nm, n)
    ensures |t'| == i + 1 && Raised(t', 0, Sixteens(i + 1), N, a, Nm, n) && Outside(c, t') && Outside(d, t')
    ensures e' == Pow16(i) && Stands(c, Exp(a, e'), Nm, n) && c.Spare() && d.Valid() && d.Spare()
    ensures Distinct(c, d) && (c.num == old(c.num) || fresh(c.num)) && (d.num == old(d.num) || fresh(d.num))
    ensures t'[..i] == t && fresh(t'[i]) && fresh(t'[i].num)
  {
    hide Val, Pow, Cong, Exp, Shift, Stands, Ready, Sixteens;
    SixteenthPower(c, d, N, n0p, cut, a, e, Nm, n, inv);
    e' := 16 * e;
    t' := AppendCopy(t, 0, Sixteens(i), c, e', N, a, Nm, n);
    SixteensNext(i);
  }

  lemma SixteensNext(i: nat)
    ensures Sixteens(i + 1) == Sixteens(i) + [Pow16(i)]
  {}

  method AppendCopy(t: seq<BigInt>, ghost from: nat, ghost es: seq<nat>, c: BigInt, ghost e: nat, N: BigInt,
      ghost a: nat, ghost Nm: nat, ghost n: nat)
      returns (t': seq<BigInt>)
    requires Raised(t, from, es, N, a, Nm, n) && Stands(c, Exp(a, e), Nm, n) && Distinct(c, N) && Outside(c, t)
    ensures |t'| == |t| + 1 && t'[..|t|] == t && fresh(t'[|t|]) && fresh(t'[|t|].num)
    ensures Raised(t', from, es + [e], N, a, Nm, n) && Outside(c, t')
  {
    hide Val, Pow, Cong, Exp, Shift;
    var x := new BigInt(0);
    Copy(c, x);
    RaisedMore(t, from, es, x, e, N, a, Nm, n);
    t' := t + [x];
  }

  // --- the exponents of the coefficient table ---

  /** The macro NIBBLE on a big number's buffer. */
  function NibbleAt(s: seq<Word>, i: nat): (v: nat)
    requires i < 8 * |s|
    ensures v < 16
  {
    Nibble(s[i / 8], i % 8)
  }

  ghost function Worth(k: nat, i: nat): nat {
    k * Pow16(i)
  }

  /** The number the nibbles from i up to m denote, each at its own place. */
  ghost function Places(s: seq<Word>, i: nat, m: nat): nat
    requires i <= m <= 8 * |s|
    decreases m - i
  {
    if i == m then 0 else Worth(NibbleAt(s, i), i) + Places(s, i + 1, m)
  }

  /** The places, from i up to m, whose nibble is exactly j. */
  ghost function Equal(s: seq<Word>, j: nat, i: nat, m: nat): nat
    requires i <= m <= 8 * |s|
    decreases m - i
  {
    if i == m then 0 else (if NibbleAt(s, i) == j then Pow16(i) else 0) + Equal(s, j, i + 1, m)
  }

  /** The places whose nibble is at least j. */
  ghost function AtLeast(s: seq<Word>, j: nat, i: nat, m: nat): nat
    requires i <= m <= 8 * |s|
    decreases m - i
  {
    if i == m then 0 else (if NibbleAt(s, i) >= j then Pow16(i) else 0) + AtLeast(s, j, i + 1, m)
  }

  /** Every place times what its nibble has from j upward, counting j itself. */
  ghost function Above(s: seq<Word>, j: nat, i: nat, m: nat): nat
    requires i <= m <= 8 * |s|
    decreases m - i
  {
    if i == m then 0 else (if NibbleAt(s, i) >= j then Worth(NibbleAt(s, i) - j + 1, i) else 0) + Above(s, j, i + 1, m)
  }

  lemma WorthNext(k: nat, j: nat, i: nat)
    ensures k > j ==> Worth(k - j + 1, i) == Worth(k - j, i) + Pow16(i)
    ensures Worth(1, i) == Pow16(i)
  {}

  /** The two running products: the first takes in one more row, the second takes in the first. */
  lemma {:induction false} RowsAdd(s: seq<Word>, j: nat, i: nat, m: nat)
    requires i <= m <= 8 * |s|
    ensures AtLeast(s, j, i, m) == Equal(s, j, i, m) + AtLeast(s, j + 1, i, m)
    ensures Above(s, j, i, m) == AtLeast(s, j, i, m) + Above(s, j + 1, i, m)
    decreases m - i
  {
    if i < m {
      RowsAdd(s, j, i + 1, m);
      WorthNext(NibbleAt(s, i), j, i);
      hide Pow16, NibbleAt, Worth;
    }
  }

  /** Started at the row of fifteens, with none above it, and ended at the row of ones. */
  lemma {:induction false} RowEnds(s: seq<Word>, i: nat, m: nat)
    requires i <= m <= 8 * |s|
    ensures AtLeast(s, 16, i, m) == 0 && Above(s, 16, i, m) == 0
    ensures Above(s, 1, i, m) == Places(s, i, m)
    decreases m - i
  {
    if i < m {
      RowEnds(s, i + 1, m);
    }
  }

  // --- the coefficient table ---

  /** x, which stands for a to the e, takes in entry i of a table, by way of z. */
  method TakeIn(t: seq<BigInt>, ghost from: nat, ghost es: seq<nat>, i: nat, x: BigInt, z: BigInt, N: BigInt,
      n0p: Word, cut: Cutoffs,
                ghost a: nat, ghost e: nat, ghost Nm: nat, ghost n: nat, ghost inv: int)
    requires cut.Valid() && Ready(N, n0p, Nm, n) && Cong(Pow(n) * inv, 1, Nm)
    requires Raised(t, from, es, N, a, Nm, n) && from <= i < |t| && Outside(x, t) && Outside(z, t)
    requires Stands(x, Exp(a, e), Nm, n) && x.Spare() && z.Valid() && z.Spare()
    requires Distinct(N, x) && Distinct(N, z) && Distinct(x, z)
    modifies (t[i] as BigInt)`length, x, x.num, z, z.num, N`length
    ensures Ready(N, n0p, Nm, n) && Raised(t, from, es, N, a, Nm, n) && Outside(x, t) && Outside(z, t)
    ensures Stands(x, Exp(a, es[i] + e), Nm, n) && x.Spare() && z.Valid() && z.Spare() && Distinct(x, z)
    ensures (x.num == old(x.num) || fresh(x.num)) && (z.num == old(z.num) || fresh(z.num))
  {
    hide Val, Shift, Pow, Cong, Exp, Stands, Ready;
    ReadyValid(x, Exp(a, e), t[i], Exp(a, es[i]), N, n0p, Nm, n);
    MulRedc(t[i], x, z, N, n0p, cut, Exp(a, es[i]), Exp(a, e), Nm, n, inv);
    ExpAdd(a, es[i], e);
    ReadyValid(x, Exp(a, e), z, Exp(a, es[i] + e), N, n0p, Nm, n);
    Copy(z, x);
    StandsCopy(z, x, Exp(a, es[i] + e), Nm, n);
  }

  /** The inner loop of buildCoeffTable: the product of the entries whose nibble is j. */
  method Row(t: seq<BigInt>, exp: BigInt, j: nat, one: BigInt, x: BigInt, z: BigInt, N: BigInt, n0p: Word, cut: Cutoffs,
             ghost a: nat, ghost Nm: nat, ghost n: nat, ghost inv: int)
    requires cut.Valid() && Ready(N, n0p, Nm, n) && Cong(Pow(n) * inv, 1, Nm)
    requires Raised(t, 0, Sixteens(|t|), N, a, Nm, n) && |t| <= 8 * exp.num.Length
    requires Outside(x, t) && Outside(z, t) && Outside(exp, t)
    requires Stands(one, 1, Nm, n) && Distinct(one, x) && Distinct(one, z) && Outside(one, t)
    requires x.Valid() && x.Spare() && z.Valid() && z.Spare()
    requires Distinct(N, x) && Distinct(N, z) && Distinct(x, z) && Distinct(exp, x) && Distinct(exp, z) &&
        Distinct(exp, N)
    modifies t`length, x, x.num, z, z.num, N`length
    ensures Ready(N, n0p, Nm, n) && Raised(t, 0, Sixteens(|t|), N, a, Nm, n) && Outside(x, t) && Outside(z, t)
    ensures Stands(x, Exp(a, Equal(exp.num[..], j, 0, |t|)), Nm, n) && x.Spare() && z.Valid() && z.Spare() &&
        Distinct(x, z)
    ensures (x.num == old(x.num) || fresh(x.num)) && (z.num == old(z.num) || fresh(z.num))
    ensures Outside(exp, t) && Outside(one, t)
  {
    hide Val, Shift, Pow, Cong, Exp, Stands, Ready, Raised, Sixteens, Pow16, Nibble, Equal;
    ExpNext(a, 0);
    CopyBeside(t, 0, Sixteens(|t|), one, 0, x, N, a, Nm, n);
    RowLoop(t, exp, j, one, x, z, N, n0p, cut, a, Nm, n, inv);
  }

  method RowLoop(t: seq<BigInt>, exp: BigInt, j: nat, one: BigInt, x: BigInt, z: BigInt, N: BigInt, n0p: Word,
      cut: Cutoffs,
                 ghost a: nat, ghost Nm: nat, ghost n: nat, ghost inv: int)
    requires cut.Valid() && Ready(N, n0p, Nm, n) && Cong(Pow(n) * inv, 1, Nm)
    requires Raised(t, 0, Sixteens(|t|), N, a, Nm, n) && |t| <= 8 * exp.num.Length
    requires Outside(x, t) && Outside(z, t) && Outside(exp, t) && Outside(one, t)
    requires Stands(x, Exp(a, 0), Nm, n) && x.Spare() && z.Valid() && z.Spare() && Distinct(one, x) && Distinct(one, z)
    requires Distinct(N, x) && Distinct(N, z) && Distinct(x, z) && Distinct(exp, x) && Distinct(exp, z) &&
        Distinct(exp, N)
    modifies t`length, x, x.num, z, z.num, N`length
    ensures Ready(N, n0p, Nm, n) && Raised(t, 0, Sixteens(|t|), N, a, Nm, n) && Outside(x, t) && Outside(z, t)
    ensures Stands(x, Exp(a, Equal(exp.num[..], j, 0, |t|)), Nm, n) && x.Spare() && z.Valid() && z.Spare() &&
        Distinct(x, z)
    ensures (x.num == old(x.num) || fresh(x.num)) && (z.num == old(z.num) || fresh(z.num))
    ensures Outside(exp, t) && Outside(one, t)
  {
    hide Val, Shift, Pow, Cong, Exp, Stands, Ready, Raised, Sixteens, Pow16, Nibble;
    ghost var s: seq<Word> := exp.num[..];
    var i := |t|;
    while i > 0
      invariant 0 <= i <= |t| && exp.num[..] == s
      invariant Ready(N, n0p, Nm, n) && Raised(t, 0, Sixteens(|t|), N, a, Nm, n) && Outside(x, t) && Outside(z, t)
      invariant Stands(x, Exp(a, Equal(s, j, i, |t|)), Nm, n) && x.Spare() && z.Valid() && z.Spare()
      invariant Distinct(N, x) && Distinct(N, z) && Distinct(x, z)
      invariant (x.num == old(x.num) || fresh(x.num)) && (z.num == old(z.num) || fresh(z.num))
      invariant Outside(exp, t) && Outside(one, t)
    {
      i := i - 1;
      assert exp.num[i / 8] == s[i / 8];
      if Nibble(exp.num[i / 8], i % 8) == j {
        TakeIn(t, 0, Sixteens(|t|), i, x, z, N, n0p, cut, a, Equal(s, j, i + 1, |t|), Nm, n, inv);
      }
    }
  }

  /** The exponents of the coefficient table: entry j has the places of nibble j. */
  ghost function Rows(s: seq<Word>, m: nat, k: nat): (es: seq<nat>)
    requires m <= 8 * |s| && k >= 1
    ensures |es| == k && forall j | 1 <= j < k :: es[j] == Equal(s, j, 0, m)
  {
    if k == 1 then [0] else Rows(s, m, k - 1) + [Equal(s, k - 1, 0, m)]
  }

  lemma RowsNext(s: seq<Word>, m: nat, k: nat)
    requires m <= 8 * |s| && k >= 1
    ensures Rows(s, m, k + 1) == Rows(s, m, k) + [Equal(s, k, 0, m)]
  {}

  /** One coefficient, added to the table. */
  method NextRow(t: seq<BigInt>, C: seq<BigInt>, exp: BigInt, j: nat, one: BigInt, x: BigInt, z: BigInt, N: BigInt,
      n0p: Word, cut: Cutoffs,
                 ghost a: nat, ghost Nm: nat, ghost n: nat, ghost inv: int) returns (C': seq<BigInt>)
    requires cut.Valid() && Ready(N, n0p, Nm, n) && Cong(Pow(n) * inv, 1, Nm)
    requires Raised(t, 0, Sixteens(|t|), N, a, Nm, n) && |t| <= 8 * exp.num.Length
    requires Outside(x, t) && Outside(z, t) && Outside(exp, t)
    requires Stands(one, 1, Nm, n) && Distinct(one, x) && Distinct(one, z) && Outside(one, t)
    requires x.Valid() && x.Spare() && z.Valid() && z.Spare()
    requires Distinct(N, x) && Distinct(N, z) && Distinct(x, z) && Distinct(exp, x) && Distinct(exp, z) &&
        Distinct(exp, N)
    requires j >= 1 && Raised(C, 1, Rows(exp.num[..], |t|, j), N, a, Nm, n) && Outside(x, C) && Outside(z, C)
    requires forall i | 0 <= i < |C| :: C[i] !in t
    modifies t`length, x, x.num, z, z.num, N`length
    ensures Ready(N, n0p, Nm, n) && Raised(t, 0, Sixteens(|t|), N, a, Nm, n) && Outside(x, t) && Outside(z, t)
    ensures x.Valid() && x.Spare() && z.Valid() && z.Spare() && Distinct(x, z)
    ensures (x.num == old(x.num) || fresh(x.num)) && (z.num == old(z.num) || fresh(z.num))
    ensures Outside(exp, t) && Outside(one, t)
    ensures |C'| == |C| + 1 && C'[..|C|] == C && fresh(C'[|C|]) && fresh(C'[|C|].num)
    ensures forall i | 0 <= i < |C'| :: C'[i] !in t
    ensures Raised(C', 1, Rows(exp.num[..], |t|, j + 1), N, a, Nm, n) && Outside(x, C') && Outside(z, C')
  {
    hide Val, Shift, Pow, Cong, Exp, Stands, Ready, Sixteens, Pow16, Equal, Rows;
    ghost var s: seq<Word> := exp.num[..];
    ghost var e := Equal(s, j, 0, |t|);
    Row(t, exp, j, one, x, z, N, n0p, cut, a, Nm, n, inv);
    ReadyValid(x, Exp(a, e), x, Exp(a, e), N, n0p, Nm, n);
    C' := AppendCopy(C, 1, Rows(s, |t|, j), x, e, N, a, Nm, n);
    RowsNext(s, |t|, j);
  }

  /** The outer loop of buildCoeffTable. */
  method CoeffRows(t: seq<BigInt>, exp: BigInt, one: BigInt, tmp1: BigInt, tmp2: BigInt, N: BigInt, n0p: Word,
      cut: Cutoffs,
                   ghost a: nat, ghost Nm: nat, ghost n: nat, ghost inv: int) returns (C: seq<BigInt>)
    requires cut.Valid() && Ready(N, n0p, Nm, n) && Cong(Pow(n) * inv, 1, Nm)
    requires Raised(t, 0, Sixteens(|t|), N, a, Nm, n) && |t| <= 8 * exp.num.Length && Outside(exp, t)
    requires Stands(one, 1, Nm, n) && Outside(one, t) && Distinct(one, N) && Distinct(exp, N)
    requires Outside(tmp1, t) && Outside(tmp2, t) && Distinct(one, tmp1) && Distinct(one, tmp2)
    requires tmp1.Valid() && tmp1.Spare() && tmp2.Valid() && tmp2.Spare() && Distinct(tmp1, tmp2)
    requires Distinct(N, tmp1) && Distinct(N, tmp2) && Distinct(exp, tmp1) && Distinct(exp, tmp2)
    modifies t`length, tmp1, tmp1.num, tmp2, tmp2.num, N`length
    ensures Ready(N, n0p, Nm, n) && Raised(t, 0, Sixteens(|t|), N, a, Nm, n)
    ensures |C| == 16 && Raised(C, 1, Rows(exp.num[..], |t|, 16), N, a, Nm, n)
    ensures forall i | 0 <= i < |C| :: fresh(C[i]) && fresh(C[i].num)
  {
    hide Val, Shift, Pow, Cong, Exp, Stands, Ready, Raised, Sixteens, Pow16, Equal, Rows, Nibble, NibbleAt, Worth,
        Places, AtLeast, Above, Powers, ExpAbove, MontSet;
    C := StartRows(exp.num[..], |t|, N, a, Nm, n);
    ghost var s: seq<Word> := exp.num[..];
    for j := 1 to 16
      invariant Ready(N, n0p, Nm, n) && Raised(t, 0, Sixteens(|t|), N, a, Nm, n)
      invariant |C| == j && Raised(C, 1, Rows(s, |t|, j), N, a, Nm, n)
      invariant Outside(tmp1, t) && Outside(tmp2, t) && Outside(tmp1, C) && Outside(tmp2, C)
      invariant tmp1.Valid() && tmp1.Spare() && tmp2.Valid() && tmp2.Spare() && Distinct(tmp1, tmp2)
      invariant (tmp1.num == old(tmp1.num) || fresh(tmp1.num)) && (tmp2.num == old(tmp2.num) || fresh(tmp2.num))
      invariant forall i | 0 <= i < |C| :: fresh(C[i]) && fresh(C[i].num)
      invariant forall i | 0 <= i < |C| :: C[i] !in t
      invariant exp.num[..] == s && Stands(one, 1, Nm, n) && Outside(exp, t) && Outside(one, t)
    {
      C := NextRow(t, C, exp, j, one, tmp1, tmp2, N, n0p, cut, a, Nm, n, inv);
    }
  }

  /** Entry 0, which is not used. */
  method StartRows(ghost s: seq<Word>, ghost m: nat, N: BigInt, ghost a: nat, ghost Nm: nat,
      ghost n: nat) returns (C: seq<BigInt>)
    requires m <= 8 * |s|
    ensures |C| == 1 && Raised(C, 1, Rows(s, m, 1), N, a, Nm, n) && fresh(C[0]) && fresh(C[0].num)
  {
    hide Raised, Rows;
    var c0 := new BigInt(1);
    FirstRow(c0, s, m, N, a, Nm, n);
    C := [c0];
  }

  lemma FirstRow(x: BigInt, s: seq<Word>, m: nat, N: BigInt, a: nat, Nm: nat, n: nat)
    requires m <= 8 * |s| && Distinct(x, N)
    ensures Raised([x], 1, Rows(s, m, 1), N, a, Nm, n)
  {}

  /** One in Montgomery form, beside a table. */
  method OneBeside(t: seq<BigInt>, exp: BigInt, N: BigInt, n0p: Word, ghost a: nat, ghost Nm: nat,
      ghost n: nat, ghost inv: int) returns (one: BigInt)
    requires Cong(Pow(n) * inv, 1, Nm)
    requires Ready(N, n0p, Nm, n) && Raised(t, 0, Sixteens(|t|), N, a, Nm, n) && Outside(exp, t) && N !in t &&
        Distinct(exp, N)
    modifies N, N.num
    ensures Ready(N, n0p, Nm, n) && (N.num == old(N.num) || fresh(N.num)) && N.num[..N.length] == old(N.num[..N.length])
    ensures Raised(t, 0, Sixteens(|t|), N, a, Nm, n) && Outside(exp, t) && Distinct(exp, N)
    ensures fresh(one) && fresh(one.num) && Stands(one, 1, Nm, n) && Outside(one, t) && Distinct(one, N)
  {
    hide Val, Shift, Pow, Cong, Exp, Stands, Ready, Sixteens;
    var i := new BigInt(1);
    ReadyLength(N, n0p, Nm, n);
    ghost var v;
    one, v := ResForm(i, N, n0p, Nm, n, inv);
  }

  /** crypt/brickell_bigpow.c buildCoeffTable: entry j is the product of the powers at j's places. */
  method BuildCoeffTable(exp: BigInt, t: seq<BigInt>, N: BigInt, n0p: Word, cut: Cutoffs,
                         ghost a: nat, ghost Nm: nat, ghost n: nat, ghost inv: int) returns (C: seq<BigInt>)
    requires cut.Valid() && Ready(N, n0p, Nm, n) && Cong(Pow(n) * inv, 1, Nm)
    requires Raised(t, 0, Sixteens(|t|), N, a, Nm, n) && |t| <= 8 * exp.num.Length
    requires Outside(exp, t) && N !in t && Distinct(exp, N)
    modifies t`length, N, N.num
    ensures Ready(N, n0p, Nm, n) && (N.num == old(N.num) || fresh(N.num))
    ensures N.num[..N.length] == old(N.num[..N.length])
    ensures Raised(t, 0, Sixteens(|t|), N, a, Nm, n)
    ensures |C| == 16 && Raised(C, 1, Rows(exp.num[..], |t|, 16), N, a, Nm, n)
    ensures forall i | 0 <= i < |C| :: fresh(C[i]) && fresh(C[i].num)
  {
    hide Val, Shift, Pow, Cong, Exp, Stands, Ready, Sixteens, Rows, Raised;
    var msOne := OneBeside(t, exp, N, n0p, a, Nm, n, inv);
    var tmp1 := new BigInt(0);
    var tmp2 := new BigInt(0);
    ReadyLength(N, n0p, Nm, n);
    ghost var words: seq<Word> := N.num[..n];
    C := CoeffRows(t, exp, msOne, tmp1, tmp2, N, n0p, cut, a, Nm, n, inv);
    ReadyLength(N, n0p, Nm, n);
    assert N.num[..n] == words;
  }

  // --- the two running products ---

  /** x times y becomes x, by way of z. */
  method Join(x: BigInt, y: BigInt, z: BigInt, N: BigInt, n0p: Word, cut: Cutoffs,
              ghost a: nat, ghost e: nat, ghost f: nat, ghost Nm: nat, ghost n: nat, ghost inv: int)
    requires cut.Valid() && Ready(N, n0p, Nm, n) && Cong(Pow(n) * inv, 1, Nm)
    requires Stands(x, Exp(a, e), Nm, n) && x.Spare() && Stands(y, Exp(a, f), Nm, n) && z.Valid() && z.Spare()
    requires Distinct(N, x) && Distinct(N, y) && Distinct(N, z) && Distinct(x, y) && Distinct(x, z) && Distinct(y, z)
    modifies x, x.num, z, z.num, N`length
    ensures Ready(N, n0p, Nm, n) && Stands(x, Exp(a, e + f), Nm, n) && x.Spare() && z.Valid() && z.Spare()
    ensures Distinct(x, z) && (x.num == old(x.num) || fresh(x.num)) && (z.num == old(z.num) || fresh(z.num))
  {
    hide Val, Shift, Pow, Cong, Exp, Stands, Ready;
    ReadyValid(x, Exp(a, e), y, Exp(a, f), N, n0p, Nm, n);
    MulRedc(x, y, z, N, n0p, cut, Exp(a, e), Exp(a, f), Nm, n, inv);
    ExpAdd(a, e, f);
    ReadyValid(x, Exp(a, e), z, Exp(a, e + f), N, n0p, Nm, n);
    Copy(z, x);
    StandsCopy(z, x, Exp(a, e + f), Nm, n);
  }

  /** One row taken into d, and d into the result. */
  method TwoProducts(C: seq<BigInt>, ghost s: seq<Word>, ghost m: nat, j: nat, d: BigInt, result: BigInt, tmp: BigInt,
                     N: BigInt, n0p: Word, cut: Cutoffs, ghost a: nat, ghost Nm: nat, ghost n: nat, ghost inv: int)
    requires cut.Valid() && Ready(N, n0p, Nm, n) && Cong(Pow(n) * inv, 1, Nm)
    requires m <= 8 * |s| && |C| == 16 && Raised(C, 1, Rows(s, m, 16), N, a, Nm, n) && 1 <= j < 15
    requires Outside(d, C) && Outside(result, C) && Outside(tmp, C)
    requires Stands(d, Exp(a, AtLeast(s, j + 1, 0, m)), Nm, n) && d.Spare()
    requires Stands(result, Exp(a, Above(s, j + 1, 0, m)), Nm, n) && result.Spare()
    requires tmp.Valid() && tmp.Spare() && Distinct(N, d) && Distinct(N, result) && Distinct(N, tmp)
    requires Distinct(d, result) && Distinct(d, tmp) && Distinct(result, tmp)
    modifies (C[j] as BigInt)`length, d, d.num, result, result.num, tmp, tmp.num, N`length
    ensures Ready(N, n0p, Nm, n) && Raised(C, 1, Rows(s, m, 16), N, a, Nm, n)
    ensures Outside(d, C) && Outside(result, C) && Outside(tmp, C)
    ensures Stands(d, Exp(a, AtLeast(s, j, 0, m)), Nm, n) && d.Spare()
    ensures Stands(result, Exp(a, Above(s, j, 0, m)), Nm, n) && result.Spare()
    ensures tmp.Valid() && tmp.Spare()
    ensures Distinct(d, result) && Distinct(d, tmp) && Distinct(result, tmp)
    ensures (d.num == old(d.num) || fresh(d.num)) && (tmp.num == old(tmp.num) || fresh(tmp.num))
    ensures result.num == old(result.num) || fresh(result.num)
  {
    hide Val, Shift, Pow, Cong, Exp, Stands, Ready, AtLeast, Above, Equal;
    RowsAdd(s, j, 0, m);
    ghost var e, f := AtLeast(s, j, 0, m), Above(s, j + 1, 0, m);
    TakeIn(C, 1, Rows(s, m, 16), j, d, tmp, N, n0p, cut, a, AtLeast(s, j + 1, 0, m), Nm, n, inv);
    Join(result, d, tmp, N, n0p, cut, a, f, e, Nm, n, inv);
  }

  method CopyOut(t: seq<BigInt>, ghost from: nat, ghost es: seq<nat>, i: nat, x: BigInt, N: BigInt, ghost a: nat,
      ghost Nm: nat, ghost n: nat)
    requires Raised(t, from, es, N, a, Nm, n) && from <= i < |t| && Outside(x, t) && x.Valid() && x.Spare()
    modifies x, x.num
    ensures Raised(t, from, es, N, a, Nm, n) && Outside(x, t)
    ensures Stands(x, Exp(a, es[i]), Nm, n) && x.Spare() && (x.num == old(x.num) || fresh(x.num))
  {
    hide Val, Shift, Pow, Cong, Exp, Stands;
    StandsValid(t[i], Exp(a, es[i]), Nm, n);
    Copy(t[i], x);
    StandsCopy(t[i], x, Exp(a, es[i]), Nm, n);
  }

  method CopyBeside(t: seq<BigInt>, ghost from: nat, ghost es: seq<nat>, y: BigInt, ghost e: nat, x: BigInt,
                    N: BigInt, ghost a: nat, ghost Nm: nat, ghost n: nat)
    requires Raised(t, from, es, N, a, Nm, n) && Outside(x, t) && x.Valid() && x.Spare()
    requires Stands(y, Exp(a, e), Nm, n) && Distinct(y, x)
    modifies x, x.num
    ensures Raised(t, from, es, N, a, Nm, n) && Outside(x, t) && Stands(y, Exp(a, e), Nm, n)
    ensures Stands(x, Exp(a, e), Nm, n) && x.Spare() && (x.num == old(x.num) || fresh(x.num))
  {
    hide Val, Shift, Pow, Cong, Exp, Stands;
    StandsValid(y, Exp(a, e), Nm, n);
    Copy(y, x);
    StandsCopy(y, x, Exp(a, e), Nm, n);
  }

  /** Both products start as entry 15. */
  method FirstProducts(C: seq<BigInt>, ghost s: seq<Word>, ghost m: nat, d: BigInt, result: BigInt,
                       N: BigInt, ghost a: nat, ghost Nm: nat, ghost n: nat)
    requires m <= 8 * |s| && |C| == 16 && Raised(C, 1, Rows(s, m, 16), N, a, Nm, n)
    requires Outside(d, C) && Outside(result, C) && d.Valid() && d.Spare() && result.Valid() && result.Spare()
    requires Distinct(d, result)
    modifies d, d.num, result, result.num
    ensures Raised(C, 1, Rows(s, m, 16), N, a, Nm, n) && Outside(d, C) && Outside(result, C)
    ensures Stands(d, Exp(a, AtLeast(s, 15, 0, m)), Nm, n) && d.Spare()
    ensures Stands(result, Exp(a, Above(s, 15, 0, m)), Nm, n) && result.Spare() && Distinct(d, result)
    ensures (d.num == old(d.num) || fresh(d.num)) && (result.num == old(result.num) || fresh(result.num))
  {
    hide Val, Shift, Pow, Cong, Exp, Stands, AtLeast, Above, Equal, Raised;
    RowsAdd(s, 15, 0, m);
    RowEnds(s, 0, m);
    ghost var e := AtLeast(s, 15, 0, m);
    CopyOut(C, 1, Rows(s, m, 16), 15, d, N, a, Nm, n);
    CopyBeside(C, 1, Rows(s, m, 16), d, e, result, N, a, Nm, n);
  }

  /** The loop of brickell_bigpow from its first copies of entry 15. */
  method ProductLoop(C: seq<BigInt>, ghost s: seq<Word>, ghost m: nat, result: BigInt,
                     N: BigInt, n0p: Word, cut: Cutoffs, ghost a: nat, ghost Nm: nat, ghost n: nat, ghost inv: int)
    requires cut.Valid() && Ready(N, n0p, Nm, n) && Cong(Pow(n) * inv, 1, Nm)
    requires m <= 8 * |s| && |C| == 16 && Raised(C, 1, Rows(s, m, 16), N, a, Nm, n)
    requires Outside(result, C) && result.Valid() && result.Spare() && Distinct(N, result)
    modifies C`length, result, result.num, N`length
    ensures Ready(N, n0p, Nm, n)
    ensures Stands(result, Exp(a, Places(s, 0, m)), Nm, n) && result.Spare()
    ensures result.num == old(result.num) || fresh(result.num)
  {
    hide Val, Shift, Pow, Cong, Exp, Stands, Ready, Raised, Rows, AtLeast, Above, Equal, Places;
    var tmp := new BigInt(0);
    var d := new BigInt(0);
    FirstProducts(C, s, m, d, result, N, a, Nm, n);
    for i := 15 downto 1
      invariant Ready(N, n0p, Nm, n) && Raised(C, 1, Rows(s, m, 16), N, a, Nm, n)
      invariant Outside(d, C) && Outside(result, C) && Outside(tmp, C)
      invariant Stands(d, Exp(a, AtLeast(s, i, 0, m)), Nm, n) && d.Spare()
      invariant Stands(result, Exp(a, Above(s, i, 0, m)), Nm, n) && result.Spare()
      invariant tmp.Valid() && tmp.Spare() && Distinct(N, d) && Distinct(N, result) && Distinct(N, tmp)
      invariant Distinct(d, result) && Distinct(d, tmp) && Distinct(result, tmp)
      invariant fresh(d) && fresh(d.num) && fresh(tmp) && fresh(tmp.num)
      invariant result.num == old(result.num) || fresh(result.num)
    {
      TwoProducts(C, s, m, i, d, result, tmp, N, n0p, cut, a, Nm, n, inv);
    }
    RowEnds(s, 0, m);
  }

  /**
   * crypt/brickell_bigpow.c brickell_bigpow: the base to the number that as many nibbles of
   * the exponent's buffer denote as the table has entries. The table stands for the powers of b,
   * which g16_bigpow returns with it: the base modulo N.
   */
  method BrickellBigPow(t: seq<BigInt>, exp: BigInt, modulus: BigInt, result: BigInt, cut: Cutoffs, ghost a: nat,
      ghost b: nat)
    requires cut.Valid()
    requires modulus.Valid() && modulus.Trimmed() && modulus.sign == POS && Cong(b, a, modulus.Mag())
    requires modulus.length >= 2 && modulus.num[0] % 2 == 1
    requires Raised(t, 0, Sixteens(|t|), modulus, b, modulus.Mag(), modulus.length) && |t| <= 8 * exp.num.Length
    requires Outside(exp, t) && Outside(result, t) && modulus !in t
    requires result.Valid() && result.Spare() && Distinct(modulus, result) && Distinct(exp, modulus) &&
        Distinct(exp, result)
    modifies t`length, result, result.num, modulus, modulus.num
    ensures result.Valid() && result.Trimmed() && result.Spare() && result.sign == POS
    ensures modulus.Valid() && modulus.Trimmed() && modulus.sign == POS && modulus.length == old(modulus.length)
    ensures modulus.num[..modulus.length] == old(modulus.num[..modulus.length])
    ensures PowerOf(result.Mag(), a, Places(exp.num[..], 0, |t|), modulus.Mag())
    ensures Raised(t, 0, Sixteens(|t|), modulus, b, modulus.Mag(), modulus.length)
  {
    hide Val, Pow, Cong, Exp, Shift, Stands, Raised, Sixteens, Rows, Places, PowerOf;
    ghost var Nm, n := modulus.Mag(), modulus.length;
    ghost var s: seq<Word>, m := exp.num[..], |t|;
    var n0p, inv := StartMontgomery(modulus);
    var C := BuildCoeffTable(exp, t, modulus, n0p, cut, b, Nm, n, inv);
    ProductLoop(C, s, m, result, modulus, n0p, cut, b, Nm, n, inv);
    LeaveMontgomery(result, modulus, n0p, Exp(b, Places(s, 0, m)), Nm, n, inv);
    IsPower(result.Mag(), b, Places(s, 0, m), Nm);
    PowerFromResidue(result.Mag(), b, a, Places(s, 0, m), Nm);
  }

  // --- the exponent that is used ---

  lemma {:induction false} PlacesSplit(s: seq<Word>, i: nat, k: nat, m: nat)
    requires i <= k <= m <= 8 * |s|
    ensures Places(s, i, m) == Places(s, i, k) + Places(s, k, m)
    decreases k - i
  {
    if i < k {
      PlacesSplit(s, i + 1, k, m);
    }
  }

  lemma {:induction false} PlacesAbove(s: seq<Word>, t: seq<Word>, i: nat)
    requires s <= t && i <= 8 * |s|
    ensures Places(t, i, 8 * |s|) == Pow16(i) * ExpAbove(s, i)
    decreases 8 * |s| - i
  {
    if i < 8 * |s| {
      PlacesAbove(s, t, i + 1);
      hide ExpAbove, Nibble, Places, Pow16;
      PlacesUp(s, t, i);
      MulDist(Pow16(i), NibbleAt(s, i), 16 * ExpAbove(s, i + 1));
      MulComm(Pow16(i), NibbleAt(s, i));
      MulAssoc(Pow16(i), 16, ExpAbove(s, i + 1));
      MulComm(Pow16(i), 16);
    }
  }

  lemma PlacesUp(s: seq<Word>, t: seq<Word>, i: nat)
    requires s <= t && i < 8 * |s|
    ensures Places(t, i, 8 * |s|) == NibbleAt(s, i) * Pow16(i) + Places(t, i + 1, 8 * |s|)
    ensures ExpAbove(s, i) == NibbleAt(s, i) + 16 * ExpAbove(s, i + 1) && Pow16(i + 1) == 16 * Pow16(i)
  {
    hide Nibble;
  }

  lemma {:induction false} PlacesZero(s: seq<Word>, i: nat, m: nat)
    requires i <= m <= 8 * |s|
    ensures Places(s, i, m) == 0 <==> forall k | i <= k < m :: NibbleAt(s, k) == 0
    decreases m - i
  {
    if i < m {
      PlacesZero(s, i + 1, m);
      WorthZero(NibbleAt(s, i), i);
      hide NibbleAt, Worth;
    }
  }

  lemma {:induction false} WorthZero(k: nat, i: nat)
    ensures Worth(k, i) == 0 <==> k == 0
  {
    Pow16Positive(i);
    if k > 0 { MulMono(1, k, 1, Pow16(i)); }
  }

  lemma {:induction false} Pow16Positive(i: nat)
    ensures Pow16(i) > 0
  {
    if i > 0 { Pow16Positive(i - 1); }
  }

  /**
   * The exponent used is the exponent given exactly when the nibbles between the table's end
   * and the number's end are zero. When the table is the longer these lie above LENGTH.
   */
  lemma ExactExponent(s: seq<Word>, len: nat, m: nat)
    requires len <= |s| && m <= 8 * |s|
    ensures m <= 8 * len ==> (Places(s, 0, m) == Val(s[..len]) <==> forall k | m <= k < 8 * len :: NibbleAt(s, k) == 0)
    ensures m >= 8 * len ==> (Places(s, 0, m) == Val(s[..len]) <==> forall k | 8 * len <= k < m :: NibbleAt(s, k) == 0)
  {
    hide Places, NibbleAt, Val;
    PlacesAbove(s[..len], s, 0);
    ExpAboveIsVal(s[..len], 0);
    assert s[..len][0..] == s[..len];
    assert Pow16(0) == 1;
    if m <= 8 * len {
      PlacesSplit(s, 0, m, 8 * len);
      PlacesZero(s, m, 8 * len);
    } else {
      PlacesSplit(s, 0, 8 * len, m);
      PlacesZero(s, 8 * len, m);
    }
  }

  /** Two results for one power agree modulo N, and are equal when the base is a unit. */
  lemma SamePower(r: nat, r': nat, a: nat, e: nat, N: nat)
    requires N >= 2 && PowerOf(r, a, e, N) && PowerOf(r', a, e, N)
    ensures Cong(r, r', N) && (Unit(a, N) ==> r == r')
  {
    hide Cong, Exp, Unit;
    CongSym(r', Exp(a, e), N);
    CongTrans(r, Exp(a, e), r', N);
    if Unit(a, N) { CongUnique(r, r', N); }
  }
}
