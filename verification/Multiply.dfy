// bigMultiply and what it chooses between: crypt/fastmult.c over crypt/bigmath.c.

module Multiply {
  import opened Words
  import opened Squaring
  import opened Karatsuba
  import opened BigInts

  /** The macro RLEN and get_recurse_len: the power of two, at least 2, not above alen and more than half of it. */
  method GetRecurseLen(alen: nat) returns (r: nat, ghost f: nat)
    requires alen >= 2
    ensures r == Pow2(f) && 2 <= r <= alen < 2 * r
  {
    r, f := 2, 1;
    Pow2Zero();
    while !(alen >= r && alen < 2 * r)
      invariant r == Pow2(f) && 2 <= r <= alen
      decreases alen - r
    {
      Pow2Step(f + 1);
      r, f := r * 2, f + 1;
    }
  }

  lemma {:induction false} Pow2Order(e: nat, f: nat)
    requires Pow2(e) < 2 * Pow2(f)
    ensures e <= f && Pow2(f) == Pow2(e) * Pow2(f - e)
  {
    if e > f {
      Pow2Grows(f + 1, e);
    } else {
      Pow2Grows(e, f);
    }
  }

  lemma {:induction false} Pow2Grows(e: nat, f: nat)
    requires e <= f
    ensures Pow2(f) == Pow2(e) * Pow2(f - e) && Pow2(e) <= Pow2(f)
    decreases f
  {
    hide Pow2;
    Pow2Zero();
    if e < f {
      Pow2Grows(e, f - 1);
      Pow2Step(f);
      Pow2Step(f - e);
      TwiceOut(Pow2(e), Pow2(f - 1 - e));
    }
  }

  /** A length the recursion can run on: get_recurse_len's answer once alen is above the cutoff. */
  lemma RecurseLenDoubles(r: nat, f: nat, alen: nat, cutoff: nat, e: nat)
    requires r == Pow2(f) && r <= alen < 2 * r && cutoff == Pow2(e) && cutoff < alen
    ensures e <= f && Doubling(r, cutoff, f - e)
  {
    hide Pow2;
    Pow2Order(e, f);
    Pow2Positive(e);
  }

  /** The loops of cleanMult and cleanSquare: add x * y[from..from+count] at word k, a row at a time. */
  method AddRows(x: BigInt, y: BigInt, from: nat, count: nat, c: BigInt, k: nat)
    requires x.Valid() && y.Valid() && c.Valid() && Distinct(x, c) && Distinct(y, c) && c.Trimmed()
    requires from + count <= y.num.Length
    requires c.Mag() + Shift(x.Mag() * Val(y.num[from..from + count]), k) < Pow(c.num.Length)
    modifies c, c.num
    ensures c.Valid() && c.Trimmed() && (c.num == old(c.num) || fresh(c.num)) && c.num.Length >= old(c.num.Length)
    ensures c.sign == old(c.sign)
    ensures c.Mag() == old(c.Mag()) + Shift(x.Mag() * Val(y.num[from..from + count]), k)
  {
    hide Val, Shift, Pow;
    ghost var ys: seq<Word>, c0, xm := y.num[from..from + count], c.Mag(), x.Mag();
    assert ys[..0] == [];
    ValZeros(ys[..0]);
    ShiftZero(0, k);
    var i := 0;
    while i < count
      invariant 0 <= i <= count
      invariant c.Valid() && c.Trimmed() && (c.num == old(c.num) || fresh(c.num)) && c.num.Length >= old(c.num.Length)
      invariant c.sign == old(c.sign)
      invariant c.Mag() == c0 + Shift(xm * Val(ys[..i]), k)
    {
      var m := y.num[from + i];
      assert m == ys[i];
      RowAt(ys, i, xm, k, c0, c.Mag());
      RowsBound(ys, i, xm, k);
      PowMono(old(c.num.Length), if c.num.Length < x.length + (k + i) + 3 then x.length + (k + i) + 3 else c.num.Length);
      NumtypeBigmult(x, m, c, k + i);
      i := i + 1;
    }
    assert ys[..count] == ys;
  }

  lemma RowAt(ys: seq<Word>, i: nat, x: nat, k: nat, c0: nat, c: nat)
    requires i < |ys| && c == c0 + Shift(x * Val(ys[..i]), k)
    ensures c + Shift(ys[i] * x, k + i) == c0 + Shift(x * Val(ys[..i + 1]), k)
  {
    hide Val, Shift;
    RowStep(ys, i, x, x * Val(ys[..i]), x * Val(ys[..i]) + Shift(ys[i] * x, i));
    ShiftAdd(x * Val(ys[..i]), Shift(ys[i] * x, i), k);
    ShiftBy(ys[i] * x, i, k);
  }

  lemma RowsBound(ys: seq<Word>, i: nat, x: nat, k: nat)
    requires i < |ys|
    ensures Shift(x * Val(ys[..i + 1]), k) <= Shift(x * Val(ys), k)
  {
    hide Val, Shift;
    RowBound(ys, i, x);
    ShiftMono(x * Val(ys[..i + 1]), x * Val(ys), k);
  }

  /** The product from its four pieces, in the order cleanMult adds them. */
  lemma CleanSum(a0: nat, a1: nat, b0: nat, b1: nat, n: nat)
    ensures var (a, b) := (a0 + Shift(a1, n), b0 + Shift(b1, n));
      && a0 * b0 + Shift(b * a1, n) + Shift(a0 * b1, n) == a * b
      && a0 * b0 >= 0 && Shift(b * a1, n) >= 0 && Shift(a0 * b1, n) >= 0
  {
    hide Shift;
    var a, b := a0 + Shift(a1, n), b0 + Shift(b1, n);
    ShiftZero(0, n);
    ShiftMono(0, b1, n);
    MulMono(0, b, 0, a1);
    MulMono(0, a0, 0, b1);
    MulMono(0, a0, 0, b0);
    ShiftMono(0, b * a1, n);
    ShiftMono(0, a0 * b1, n);
    ShiftTimes(b, a1, n);
    ShiftTimes(a0, b1, n);
    MulDist(b, a0, Shift(a1, n));
    MulDist(a0, b0, Shift(b1, n));
  }

  /** crypt/fastmult.c cleanMult: add the parts of the product above the leading square of L words. */
  method CleanMult(a: BigInt, b: BigInt, c: BigInt, L: nat)
    requires a.Valid() && b.Valid() && c.Valid() && a != b && Distinct(a, c) && Distinct(b, c) && c.Trimmed()
    requires 1 <= L <= a.length && L <= b.length && a.length + b.length <= c.num.Length
    requires c.Mag() == Val(a.num[..L]) * Val(b.num[..L])
    modifies a`length, c, c.num
    ensures a.Valid() && a.length == old(a.length)
    ensures c.Valid() && c.Trimmed() && (c.num == old(c.num) || fresh(c.num)) && c.num.Length >= old(c.num.Length)
    ensures c.Mag() == a.Mag() * b.Mag()
  {
    hide Val, Shift, Pow;
    ghost var x: seq<Word>, y: seq<Word> := a.num[..a.length], b.num[..b.length];
    ghost var a0, a1, b0, b1 := Val(x[..L]), Val(x[L..]), Val(y[..L]), Val(y[L..]);
    ValSplit(x, L);
    ValSplit(y, L);
    CleanSum(a0, a1, b0, b1, L);
    ProductIs(x, y);
    ProductFits(x, y, a.length + b.length);
    PowMono(a.length + b.length, c.num.Length);
    assert x[..L] == a.num[..L] && y[..L] == b.num[..L];
    assert x[L..] == a.num[L..a.length] && y[L..] == b.num[L..b.length];
    var alen := a.length;
    AddRows(b, a, L, alen - L, c, L);
    PowMono(old(c.num.Length), c.num.Length);
    a.length := L;
    assert a.num[..L] == x[..L];
    AddRows(a, b, L, b.length - L, c, L);
    a.length := alen;
    assert a.num[..alen] == x && b.num[..b.length] == y;
  }

  /** The scratch buffer, the recursion on the leading len words, and the trim behind it. */
  method LeadingProduct(a: BigInt, b: BigInt, c: BigInt, len: nat, cutoff: nat, ghost k: nat)
    requires a.Valid() && b.Valid() && c.Valid() && Distinct(a, c) && Distinct(b, c)
    requires Doubling(len, cutoff, k) && len <= a.length && len <= b.length && 2 * len <= c.num.Length && len >= 1
    modifies c, c.num
    ensures c.Valid() && c.Trimmed() && c.num == old(c.num)
    ensures c.Mag() == Val(a.num[..len]) * Val(b.num[..len])
  {
    hide Val, Doubling, Product;
    var tmp := new Word[len * 2];
    RecursiveMultiply(a.num, 0, b.num, 0, c.num, 0, tmp, 0, len, cutoff, k);
    c.length := 2 * len;
    assert c.num[0..2 * len] == c.num[..c.length];
    assert a.num[0..len] == a.num[..len] && b.num[0..len] == b.num[..len];
    ProductIs(a.num[..len], b.num[..len]);
    Trim(c);
  }

  /** The same for recursiveSquare. */
  method LeadingSquare(a: BigInt, c: BigInt, len: nat, cutoff: nat, ghost k: nat)
    requires a.Valid() && c.Valid() && Distinct(a, c)
    requires Doubling(len, cutoff, k) && len <= a.length && 2 * len <= c.num.Length && len >= 1
    modifies c, c.num
    ensures c.Valid() && c.Trimmed() && c.num == old(c.num)
    ensures c.Mag() == Val(a.num[..len]) * Val(a.num[..len])
  {
    hide Val, Doubling, Product;
    var tmp := new Word[len * 2];
    RecursiveSquare(a.num, 0, c.num, 0, tmp, 0, len, cutoff, k);
    c.length := 2 * len;
    assert c.num[0..2 * len] == c.num[..c.length];
    assert a.num[0..len] == a.num[..len];
    ProductIs(a.num[..len], a.num[..len]);
    Trim(c);
  }

  lemma ProductLength(a: seq<Word>, b: seq<Word>, c: BigInt)
    requires c.Valid() && c.Trimmed() && c.Mag() == Val(a) * Val(b) && |a| + |b| >= 1
    ensures c.length <= |a| + |b|
  {
    hide Val, Pow;
    ProductIs(a, b);
    ProductFits(a, b, |a| + |b|);
    ShortEnough(c, |a| + |b|);
  }

  /** crypt/fastmult.c fast_mult, for a cutoff that is a power of two (32, or 2 without assembler kernels). */
  method FastMult(a: BigInt, b: BigInt, c: BigInt, cutoff: nat, ghost e: nat)
    requires a.Valid() && b.Valid() && c.Valid() && Distinct(a, b) && Distinct(a, c) && Distinct(b, c) && c.Spare()
    requires cutoff == Pow2(e) && e >= 1
    modifies a`length, c, c.num
    ensures a.Valid() && a.length == old(a.length)
    ensures c.Valid() && c.Trimmed() && c.Spare() && (c.num == old(c.num) || fresh(c.num))
    ensures c.Mag() == a.Mag() * b.Mag()
  {
    hide Val, Shift, Pow, Pow2, Doubling;
    var alen, blen := a.length, b.length;
    if alen <= cutoff || blen <= cutoff || alen < 2 * blen / 3 || blen < 2 * alen / 3 {
      LBigMult(a, b, c);
      return;
    }
    Guarantee(c, alen + blen);
    if alen > blen { alen := blen; }
    Pow2Positive(e);
    var len, f := GetRecurseLen(alen);
    RecurseLenDoubles(len, f, alen, cutoff, e);
    LeadingProduct(a, b, c, len, cutoff, f - e);
    if a.length != len || b.length != len {
      CleanMult(a, b, c, len);
    }
    ProductLength(a.num[..a.length], b.num[..b.length], c);
  }

  /** crypt/bigmath.c bigsquare */
  method BigSquare(a: BigInt, c: BigInt)
    requires a.Valid() && c.Valid() && Distinct(a, c)
    modifies c, c.num
    ensures c.Valid() && c.Trimmed() && c.Spare() && (c.num == old(c.num) || fresh(c.num))
    ensures c.Mag() == a.Mag() * a.Mag()
  {
    hide Val;
    Guarantee(c, 2 * a.length);
    Reset(c, 0);
    assert a.num[0..a.length] == a.num[..a.length];
    BigSquareN(a.num, 0, c.num, 0, a.length);
    c.length := 2 * a.length;
    assert c.num[0..2 * a.length] == c.num[..c.length];
    Trim(c);
  }

  /** crypt/fastmult.c cleanSquare: the cross rows of the square above its leading L words. */
  method CleanSquare(a: BigInt, c: BigInt, L: nat)
    requires a.Valid() && c.Valid() && Distinct(a, c) && c.Trimmed()
    requires 1 <= L <= a.length && 2 * a.length <= c.num.Length
    requires c.Mag() == Val(a.num[..L]) * Val(a.num[..L])
    modifies a`length, c, c.num
    ensures a.Valid() && a.length == old(a.length)
    ensures c.Valid() && c.Trimmed() && (c.num == old(c.num) || fresh(c.num)) && c.num.Length >= old(c.num.Length)
    ensures c.Mag() == a.Mag() * a.Mag()
  {
    hide Val, Shift, Pow;
    ghost var x: seq<Word> := a.num[..a.length];
    ghost var a0, a1 := Val(x[..L]), Val(x[L..]);
    ValSplit(x, L);
    CleanSum(a0, a1, a0, a1, L);
    ProductIs(x, x);
    ProductFits(x, x, 2 * a.length);
    PowMono(2 * a.length, c.num.Length);
    assert x[..L] == a.num[..L] && x[L..] == a.num[L..a.length];
    var alen := a.length;
    AddRows(a, a, L, alen - L, c, L);
    PowMono(old(c.num.Length), c.num.Length);
    a.length := L;
    assert a.num[..L] == x[..L] && a.num[L..alen] == x[L..];
    AddRows(a, a, L, alen - L, c, L);
    a.length := alen;
    assert a.num[..alen] == x;
  }

  /** crypt/fastmult.c fast_square (cutoff 16, or 2 without assembler kernels). */
  method FastSquare(a: BigInt, c: BigInt, cutoff: nat, ghost e: nat)
    requires a.Valid() && c.Valid() && Distinct(a, c)
    requires cutoff == Pow2(e) && e >= 1
    modifies a`length, c, c.num
    ensures a.Valid() && a.length == old(a.length)
    ensures c.Valid() && c.Trimmed() && c.Spare() && (c.num == old(c.num) || fresh(c.num))
    ensures c.Mag() == a.Mag() * a.Mag()
  {
    hide Val, Shift, Pow, Pow2, Doubling;
    var alen := a.length;
    if alen <= cutoff {
      BigSquare(a, c);
      return;
    }
    Guarantee(c, 2 * alen);
    Pow2Positive(e);
    var len, f := GetRecurseLen(alen);
    RecurseLenDoubles(len, f, alen, cutoff, e);
    LeadingSquare(a, c, len, cutoff, f - e);
    if alen != len {
      CleanSquare(a, c, len);
    }
    ProductLength(a.num[..a.length], a.num[..a.length], c);
  }

  /** The word length below which the recursions hand over to the kernels: RECURSIONCUTOFF and SQRECCUTOFF. */
  datatype Cutoffs = Cutoffs(mult: nat, square: nat) {
    ghost predicate Valid() {
      (mult == 32 && square == 16) || (mult == 2 && square == 2)
    }
  }

  lemma CutoffPowers()
    ensures Pow2(1) == 2 && Pow2(4) == 16 && Pow2(5) == 32
  {
    assert Pow2(2) == 4 && Pow2(3) == 8;
  }

  /** crypt/fastmult.c bigMultiply: squares when the operands are the same object, multiplies otherwise. */
  method BigMultiply(a: BigInt, b: BigInt, result: BigInt, cut: Cutoffs)
    requires cut.Valid()
    requires a.Valid() && b.Valid() && result.Valid() && (a == b || Distinct(a, b))
    requires Distinct(a, result) && Distinct(b, result) && result.Spare()
    modifies a`length, result, result.num
    ensures a.Valid() && a.length == old(a.length)
    ensures result.Valid() && result.Trimmed() && result.Spare() && (result.num == old(result.num) || fresh(result.num))
    ensures result.Mag() == a.Mag() * b.Mag()
    ensures result.sign == if a == b then POS else a.sign * b.sign
    ensures result.Value() == a.Value() * b.Value()
  {
    hide Val, Pow2;
    CutoffPowers();
    if a == b {
      FastSquare(a, result, cut.square, if cut.square == 16 then 4 else 1);
      result.sign := POS;
      SignedSquare(a.Mag());
    } else {
      FastMult(a, b, result, cut.mult, if cut.mult == 32 then 5 else 1);
      result.sign := a.sign * b.sign;
      SignedTimes(a.Mag(), b.Mag());
    }
  }

  lemma SignedSquare(x: int)
    ensures (0 - x) * (0 - x) == x * x
  {}

  lemma SignedTimes(x: int, y: int)
    ensures (0 - x) * (0 - y) == x * y && (0 - x) * y == 0 - x * y && x * (0 - y) == 0 - x * y
  {}
}
