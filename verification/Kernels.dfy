// Carry kernels: crypt/longmult.c and the word-array routines of crypt/coremult.c.
// A C pointer into words is an array together with an offset.

module Kernels {
  import opened Words

  /** Two word regions share no cell. */
  ghost predicate Apart(a: array<Word>, i: int, m: int, b: array<Word>, j: int, n: int) {
    a != b || i + m <= j || j + n <= i
  }

  /** What LMULT keeps: v with the carry above it is o plus m times t. */
  ghost predicate Accumulated(v: seq<Word>, carry: int, o: seq<Word>, m: Word, t: seq<Word>) {
    Val(v) + Shift(carry, |v|) == Val(o) + m * Val(t)
  }

  lemma AccumulateStart(m: Word)
    ensures Accumulated([], 0, [], m, [])
  {}

  lemma AccumulateStep(v: seq<Word>, carry: int, o: seq<Word>, m: Word, t: seq<Word>, c: Word, a: Word, c': Word,
      carry': int)
    requires |v| == |o| == |t| && Accumulated(v, carry, o, m, t)
    requires c' + BASE * carry' == m * a + carry + c
    ensures Accumulated(v + [c'], carry', o + [c], m, t + [a])
  {
    hide Val, Shift;
    var i := |v|;
    ValSnoc(v, c');
    ValSnoc(o, c);
    ValSnoc(t, a);
    ShiftUp(carry', i);
    ShiftAdd(c', BASE * carry', i);
    ShiftAdd(m * a + carry, c, i);
    ShiftAdd(m * a, carry, i);
    ShiftTimes(m, a, i);
    MulDist(m, Val(t), Shift(a, i));
  }

  lemma ProductWords(m: Word, a: Word)
    ensures Mul32(m, a) + BASE * MulHi(m, a) == m * a
    ensures MulHi(m, a) <= BASE - 2 && (MulHi(m, a) == BASE - 2 ==> Mul32(m, a) <= 1)
  {
    MulMono(m, BASE - 1, a, BASE - 1);
  }

  /** crypt/longmult.c LMULT: dst += m * src over n words, returning the carry out. */
  method LMult(dst: array<Word>, d: nat, m: Word, src: array<Word>, s: nat, n: nat) returns (carry: Word)
    requires d + n <= dst.Length && s + n <= src.Length
    requires Apart(dst, d, n, src, s, n)
    modifies dst
    ensures Val(dst[d..d + n]) + Shift(carry, n) == old(Val(dst[d..d + n])) + m * old(Val(src[s..s + n]))
    ensures forall k | 0 <= k < dst.Length && !(d <= k < d + n) :: dst[k] == old(dst[k])
  {
    hide Val, Shift, Accumulated, Mul32, MulHi;
    ghost var o: seq<Word>, t: seq<Word> := dst[d..d + n], src[s..s + n];
    carry := 0;
    assert dst[d..d] == [] && o[..0] == [] && t[..0] == [];
    AccumulateStart(m);
    for i := 0 to n
      invariant forall k | 0 <= k < dst.Length && !(d <= k < d + i) :: dst[k] == old(dst[k])
      invariant Accumulated(dst[d..d + i], carry, o[..i], m, t[..i])
    {
      ghost var low: seq<Word>, carry0, c := dst[d..d + i], carry, dst[d + i];
      assert src[s + i] == t[i] by { assert src[s + i] == old(src[s + i]); }
      assert o[i] == c by { assert dst[d + i] == old(dst[d + i]); }
      ProductWords(m, src[s + i]);
      var sumh, suml := MulHi(m, src[s + i]), Mul32(m, src[s + i]);
      suml := Add32(suml, carry);
      if suml < carry { sumh := Add32(sumh, 1); }
      dst[d + i] := Add32(dst[d + i], suml);
      carry := sumh;
      if dst[d + i] < suml { carry := Add32(carry, 1); }

      assert dst[d..d + i + 1] == low + [dst[d + i]];
      assert o[..i + 1] == o[..i] + [c] && t[..i + 1] == t[..i] + [t[i]];
      AccumulateStep(low, carry0, o[..i], m, t[..i], c, t[i], dst[d + i], carry);
    }
    assert o[..n] == o && t[..n] == t;
    AccumulateEnd(dst[d..d + n], carry, o, m, t);
  }

  lemma AccumulateEnd(v: seq<Word>, carry: int, o: seq<Word>, m: Word, t: seq<Word>)
    requires Accumulated(v, carry, o, m, t)
    ensures Val(v) + Shift(carry, |v|) == Val(o) + m * Val(t)
  {}

  /** Adding m * b at word i extends a partial product by one digit of the multiplier. */
  lemma ProductStep(low: seq<Word>, w: seq<Word>, w': seq<Word>, carry: Word, va: seq<Word>, m: Word, vb: nat)
    requires |va| == |low| && |w'| == |w|
    requires Val(low + w) == Val(va) * vb
    requires Val(w') + Shift(carry, |w'|) == Val(w) + m * vb
    ensures Val(low + (w' + [carry])) == Val(va + [m]) * vb
  {
    hide Val, Shift;
    var i := |low|;
    ValConcat(low, w);
    ValConcat(low, w' + [carry]);
    ValSnoc(w', carry);
    ValSnoc(va, m);
    ShiftAdd(Val(w), m * vb, i);
    ShiftTimes(m, vb, i);
    MulDist(vb, Val(va), Shift(m, i));
  }

  /** One pass of numtype_bigmultN's loop: row i of the schoolbook product. */
  method MultRow(a: array<Word>, ao: nat, b: array<Word>, bo: nat, c: array<Word>, co: nat, n: nat, i: nat,
                 ghost va: seq<Word>, ghost vb: nat)
    requires i < n && ao + n <= a.Length && bo + n <= b.Length && co + 2 * n <= c.Length
    requires Apart(c, co, 2 * n, a, ao, n) && Apart(c, co, 2 * n, b, bo, n)
    requires a[ao..ao + n] == va && Val(b[bo..bo + n]) == vb
    requires Val(c[co..co + n + i]) == Val(va[..i]) * vb
    modifies c
    ensures forall k | 0 <= k < c.Length && !(co + i <= k <= co + n + i) :: c[k] == old(c[k])
    ensures Val(c[co..co + n + i + 1]) == Val(va[..i + 1]) * vb
  {
    hide Val, Shift;
    var m := a[ao + i];
    assert m == va[i];
    ghost var low: seq<Word>, w: seq<Word> := c[co..co + i], c[co + i..co + i + n];
    assert c[co..co + n + i] == low + w;
    var carry := LMult(c, co + i, m, b, bo, n);
    ghost var w': seq<Word> := c[co + i..co + i + n];
    c[co + i + n] := carry;
    assert va[..i + 1] == va[..i] + [m];
    ProductStep(low, w, w', carry, va[..i], m, vb);
    assert c[co..co + n + i + 1] == low + (w' + [carry]);
  }

  /** crypt/coremult.c numtype_bigmultN: the schoolbook product of two n-word numbers. */
  method BigMultN(a: array<Word>, ao: nat, b: array<Word>, bo: nat, c: array<Word>, co: nat, n: nat)
    requires 1 <= n && ao + n <= a.Length && bo + n <= b.Length && co + 2 * n <= c.Length
    requires Apart(c, co, 2 * n, a, ao, n) && Apart(c, co, 2 * n, b, bo, n)
    modifies c
    ensures Val(c[co..co + 2 * n]) == old(Val(a[ao..ao + n])) * old(Val(b[bo..bo + n]))
    ensures forall k | 0 <= k < c.Length && !(co <= k < co + 2 * n) :: c[k] == old(c[k])
  {
    hide Val, Shift;
    for i := 0 to n
      invariant forall k | 0 <= k < c.Length && !(co <= k < co + 2 * n) :: c[k] == old(c[k])
      invariant forall k | co <= k < co + i :: c[k] == 0
    {
      c[co + i] := 0;
    }
    ValZeros(c[co..co + n]);
    ghost var va: seq<Word>, vb := a[ao..ao + n], Val(b[bo..bo + n]);
    assert va == old(a[ao..ao + n]) && b[bo..bo + n] == old(b[bo..bo + n]);
    ValZeros(va[..0]);
    assert va[..n] == va;
    var i := 0;
    while i < n
      invariant 0 <= i <= n
      invariant forall k | 0 <= k < c.Length && !(co <= k < co + 2 * n) :: c[k] == old(c[k])
      invariant Val(c[co..co + n + i]) == Val(va[..i]) * vb
    {
      assert a[ao..ao + n] == va && b[bo..bo + n] == old(b[bo..bo + n]);
      MultRow(a, ao, b, bo, c, co, n, i, va, vb);
      i := i + 1;
    }
  }
}
