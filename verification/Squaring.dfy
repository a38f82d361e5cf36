// The squaring kernel: BUILDDIAG and SQUAREINNERLOOP (crypt/longmult.c) under
// numtype_bigsquareN (crypt/coremult.c).

module Squaring {
  import opened Words
  import opened Kernels

  // --- the square of a digit string, as diagonal plus doubled rows ---

  /** The sum of the squared digits, each at twice its own weight. */
  ghost function Diag(t: seq<Word>): nat {
    if |t| == 0 then 0 else t[0] * t[0] + BASE * (BASE * Diag(t[1..]))
  }

  /** The doubled off-diagonal products of the first i rows. */
  ghost function Rows(t: seq<Word>, i: nat): nat
    requires i <= |t|
  {
    if i == 0 then 0
    else Twice(t[0], BASE * Val(t[1..])) + BASE * (BASE * Rows(t[1..], i - 1))
  }

  /** Twice a product, the term SQUAREINNERLOOP adds. */
  ghost function Twice(m: int, v: int): int { 2 * (m * v) }

  lemma {:induction false} DiagSnoc(t: seq<Word>, w: Word)
    ensures Diag(t + [w]) == Diag(t) + Shift(w * w, 2 * |t|)
  {
    hide Shift;
    if |t| == 0 {
      assert (t + [w])[1..] == [];
      ShiftZero(w * w, 0);
    } else {
      assert (t + [w])[1..] == t[1..] + [w];
      DiagSnoc(t[1..], w);
      ShiftUp(w * w, 2 * |t| - 2);
      ShiftUp(w * w, 2 * |t| - 1);
    }
  }

  lemma {:induction false} RowsStep(t: seq<Word>, i: nat)
    requires i < |t|
    ensures Rows(t, i + 1) == Rows(t, i) + Shift(Twice(t[i], Val(t[i + 1..])), 2 * i + 1)
  {
    hide Shift, Val, Twice;
    if i == 0 {
      RowsBase(t[1..]);
      RowsHead(t[0], Val(t[1..]));
    } else {
      var u := t[1..];
      RowsStep(u, i - 1);
      assert u[i..] == t[i + 1..];
      var x := Twice(t[i], Val(t[i + 1..]));
      ShiftUp(x, 2 * i - 1);
      ShiftUp(x, 2 * i);
    }
  }

  lemma RowsHead(d: int, x: int)
    ensures Twice(d, BASE * x) == BASE * Twice(d, x) == Shift(Twice(d, x), 1)
  {
    hide Shift;
    MulBase(d, x);
    ShiftZero(Twice(d, x), 0);
    ShiftUp(Twice(d, x), 0);
  }

  lemma RowsBase(t: seq<Word>)
    ensures Rows(t, 0) == 0
  {}

  lemma TwiceNat(d: nat, x: nat)
    ensures Twice(d, x) >= 0
  {
    MulMono(0, d, 0, x);
  }

  lemma {:induction false} RowsMono(t: seq<Word>, i: nat, j: nat)
    requires i <= j <= |t|
    ensures Rows(t, i) <= Rows(t, j)
    decreases j
  {
    hide Val, Rows, Shift, Twice;
    if i < j {
      RowsMono(t, i, j - 1);
      RowsStep(t, j - 1);
      TwiceNat(t[j - 1], Val(t[j..]));
      ShiftMono(0, Twice(t[j - 1], Val(t[j..])), 2 * j - 1);
      ShiftZero(0, 2 * j - 1);
    }
  }

  /** The diagonal and all the rows make up the square. */
  lemma {:induction false} SquareSplit(t: seq<Word>)
    requires |t| > 0
    ensures Val(t) * Val(t) == Diag(t) + Rows(t, |t| - 1)
  {
    hide Twice;
    var d, u := t[0], t[1..];
    SquareOfSum(d, Val(u));
    if |t| == 1 {
      assert u == [];
      RowsBase(t);
    } else {
      SquareSplit(u);
    }
  }

  lemma SquareOfSum(d: int, x: int)
    ensures (d + BASE * x) * (d + BASE * x) == d * d + Twice(d, BASE * x) + BASE * (BASE * (x * x))
  {
    MulDist(d + BASE * x, d, BASE * x);
    MulDist(d, d, BASE * x);
    MulDist(BASE * x, d, BASE * x);
    MulComm(d, BASE * x);
    MulBase(x, BASE * x);
    MulBase(x, x);
  }

  // --- the kernels ---

  /** The macros add32 and add64: the carry or high word, then the low word. */
  function AddCarry(al: Word, bl: Word): (Word, Word) {
    var c := Add32(al, bl);
    (Bit(c < al), c)
  }

  function AddWide(ah: Word, al: Word, bh: Word, bl: Word): (Word, Word) {
    var c := Add32(al, bl);
    (Add32(Add32(ah, bh), Bit(c < al)), c)
  }

  /** crypt/longmult.c BUILDDIAG: every word's square, side by side. */
  method BuildDiag(dst: array<Word>, d: nat, src: array<Word>, s: nat, n: nat)
    requires 1 <= n && d + 2 * n <= dst.Length && s + n <= src.Length
    requires Apart(dst, d, 2 * n, src, s, n)
    modifies dst
    ensures Val(dst[d..d + 2 * n]) == Diag(old(src[s..s + n]))
    ensures forall k | 0 <= k < dst.Length && !(d <= k < d + 2 * n) :: dst[k] == old(dst[k])
  {
    hide Val, Shift, Diag, Mul32, MulHi;
    ghost var t: seq<Word> := src[s..s + n];
    var i := 0;
    DiagBase();
    assert dst[d..d] == [] && t[..0] == [];
    while i < n
      invariant 0 <= i <= n
      invariant forall k | 0 <= k < dst.Length && !(d <= k < d + 2 * i) :: dst[k] == old(dst[k])
      invariant Val(dst[d..d + 2 * i]) == Diag(t[..i])
    {
      var m := src[s + i];
      assert m == t[i] by { assert src[s + i] == old(src[s + i]); }
      ghost var was := dst[d..d + 2 * i];
      ProductWords(m, m);
      dst[d + 2 * i + 1], dst[d + 2 * i] := MulHi(m, m), Mul32(m, m);
      assert dst[d..d + 2 * i] == was;
      assert t[..i + 1] == t[..i] + [m];
      assert dst[d..d + 2 * (i + 1)] == was + [dst[d + 2 * i], dst[d + 2 * i + 1]];
      DiagStep(was, t[..i], m, dst[d + 2 * i], dst[d + 2 * i + 1]);
      i := i + 1;
    }
    assert t[..n] == t;
  }

  lemma DiagBase()
    ensures Diag([]) == 0 && Val([]) == 0
  {}

  lemma DiagStep(v: seq<Word>, t: seq<Word>, m: Word, lo: Word, hi: Word)
    requires |v| == 2 * |t| && Val(v) == Diag(t) && lo + BASE * hi == m * m
    ensures Val(v + [lo, hi]) == Diag(t + [m])
  {
    hide Val, Shift, Diag;
    var n := |v|;
    assert v + [lo, hi] == (v + [lo]) + [hi];
    ValSnoc(v, lo);
    ValSnoc(v + [lo], hi);
    ShiftUp(hi, n);
    DiagSnoc(t, m);
    ShiftAdd(lo, BASE * hi, n);
  }

  /** What the doubling loop keeps: v plus the carry above it is o plus twice m * t. */
  ghost predicate Doubled(v: seq<Word>, carry: int, o: seq<Word>, m: Word, t: seq<Word>) {
    Val(v) + Shift(carry, |v|) == Val(o) + Twice(m, Val(t))
  }

  /** One step of SQUAREINNERLOOP's doubling loop. */
  lemma DoubleStep(low: seq<Word>, c0: Word, c1: Word, carry: int, o: seq<Word>, m: Word, t: seq<Word>, a: Word,
                   c0': Word, c1': Word, carry': int)
    requires Doubled(low + [c0], carry, o, m, t)
    requires |low| == |t| && |o| == |t| + 1
    requires 2 * (m * a) + c0 + BASE * (c1 + carry) == c0' + BASE * c1' + BASE * (BASE * carry')
    ensures Doubled(low + [c0', c1'], carry', o + [c1], m, t + [a])
  {
    hide Val, Shift, Twice;
    var i := |t|;
    ValSnoc(low, c0);
    ValSnoc(low, c0');
    assert low + [c0', c1'] == (low + [c0']) + [c1'];
    ValSnoc(low + [c0'], c1');
    ValSnoc(o, c1);
    ValSnoc(t, a);
    TwiceSnoc(m, Val(t), a, i);
    DoubleScaled(2 * (m * a), c0, c1, carry, i, c0', c1', carry');
  }

  lemma TwiceSnoc(m: int, x: int, a: int, i: nat)
    ensures Twice(m, x + Shift(a, i)) == Twice(m, x) + Shift(2 * (m * a), i)
  {
    hide Shift;
    MulDist(m, x, Shift(a, i));
    ShiftTimes(m, a, i);
    ShiftAdd(m * a, m * a, i);
  }

  lemma DoubleScaled(a: int, c0: int, c1: int, carry: int, i: nat, c0': int, c1': int, carry': int)
    requires a + c0 + BASE * (c1 + carry) == c0' + BASE * c1' + BASE * (BASE * carry')
    ensures Shift(a, i) + Shift(c0, i) + Shift(c1, i + 1) + Shift(carry, i + 1)
         == Shift(c0', i) + Shift(c1', i + 1) + Shift(carry', i + 2)
  {
    hide Shift;
    ShiftAdd(a + c0, BASE * (c1 + carry), i);
    ShiftAdd(a, c0, i);
    ShiftUp(c1 + carry, i);
    ShiftAdd(c1, carry, i + 1);
    ShiftAdd(c0' + BASE * c1', BASE * (BASE * carry'), i);
    ShiftAdd(c0', BASE * c1', i);
    ShiftUp(c1', i);
    ShiftUp(BASE * carry', i);
    ShiftUp(carry', i + 1);
    ShiftUp(carry', i);
  }

  /** The two-word update of the doubling loop: no carry is lost and at most 2 goes up. */
  lemma DoubleWords(prodhi: Word, prodlo: Word, c0: Word, c1: Word, carry: Word)
    requires carry <= 2 && prodhi <= BASE - 2 && (prodhi == BASE - 2 ==> prodlo <= 1)
    ensures var (sh, sl) := AddCarry(prodlo, prodlo);
            var (k, c0') := AddWide(sh, sl, carry, c0);
            var (sh2, sl2) := AddCarry(prodhi, prodhi);
            var (th, tl) := AddWide(sh2, sl2, 0, c1);
            var (carry', c1') := AddWide(th, tl, 0, k);
            && 2 * (prodlo + BASE * prodhi) + c0 + BASE * (c1 + carry) == c0' + BASE * c1' + BASE * (BASE * carry')
            && carry' <= 2
  {
  }

  /** SQUAREINNERLOOP's do loop: add twice m * src[start..end], leaving the carry above the last word. */
  method DoubleLoop(dst: array<Word>, d: nat, m: Word, src: array<Word>, s: nat, start: nat, end: nat)
      returns (carry: Word)
    requires start < end && s + end <= src.Length && d + end - start + 1 <= dst.Length
    requires Apart(dst, d, end - start + 1, src, s + start, end - start)
    modifies dst
    ensures 0 <= carry <= 2
    ensures Doubled(dst[d..d + end - start + 1], carry, old(dst[d..d + end - start + 1]), m,
        old(src[s + start..s + end]))
    ensures forall k | 0 <= k < dst.Length && !(d <= k <= d + end - start) :: dst[k] == old(dst[k])
  {
    hide Doubled, Val, Shift, AddWide, AddCarry, MulHi, Mul32;
    ghost var t, o := src[s + start..s + end], dst[d..d + end - start + 1];
    var cp, j := d, start;
    carry := 0;
    assert dst[d..cp + 1] == o[..1] && t[..0] == [];
    DoubleStart(o[..1], m);
    while j < end
      invariant start <= j <= end && cp == d + (j - start) && 0 <= carry <= 2
      invariant forall k | 0 <= k < dst.Length && !(d <= k <= cp) :: dst[k] == old(dst[k])
      invariant Doubled(dst[d..cp + 1], carry, o[..j - start + 1], m, t[..j - start])
    {
      ghost var i := j - start;
      ghost var c0, c1, carry0, low := dst[cp], dst[cp + 1], carry, dst[d..cp];
      assert dst[d..cp + 1] == low + [c0];
      assert src[s + j] == t[i] by { assert src[s + j] == old(src[s + j]); }
      ProductWords(m, src[s + j]);
      var prodhi, prodlo := MulHi(m, src[s + j]), Mul32(m, src[s + j]);
      DoubleWords(prodhi, prodlo, dst[cp], dst[cp + 1], carry);
      var (sumh, suml) := AddCarry(prodlo, prodlo);
      var (k, w0) := AddWide(sumh, suml, carry, dst[cp]);
      dst[cp] := w0;
      var (sh2, sl2) := AddCarry(prodhi, prodhi);
      var (th, tl) := AddWide(sh2, sl2, 0, dst[cp + 1]);
      var (k', w1) := AddWide(th, tl, 0, k);
      dst[cp + 1] := w1;
      carry := k';

      assert o[..i + 2] == o[..i + 1] + [c1] && t[..i + 1] == t[..i] + [t[i]];
      DoubleStep(low, c0, c1, carry0, o[..i + 1], m, t[..i], t[i], w0, w1, k');
      assert dst[d..cp + 2] == low + [w0, w1];
      cp := cp + 1;
      j := j + 1;
    }
    assert t[..end - start] == t && o[..end - start + 1] == o;
  }

  /**
   * crypt/longmult.c SQUAREINNERLOOP: add twice m * src[start..end] to the destination.
   * The second loop stops only on a zero carry; room is how many words the caller knows
   * the sum to fit in, and the carry dies before it runs past them.
   */
  method SquareInnerLoop(dst: array<Word>, d: nat, m: Word, src: array<Word>, s: nat, start: nat, end: nat,
                         ghost room: nat)
    requires start < end && s + end <= src.Length
    requires end - start + 1 <= room <= 2 * end - start + 1 && d + room <= dst.Length
    requires Apart(dst, d, room, src, s + start, end - start)
    requires Val(dst[d..d + room]) + Twice(m, Val(src[s + start..s + end])) < Pow(room)
    modifies dst
    ensures Val(dst[d..d + room]) == old(Val(dst[d..d + room])) + Twice(m, old(Val(src[s + start..s + end])))
    ensures forall k | 0 <= k < dst.Length && !(d <= k < d + room) :: dst[k] == old(dst[k])
  {
    hide Val, Shift, Doubled, Carried, AddCarry, Twice;
    ghost var t, o := src[s + start..s + end], dst[d..d + room];
    ghost var q := end - start + 1;
    var carry := DoubleLoop(dst, d, m, src, s, start, end);
    var cp, j := d + (end - start) + 1, end;
    ghost var x := Twice(m, Val(t));
    assert o[..q] == old(dst[d..d + end - start + 1]);
    DoubleEnd(dst[d..cp], carry, o[..q], m, t);
    while carry != 0 && j < 2 * end
      invariant end <= j <= 2 * end && q == end - start + 1 + (j - end) && cp == d + q && q <= room && 0 <= carry <= 2
      invariant forall k | 0 <= k < dst.Length && !(d <= k < cp) :: dst[k] == old(dst[k])
      invariant Carried(dst[d..cp], carry, o[..q], x)
    {
      if q == room { CarryFits(dst[d..cp], o, carry, x); }
      ghost var low, c, carry0 := dst[d..cp], dst[cp], carry;
      CarryWord(dst[cp], carry);
      var (k, w) := AddCarry(dst[cp], carry);
      carry, dst[cp] := k, w;
      assert dst[d..cp + 1] == low + [w] && o[..q + 1] == o[..q] + [c];
      CarryStep(low, carry0, o[..q], x, c, w, carry);
      cp := cp + 1;
      j := j + 1;
      q := q + 1;
    }
    if q == room { CarryFits(dst[d..cp], o, carry, x); }
    assert carry == 0 && dst[d..d + room][..q] == dst[d..cp] && dst[d..d + room][q..] == o[q..];
    FinishCarry(dst[d..d + room], o, q, x);
  }

  lemma DoubleStart(o: seq<Word>, m: Word)
    ensures Doubled(o, 0, o, m, [])
  {}

  lemma DoubleEnd(v: seq<Word>, carry: int, o: seq<Word>, m: Word, t: seq<Word>)
    requires Doubled(v, carry, o, m, t)
    ensures Carried(v, carry, o, Twice(m, Val(t))) && Twice(m, Val(t)) >= 0
  {}

  lemma CarryWord(c: Word, carry: Word)
    ensures var (k, w) := AddCarry(c, carry); w + BASE * k == c + carry && k <= 1
  {}

  /** What a carry run keeps: v plus the carry above it is o plus x. */
  ghost predicate Carried(v: seq<Word>, carry: int, o: seq<Word>, x: int) {
    Val(v) + Shift(carry, |v|) == Val(o) + x
  }

  lemma CarryStep(v: seq<Word>, carry: int, o: seq<Word>, x: int, c: Word, w: Word, carry': int)
    requires |v| == |o| && Carried(v, carry, o, x)
    requires w + BASE * carry' == c + carry
    ensures Carried(v + [w], carry', o + [c], x)
  {
    hide Val, Shift;
    var i := |v|;
    ValSnoc(v, w);
    ValSnoc(o, c);
    ShiftUp(carry', i);
    ShiftAdd(w, BASE * carry', i);
    ShiftAdd(c, carry, i);
  }

  /** A carry out of the room the caller vouched for would make the sum too big. */
  lemma CarryFits(v: seq<Word>, o: seq<Word>, carry: nat, x: nat)
    requires Val(o) + x < Pow(|o|)
    requires |v| == |o| && Carried(v, carry, o[..|o|], x)
    ensures carry == 0
  {
    assert o[..|o|] == o;
    hide Val, Shift, Pow;
    if carry >= 1 {
      ShiftMono(1, carry, |v|);
      ShiftZero(1, |v|);
    }
  }

  /** Once the carry is gone the untouched words complete the sum. */
  lemma FinishCarry(n: seq<Word>, o: seq<Word>, q: nat, x: nat)
    requires q <= |n| == |o|
    requires Carried(n[..q], 0, o[..q], x)
    requires n[q..] == o[q..]
    ensures Val(n) == Val(o) + x
  {
    hide Val, Shift;
    ShiftZero(0, q);
    ValSplit(n, q);
    ValSplit(o, q);
  }

  /** crypt/coremult.c numtype_bigsquareN: 2n words holding the square. */
  method BigSquareN(a: array<Word>, ao: nat, c: array<Word>, co: nat, n: nat)
    requires 1 <= n && ao + n <= a.Length && co + 2 * n <= c.Length
    requires Apart(c, co, 2 * n, a, ao, n)
    modifies c
    ensures Val(c[co..co + 2 * n]) == old(Val(a[ao..ao + n])) * old(Val(a[ao..ao + n]))
    ensures forall k | 0 <= k < c.Length && !(co <= k < co + 2 * n) :: c[k] == old(c[k])
  {
    hide Val, Pow, Shift, Diag, Rows, Twice;
    ghost var t: seq<Word> := a[ao..ao + n];
    BuildDiag(c, co, a, ao, n);
    assert a[ao..ao + n] == t;
    SquareSplit(t);
    RowsBase(t);
    if n == 1 { return; }
    var i, j, cp := 0, 1, co - 1;
    while i < n - 1
      invariant 0 <= i <= n - 1 && j == i + 1 && cp == co - 1 + 2 * i
      invariant forall k | 0 <= k < c.Length && !(co <= k < co + 2 * n) :: c[k] == old(c[k])
      invariant a[ao..ao + n] == t
      invariant Val(c[co..co + 2 * n]) == Diag(t) + Rows(t, i)
    {
      cp := cp + 2;
      var m := a[ao + i];
      assert m == t[i];
      ghost var room, low, hi := 2 * n - 2 * i - 1, c[co..cp], c[cp..co + 2 * n];
      assert c[co..co + 2 * n] == low + hi;
      RowRoom(low, hi, t, i);
      assert a[ao + j..ao + n] == t[i + 1..];
      assert cp + room == co + 2 * n;
      SquareInnerLoop(c, cp, m, a, ao, j, n, room);
      assert a[ao..ao + n] == t;
      RowDone(low, hi, c[cp..co + 2 * n], t, i);
      assert c[co..co + 2 * n] == low + c[cp..co + 2 * n];
      i := i + 1;
      j := j + 1;
    }
  }

  /** The next row still fits: no partial sum exceeds the whole square. */
  lemma RowRoom(low: seq<Word>, hi: seq<Word>, t: seq<Word>, i: nat)
    requires i + 1 < |t| && |low| == 2 * i + 1 && |low| + |hi| == 2 * |t|
    requires Val(low + hi) == Diag(t) + Rows(t, i)
    ensures Val(hi) + Twice(t[i], Val(t[i + 1..])) < Pow(|hi|)
  {
    hide Val, Pow, Shift, Diag, Rows, Twice;
    var x := Twice(t[i], Val(t[i + 1..]));
    ValConcat(low, hi);
    RowsStep(t, i);
    RowsMono(t, i + 1, |t| - 1);
    SquareSplit(t);
    ShiftAdd(Val(hi), x, |low|);
    SquareBound(t);
    ShiftZero(1, |hi|);
    ShiftZero(1, 2 * |t|);
    if Val(hi) + x >= Pow(|hi|) {
      ShiftMono(Shift(1, |hi|), Val(hi) + x, |low|);
      ShiftBy(1, |hi|, |low|);
    }
  }

  lemma RowDone(low: seq<Word>, hi: seq<Word>, hi': seq<Word>, t: seq<Word>, i: nat)
    requires i < |t| && |low| == 2 * i + 1
    requires Val(low + hi) == Diag(t) + Rows(t, i)
    requires Val(hi') == Val(hi) + Twice(t[i], Val(t[i + 1..]))
    ensures Val(low + hi') == Diag(t) + Rows(t, i + 1)
  {
    hide Val, Shift, Diag, Rows, Twice;
    ValConcat(low, hi);
    ValConcat(low, hi');
    RowsStep(t, i);
    ShiftAdd(Val(hi), Twice(t[i], Val(t[i + 1..])), |low|);
  }

  lemma SquareBound(t: seq<Word>)
    ensures Val(t) * Val(t) < Pow(2 * |t|)
  {
    ValBound(t);
    PowAdd(|t|, |t|);
    if Val(t) > 0 { MulStrict(Val(t), Pow(|t|)); }
    PowPositive(2 * |t|);
  }

  lemma MulStrict(x: nat, y: nat)
    requires x < y
    ensures x * x < y * y
  {
    MulMono(x, x, x, y);
    assert x * y < y * y;
  }
}
