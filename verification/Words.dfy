// Little-endian naturals over 32-bit words, the representation under crypt/.

module Words {

  /** NumType: an unsigned 32-bit word. */
  const BASE: nat := 0x1_0000_0000

  type Word = w: int | 0 <= w < 0x1_0000_0000

  // C's wrapping operators on NumType.

  function Add32(x: Word, y: Word): Word {
    if x + y < BASE then x + y else x + y - BASE
  }

  function Sub32(x: Word, y: Word): Word {
    if x >= y then x - y else x - y + BASE
  }

  function Mul32(x: Word, y: Word): Word {
    (x * y) % BASE
  }

  /** The high word of the 64-bit product that umult delivers; Mul32 is its low word. */
  function MulHi(x: Word, y: Word): Word {
    MulHiFits(x, y);
    (x * y) / BASE
  }

  lemma MulHiFits(x: Word, y: Word)
    ensures 0 <= (x * y) / BASE < BASE - 1 || x * y == 0
    ensures 0 <= x * y <= (BASE - 1) * (BASE - 1)
  {
    MulMono(x, BASE - 1, y, BASE - 1);
  }

  lemma MulMono(x: nat, x': nat, y: nat, y': nat)
    requires x <= x' && y <= y'
    ensures 0 <= x * y <= x' * y'
  {
    assert x * y <= x' * y;
    assert x' * y <= x' * y';
  }

  lemma MulComm(x: int, y: int)
    ensures x * y == y * x
  {}

  lemma MulDist(x: int, y: int, z: int)
    ensures x * (y + z) == x * y + x * z
    ensures (y + z) * x == y * x + z * x
    ensures x * (y - z) == x * y - x * z
    ensures (y - z) * x == y * x - z * x
  {}

  lemma MulBase(x: int, p: int)
    ensures (BASE * x) * p == BASE * (x * p) == x * (BASE * p)
  {}

  lemma MulAssoc(x: int, y: int, z: int)
    ensures x * (y * z) == (x * y) * z
  {}

  /** A product under a name, for proofs that only carry it along. */
  ghost function Times(x: nat, y: nat): nat { x * y }

  lemma TimesIs(x: nat, y: nat)
    ensures Times(x, y) == x * y
  {}

  function Bit(b: bool): Word { if b then 1 else 0 }

  /** BASE to the n. */
  ghost function Pow(n: nat): nat {
    if n == 0 then 1 else BASE * Pow(n - 1)
  }

  /** The number a word sequence denotes, least significant word first. */
  ghost function Val(s: seq<Word>): nat {
    if |s| == 0 then 0 else s[0] + BASE * Val(s[1..])
  }

  lemma PowOne()
    ensures Pow(1) == BASE && Pow(2) == BASE * BASE
  {
    assert Pow(1) == BASE * Pow(0);
  }

  lemma {:induction false} PowPositive(n: nat)
    ensures Pow(n) >= 1
  {
    if n > 0 { PowPositive(n - 1); }
  }

  lemma {:induction false} PowAdd(m: nat, n: nat)
    ensures Pow(m + n) == Pow(m) * Pow(n)
  {
    if m == 0 {
      assert Pow(0) * Pow(n) == Pow(n);
    } else {
      PowAdd(m - 1, n);
      assert Pow(m + n) == BASE * Pow(m - 1 + n);
      assert BASE * (Pow(m - 1) * Pow(n)) == (BASE * Pow(m - 1)) * Pow(n);
    }
  }

  lemma {:induction false} PowMono(m: nat, n: nat)
    requires m <= n
    ensures Pow(m) <= Pow(n)
    decreases n
  {
    PowPositive(n);
    if m < n {
      PowMono(m, n - 1);
      PowPositive(n - 1);
    }
  }

  // --- shifting by whole words ---

  /** x moved up by n words. */
  ghost function Shift(x: int, n: nat): int { x * Pow(n) }

  lemma ShiftIsTimes(x: int, n: nat)
    ensures Shift(x, n) == x * Pow(n) == Pow(n) * x
  {
    hide Pow;
    MulComm(x, Pow(n));
  }

  lemma ShiftZero(x: int, n: nat)
    ensures Shift(x, 0) == x && Shift(0, n) == 0 && Shift(1, n) == Pow(n)
  {}

  lemma ShiftAdd(x: int, y: int, n: nat)
    ensures Shift(x + y, n) == Shift(x, n) + Shift(y, n)
    ensures Shift(x - y, n) == Shift(x, n) - Shift(y, n)
  {
    hide Pow;
    MulDist(Pow(n), x, y);
  }

  lemma ShiftUp(x: int, n: nat)
    ensures Shift(x, n + 1) == Shift(BASE * x, n) == BASE * Shift(x, n)
  {
    var p := Pow(n);
    assert Pow(n + 1) == BASE * p;
    MulBase(x, p);
  }

  lemma ShiftBy(x: int, m: nat, n: nat)
    ensures Shift(Shift(x, m), n) == Shift(x, m + n)
  {
    hide Pow;
    PowAdd(m, n);
    MulAssoc(x, Pow(m), Pow(n));
  }

  lemma ShiftTimes(x: int, y: int, n: nat)
    ensures Shift(x * y, n) == x * Shift(y, n) == y * Shift(x, n)
  {
    hide Pow;
    MulAssoc(x, y, Pow(n));
    MulComm(x, y);
    MulAssoc(y, x, Pow(n));
  }

  lemma ShiftMono(x: int, y: int, n: nat)
    requires x <= y
    ensures Shift(x, n) <= Shift(y, n)
  {
    hide Pow;
    PowPositive(n);
    MulMono(0, y - x, 0, Pow(n));
    MulDist(Pow(n), y, x);
  }

  /** A remainder below one shifted unit is lost in the rounding. */
  lemma ShiftGap(r: nat, x: int, y: int, n: nat)
    requires r < Pow(n)
    ensures r + Shift(x, n) < Shift(y, n) <==> x < y
    ensures r + Shift(x, n) == Shift(y, n) ==> r == 0 && x == y
    ensures Shift(x, n) <= r + Shift(y, n) <==> x <= y
    ensures r + Shift(x, n) >= 0 <==> x >= 0
    ensures r + Shift(x, n) < Pow(n) <==> x <= 0
  {
    hide Shift, Pow;
    ShiftZero(0, n);
    if x < y { ShiftMono(x + 1, y, n); ShiftAdd(x, 1, n); } else { ShiftMono(y, x, n); }
    if x <= y { ShiftMono(x, y, n); } else { ShiftMono(y + 1, x, n); ShiftAdd(y, 1, n); }
    if x >= 0 { ShiftMono(0, x, n); } else { ShiftMono(x, -1, n); ShiftAdd(0, 1, n); }
    if x <= 0 { ShiftMono(x, 0, n); } else { ShiftMono(1, x, n); }
  }

  /** Concatenation shifts the right operand up by the words of the left one. */
  lemma {:induction false} ValConcat(a: seq<Word>, b: seq<Word>)
    ensures Val(a + b) == Val(a) + Shift(Val(b), |a|)
  {
    hide Shift, Pow;
    if |a| == 0 {
      assert a + b == b;
      ShiftZero(Val(b), 0);
    } else {
      assert (a + b)[1..] == a[1..] + b;
      ValConcat(a[1..], b);
      ShiftUp(Val(b), |a| - 1);
    }
  }

  lemma ValOne(w: Word)
    ensures Val([w]) == w
  {
    assert [w][1..] == [];
  }

  lemma ValSnoc(a: seq<Word>, w: Word)
    ensures Val(a + [w]) == Val(a) + Shift(w, |a|)
  {
    hide Val, Shift;
    ValConcat(a, [w]);
    ValOne(w);
  }

  /** Split a number at a word position. */
  lemma ValSplit(s: seq<Word>, k: nat)
    requires k <= |s|
    ensures Val(s) == Val(s[..k]) + Shift(Val(s[k..]), k)
  {
    hide Val, Shift;
    assert s == s[..k] + s[k..];
    ValConcat(s[..k], s[k..]);
  }

  lemma {:induction false} ValBound(s: seq<Word>)
    ensures Val(s) < Pow(|s|)
  {
    if |s| > 0 {
      ValBound(s[1..]);
    }
  }

  lemma {:induction false} ValZeros(s: seq<Word>)
    requires forall i | 0 <= i < |s| :: s[i] == 0
    ensures Val(s) == 0
  {
    if |s| > 0 { ValZeros(s[1..]); }
  }

  lemma {:induction false} ValZeroInv(s: seq<Word>)
    requires Val(s) == 0
    ensures forall i | 0 <= i < |s| :: s[i] == 0
  {
    if |s| > 0 {
      ValZeroInv(s[1..]);
      forall i | 0 <= i < |s| ensures s[i] == 0 {
        if i > 0 { assert s[i] == s[1..][i - 1]; }
      }
    }
  }

  /** Equal-length representations are unique. */
  lemma {:induction false} ValInjective(s: seq<Word>, t: seq<Word>)
    requires |s| == |t| && Val(s) == Val(t)
    ensures s == t
  {
    if |s| > 0 {
      assert s[0] == t[0] && Val(s[1..]) == Val(t[1..]);
      ValInjective(s[1..], t[1..]);
      assert s == [s[0]] + s[1..] && t == [t[0]] + t[1..];
    }
  }

  /** The most significant differing word decides the order. */
  lemma ValOrder(s: seq<Word>, t: seq<Word>, k: nat)
    requires |s| == |t| && k < |s|
    requires s[k] < t[k] && s[k + 1..] == t[k + 1..]
    ensures Val(s) < Val(t)
  {
    assert s[k..] == [s[k]] + s[k + 1..] && t[k..] == [t[k]] + t[k + 1..];
    var x, y := Val(s[k..]), Val(t[k..]);
    assert x < y;
    hide Val, Shift;
    ValSplit(s, k);
    ValSplit(t, k);
    ValBound(s[..k]);
    ShiftGap(Val(s[..k]), x, y, k);
  }

  // --- quotients ---

  lemma DivRange(x: nat, p: nat, q: nat)
    requires p >= 1 && x < p * q
    ensures 0 <= x / p < q && x == p * (x / p) + x % p && 0 <= x % p < p
  {
    if x / p >= q { MulMono(p, p, q, x / p); }
  }

  lemma DivUnique(x: nat, p: nat, q: nat, r: nat)
    requires r < p && x == p * q + r
    ensures x / p == q && x % p == r
  {
    var q', r' := x / p, x % p;
    assert x == p * q' + r';
    if q' < q {
      MulMono(p, p, q' + 1, q);
      MulDist(p, q', 1);
    } else if q < q' {
      MulMono(p, p, q + 1, q');
      MulDist(p, q, 1);
    }
  }
}
