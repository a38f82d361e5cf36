// Shifts of Bignums by words and by bits: crypt/bigmath.c, crypt/bigLeftShift.c,
// crypt/bigRightShift.c, and msb of crypt/bignum.c.

module Shifts {
  import opened Words
  import opened BigInts
  import opened Additive

  // --- words and bits ---

  function TwoTo(n: nat): (p: nat)
    ensures p >= 1
  {
    if n == 0 then 1 else 2 * TwoTo(n - 1)
  }

  lemma {:induction false} TwoToAdd(m: nat, n: nat)
    ensures TwoTo(m + n) == TwoTo(m) * TwoTo(n)
  {
    if m > 0 {
      TwoToAdd(m - 1, n);
      assert TwoTo(m + n) == 2 * TwoTo(m - 1 + n);
      MulAssoc(2, TwoTo(m - 1), TwoTo(n));
    }
  }

  lemma TwoTo32(n: nat)
    requires n <= 32
    ensures TwoTo(n) * TwoTo(32 - n) == BASE
    ensures TwoTo(n) <= BASE && (n < 32 ==> TwoTo(n) < BASE)
  {
    TwoToWord();
    hide TwoTo;
    TwoToAdd(n, 32 - n);
    MulMono(TwoTo(n), TwoTo(n), 1, TwoTo(32 - n));
    if n < 32 {
      TwoToStep(32 - n);
      MulMono(TwoTo(n), TwoTo(n), 2, TwoTo(32 - n));
    }
  }

  lemma TwoToStep(n: nat)
    requires n > 0
    ensures TwoTo(n) == 2 * TwoTo(n - 1) >= 2
  {}

  lemma TwoToWord()
    ensures TwoTo(0) == 1 && TwoTo(16) == 0x10000 && TwoTo(31) == 0x8000_0000 && TwoTo(32) == BASE
  {
    assert TwoTo(8) == 256;
    TwoToAdd(8, 8);
    TwoToAdd(16, 16);
    TwoToStep(32);
  }

  /** C's << on a NumType: the bits that stay. */
  function Shl(w: Word, n: nat): Word
    requires n <= 32
  {
    (w * TwoTo(n)) % BASE
  }

  /** C's >> on a NumType. */
  function Shr(w: Word, n: nat): (r: Word)
    requires n <= 32
    ensures n >= 1 ==> r < TwoTo(32 - n)
  {
    TwoTo32(n);
    DivRange(w, TwoTo(n), TwoTo(32 - n));
    w / TwoTo(n)
  }

  /** The two halves of a word shifted left. */
  lemma ShlHalves(w: Word, n: nat)
    requires 1 <= n <= 31
    ensures Shl(w, n) + BASE * Shr(w, 32 - n) == w * TwoTo(n)
    ensures Shl(w, n) + (TwoTo(n) - 1) < BASE && Shr(w, 32 - n) < TwoTo(n)
  {
    TwoTo32(n);
    hide TwoTo;
    Halves(w, TwoTo(n), TwoTo(32 - n));
  }

  /** A word moved up by a factor p of the base: what leaves it at the top, and what stays. */
  lemma Halves(w: Word, p: nat, q: nat)
    requires p * q == BASE && p > 0 && q > 0
    ensures (w * p) % BASE + BASE * (w / q) == w * p && (w * p) % BASE + (p - 1) < BASE && w / q < p
  {
    DivRange(w, q, p);
    var hi, lo := w / q, w % q;
    MulDist(p, q * hi, lo);
    assert p * (q * hi) == (p * q) * hi by { MulAssoc(p, q, hi); }
    assert w * p == BASE * hi + p * lo by { MulComm(w, p); }
    MulMono(p, p, lo, q - 1);
    MulDist(p, q, 1);
    MulMono(0, p, 0, lo);
    DivUnique(w * p, BASE, hi, p * lo);
  }

  /** The two halves of a word shifted right. */
  lemma ShrHalves(w: Word, n: nat)
    requires 1 <= n <= 31
    ensures w == Shr(w, n) * TwoTo(n) + w % TwoTo(n)
    ensures Shl(w, 32 - n) == (w % TwoTo(n)) * TwoTo(32 - n)
    ensures Shr(w, n) + Shl(w, 32 - n) + 0 < BASE + BASE
  {
    TwoTo32(n);
    TwoTo32(32 - n);
    var p, q := TwoTo(n), TwoTo(32 - n);
    DivRange(w, p, q);
    var hi, lo := w / p, w % p;
    MulComm(p, hi);
    MulDist(q, p * hi, lo);
    assert q * (p * hi) == (p * q) * hi by { MulAssoc(q, p, hi); MulComm(p, q); }
    assert w * q == BASE * hi + q * lo by { MulComm(w, q); }
    MulMono(q, q, lo, p - 1);
    MulDist(q, p, 1);
    MulMono(0, q, 0, lo);
    MulComm(p, q);
    MulComm(q, lo);
    DivUnique(w * q, BASE, hi, q * lo);
  }

  /** crypt/bignum.c msb: the position of the highest set bit, counted from one. */
  function Msb(w: Word): (n: nat)
    ensures w < TwoTo(n) && (w > 0 ==> n > 0 && TwoTo(n - 1) <= w)
    ensures n <= 32
  {
    if w == 0 then 0
    else
      var n := 1 + Msb(w / 2);
      MsbFits(w, n);
      n
  }

  lemma MsbFits(w: nat, n: nat)
    requires n > 0 && w < BASE && TwoTo(n - 1) <= w
    ensures n <= 32
  {
    TwoToWord();
    if n > 32 {
      TwoToAdd(32, n - 33);
      MulMono(BASE, BASE, 1, TwoTo(n - 33));
    }
  }

  // --- word shifts ---

  /** crypt/bigmath.c bigleftshift, onto another number: move up by whole words, zeros below. */
  method WordsLeft(a: BigInt, b: BigInt, nwords: nat)
    requires a.Valid() && b.Valid() && Distinct(a, b)
    modifies b, b.num
    ensures b.Valid() && b.Trimmed() && b.Spare() && b.sign == old(b.sign) && (b.num == old(b.num) || fresh(b.num))
    ensures b.Mag() == Shift(a.Mag(), nwords)
    ensures a.num[a.length - 1] != 0 ==>
      b.length == nwords + a.length && b.num[..b.length] == seq(nwords, _ => 0) + a.num[..a.length]
  {
    hide Val, Shift;
    Guarantee(b, a.length + nwords);
    b.length := a.length + nwords;
    MoveUp(a, b, nwords);
    ghost var s: seq<Word> := b.num[..b.length];
    ghost var z: seq<Word>, w: seq<Word> := seq(nwords, _ => 0), a.num[..a.length];
    ValZeros(z);
    ValConcat(z, w);
    assert a.num[a.length - 1] != 0 ==> b.num[b.length - 1] == s[b.length - 1] == w[a.length - 1];
    Trim(b);
  }

  /** The two loops of bigleftshift. */
  method MoveUp(a: BigInt, b: BigInt, nwords: nat)
    requires a.Valid() && Distinct(a, b) && a.length + nwords == b.length <= b.num.Length
    modifies b.num
    ensures b.num[..b.length] == seq(nwords, _ => 0) + a.num[..a.length]
  {
    var i := a.length;
    while i > 0
      modifies b.num
      invariant 0 <= i <= a.length
      invariant forall k | i <= k < a.length :: b.num[k + nwords] == a.num[k]
    {
      i := i - 1;
      b.num[i + nwords] := a.num[i];
    }
    i := nwords;
    while i > 0
      modifies b.num
      invariant 0 <= i <= nwords
      invariant forall k | i <= k < nwords :: b.num[k] == 0
      invariant forall k | 0 <= k < a.length :: b.num[k + nwords] == a.num[k]
    {
      i := i - 1;
      b.num[i] := 0;
    }
    ghost var s: seq<Word> := b.num[..b.length];
    ghost var z: seq<Word>, w: seq<Word> := seq(nwords, _ => 0), a.num[..a.length];
    forall k | 0 <= k < |s| ensures s[k] == (z + w)[k] {
      if k >= nwords { assert b.num[(k - nwords) + nwords] == a.num[k - nwords]; }
    }
    assert s == z + w;
  }

  /** crypt/bigmath.c bigrightshift in place: drop whole words. */
  method WordsRight(a: BigInt, nwords: nat)
    requires a.Valid()
    modifies a, a.num
    ensures a.Valid() && a.num == old(a.num)
    ensures a.length == if old(a.length) > nwords then old(a.length) - nwords else 1
    ensures a.sign == if old(a.length) > nwords then old(a.sign) else POS
    ensures Shift(a.Mag(), nwords) <= old(a.Mag()) < Shift(a.Mag() + 1, nwords)
    ensures old(a.length) > nwords ==> a.num[..a.length] == old(a.num[nwords..a.length])
    ensures old(a.Spare()) || (nwords >= 1 && old(a.length) > nwords) ==> a.Spare()
  {
    hide Val, Shift, Pow;
    ghost var s: seq<Word> := a.num[..a.length];
    ghost var n := if a.length > nwords then nwords else a.length;
    ValSplit(s, n);
    ValBound(s[..n]);
    ShiftZero(1, n);
    if a.length > nwords {
      var i := a.length - nwords;
      a.length := i;
      for j := 0 to i
        modifies a.num
        invariant forall k | 0 <= k < j :: a.num[k] == s[k + nwords]
        invariant forall k | j <= k < a.num.Length :: a.num[k] == old(a.num[k])
      {
        assert a.num[j + nwords] == s[j + nwords] by { assert a.num[j + nwords] == old(a.num[j + nwords]); }
        a.num[j] := a.num[j + nwords];
      }
      assert a.num[..i] == s[nwords..];
      assert s[nwords..] == old(a.num[nwords..a.length]);
      ShiftAdd(Val(s[nwords..]), 1, nwords);
    } else {
      assert s[..n] == s && s[n..] == [];
      Reset(a, 0);
      ShiftZero(0, nwords);
      ShiftZero(1, nwords);
      ValBound(s);
      PowMono(|s|, nwords);
    }
  }

  // --- bit shifts ---

  lemma LeftStep(v: seq<Word>, c: int, p: int, x: seq<Word>, w: Word, s: Word, c': int)
    requires |v| == |x| && Val(v) + Shift(c, |v|) == p * Val(x)
    requires s + BASE * c' == w * p + c
    ensures Val(v + [s]) + Shift(c', |v| + 1) == p * Val(x + [w])
  {
    hide Val, Shift;
    var i := |v|;
    ValSnoc(v, s);
    ValSnoc(x, w);
    ShiftUp(c', i);
    ShiftAdd(s, BASE * c', i);
    ShiftAdd(w * p, c, i);
    ShiftTimes(w, p, i);
    MulDist(p, Val(x), Shift(w, i));
  }

  /** The loop of bl_shift: what is shifted out of the top word is left over. */
  method BitsLeftLoop(a: BigInt, b: BigInt, n: nat) returns (c: Word)
    requires a.Valid() && b.Valid() && SameOrDistinct(a, b) && 1 <= n <= 31 && a.length < b.num.Length
    modifies b.num
    ensures Val(b.num[..a.length]) + Shift(c, a.length) == TwoTo(n) * old(a.Mag())
  {
    hide Val, Shift, Shl, Shr, TwoTo;
    var len := a.length;
    ghost var x: seq<Word> := a.num[..len];
    ghost var p := TwoTo(n);
    c := 0;
    assert b.num[..0] == [] && x[..0] == [];
    ValZeros(x[..0]);
    ShiftZero(0, 0);
    for i := 0 to len
      modifies b.num
      invariant 0 <= c < TwoTo(n)
      invariant a.num == b.num || forall k | 0 <= k < len :: a.num[k] == x[k]
      invariant forall k | i <= k < len :: a.num[k] == x[k]
      invariant Val(b.num[..i]) + Shift(c, i) == p * Val(x[..i])
    {
      ghost var low: seq<Word>, c0 := b.num[..i], c;
      var el := a.num[i];
      assert el == x[i];
      ShlHalves(el, n);
      var s := Shl(el, n);
      b.num[i] := s + c;
      c := Shr(el, 32 - n);
      assert b.num[..i + 1] == low + [b.num[i]];
      assert x[..i + 1] == x[..i] + [el];
      LeftStep(low, c0, p, x[..i], el, b.num[i], c);
    }
    assert x[..len] == x;
  }

  /** crypt/bigLeftShift.c bl_shift, in place or not, by fewer bits than a word. */
  method BitsLeft(a: BigInt, b: BigInt, n: nat)
    requires a.Valid() && b.Valid() && SameOrDistinct(a, b) && 1 <= n <= 31
    modifies b, b.num
    ensures b.Valid() && b.Trimmed() && b.Spare() && b.sign == old(b.sign) && (b.num == old(b.num) || fresh(b.num))
    ensures b.Mag() == TwoTo(n) * old(a.Mag())
  {
    hide Val, Shift, TwoTo;
    var len := a.length;
    ghost var x: seq<Word> := a.num[..len];
    Guarantee(b, len + 1);
    assert a.num[..len] == x;
    var c := BitsLeftLoop(a, b, n);
    ghost var low: seq<Word> := b.num[..len];
    b.num[len] := c;
    b.length := len + 1;
    assert b.num[..len + 1] == low + [c];
    ValSnoc(low, c);
    Trim(b);
  }

  /** crypt/bigLeftShift.c bigLeftShift by fewer bits than a word, in place, as bigMod calls it. */
  method BigLeftShift(a: BigInt, n: nat)
    requires a.Valid() && n <= 31
    modifies a, a.num
    ensures a.Valid() && a.sign == old(a.sign) && (a.num == old(a.num) || fresh(a.num))
    ensures n > 0 ==> a.Trimmed() && a.Spare()
    ensures (old(a.Trimmed()) ==> a.Trimmed()) && (old(a.Spare()) ==> a.Spare())
    ensures a.Mag() == TwoTo(n) * old(a.Mag())
  {
    if n == 0 { return; }
    Guarantee(a, a.length + 1);
    BitsLeft(a, a, n);
    Trim(a);
  }

  lemma RightStep(p: nat, q: nat, x: seq<Word>, v: seq<Word>, w: Word, hi: nat, lo: nat, rem: nat, b: Word)
    requires Times(p, q) == BASE && |x| == |v|
    requires Val(x) == Times(p, Val(v)) + rem
    requires w == Times(hi, p) + lo && b == hi + Times(rem, q)
    ensures Val([w] + x) == Times(p, Val([b] + v)) + lo
  {
    hide *;
    ValCons(w, x);
    ValCons(b, v);
    RightNumbers(p, q, Val(x), Val(v), w, hi, lo, rem, b);
  }

  lemma ValCons(w: Word, x: seq<Word>)
    ensures Val([w] + x) == w + BASE * Val(x)
  {
    assert ([w] + x)[1..] == x;
  }

  lemma RightNumbers(p: nat, q: nat, x: nat, v: nat, w: nat, hi: nat, lo: nat, rem: nat, b: nat)
    requires Times(p, q) == BASE && x == Times(p, v) + rem && w == Times(hi, p) + lo && b == hi + Times(rem, q)
    ensures w + BASE * x == Times(p, b + BASE * v) + lo
  {
    var z := BASE * v;
    MulDist(p, b, z);
    MulDist(p, hi, rem * q);
    MulAssoc(p, q, rem);
    MulComm(rem, q);
    MulBase(v, p);
    MulComm(p, v);
    MulComm(p, z);
    MulComm(p, hi);
  }

  /** crypt/bigRightShift.c br_shift in place, by fewer bits than a word: the quotient by a power of two. */
  method BitsRight(b: BigInt, n: nat)
    requires b.Valid() && 1 <= n <= 31
    modifies b, b.num
    ensures b.Valid() && b.Trimmed() && b.sign == old(b.sign) && b.num == old(b.num)
    ensures b.length <= old(b.length)
    ensures b.Mag() == old(b.Mag()) / TwoTo(n)
  {
    hide Val, Shift, Shl, Shr, TwoTo, Times;
    ghost var x: seq<Word> := b.num[..b.length];
    ghost var p, q := TwoTo(n), TwoTo(32 - n);
    TwoTo32(n);
    TimesIs(p, q);
    var c: Word, i := 0, b.length;
    ghost var rem: nat := 0;
    assert b.num[i..b.length] == [] && x[i..] == [];
    ValZeros(x[i..]);
    TimesIs(p, 0);
    TimesIs(0, q);
    MulComm(p, 0);
    while i > 0
      modifies b.num
      invariant 0 <= i <= b.length && rem < p && c == Times(rem, q)
      invariant forall k | 0 <= k < i :: b.num[k] == x[k]
      invariant Val(x[i..]) == Times(p, Val(b.num[i..b.length])) + rem
    {
      i := i - 1;
      ghost var high: seq<Word> := b.num[i + 1..b.length];
      var el := b.num[i];
      ShrHalves(el, n);
      RemFits(rem, p, q);
      var s := Shr(el, n);
      TimesIs(s, p);
      TimesIs(el % p, q);
      b.num[i] := s + c;
      assert b.num[i..b.length] == [b.num[i]] + high;
      assert x[i..] == [el] + x[i + 1..];
      RightStep(p, q, x[i + 1..], high, el, s, el % p, rem, b.num[i]);
      c := Shl(el, 32 - n);
      rem := el % p;
    }
    assert x[0..] == x && b.num[0..b.length] == b.num[..b.length];
    TimesIs(p, Val(b.num[..b.length]));
    DivUnique(Val(x), p, Val(b.num[..b.length]), rem);
    Trim(b);
  }

  /** crypt/bigRightShift.c bigRightShift in place: whole words first, then the bits left over. */
  method BigRightShift(a: BigInt, n: nat)
    requires a.Valid()
    modifies a, a.num
    ensures a.Valid() && a.Trimmed() && a.num == old(a.num) && a.length <= old(a.length)
    ensures n <= 31 ==> a.Mag() == old(a.Mag()) / TwoTo(n) && a.sign == old(a.sign)
    ensures n % 32 == 0 ==> Shift(a.Mag(), n / 32) <= old(a.Mag()) < Shift(a.Mag() + 1, n / 32)
    ensures n % 32 == 0 && old(a.length) > n / 32 ==> a.sign == old(a.sign)
    ensures n % 32 == 0 && old(a.length) <= n / 32 ==> a.sign == POS && a.length == 1
    ensures n >= 32 && old(a.length) > n / 32 ==> a.Spare()
    ensures old(a.Spare()) ==> a.Spare()
  {
    hide Val, Shift;
    ghost var am := a.Mag();
    WordsRight(a, n / 32);
    if n < 32 {
      ShiftZero(a.Mag(), 0);
      ShiftZero(a.Mag() + 1, 0);
    }
    if n % 32 != 0 {
      BitsRight(a, n % 32);
    }
    Trim(a);
    if n == 0 { assert TwoTo(0) == 1; }
  }

  lemma RemFits(rem: nat, p: nat, q: nat)
    requires rem < p && Times(p, q) == BASE
    ensures Times(rem, q) + q <= BASE
  {
    MulMono(rem + 1, p, q, q);
    MulDist(q, rem, 1);
  }
}
