// The Bignum record of include/libcrypt.h and the routines that work on its words in place:
// crypt/bignum.c, crypt/coremult.c, crypt/bigmath.c, crypt/bigCompare.c, crypt/bigCopy.c.
// Loops the source unrolls by four are written as the loops they unroll.

module BigInts {
  import opened Words
  import opened Kernels
  import opened Karatsuba

  const POS: int := 1
  const NEG: int := -1

  /**
   * Words at and above `length` are stale. The array is what the allocator gave for SPACE
   * words: at least one more, the pad it keeps behind every block.
   */
  class BigInt {
    var num: array<Word>
    var length: nat
    var sign: int

    ghost predicate Valid()
      reads this
    {
      1 <= length <= num.Length && (sign == POS || sign == NEG)
    }

    ghost function Mag(): nat
      requires Valid()
      reads this, num
    {
      Val(num[..length])
    }

    ghost function Value(): int
      requires Valid()
      reads this, num
    {
      if sign == POS then Mag() else 0 - Mag()
    }

    ghost predicate Trimmed()
      requires Valid()
      reads this, num
    {
      length == 1 || num[length - 1] != 0
    }

    /** The number has a word to grow into. */
    ghost predicate Spare()
      reads this
    {
      length < num.Length
    }

    /** bigInit(i) */
    constructor (i: Word)
      ensures Valid() && fresh(num) && Spare() && length == 1 && sign == POS
      ensures Mag() == i && Trimmed() && num[0] == i
    {
      num := new Word[2](_ => i);
      length := 1;
      sign := POS;
      new;
      assert num[..1] == [i];
      ValOne(i);
    }
  }

  /** Two numbers that share neither record nor buffer. */
  ghost predicate Distinct(x: BigInt, y: BigInt)
    reads x`num, y`num
  {
    x != y && x.num != y.num
  }

  /** The macro GUARANTEE: room for s words and the pad, keeping every word of the old buffer. */
  method Guarantee(b: BigInt, s: nat)
    requires b.Valid()
    modifies b`num
    ensures b.Valid() && b.num.Length == if old(b.num.Length) <= s then s + 1 else old(b.num.Length)
    ensures b.num == old(b.num) || fresh(b.num)
    ensures forall i | 0 <= i < old(b.num.Length) :: b.num[i] == old(b.num[i])
    ensures b.Mag() == old(b.Mag()) && (b.Trimmed() <==> old(b.Trimmed()))
  {
    hide Val;
    if b.num.Length <= s {
      var grown := new Word[s + 1](_ => 0);
      for i := 0 to b.num.Length
        modifies grown
        invariant forall j | 0 <= j < i :: grown[j] == b.num[j]
      {
        grown[i] := b.num[i];
      }
      assert grown[..b.length] == b.num[..b.length];
      b.num := grown;
    }
  }

  lemma TopZero(s: seq<Word>, n: nat)
    requires 1 <= n <= |s|
    requires forall i | n <= i < |s| :: s[i] == 0
    ensures Val(s) == Val(s[..n])
  {
    hide Val, Shift;
    ValSplit(s, n);
    ValZeros(s[n..]);
    ShiftZero(0, n);
  }

  /** crypt/bignum.c trim: drop leading zero words, down to one. */
  method Trim(big: BigInt)
    requires big.Valid()
    modifies big`length
    ensures big.Valid() && big.Trimmed() && big.length <= old(big.length)
    ensures old(big.Trimmed()) ==> big.length == old(big.length)
    ensures big.Mag() == old(big.Mag())
    ensures forall i | big.length <= i < old(big.length) :: big.num[i] == 0
  {
    hide Val;
    ghost var s: seq<Word> := big.num[..big.length];
    while big.num[big.length - 1] == 0 && big.length > 1
      invariant 1 <= big.length <= old(big.length)
      invariant forall i | big.length <= i < old(big.length) :: big.num[i] == 0
      decreases big.length
    {
      big.length := big.length - 1;
    }
    TopZero(s, big.length);
    assert s[..big.length] == big.num[..big.length];
  }

  /** crypt/bignum.c reset_big */
  method Reset(a: BigInt, u: Word)
    requires a.Valid()
    modifies a, a.num
    ensures a.Valid() && a.Trimmed() && a.num == old(a.num) && a.sign == POS && a.length == 1 && a.Mag() == u
    ensures forall i | 1 <= i < a.num.Length :: a.num[i] == old(a.num[i])
  {
    a.sign := POS;
    a.length := 1;
    a.num[0] := u;
    assert a.num[..1] == [u];
    ValOne(u);
  }

  lemma TrimmedIs(s: seq<Word>)
    requires |s| > 0 && s[|s| - 1] != 0
    ensures Val(s) >= Pow(|s| - 1)
  {
    hide Val, Pow, Shift;
    var n := |s| - 1;
    assert s == s[..n] + [s[n]];
    ValSnoc(s[..n], s[n]);
    ShiftMono(1, s[n], n);
    ShiftZero(1, n);
  }

  /** Among trimmed numbers a longer one is greater. */
  lemma LongerIsGreater(s: seq<Word>, t: seq<Word>)
    requires |s| > |t| >= 1 && s[|s| - 1] != 0
    ensures Val(s) > Val(t)
  {
    hide Val, Pow;
    TrimmedIs(s);
    ValBound(t);
    PowMono(|t|, |s| - 1);
  }

  /** crypt/bigCompare.c: trims both operands, then compares magnitudes. */
  method Compare(a: BigInt, b: BigInt) returns (r: int)
    requires a.Valid() && b.Valid()
    modifies a`length, b`length
    ensures a.Valid() && b.Valid() && a.Trimmed() && b.Trimmed()
    ensures a.Mag() == old(a.Mag()) && b.Mag() == old(b.Mag())
    ensures a.length <= old(a.length) && b.length <= old(b.length)
    ensures old(a.Trimmed()) ==> a.length == old(a.length)
    ensures old(b.Trimmed()) ==> b.length == old(b.length)
    ensures forall i | a.length <= i < old(a.length) :: a.num[i] == 0
    ensures forall i | b.length <= i < old(b.length) :: b.num[i] == 0
    ensures r < 0 <==> a.Mag() < b.Mag()
    ensures r == 0 <==> a.Mag() == b.Mag()
  {
    hide Val;
    Trim(a);
    ghost var am := a.Mag();
    Trim(b);
    ghost var x: seq<Word>, y: seq<Word> := a.num[..a.length], b.num[..b.length];
    if a.length != b.length {
      if a.length > b.length { LongerIsGreater(x, y); } else { LongerIsGreater(y, x); }
      return a.length - b.length;
    }
    var i := a.length - 1;
    while i >= 0 && a.num[i] == b.num[i]
      invariant -1 <= i < a.length
      invariant forall k | i < k < |x| :: x[k] == y[k]
      decreases i
    {
      assert x[i] == a.num[i] && y[i] == b.num[i];
      i := i - 1;
    }
    FirstDifference(x, y, i);
    assert i >= 0 ==> x[i] == a.num[i] && y[i] == b.num[i];
    if i < 0 {
      return 0;
    }
    if a.num[i] < b.num[i] { return -1; } else { return 1; }
  }

  /** crypt/bigCopy.c */
  method Copy(a: BigInt, b: BigInt)
    requires a.Valid() && b.Valid() && Distinct(a, b)
    modifies b, b.num
    ensures b.Valid() && b.length == a.length && b.sign == a.sign
    ensures b.num == old(b.num) || fresh(b.num)
    ensures b.Spare() && b.num.Length >= old(b.num.Length)
    ensures b.num[..b.length] == a.num[..a.length] && b.Mag() == a.Mag() && (b.Trimmed() <==> a.Trimmed())
  {
    hide Val;
    Guarantee(b, a.length);
    var i := a.length;
    b.length := a.length;
    b.sign := a.sign;
    while i > 0
      modifies b.num
      invariant 0 <= i <= a.length
      invariant forall j | i <= j < a.length :: b.num[j] == a.num[j]
    {
      i := i - 1;
      b.num[i] := a.num[i];
    }
    assert b.num[..b.length] == a.num[..a.length];
  }

  // --- numtype_bigmult ---

  /** The sum numtype_bigmult forms has a word to go to: it fits in the buffer, grown as GUARANTEE grows it. */
  ghost predicate HasRoom(space: nat, needed: nat, total: int) {
    total < Pow(if space < needed then needed else space)
  }

  /** The zero fill: words LENGTH(c) to offset + LENGTH(a), inclusive, when c is shorter than that. */
  method ZeroFill(c: BigInt, i: nat)
    requires c.Valid() && c.num.Length >= i + 2
    modifies c.num
    ensures forall k | 0 <= k < c.num.Length && !(c.length <= k <= i && c.length < i) :: c.num[k] == old(c.num[k])
    ensures c.length < i ==> forall k | c.length <= k <= i :: c.num[k] == 0
  {
    if c.length < i {
      for j := c.length to i + 1
        invariant forall k | c.length <= k < j :: c.num[k] == 0
        invariant forall k | 0 <= k < c.num.Length && !(c.length <= k < j) :: c.num[k] == old(c.num[k])
      {
        c.num[j] := 0;
      }
    }
  }

  /** The carry's run from word lo up to LENGTH(c), and the new top word if it gets there. */
  method RunCarry(c: BigInt, lo: nat, carry0: Word)
    requires c.Valid() && lo <= c.length
    requires HasRoom(c.num.Length, 0, Val(c.num[..c.length]) + Shift(carry0, lo))
    modifies c`length, c.num
    ensures c.Valid() && old(c.length) <= c.length <= old(c.length) + 1
    ensures c.Mag() == old(c.Mag()) + Shift(carry0, lo)
  {
    hide Val, Shift, Pow;
    ghost var all: seq<Word> := c.num[..c.length];
    ghost var bottom: seq<Word>, o: seq<Word> := c.num[..lo], c.num[lo..c.length];
    SplitAt(all, bottom, o, lo);
    var carry := CarryUp(c.num, lo, c.length - lo, carry0);
    ghost var now: seq<Word> := c.num[lo..c.length];
    ShiftAdd(Val(now), Shift(carry, |now|), lo);
    ShiftAdd(Val(o), carry0, lo);
    assert c.num[..lo] == bottom;
    if carry != 0 {
      TopWordFits(bottom, now, carry, c.num.Length);
      c.num[c.length] := carry;
      c.length := c.length + 1;
      ghost var whole: seq<Word> := c.num[..c.length];
      assert whole[..lo] == bottom && whole[lo..] == now + [carry];
      ValSnoc(now, carry);
      SplitAt(whole, bottom, now + [carry], lo);
    } else {
      ShiftZero(0, |now|);
      ghost var whole: seq<Word> := c.num[..c.length];
      assert whole[..lo] == bottom && whole[lo..] == now;
      SplitAt(whole, bottom, now, lo);
    }
  }

  lemma SplitAt(all: seq<Word>, low: seq<Word>, high: seq<Word>, k: nat)
    requires k <= |all| && low == all[..k] && high == all[k..]
    ensures Val(all) == Val(low) + Shift(Val(high), k)
  {
    hide Val, Shift;
    ValSplit(all, k);
  }

  lemma TopWordFits(bottom: seq<Word>, now: seq<Word>, carry: nat, space: nat)
    requires carry >= 1
    requires Val(bottom) + Shift(Val(now) + Shift(carry, |now|), |bottom|) < Pow(space)
    ensures |bottom| + |now| < space
  {
    hide Val, Pow, Shift;
    var i, j := |bottom|, |now|;
    if space <= i + j {
      PowMono(space, i + j);
      ShiftMono(1, carry, j);
      ShiftMono(Shift(1, j), Val(now) + Shift(carry, j), i);
      ShiftBy(1, j, i);
      ShiftZero(1, i + j);
    }
  }

  /**
   * crypt/coremult.c numtype_bigmult: c := c + a * sb * BASE^offset. The last clause is what
   * REDC needs when it reads a word above LENGTH(c).
   */
  method NumtypeBigmult(a: BigInt, sb: Word, c: BigInt, offset: nat)
    requires a.Valid() && c.Valid() && Distinct(a, c)
    requires HasRoom(c.num.Length, a.length + offset + 3, c.Mag() + Shift(sb * a.Mag(), offset))
    modifies c, c.num
    ensures c.Valid() && c.Trimmed() && c.sign == old(c.sign)
    ensures c.num == old(c.num) || fresh(c.num)
    ensures c.num.Length == if old(c.num.Length) <= a.length + offset + 2 then a.length + offset + 3 else old(c.num.Length)
    ensures c.Mag() == old(c.Mag()) + Shift(sb * a.Mag(), offset)
    ensures forall k | c.length <= k < a.length + offset :: c.num[k] == 0
  {
    hide Val, Shift, Pow;
    var i := a.length + offset;
    Widen(c, i);
    AddScaled(a, sb, c, offset);
  }

  /** GUARANTEE, the zero fill and the new LENGTH(c): the same number in at least i words. */
  method Widen(c: BigInt, i: nat)
    requires c.Valid()
    modifies c, c.num
    ensures c.Valid() && c.sign == old(c.sign) && (c.num == old(c.num) || fresh(c.num))
    ensures c.num.Length == if old(c.num.Length) <= i + 2 then i + 3 else old(c.num.Length)
    ensures c.length == if old(c.length) < i then i else old(c.length)
    ensures c.Mag() == old(c.Mag())
  {
    hide Val;
    ghost var mag := c.Mag();
    Guarantee(c, i + 2);
    ZeroFill(c, i);
    assert c.Mag() == mag by { assert c.num[..c.length] == old(c.num[..c.length]); }
    if c.length < i {
      ghost var s: seq<Word> := c.num[..i];
      TopZero(s, c.length);
      assert s[..c.length] == c.num[..c.length];
      c.length := i;
    }
  }

  /** The multiply-accumulate and its carry, once c has the words. */
  method AddScaled(a: BigInt, sb: Word, c: BigInt, offset: nat)
    requires a.Valid() && c.Valid() && Distinct(a, c) && a.length + offset <= c.length
    requires HasRoom(c.num.Length, 0, c.Mag() + Shift(sb * a.Mag(), offset))
    modifies c`length, c.num
    ensures c.Valid() && c.Trimmed()
    ensures c.Mag() == old(c.Mag()) + Shift(sb * a.Mag(), offset)
    ensures forall k | c.length <= k < a.length + offset :: c.num[k] == 0
  {
    hide Val, Shift, Pow;
    var i := a.length + offset;
    ghost var all: seq<Word> := c.num[..c.length];
    assert all[offset..i] == c.num[offset..i];
    assert a.num[0..a.length] == a.num[..a.length];
    var carry := LMult(c.num, offset, sb, a.num, 0, a.length);
    ghost var now: seq<Word> := c.num[..c.length];
    assert now[offset..i] == c.num[offset..i];
    SpliceSum(all, now, offset, a.length, sb * a.Mag(), carry);
    RunCarry(c, i, carry);
    Trim(c);
  }

  /** Changing one slice of a number by x, up to a carry above it, changes the number by x in place. */
  lemma SpliceSum(all: seq<Word>, now: seq<Word>, offset: nat, n: nat, x: int, carry: int)
    requires |all| == |now| && offset + n <= |all|
    requires all[..offset] == now[..offset] && all[offset + n..] == now[offset + n..]
    requires Val(now[offset..offset + n]) + Shift(carry, n) == Val(all[offset..offset + n]) + x
    ensures Val(now) + Shift(carry, offset + n) == Val(all) + Shift(x, offset)
  {
    hide Val, Shift, Pieces;
    PiecesOf(all, offset, offset + n);
    PiecesOf(now, offset, offset + n);
    var lo, top := all[..offset], all[offset + n..];
    var m, m' := all[offset..offset + n], now[offset..offset + n];
    PiecesAre(lo, m, top);
    PiecesAre(lo, m', top);
    ShiftAdd(Val(m') + Shift(Val(top), n), Shift(carry, n), offset);
    ShiftAdd(Val(m) + Shift(Val(top), n), x, offset);
    ShiftBy(carry, n, offset);
    assert n + offset == offset + n;
  }

  // --- products ---

  /** One row of lbigmult. */
  lemma RowStep(b: seq<Word>, i: nat, a: nat, c: nat, c': int)
    requires i < |b| && c == a * Val(b[..i]) && c' == c + Shift(b[i] * a, i)
    ensures c' == a * Val(b[..i + 1])
  {
    hide Val, Shift;
    assert b[..i + 1] == b[..i] + [b[i]];
    ValSnoc(b[..i], b[i]);
    ShiftTimes(b[i], a, i);
    MulDist(a, Val(b[..i]), Shift(b[i], i));
  }

  lemma ProductRoom(a: seq<Word>, b: seq<Word>, x: int, space: nat, needed: nat)
    requires x <= Val(a) * Val(b)
    requires |a| + |b| <= (if space < needed then needed else space)
    ensures HasRoom(space, needed, x)
  {
    hide Val, Pow;
    ProductIs(a, b);
    ProductFits(a, b, |a| + |b|);
    PowMono(|a| + |b|, if space < needed then needed else space);
  }

  predicate IsZero(x: BigInt)
    requires x.Valid()
    reads x, x.num
  {
    x.length == 1 && x.num[0] == 0
  }

  lemma ZeroMag(x: BigInt)
    requires x.Valid() && IsZero(x)
    ensures x.Mag() == 0
  {
    assert x.num[..1] == [0];
    ValOne(0);
  }

  /** A trimmed number of magnitude below BASE^n has at most n words. */
  lemma ShortEnough(x: BigInt, n: nat)
    requires x.Valid() && x.Trimmed() && x.Mag() < Pow(n) && n >= 1
    ensures x.length <= n
  {
    hide Val, Pow;
    if x.length > n {
      TrimmedIs(x.num[..x.length]);
      PowMono(n, x.length - 1);
    }
  }

  /** Words of x up to l can be read whether or not they have been trimmed away. */
  ghost predicate ZeroUpTo(x: BigInt, l: nat)
    reads x, x.num
  {
    x.Valid() && x.length <= l <= x.num.Length && forall k | x.length <= k < l :: x.num[k] == 0
  }

  lemma WideMag(x: BigInt, l: nat)
    requires ZeroUpTo(x, l)
    ensures Val(x.num[..l]) == x.Mag()
  {
    hide Val;
    var s: seq<Word> := x.num[..l];
    TopZero(s, x.length);
    assert s[..x.length] == x.num[..x.length];
  }

  /** A trimmed non-zero number lies between the powers its length names. */
  lemma LengthBounds(x: BigInt)
    requires x.Valid() && x.Trimmed() && x.Mag() > 0
    ensures Pow(x.length - 1) <= x.Mag() < Pow(x.length)
  {
    hide Val, Pow;
    var s: seq<Word> := x.num[..x.length];
    ValBound(s);
    if s[x.length - 1] != 0 {
      TrimmedIs(s);
    } else {
      ZeroMag(x);
    }
  }

  /** crypt/bigmath.c lbigmult: the schoolbook product, a row at a time. */
  method LBigMult(a: BigInt, b: BigInt, c: BigInt)
    requires a.Valid() && b.Valid() && c.Valid() && Distinct(a, c) && Distinct(b, c) && c.Spare()
    modifies c, c.num
    ensures c.Valid() && c.Trimmed() && c.Spare() && (c.num == old(c.num) || fresh(c.num))
    ensures c.Mag() == a.Mag() * b.Mag()
    ensures c.sign == if IsZero(a) || IsZero(b) then POS else a.sign * b.sign
  {
    hide Val, Shift, Pow;
    Reset(c, 0);
    if IsZero(a) || IsZero(b) {
      if IsZero(a) { ZeroMag(a); } else { ZeroMag(b); }
      return;
    }
    Guarantee(c, a.length + b.length);
    ghost var x: seq<Word>, y: seq<Word> := a.num[..a.length], b.num[..b.length];
    ValZeros(y[..0]);
    assert y[..0] == [];
    var i := 0;
    while i < b.length
      invariant 0 <= i <= b.length
      invariant c.Valid() && c.Trimmed() && c.num.Length > a.length + b.length && (c.num == old(c.num) || fresh(c.num))
      invariant c.Mag() == a.Mag() * Val(y[..i])
    {
      var m := b.num[i];
      assert m == y[i];
      RowBound(y, i, a.Mag());
      RowStep(y, i, a.Mag(), c.Mag(), c.Mag() + Shift(m * a.Mag(), i));
      ProductRoom(x, y, c.Mag() + Shift(m * a.Mag(), i), c.num.Length, a.length + i + 3);
      NumtypeBigmult(a, m, c, i);
      i := i + 1;
    }
    assert y[..b.length] == y;
    c.sign := a.sign * b.sign;
    ProductIs(x, y);
    ProductFits(x, y, a.length + b.length);
    ShortEnough(c, a.length + b.length);
  }

  /** No partial product exceeds the product. */
  lemma RowBound(y: seq<Word>, i: nat, a: nat)
    requires i < |y|
    ensures a * Val(y[..i + 1]) <= a * Val(y)
  {
    hide Val, Shift;
    ValSplit(y, i + 1);
    ShiftZero(0, i + 1);
    ShiftMono(0, Val(y[i + 1..]), i + 1);
    MulMono(a, a, Val(y[..i + 1]), Val(y));
  }
}
