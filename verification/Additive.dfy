// Sums and differences of Bignums: bigaddition and bigsub of crypt/bigmath.c under
// crypt/bigAdd.c and crypt/bigSubtract.c.

module Additive {
  import opened Words
  import opened Karatsuba
  import opened BigInts

  /** The same record, or nothing shared. */
  ghost predicate SameOrDistinct(x: BigInt, y: BigInt)
    reads x, y
  {
    x == y || Distinct(x, y)
  }

  /** Words at and above n are as before, and those from the new length up to n are zero. */
  ghost predicate KeptAbove(c: BigInt, was: seq<Word>, n: nat)
    requires c.Valid()
    reads c, c.num
  {
    && c.length <= n
    && n <= c.num.Length && |was| <= c.num.Length
    && (forall k | n <= k < |was| :: c.num[k] == was[k])
    && (forall k | c.length <= k < n :: c.num[k] == 0)
  }

  // --- bigsub ---

  /**
   * When bigsub works in place, LONG_BORROWSTEP compares the word it has just written with
   * itself, so a borrow out of a zero word is dropped.
   */
  ghost predicate BorrowLost(x: seq<Word>, y: seq<Word>) {
    |y| < |x| && Val(x[..|y|]) < Val(y) && x[|y|] == 0
  }

  /** The subtraction loop over the words both operands have. */
  method SubCommon(a: BigInt, b: BigInt, c: BigInt) returns (carry: int)
    requires a.Valid() && b.Valid() && c.Valid() && SameOrDistinct(a, b) && SameOrDistinct(a, c) && SameOrDistinct(b, c)
    requires b.length <= a.length <= c.num.Length
    modifies c.num
    ensures -1 <= carry <= 0
    ensures Signed(c.num[..b.length], carry, Diff(old(a.num[..b.length]), old(b.num[..b.length])))
    ensures forall k | b.length <= k < c.num.Length :: c.num[k] == old(c.num[k])
  {
    hide Val, Shift, Signed, Diff;
    ghost var x: seq<Word>, y: seq<Word> := a.num[..b.length], b.num[..b.length];
    carry := 0;
    SumStart();
    assert c.num[..0] == [] && x[..0] == [] && y[..0] == [];
    for i := 0 to b.length
      invariant -1 <= carry <= 0
      invariant forall k | i <= k < c.num.Length :: c.num[k] == old(c.num[k])
      invariant Signed(c.num[..i], carry, Diff(x[..i], y[..i]))
    {
      ghost var low: seq<Word>, carry0 := c.num[..i], carry;
      assert a.num[i] == x[i] by { assert a.num[i] == old(a.num[i]); }
      assert b.num[i] == y[i] by { assert b.num[i] == old(b.num[i]); }
      SignedWords(carry, a.num[i], b.num[i]);
      var suml := Sub32(a.num[i], b.num[i]);
      var sumh := if suml > a.num[i] then -1 else 0;
      c.num[i] := if suml + carry >= 0 then suml + carry else suml + carry + BASE;
      carry := (if c.num[i] > suml then -1 else 0) + sumh;

      assert c.num[..i + 1] == low + [c.num[i]];
      assert x[..i + 1] == x[..i] + [x[i]] && y[..i + 1] == y[..i] + [y[i]];
      DiffStep(low, carry0, x[..i], y[..i], x[i], y[i], c.num[i], carry);
    }
    assert x[..b.length] == x && y[..b.length] == y;
  }

  /** The borrow loop over the words only a has: LONG_BORROWSTEP, which re-reads a after writing c. */
  method SubRest(a: BigInt, c: BigInt, from: nat, carry0: int, ghost d: int)
      returns (carry: int)
    requires a.Valid() && c.Valid() && SameOrDistinct(a, c)
    requires from <= a.length <= c.num.Length && -1 <= carry0 <= 0
    requires Signed(c.num[..from], carry0, d)
    modifies c.num
    ensures -1 <= carry <= 0
    ensures var lost := a == c && carry0 == -1 && from < a.length && old(a.num[from]) == 0;
      Signed(c.num[..a.length], carry,
             d + Shift(Val(old(a.num[from..a.length])), from) + (if lost then Shift(1, from + 1) else 0))
    ensures forall k | a.length <= k < c.num.Length :: c.num[k] == old(c.num[k])
  {
    hide Val, Shift, Signed;
    ghost var x: seq<Word> := a.num[from..a.length];
    ghost var lost := a == c && carry0 == -1 && from < a.length && a.num[from] == 0;
    ghost var extra := 0;
    carry := carry0;
    assert x[..0] == [];
    ValZeros(x[..0]);
    ShiftZero(0, from);
    var i := from;
    while i < a.length
      invariant from <= i <= a.length && -1 <= carry <= 0
      invariant extra == if lost && i > from then Shift(1, from + 1) else 0
      invariant a == c && i > from ==> carry == 0
      invariant i == from ==> carry == carry0
      invariant forall k | i <= k < c.num.Length :: c.num[k] == old(c.num[k])
      invariant Signed(c.num[..i], carry, d + Shift(Val(x[..i - from]), from) + extra)
    {
      ghost var low: seq<Word>, k0: int, w: int := c.num[..i], carry, a.num[i];
      assert w == x[i - from] by { assert a.num[i] == old(a.num[i]); }
      c.num[i] := if a.num[i] + carry >= 0 then a.num[i] + carry else a.num[i] + carry + BASE;
      carry := if c.num[i] > a.num[i] then -1 else 0;
      assert c.num[..i + 1] == low + [c.num[i]];
      assert x[..i - from + 1] == x[..i - from] + [x[i - from]];
      ghost var drop: int := c.num[i] + BASE * carry - k0 - w;
      assert drop == if lost && i == from then BASE else 0;
      BorrowStep(low, k0, d, x[..i - from], x[i - from], from, extra, drop, c.num[i], carry);
      ghost var extra' := extra + Shift(drop, i);
      if lost && i == from { ShiftUp(1, i); } else { ShiftZero(0, i); }
      extra := extra';
      i := i + 1;
    }
    assert x[..a.length - from] == x;
  }

  lemma BorrowStep(low: seq<Word>, carry: int, d: int, x: seq<Word>, w: Word, from: nat, extra: int, drop: int,
                   c: Word, carry': int)
    requires |low| == from + |x|
    requires Signed(low, carry, d + Shift(Val(x), from) + extra)
    requires c + BASE * carry' == w + drop + carry
    ensures Signed(low + [c], carry', d + Shift(Val(x + [w]), from) + (extra + Shift(drop, |low|)))
  {
    hide Val, Shift, Signed;
    var y: int := w + drop;
    ValSnoc(x, w);
    ShiftAdd(Val(x), Shift(w, |x|), from);
    ShiftBy(w, |x|, from);
    ShiftAdd(w, drop, |low|);
    SignedStep(low, carry, d + Shift(Val(x), from) + extra, c, carry',
        d + Shift(Val(x + [w]), from) + (extra + Shift(drop, |low|)), y);
  }

  /** The two loops of bigsub. */
  method SubLoops(a: BigInt, b: BigInt, c: BigInt)
    requires a.Valid() && b.Valid() && c.Valid() && SameOrDistinct(a, b) && SameOrDistinct(a, c) && SameOrDistinct(b, c)
    requires b.length <= a.length <= c.num.Length && a.Mag() >= b.Mag()
    modifies c.num
    ensures Val(c.num[..a.length]) == old(a.Mag()) - old(b.Mag())
                       + if a == c && old(BorrowLost(a.num[..a.length], b.num[..b.length])) then Pow(old(b.length) + 1) else 0
    ensures forall k | a.length <= k < c.num.Length :: c.num[k] == old(c.num[k])
  {
    hide Val, Shift, Pow, Signed;
    ghost var x: seq<Word>, y: seq<Word> := a.num[..a.length], b.num[..b.length];
    var n := b.length;
    assert a.num[..n] == x[..n] && a.num[n..a.length] == x[n..];
    var carry := SubCommon(a, b, c);
    BorrowOut(c.num[..n], carry, x[..n], y);
    assert c.num[..n] == c.num[0..n];
    assert a.num[n..a.length] == x[n..];
    carry := SubRest(a, c, n, carry, Diff(x[..n], y));
    ShiftZero(1, n + 1);
    ValSplit(x, n);
    NoBorrowLeft(c.num[..a.length], carry, Val(x) - Val(y) + if a == c && BorrowLost(x, y) then Pow(n + 1) else 0);
  }

  /**
   * crypt/bigmath.c bigsub, for a at least b. In place the result is too large by one unit
   * above b's length exactly when a borrow meets a zero word of a there.
   */
  method BigSub(a: BigInt, b: BigInt, c: BigInt)
    requires a.Valid() && b.Valid() && c.Valid() && SameOrDistinct(a, b) && SameOrDistinct(a, c) && SameOrDistinct(b, c)
    requires b.length <= a.length && a.Mag() >= b.Mag()
    modifies c, c.num
    ensures c.Valid() && c.Trimmed() && c.Spare() && c.sign == old(c.sign) && (c.num == old(c.num) || fresh(c.num))
    ensures c.num.Length >= old(c.num.Length)
    ensures c.Mag() == old(a.Mag()) - old(b.Mag())
                       + if a == c && old(BorrowLost(a.num[..a.length], b.num[..b.length])) then Pow(old(b.length) + 1) else 0
    ensures KeptAbove(c, old(c.num[..]), old(a.length))
  {
    hide Val, Shift, Pow, Signed, BorrowLost;
    ghost var x: seq<Word>, y: seq<Word> := a.num[..a.length], b.num[..b.length];
    Guarantee(c, a.length);
    assert a.num[..a.length] == x && b.num[..b.length] == y;
    SubLoops(a, b, c);
    c.length := a.length;
    Trim(c);
  }

  lemma BorrowOut(v: seq<Word>, carry: int, x: seq<Word>, y: seq<Word>)
    requires |v| == |x| == |y| && -1 <= carry <= 0 && Signed(v, carry, Diff(x, y))
    ensures carry == -1 <==> Val(x) < Val(y)
    ensures Diff(x, y) == Val(x) - Val(y)
  {
    hide Val, Shift, Pow;
    ValBound(v);
    ShiftZero(0, |v|);
    ShiftGap(Val(v), carry, 0, |v|);
  }

  lemma NoBorrowLeft(v: seq<Word>, carry: int, x: int)
    requires Signed(v, carry, x) && x >= 0 && -1 <= carry <= 0
    ensures Val(v) == x
  {
    SignedExact(v, carry, x);
  }

  /** bigsub in place goes wrong on BASE^2 - 1: the borrow through the middle zero word is lost. */
  lemma InPlaceFailure()
    ensures BorrowLost([0, 0, 1], [1]) && Val([0, 0, 1]) - Val([1]) + Pow(2) != Val([0, 0, 1]) - Val([1])
  {
    ValOne(1);
    assert [0, 0, 1][..1] == [0];
    ValOne(0);
    PowPositive(2);
  }

  /** Subtracting one from 2^64 in place. */
  method LostBorrow() returns (a: BigInt)
    ensures fresh(a) && a.Valid() && a.Mag() == 2 * Pow(2) - 1
  {
    a := new BigInt(0);
    var b := new BigInt(1);
    a.num := new Word[4](_ => 0);
    a.num[2] := 1;
    a.length := 3;
    assert a.num[..3] == [0, 0, 1] && b.num[..1] == [1];
    assert Val([0, 0, 1]) == Pow(2) && Val([1]) == 1 by { assert [0, 0, 1][1..] == [0, 1] && [0, 1][1..] == [1]; }
    InPlaceFailure();
    BigSub(a, b, a);
  }

  /** Where no borrow is lost: operands whose lengths differ by at most one word, a's top word being nonzero. */
  lemma BorrowKept(x: seq<Word>, y: seq<Word>)
    requires 1 <= |y| <= |x| <= |y| + 1
    requires |x| == 1 || x[|x| - 1] != 0
    ensures !BorrowLost(x, y)
  {}

  // --- bigaddition ---

  /** The addition loop over the words both operands have. */
  method AddCommon(a: BigInt, b: BigInt, c: BigInt) returns (carry: int)
    requires a.Valid() && b.Valid() && c.Valid() && SameOrDistinct(a, b) && SameOrDistinct(a, c) && SameOrDistinct(b, c)
    requires b.length <= a.length <= c.num.Length
    modifies c.num
    ensures 0 <= carry <= 1
    ensures Signed(c.num[..b.length], carry, Sum(old(a.num[..b.length]), old(b.num[..b.length])))
    ensures forall k | b.length <= k < c.num.Length :: c.num[k] == old(c.num[k])
  {
    hide Val, Shift, Signed, Sum;
    ghost var x: seq<Word>, y: seq<Word> := a.num[..b.length], b.num[..b.length];
    carry := 0;
    SumStart();
    assert c.num[..0] == [] && x[..0] == [] && y[..0] == [];
    for i := 0 to b.length
      invariant 0 <= carry <= 1
      invariant forall k | i <= k < c.num.Length :: c.num[k] == old(c.num[k])
      invariant Signed(c.num[..i], carry, Sum(x[..i], y[..i]))
    {
      ghost var low: seq<Word>, carry0 := c.num[..i], carry;
      assert a.num[i] == x[i] by { assert a.num[i] == old(a.num[i]); }
      assert b.num[i] == y[i] by { assert b.num[i] == old(b.num[i]); }
      var suml := Add32(a.num[i], b.num[i]);
      var sumh := Bit(suml < a.num[i]);
      c.num[i] := Add32(carry, suml);
      carry := Bit(c.num[i] < suml) + sumh;

      assert c.num[..i + 1] == low + [c.num[i]];
      assert x[..i + 1] == x[..i] + [x[i]] && y[..i + 1] == y[..i] + [y[i]];
      SumStep(low, carry0, x[..i], y[..i], x[i], y[i], c.num[i], carry);
    }
    assert x[..b.length] == x && y[..b.length] == y;
  }

  /** The carry loop over the words only a has: CARRYSTEP. */
  method AddRest(a: BigInt, c: BigInt, from: nat, carry0: int, ghost d: int) returns (carry: int)
    requires a.Valid() && c.Valid() && SameOrDistinct(a, c)
    requires from <= a.length <= c.num.Length && 0 <= carry0 <= 1
    requires Signed(c.num[..from], carry0, d)
    modifies c.num
    ensures 0 <= carry <= 1
    ensures Signed(c.num[..a.length], carry, d + Shift(Val(old(a.num[from..a.length])), from))
    ensures forall k | a.length <= k < c.num.Length :: c.num[k] == old(c.num[k])
  {
    hide Val, Shift, Signed;
    ghost var x: seq<Word> := a.num[from..a.length];
    carry := carry0;
    assert x[..0] == [];
    ValZeros(x[..0]);
    ShiftZero(0, from);
    for i := from to a.length
      invariant 0 <= carry <= 1
      invariant forall k | i <= k < c.num.Length :: c.num[k] == old(c.num[k])
      invariant Signed(c.num[..i], carry, d + Shift(Val(x[..i - from]), from))
    {
      ghost var low: seq<Word>, k0: int, w: int := c.num[..i], carry, a.num[i];
      assert w == x[i - from] by { assert a.num[i] == old(a.num[i]); }
      c.num[i] := Add32(carry, a.num[i]);
      carry := Bit(c.num[i] < carry);
      assert c.num[..i + 1] == low + [c.num[i]];
      assert x[..i - from + 1] == x[..i - from] + [x[i - from]];
      assert c.num[i] + BASE * carry == w + k0;
      ShiftZero(0, i);
      BorrowStep(low, k0, d, x[..i - from], x[i - from], from, 0, 0, c.num[i], carry);
    }
    assert x[..a.length - from] == x;
  }

  /** The two loops of bigaddition, the longer operand first: the carry out is left to the caller. */
  method AddLoops(a: BigInt, b: BigInt, c: BigInt) returns (carry: int)
    requires a.Valid() && b.Valid() && c.Valid()
    requires SameOrDistinct(a, b) && SameOrDistinct(a, c) && SameOrDistinct(b, c)
    requires b.length <= a.length <= c.num.Length
    modifies c.num
    ensures 0 <= carry <= 1
    ensures Val(c.num[..a.length]) + Shift(carry, a.length) == old(a.Mag()) + old(b.Mag())
  {
    hide Val, Shift, Signed;
    ghost var x: seq<Word>, y: seq<Word> := a.num[..a.length], b.num[..b.length];
    var n := b.length;
    assert a.num[..n] == x[..n] && a.num[n..a.length] == x[n..];
    carry := AddCommon(a, b, c);
    assert c.num[..n] == c.num[0..n];
    assert a.num[n..a.length] == x[n..];
    carry := AddRest(a, c, n, carry, Sum(x[..n], y));
    SumIs(x[..n], y);
    ValSplit(x, n);
    SignedIs(c.num[..a.length], carry, Val(x) + Val(y));
  }

  /** The carry out of the top word becomes a word of its own. */
  method CarryOut(c: BigInt, len: nat, carry: int)
    requires c.Valid() && 0 <= carry <= 1 && 1 <= len < c.num.Length
    modifies c`length, c.num
    ensures c.Valid() && c.Trimmed() && c.Mag() == old(Val(c.num[..len])) + Shift(carry, len)
    ensures c.length <= len + 1
  {
    hide Val, Shift, Pow;
    ghost var low: seq<Word> := c.num[..len];
    if carry != 0 {
      c.num[len] := carry;
      c.length := len + 1;
      assert c.num[..len + 1] == low + [1];
      ValSnoc(low, 1);
    } else {
      c.length := len;
      ShiftZero(0, len);
    }
    Trim(c);
  }

  /** crypt/bigmath.c bigaddition, in place or not: the sum of the magnitudes. */
  method BigAddition(a0: BigInt, b0: BigInt, c: BigInt)
    requires a0.Valid() && b0.Valid() && c.Valid()
    requires SameOrDistinct(a0, b0) && SameOrDistinct(a0, c) && SameOrDistinct(b0, c)
    modifies c, c.num
    ensures c.Valid() && c.Trimmed() && (c.num == old(c.num) || fresh(c.num)) && c.num.Length >= old(c.num.Length)
    ensures c.Mag() == old(a0.Mag()) + old(b0.Mag())
    ensures c.Spare()
  {
    hide Val, Shift, Pow;
    var a, b := a0, b0;
    if a.length < b.length { a, b := b0, a0; }
    ghost var total := a.Mag() + b.Mag();
    ghost var x: seq<Word>, y: seq<Word> := a.num[..a.length], b.num[..b.length];
    var sign := a.sign;
    Guarantee(c, a.length + 1);
    assert a.num[..a.length] == x && b.num[..b.length] == y;
    var carry := AddLoops(a, b, c);
    CarryOut(c, a.length, carry);
    c.sign := sign;
  }

  lemma SumIs(x: seq<Word>, y: seq<Word>)
    ensures Sum(x, y) == Val(x) + Val(y)
  {}

  lemma SignedIs(v: seq<Word>, carry: int, x: int)
    requires Signed(v, carry, x)
    ensures Val(v) + Shift(carry, |v|) == x
  {}

  // --- signed sums ---

  /** What subtracting b from a into c leaves too much: a unit above b's words when a borrow is lost. */
  ghost function Loss(a: BigInt, b: BigInt, c: BigInt): nat
    requires a.Valid() && b.Valid()
    reads a, a.num, b, b.num
  {
    if c == a && BorrowLost(a.num[..a.length], b.num[..b.length]) then Pow(b.length + 1) else 0
  }

  /** The same on numbers: x - y is off exactly when x below the word above y's n words is less than y, and x is not. */
  ghost predicate Loses(x: nat, y: nat, n: nat) {
    PowPositive(n + 1);
    Pow(n + 1) <= x && x % Pow(n + 1) < y
  }

  lemma LossIs(a: BigInt, b: BigInt, c: BigInt)
    requires a.Valid() && b.Valid() && a.Trimmed()
    ensures Loss(a, b, c) == if c == a && Loses(a.Mag(), b.Mag(), b.length) then Pow(b.length + 1) else 0
  {
    hide Val, Shift, Pow;
    var x: seq<Word>, y: seq<Word> := a.num[..a.length], b.num[..b.length];
    var n := |y|;
    PowPositive(n + 1);
    if |x| <= n + 1 {
      ValBound(x);
      PowMono(|x|, n + 1);
    } else {
      LowWords(x, n + 1);
      TrimmedIs(x);
      PowMono(n + 1, |x| - 1);
      var low: seq<Word> := x[..n + 1];
      assert low[..n] == x[..n] && low == x[..n] + [x[n]];
      ValSnoc(x[..n], x[n]);
      ValBound(y);
      ShiftZero(0, n);
      ShiftZero(1, n);
      if x[n] != 0 { ShiftMono(1, x[n], n); }
    }
  }

  lemma LowWords(x: seq<Word>, k: nat)
    requires k <= |x|
    ensures Pow(k) > 0 && Val(x) % Pow(k) == Val(x[..k])
  {
    hide Val, Shift, Pow;
    ValSplit(x, k);
    ValBound(x[..k]);
    PowPositive(k);
    var h, l := Val(x[k..]), Val(x[..k]);
    assert Shift(h, k) == h * Pow(k) by { ShiftIsTimes(h, k); }
    LowPart(h, l, Pow(k));
  }

  lemma LowPart(h: nat, l: nat, p: nat)
    requires l < p
    ensures (l + h * p) % p == l
  {
    MulComm(h, p);
    DivUnique(l + h * p, p, h, l);
  }

  lemma ShorterIsSmaller(a: BigInt, b: BigInt)
    requires a.Valid() && b.Valid() && a.Trimmed() && b.Trimmed() && a.Mag() >= b.Mag()
    ensures b.length <= a.length
  {
    hide Val;
    if b.length > a.length {
      LongerIsGreater(b.num[..b.length], a.num[..a.length]);
    }
  }

  /** One magnitude less the other, with a sign for either order. */
  method DifferenceOf(a: BigInt, b: BigInt, c: BigInt, aWins: bool, signA: int, signB: int)
    requires a.Valid() && b.Valid() && c.Valid() && a.Trimmed() && b.Trimmed()
    requires SameOrDistinct(a, b) && SameOrDistinct(a, c) && SameOrDistinct(b, c)
    requires if aWins then a.Mag() >= b.Mag() else b.Mag() >= a.Mag()
    requires (signA == POS || signA == NEG) && (signB == POS || signB == NEG)
    modifies c, c.num
    ensures c.Valid() && c.Trimmed() && c.Spare() && (c.num == old(c.num) || fresh(c.num))
    ensures c.num.Length >= old(c.num.Length)
    ensures aWins ==> c.Mag() == old(a.Mag()) - old(b.Mag()) + old(Loss(a, b, c))
    ensures !aWins ==> c.Mag() == old(b.Mag()) - old(a.Mag()) + old(Loss(b, a, c))
    ensures c.sign == if aWins then signA else signB
    ensures KeptAbove(c, old(c.num[..]), old(if a.length < b.length then b.length else a.length))
  {
    hide Val, Pow;
    if aWins {
      ShorterIsSmaller(a, b);
      BigSub(a, b, c);
      c.sign := signA;
    } else {
      ShorterIsSmaller(b, a);
      BigSub(b, a, c);
      c.sign := signB;
    }
  }

  /** The error in a's magnitude less b's, put in c: none unless it is taken in place and a borrow is lost. */
  ghost function DifferenceLoss(a: BigInt, b: BigInt, c: BigInt): int
    requires a.Valid() && b.Valid()
    reads a, a.num, b, b.num
  {
    if a.Mag() > b.Mag() then Loss(a, b, c) else if b.Mag() > a.Mag() then 0 - Loss(b, a, c) else 0
  }

  lemma NoLossWhenEqual(a: BigInt, b: BigInt, c: BigInt)
    requires a.Valid() && b.Valid() && a.Trimmed() && b.Trimmed() && a.Mag() == b.Mag()
    ensures Loss(a, b, c) == 0 && Loss(b, a, c) == 0
  {
    hide Val, Pow;
    ShorterIsSmaller(a, b);
    ShorterIsSmaller(b, a);
  }

  /** Nothing is lost unless the larger operand is overwritten. */
  lemma LossElsewhere(a: BigInt, b: BigInt, c: BigInt)
    requires a.Valid() && b.Valid() && (a.Mag() > b.Mag() ==> c != a) && (b.Mag() > a.Mag() ==> c != b)
    ensures DifferenceLoss(a, b, c) == 0
  {}

  /** Nor when the smaller operand is shorter by a word at most. */
  lemma LossNear(a: BigInt, b: BigInt, c: BigInt)
    requires a.Valid() && b.Valid() && a.Trimmed() && b.Trimmed() && a.Mag() >= b.Mag() && a.length <= b.length + 1
    ensures DifferenceLoss(a, b, c) == 0
  {
    hide Val, Pow, BorrowLost;
    if a.Mag() > b.Mag() {
      ShorterIsSmaller(a, b);
      BorrowKept(a.num[..a.length], b.num[..b.length]);
    }
  }

  /** Compare the magnitudes and subtract the smaller from the larger. */
  method CompareAndSubtract(a: BigInt, b: BigInt, c: BigInt, strict: bool, sign: int)
    requires a.Valid() && b.Valid() && c.Valid() && a.Trimmed() && b.Trimmed() && (sign == POS || sign == NEG)
    requires SameOrDistinct(a, b) && SameOrDistinct(a, c) && SameOrDistinct(b, c)
    modifies a`length, b`length, c, c.num
    ensures c.Valid() && c.Trimmed() && c.Spare() && (c.num == old(c.num) || fresh(c.num))
    ensures c.num.Length >= old(c.num.Length)
    ensures a != c ==> a.length == old(a.length)
    ensures b != c ==> b.length == old(b.length)
    ensures c.Value() == Negated(sign, old(a.Mag()) - old(b.Mag()) + old(DifferenceLoss(a, b, c)))
    ensures c.sign == if old(a.Mag()) > old(b.Mag()) || (!strict && old(a.Mag()) == old(b.Mag())) then sign else 0 - sign
    ensures KeptAbove(c, old(c.num[..]), old(if a.length < b.length then b.length else a.length))
  {
    hide Val, Pow, KeptAbove, Loss;
    if a.Mag() == b.Mag() { NoLossWhenEqual(a, b, c); }
    var r := Compare(a, b);
    DifferenceOf(a, b, c, if strict then r > 0 else r >= 0, sign, 0 - sign);
  }

  ghost function Negated(sign: int, x: int): int { if sign == POS then x else 0 - x }

  /** crypt/bigSubtract.c: by the operands' signs, a difference or a sum of magnitudes. */
  method BigSubtract(a1: BigInt, a2: BigInt, ret: BigInt)
    requires a1.Valid() && a2.Valid() && ret.Valid() && a1.Trimmed() && a2.Trimmed()
    requires SameOrDistinct(a1, a2) && SameOrDistinct(a1, ret) && SameOrDistinct(a2, ret)
    modifies a1`length, a2`length, ret, ret.num
    ensures ret.Valid() && ret.Trimmed() && ret.Spare() && (ret.num == old(ret.num) || fresh(ret.num))
    ensures ret.num.Length >= old(ret.num.Length)
    ensures a1 != ret ==> a1.length == old(a1.length)
    ensures a2 != ret ==> a2.length == old(a2.length)
    ensures ret.Value() == old(a1.Value()) - old(a2.Value())
                           + if old(a1.sign == a2.sign) then Negated(old(a1.sign), old(DifferenceLoss(a1, a2, ret))) else 0
    ensures old(a1.sign) == POS && old(a2.sign) == POS ==>
      && (ret.sign == NEG <==> old(a1.Mag()) < old(a2.Mag()))
      && KeptAbove(ret, old(ret.num[..]), old(if a1.length < a2.length then a2.length else a1.length))
  {
    hide Val, KeptAbove, DifferenceLoss;
    var sign1, sign2 := a1.sign, a2.sign;
    if sign1 == sign2 {
      CompareAndSubtract(a1, a2, ret, false, sign1);
    } else {
      BigAddition(a1, a2, ret);
      ret.sign := sign1;
    }
  }

  /** crypt/bigAdd.c. Equal magnitudes of opposite signs leave a zero marked negative. */
  method BigAdd(a: BigInt, b: BigInt, c: BigInt)
    requires a.Valid() && b.Valid() && c.Valid() && a.Trimmed() && b.Trimmed()
    requires SameOrDistinct(a, b) && SameOrDistinct(a, c) && SameOrDistinct(b, c)
    modifies a`length, b`length, c, c.num
    ensures c.Valid() && c.Trimmed() && c.Spare() && (c.num == old(c.num) || fresh(c.num))
    ensures c.num.Length >= old(c.num.Length)
    ensures a != c ==> a.length == old(a.length)
    ensures b != c ==> b.length == old(b.length)
    ensures c.Value() == old(a.Value()) + old(b.Value())
                         + if old(a.sign != b.sign) then Negated(old(a.sign), old(DifferenceLoss(a, b, c))) else 0
    ensures old(a.sign) == old(b.sign) ==> c.sign == old(a.sign)
    ensures old(a.sign) != old(b.sign) ==>
      && (c.sign == POS <==> if old(a.sign) == POS then old(a.Mag()) > old(b.Mag()) else old(b.Mag()) > old(a.Mag()))
      && KeptAbove(c, old(c.num[..]), old(if a.length < b.length then b.length else a.length))
  {
    hide Val, KeptAbove, Loss;
    if a.sign == NEG && b.sign == POS {
      CompareAndSubtract(b, a, c, true, POS);
    } else if b.sign == NEG && a.sign == POS {
      CompareAndSubtract(a, b, c, true, POS);
    } else {
      var sign := a.sign;
      BigAddition(a, b, c);
      c.sign := sign;
    }
  }
}
