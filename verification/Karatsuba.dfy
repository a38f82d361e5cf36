// Karatsuba multiplication and squaring in place: crypt/fastmult.c.

module Karatsuba {
  import opened Words
  import opened Kernels
  import opened Squaring

  // --- the identities ---

  /** The cross term of two two-digit numbers from three digit products. */
  lemma ThreeProducts(a0: int, a1: int, b0: int, b1: int)
    ensures a0 * b0 + a1 * b1 + (a1 - a0) * (b0 - b1) == a0 * b1 + a1 * b0
  {
    MulDist(a1 - a0, b0, b1);
    MulDist(b0, a1, a0);
    MulDist(b1, a1, a0);
  }

  lemma TwoDigitProduct(a0: int, a1: int, b0: int, b1: int, h: nat)
    ensures (a0 + Shift(a1, h)) * (b0 + Shift(b1, h))
         == a0 * b0 + Shift(a0 * b1 + a1 * b0, h) + Shift(a1 * b1, 2 * h)
  {
    hide Shift;
    var u, v := Shift(a1, h), Shift(b1, h);
    MulDist(b0 + v, a0, u);
    MulDist(a0, b0, v);
    MulDist(u, b0, v);
    ShiftTimes(a0, b1, h);
    ShiftTimes(a1, b0, h);
    ShiftTimes(a1, v, h);
    ShiftTimes(a1, b1, h);
    ShiftBy(a1 * b1, h, h);
    ShiftAdd(a0 * b1, a1 * b0, h);
  }

  /** Multiplying absolute differences leaves only the sign to remember. */
  lemma SignedProduct(x: int, y: int, u: int, v: int)
    ensures var d := (if x >= y then x - y else y - x) * (if u >= v then u - v else v - u);
            (x - y) * (u - v) == if (x >= y) == (u >= v) then d else -d
  {
    var s, t := x - y, u - v;
    assert (-s) * t == -(s * t) && s * (-t) == -(s * t) && (-s) * (-t) == s * t;
  }

  // --- the word loops ---

  /** bigCompareLongs: negative, zero or positive as the first number compares to the second. */
  method CompareLongs(a: array<Word>, ao: nat, b: array<Word>, bo: nat, n: nat) returns (r: int)
    requires ao + n <= a.Length && bo + n <= b.Length
    ensures r < 0 <==> Val(a[ao..ao + n]) < Val(b[bo..bo + n])
    ensures r == 0 <==> Val(a[ao..ao + n]) == Val(b[bo..bo + n])
  {
    hide Val;
    ghost var x: seq<Word>, y: seq<Word> := a[ao..ao + n], b[bo..bo + n];
    var i := n - 1;
    while i >= 0 && a[ao + i] == b[bo + i]
      invariant -1 <= i < n
      invariant forall k | i < k < n :: x[k] == y[k]
      decreases i
    {
      assert x[i] == a[ao + i] && y[i] == b[bo + i];
      i := i - 1;
    }
    FirstDifference(x, y, i);
    assert i >= 0 ==> x[i] == a[ao + i] && y[i] == b[bo + i];
    if i < 0 {
      return 0;
    }
    if a[ao + i] < b[bo + i] {
      return -1;
    } else {
      return 1;
    }
  }

  /** Scanning down from the top, the first difference is the comparison. */
  lemma FirstDifference(x: seq<Word>, y: seq<Word>, i: int)
    requires |x| == |y| && -1 <= i < |x|
    requires forall k | i < k < |x| :: x[k] == y[k]
    ensures i == -1 ==> Val(x) == Val(y)
    ensures i >= 0 && x[i] < y[i] ==> Val(x) < Val(y)
    ensures i >= 0 && x[i] > y[i] ==> Val(x) > Val(y)
  {
    hide Val;
    if i < 0 {
      assert x == y;
    } else {
      assert x[i + 1..] == y[i + 1..];
      if x[i] < y[i] { ValOrder(x, y, i); }
      if x[i] > y[i] { ValOrder(y, x, i); }
    }
  }

  /** The macro LESSTHAN: the top words decide unless they are equal. */
  method LessThan(a: array<Word>, ao: nat, b: array<Word>, bo: nat, n: nat) returns (less: bool)
    requires 1 <= n && ao + n <= a.Length && bo + n <= b.Length
    ensures less <==> Val(a[ao..ao + n]) < Val(b[bo..bo + n])
  {
    hide Val;
    ghost var x: seq<Word>, y: seq<Word> := a[ao..ao + n], b[bo..bo + n];
    assert x[n - 1] == a[ao + n - 1] && y[n - 1] == b[bo + n - 1] && x[n..] == y[n..];
    if a[ao + n - 1] < b[bo + n - 1] {
      ValOrder(x, y, n - 1);
      return true;
    }
    if a[ao + n - 1] > b[bo + n - 1] {
      ValOrder(y, x, n - 1);
      return false;
    }
    var r := CompareLongs(a, ao, b, bo, n);
    return r < 0;
  }

  /** v is the difference, or sum, of words so far with a signed carry above it. */
  ghost predicate Signed(v: seq<Word>, carry: int, x: int) {
    Val(v) + Shift(carry, |v|) == x
  }

  lemma SignedStep(v: seq<Word>, carry: int, x: int, w: Word, carry': int, x': int, d: int)
    requires Signed(v, carry, x)
    requires w + BASE * carry' == d + carry
    requires x' == x + Shift(d, |v|)
    ensures Signed(v + [w], carry', x')
  {
    hide Val, Shift;
    var i := |v|;
    ValSnoc(v, w);
    ShiftUp(carry', i);
    ShiftAdd(w, BASE * carry', i);
    ShiftAdd(d, carry, i);
  }

  ghost function Diff(x: seq<Word>, y: seq<Word>): int { Val(x) - Val(y) }
  ghost function Sum(x: seq<Word>, y: seq<Word>): int { Val(x) + Val(y) }
  ghost function Sum3(x: seq<Word>, y: seq<Word>, z: seq<Word>): int { Val(x) + Val(y) + Val(z) }

  lemma DiffStep(v: seq<Word>, carry: int, a: seq<Word>, b: seq<Word>, x: Word, y: Word, w: Word, carry': int)
    requires |a| == |b| == |v| && Signed(v, carry, Diff(a, b))
    requires w + BASE * carry' == x - y + carry
    ensures Signed(v + [w], carry', Diff(a + [x], b + [y]))
  {
    hide Val, Shift, Signed;
    ValSnoc(a, x);
    ValSnoc(b, y);
    var d: int := x - y;
    ShiftAdd(x, y, |a|);
    SignedStep(v, carry, Diff(a, b), w, carry', Diff(a + [x], b + [y]), d);
  }

  lemma SumStep(v: seq<Word>, carry: int, a: seq<Word>, b: seq<Word>, x: Word, y: Word, w: Word, carry': int)
    requires |a| == |b| == |v| && Signed(v, carry, Sum(a, b))
    requires w + BASE * carry' == x + y + carry
    ensures Signed(v + [w], carry', Sum(a + [x], b + [y]))
  {
    hide Val, Shift, Signed;
    ValSnoc(a, x);
    ValSnoc(b, y);
    var d: int := x + y;
    ShiftAdd(x, y, |a|);
    SignedStep(v, carry, Sum(a, b), w, carry', Sum(a + [x], b + [y]), d);
  }

  lemma Sum3Step(v: seq<Word>, carry: int, a: seq<Word>, b: seq<Word>, c: seq<Word>, x: Word, y: Word, z: Word,
                 w: Word, carry': int)
    requires |a| == |b| == |c| == |v| && Signed(v, carry, Sum3(a, b, c))
    requires w + BASE * carry' == x + y + z + carry
    ensures Signed(v + [w], carry', Sum3(a + [x], b + [y], c + [z]))
  {
    hide Val, Shift, Signed;
    ValSnoc(a, x);
    ValSnoc(b, y);
    ValSnoc(c, z);
    var d: int := x + y + z;
    ShiftAdd(x + y, z, |a|);
    ShiftAdd(x, y, |a|);
    SignedStep(v, carry, Sum3(a, b, c), w, carry', Sum3(a + [x], b + [y], c + [z]), d);
  }

  lemma SumStart()
    ensures Signed([], 0, Diff([], [])) && Signed([], 0, Sum([], [])) && Signed([], 0, Sum3([], [], []))
  {
    ShiftZero(0, 0);
  }

  lemma SignedWords(carry: int, a: Word, b: Word)
    requires -1 <= carry <= 0
    ensures var suml := Sub32(a, b);
            var sumh := if suml > a then -1 else 0;
            var c := if suml + carry >= 0 then suml + carry else suml + carry + BASE;
            var carry' := (if c > suml then -1 else 0) + sumh;
            c + BASE * carry' == (a - b) + carry && -1 <= carry' <= 0
  {}

  /** The SUBSTEP loop: c := a - b over n words; the result is the signed carry, 0 or -1. */
  method SubWords(c: array<Word>, co: nat, a: array<Word>, ao: nat, b: array<Word>, bo: nat, n: nat)
      returns (carry: int)
    requires co + n <= c.Length && ao + n <= a.Length && bo + n <= b.Length
    requires Apart(c, co, n, a, ao, n) && Apart(c, co, n, b, bo, n)
    modifies c
    ensures -1 <= carry <= 0
    ensures Signed(c[co..co + n], carry, Diff(old(a[ao..ao + n]), old(b[bo..bo + n])))
    ensures forall k | 0 <= k < c.Length && !(co <= k < co + n) :: c[k] == old(c[k])
  {
    hide Val, Shift, Signed, Diff, Sum, Sum3;
    ghost var x: seq<Word>, y: seq<Word> := a[ao..ao + n], b[bo..bo + n];
    carry := 0;
    SumStart();
    assert c[co..co] == [] && x[..0] == [] && y[..0] == [];
    for i := 0 to n
      invariant -1 <= carry <= 0
      invariant forall k | 0 <= k < c.Length && !(co <= k < co + i) :: c[k] == old(c[k])
      invariant Signed(c[co..co + i], carry, Diff(x[..i], y[..i]))
    {
      ghost var low, carry0 := c[co..co + i], carry;
      assert a[ao + i] == x[i] by { assert a[ao + i] == old(a[ao + i]); }
      assert b[bo + i] == y[i] by { assert b[bo + i] == old(b[bo + i]); }
      SignedWords(carry, a[ao + i], b[bo + i]);
      var suml := Sub32(a[ao + i], b[bo + i]);
      var sumh := if suml > a[ao + i] then -1 else 0;
      c[co + i] := if suml + carry >= 0 then suml + carry else suml + carry + BASE;
      carry := (if c[co + i] > suml then -1 else 0) + sumh;

      assert c[co..co + i + 1] == low + [c[co + i]];
      assert x[..i + 1] == x[..i] + [x[i]] && y[..i + 1] == y[..i] + [y[i]];
      DiffStep(low, carry0, x[..i], y[..i], x[i], y[i], c[co + i], carry);
    }
    assert x[..n] == x && y[..n] == y;
  }

  /** The ADDSTEP loop: c := a + b over n words. */
  method AddWords(c: array<Word>, co: nat, a: array<Word>, ao: nat, b: array<Word>, bo: nat, n: nat)
      returns (carry: int)
    requires co + n <= c.Length && ao + n <= a.Length && bo + n <= b.Length
    requires Apart(c, co, n, a, ao, n) && Apart(c, co, n, b, bo, n)
    modifies c
    ensures 0 <= carry <= 1
    ensures Signed(c[co..co + n], carry, Sum(old(a[ao..ao + n]), old(b[bo..bo + n])))
    ensures forall k | 0 <= k < c.Length && !(co <= k < co + n) :: c[k] == old(c[k])
  {
    hide Val, Shift, Signed, Diff, Sum, Sum3;
    ghost var x: seq<Word>, y: seq<Word> := a[ao..ao + n], b[bo..bo + n];
    carry := 0;
    SumStart();
    assert c[co..co] == [] && x[..0] == [] && y[..0] == [];
    for i := 0 to n
      invariant 0 <= carry <= 1
      invariant forall k | 0 <= k < c.Length && !(co <= k < co + i) :: c[k] == old(c[k])
      invariant Signed(c[co..co + i], carry, Sum(x[..i], y[..i]))
    {
      ghost var low, carry0 := c[co..co + i], carry;
      assert a[ao + i] == x[i] by { assert a[ao + i] == old(a[ao + i]); }
      assert b[bo + i] == y[i] by { assert b[bo + i] == old(b[bo + i]); }
      var suml := Add32(a[ao + i], b[bo + i]);
      var sumh := Bit(suml < a[ao + i]);
      c[co + i] := Add32(carry, suml);
      carry := Bit(c[co + i] < suml) + sumh;

      assert c[co..co + i + 1] == low + [c[co + i]];
      assert x[..i + 1] == x[..i] + [x[i]] && y[..i + 1] == y[..i] + [y[i]];
      SumStep(low, carry0, x[..i], y[..i], x[i], y[i], c[co + i], carry);
    }
    assert x[..n] == x && y[..n] == y;
  }

  /** The ADD3STEP loop: t := c + a + b over n words. */
  method Add3Words(t: array<Word>, to: nat, c: array<Word>, co: nat, a: array<Word>, ao: nat, b: array<Word>, bo: nat,
                   n: nat) returns (carry: int)
    requires to + n <= t.Length && co + n <= c.Length && ao + n <= a.Length && bo + n <= b.Length
    requires Apart(t, to, n, a, ao, n) && Apart(t, to, n, b, bo, n) && Apart(t, to, n, c, co, n)
    modifies t
    ensures 0 <= carry <= 2
    ensures Signed(t[to..to + n], carry,
                   Sum3(old(c[co..co + n]), old(a[ao..ao + n]), old(b[bo..bo + n])))
    ensures forall k | 0 <= k < t.Length && !(to <= k < to + n) :: t[k] == old(t[k])
  {
    hide Val, Shift, Signed, Diff, Sum, Sum3;
    ghost var x: seq<Word>, y: seq<Word>, z: seq<Word> := a[ao..ao + n], b[bo..bo + n], c[co..co + n];
    carry := 0;
    SumStart();
    assert t[to..to] == [] && x[..0] == [] && y[..0] == [] && z[..0] == [];
    for i := 0 to n
      invariant 0 <= carry <= 2
      invariant forall k | 0 <= k < t.Length && !(to <= k < to + i) :: t[k] == old(t[k])
      invariant Signed(t[to..to + i], carry, Sum3(z[..i], x[..i], y[..i]))
    {
      ghost var low, carry0 := t[to..to + i], carry;
      assert a[ao + i] == x[i] by { assert a[ao + i] == old(a[ao + i]); }
      assert b[bo + i] == y[i] by { assert b[bo + i] == old(b[bo + i]); }
      assert c[co + i] == z[i] by { assert c[co + i] == old(c[co + i]); }
      t[to + i] := Add32(a[ao + i], b[bo + i]);
      var sumh := Bit(t[to + i] < a[ao + i]);
      var suml := Add32(t[to + i], carry);
      sumh := sumh + Bit(suml < t[to + i]);
      t[to + i] := Add32(suml, c[co + i]);
      carry := sumh + Bit(t[to + i] < suml);

      assert t[to..to + i + 1] == low + [t[to + i]];
      assert x[..i + 1] == x[..i] + [x[i]] && y[..i + 1] == y[..i] + [y[i]] && z[..i + 1] == z[..i] + [z[i]];
      Sum3Step(low, carry0, z[..i], x[..i], y[..i], z[i], x[i], y[i], t[to + i], carry);
    }
    assert x[..n] == x && y[..n] == y && z[..n] == z;
  }

  /** A carry run over n words: the word-wise loop that stops as soon as the carry is gone. */
  method CarryUp(c: array<Word>, co: nat, n: nat, carry0: Word) returns (carry: Word)
    requires co + n <= c.Length
    modifies c
    ensures Val(c[co..co + n]) + Shift(carry, n) == old(Val(c[co..co + n])) + carry0
    ensures forall k | 0 <= k < c.Length && !(co <= k < co + n) :: c[k] == old(c[k])
  {
    hide Val, Pow, Shift, Carried;
    ghost var o: seq<Word> := c[co..co + n];
    var i := 0;
    carry := carry0;
    assert c[co..co] == [] && o[..0] == [];
    CarriedStart(carry0);
    while i < n && carry != 0
      invariant 0 <= i <= n
      invariant forall k | 0 <= k < c.Length && !(co <= k < co + i) :: c[k] == old(c[k])
      invariant Carried(c[co..co + i], carry, o[..i], carry0)
    {
      ghost var low: seq<Word>, w: int, k0: int := c[co..co + i], c[co + i], carry;
      assert o[i] == w by { assert c[co + i] == old(c[co + i]); }
      c[co + i] := Add32(c[co + i], carry);
      carry := Bit(c[co + i] < carry);
      assert c[co + i] + BASE * carry == w + k0;
      assert c[co..co + i + 1] == low + [c[co + i]] && o[..i + 1] == o[..i] + [w];
      CarryStep(low, k0, o[..i], carry0, w, c[co + i], carry);
      i := i + 1;
    }
    ghost var now: seq<Word> := c[co..co + n];
    assert now[..i] == c[co..co + i];
    forall k | i <= k < n ensures now[k] == o[k] {
      assert c[co + k] == old(c[co + k]);
    }
    assert now[i..] == o[i..];
    CarriedOut(now, o, i, carry, carry0);
  }

  lemma CarriedOut(now: seq<Word>, o: seq<Word>, i: nat, carry: int, x: int)
    requires i <= |now| == |o| && now[i..] == o[i..] && (i < |o| ==> carry == 0)
    requires Carried(now[..i], carry, o[..i], x)
    ensures Val(now) + Shift(carry, |now|) == Val(o) + x
  {
    hide Val, Shift;
    ShiftZero(0, i);
    ShiftZero(0, |now|);
    ValSplit(now, i);
    ValSplit(o, i);
    if i == |o| {
      assert now[..i] == now && o[..i] == o;
    }
  }

  /** The last loop of recursiveMultiply: add a small carry into n words that have room for it. */
  method AddCarryIn(c: array<Word>, co: nat, n: nat, carry0: Word)
    requires co + n <= c.Length
    requires Val(c[co..co + n]) + carry0 < Pow(n)
    modifies c
    ensures Val(c[co..co + n]) == old(Val(c[co..co + n])) + carry0
    ensures forall k | 0 <= k < c.Length && !(co <= k < co + n) :: c[k] == old(c[k])
  {
    hide Val, Pow, Shift;
    var carry := CarryUp(c, co, n, carry0);
    if carry >= 1 {
      ShiftMono(1, carry, n);
      ShiftZero(1, n);
    }
    assert carry == 0;
    ShiftZero(0, n);
  }

  lemma CarriedStart(x: int)
    ensures Carried([], x, [], x)
  {
    ShiftZero(x, 0);
  }

  /** A difference known to be non-negative ends with no borrow. */
  lemma SignedExact(v: seq<Word>, carry: int, x: int)
    requires Signed(v, carry, x) && x >= 0 && -1 <= carry <= 0
    ensures Val(v) == x
  {
    hide Val, Shift, Pow;
    ValBound(v);
    ShiftGap(Val(v), carry, 0, |v|);
    ShiftZero(0, |v|);
  }

  ghost function AbsGap(x: int, y: int): nat { if x >= y then x - y else y - x }

  /** The compare, swap and SUBSTEP loop: z := |x - y|, returning whether x was at least y. */
  method AbsDiff(z: array<Word>, r: nat, x: array<Word>, p: nat, y: array<Word>, q: nat, n: nat) returns (ge: bool)
    requires 1 <= n && r + n <= z.Length && p + n <= x.Length && q + n <= y.Length
    requires Apart(z, r, n, x, p, n) && Apart(z, r, n, y, q, n)
    modifies z
    ensures ge <==> old(Val(x[p..p + n])) >= old(Val(y[q..q + n]))
    ensures Val(z[r..r + n]) == AbsGap(old(Val(x[p..p + n])), old(Val(y[q..q + n])))
    ensures forall k | 0 <= k < z.Length && !(r <= k < r + n) :: z[k] == old(z[k])
  {
    hide Val, Shift, Signed;
    var u, uo, v, vo := x, p, y, q;
    ge := true;
    var less := LessThan(u, uo, v, vo, n);
    if less {
      u, uo, v, vo := y, q, x, p;
      ge := false;
    }
    var carry := SubWords(z, r, u, uo, v, vo, n);
    SignedExact(z[r..r + n], carry, AbsGap(old(Val(x[p..p + n])), old(Val(y[q..q + n]))));
  }

  /** A number cut in three pieces. */
  ghost function Pieces(low: seq<Word>, mid: seq<Word>, top: seq<Word>): int {
    Val(low) + Shift(Val(mid) + Shift(Val(top), |mid|), |low|)
  }

  lemma PiecesOf(all: seq<Word>, i: nat, j: nat)
    requires i <= j <= |all|
    ensures Val(all) == Pieces(all[..i], all[i..j], all[j..])
  {
    hide Val, Shift, Pieces;
    SliceOfTail(all, i, j);
    ValSplit(all, i);
    ValSplit(all[i..], j - i);
    PiecesAre(all[..i], all[i..j], all[j..]);
  }

  lemma PiecesAre(low: seq<Word>, mid: seq<Word>, top: seq<Word>)
    ensures Pieces(low, mid, top) == Val(low) + Shift(Val(mid) + Shift(Val(top), |mid|), |low|)
  {
    hide Val, Shift;
  }

  lemma SliceOfArray(c: array<Word>, a: nat, b: nat, i: nat, j: nat)
    requires a <= b <= c.Length && i <= j <= b - a
    ensures c[a..b][i..j] == c[a + i..a + j]
  {
    var s, t := c[a..b][i..j], c[a + i..a + j];
    forall k | 0 <= k < j - i ensures s[k] == t[k] {
      assert s[k] == c[a..b][i + k] == c[a + (i + k)];
    }
  }

  lemma SliceOfTail(s: seq<Word>, i: nat, j: nat)
    requires i <= j <= |s|
    ensures s[i..][..j - i] == s[i..j] && s[i..][j - i..] == s[j..]
  {}

  /** The middle words have a non-negative carry, and the top words have room for it. */
  lemma CombineFits(low: seq<Word>, mid: seq<Word>, top: seq<Word>, mid': seq<Word>, carry: int, x: nat)
    requires |mid| == |mid'|
    requires Val(mid') + Shift(carry, |mid|) == Val(mid) + x
    requires Pieces(low, mid, top) + Shift(x, |low|) < Pow(|low| + |mid| + |top|)
    ensures carry >= 0 && Val(top) + carry < Pow(|top|)
  {
    hide Val, Pow, Shift, Pieces;
    PiecesAre(low, mid, top);
    var i, j, k := |low|, |mid|, |top|;
    ValBound(mid');
    ShiftGap(Val(mid'), carry, 0, j);
    ShiftAdd(Val(mid) + Shift(Val(top), j), x, i);
    ShiftAdd(Val(top), carry, j);
    if Val(top) + carry >= Pow(k) {
      ShiftZero(1, k);
      ShiftZero(1, i + j + k);
      ShiftMono(Shift(1, k), Val(top) + carry, j);
      ShiftBy(1, k, j);
      ShiftMono(Shift(1, k + j), Val(mid) + Shift(Val(top), j) + x, i);
      ShiftBy(1, k + j, i);
    }
  }

  lemma CombineSum(low: seq<Word>, mid: seq<Word>, top: seq<Word>, mid': seq<Word>, top': seq<Word>, carry: int, x: int)
    requires |mid| == |mid'|
    requires Val(mid') + Shift(carry, |mid|) == Val(mid) + x
    requires Val(top') == Val(top) + carry
    ensures Pieces(low, mid', top') == Pieces(low, mid, top) + Shift(x, |low|)
  {
    hide Val, Shift, Pieces;
    PiecesAre(low, mid, top);
    PiecesAre(low, mid', top');
    ShiftAdd(Val(mid) + Shift(Val(top), |mid|), x, |low|);
    ShiftAdd(Val(top), carry, |mid|);
  }

  /** What the three products leave in the middle: low product, high product, and the cross term's sign. */
  ghost function Middle(l: int, h: int, d: int, subtract: bool): int {
    if subtract then l + h - d else l + h + d
  }

  /** Add the middle value x to the words above the first h. */
  ghost function Joined(l: int, h: int, x: int, half: nat): int {
    l + Shift(h, 2 * half) + Shift(x, half)
  }

  /** Sum the middle in t, then add or subtract the cross product into the middle of c. */
  method FoldMiddle(c: array<Word>, co: nat, t: array<Word>, to: nat, n: nat, subtract: bool) returns (carry: int)
    requires n >= 2 && n % 2 == 0 && co + 2 * n <= c.Length && to + 2 * n <= t.Length
    requires Apart(c, co, 2 * n, t, to, 2 * n)
    modifies c, t
    ensures carry <= 3
    ensures Val(c[co + n / 2..co + n / 2 + n]) + Shift(carry, n)
         == old(Val(c[co + n / 2..co + n / 2 + n]))
            + Middle(old(Val(c[co..co + n])), old(Val(c[co + n..co + 2 * n])), old(Val(t[to..to + n])), subtract)
    ensures forall k | 0 <= k < c.Length && !(co + n / 2 <= k < co + n / 2 + n) && !(c == t && to + n <= k < to + 2 * n) ::
        c[k] == old(c[k])
    ensures forall k | 0 <= k < t.Length && !(to + n <= k < to + 2 * n) && !(c == t && co + n / 2 <= k < co + n / 2 + n) ::
        t[k] == old(t[k])
  {
    hide Val, Pow, Shift, Signed, Sum3, Sum, Diff, Middle;
    var half := n / 2;
    ghost var lo: seq<Word>, mid: seq<Word>, hi: seq<Word>, d: seq<Word> :=
      c[co..co + n], c[co + half..co + half + n], c[co + n..co + n + n], t[to..to + n];
    var carryABAB := Add3Words(t, to + n, c, co, c, co + half, c, co + n, n);
    ghost var t2: seq<Word> := t[to + n..to + n + n];
    assert t[to..to + n] == d;
    if subtract {
      carry := SubWords(c, co + half, t, to + n, t, to, n);
      FoldCarry(c[co + half..co + half + n], carry, carryABAB, t2, Sum3(lo, mid, hi), Diff(t2, d));
    } else {
      carry := AddWords(c, co + half, t, to + n, t, to, n);
      FoldCarry(c[co + half..co + half + n], carry, carryABAB, t2, Sum3(lo, mid, hi), Sum(t2, d));
    }
    MiddleIs(lo, mid, hi, t2, d);
    carry := carry + carryABAB;
  }

  lemma FoldCarry(mid': seq<Word>, carry: int, carryABAB: int, t2: seq<Word>, s: int, x: int)
    requires |t2| == |mid'| && Signed(t2, carryABAB, s) && Signed(mid', carry, x)
    ensures Val(mid') + Shift(carry + carryABAB, |mid'|) == s + x - Val(t2)
  {
    hide Val, Shift;
    ShiftAdd(carry, carryABAB, |mid'|);
  }

  lemma MiddleIs(lo: seq<Word>, mid: seq<Word>, hi: seq<Word>, t2: seq<Word>, d: seq<Word>)
    ensures Sum3(lo, mid, hi) + Diff(t2, d) - Val(t2) == Val(mid) + Middle(Val(lo), Val(hi), Val(d), true)
    ensures Sum3(lo, mid, hi) + Sum(t2, d) - Val(t2) == Val(mid) + Middle(Val(lo), Val(hi), Val(d), false)
  {}

  /**
   * The recombination after the recursive calls: c holds the low and high products, t the
   * cross product; the middle is summed in t, folded into c, and its carry run upwards.
   */
  method Combine(c: array<Word>, co: nat, t: array<Word>, to: nat, n: nat, subtract: bool,
                 ghost l: nat, ghost h: nat, ghost d: nat)
    requires n >= 2 && n % 2 == 0 && co + 2 * n <= c.Length && to + 2 * n <= t.Length
    requires Apart(c, co, 2 * n, t, to, 2 * n)
    requires Val(c[co..co + n]) == l && Val(c[co + n..co + 2 * n]) == h && Val(t[to..to + n]) == d
    requires Middle(l, h, d, subtract) >= 0
    requires Joined(l, h, Middle(l, h, d, subtract), n / 2) < Pow(2 * n)
    modifies c, t
    ensures Val(c[co..co + 2 * n]) == Joined(l, h, Middle(l, h, d, subtract), n / 2)
    ensures forall k | 0 <= k < c.Length && !(co <= k < co + 2 * n) && !(c == t && to <= k < to + 2 * n) ::
        c[k] == old(c[k])
    ensures forall k | 0 <= k < t.Length && !(to <= k < to + 2 * n) && !(c == t && co <= k < co + 2 * n) ::
        t[k] == old(t[k])
  {
    hide Val, Pow, Shift, Joined, Middle, Pieces;
    var half := n / 2;
    ghost var x: int := Middle(l, h, d, subtract);
    assert n == 2 * half;
    ghost var low: seq<Word>, mid: seq<Word>, top: seq<Word> :=
      c[co..co + half], c[co + half..co + half + n], c[co + half + n..co + half + n + half];
    JoinedPieces(c, co, n, x);
    var carry := FoldMiddle(c, co, t, to, n, subtract);
    assert c[co + half + n..co + half + n + half] == top;
    assert c[co..co + half] == low;
    FinishMiddle(c, co, n, carry, low, mid, top, x);
  }

  /** The carry left above the middle words goes into the top words and completes the sum. */
  method FinishMiddle(c: array<Word>, co: nat, n: nat, carry: int,
                      ghost low: seq<Word>, ghost mid: seq<Word>, ghost top: seq<Word>, ghost x: nat)
    requires n >= 2 && n % 2 == 0 && co + 2 * n <= c.Length && carry <= 3
    requires |low| == |top| == n / 2 && |mid| == n
    requires c[co..co + n / 2] == low && c[co + n / 2 + n..co + n / 2 + n + n / 2] == top
    requires Val(c[co + n / 2..co + n / 2 + n]) + Shift(carry, n) == Val(mid) + x
    requires Pieces(low, mid, top) + Shift(x, n / 2) < Pow(2 * n)
    modifies c
    ensures Val(c[co..co + 2 * n]) == Pieces(low, mid, top) + Shift(x, n / 2)
    ensures forall k | 0 <= k < c.Length && !(co + n / 2 + n <= k < co + 2 * n) :: c[k] == old(c[k])
  {
    hide Val, Pow, Shift, Pieces;
    var half := n / 2;
    ghost var mid': seq<Word> := c[co + half..co + half + n];
    CombineFits(low, mid, top, mid', carry, x);
    AddCarryIn(c, co + half + n, half, carry);
    ghost var all: seq<Word>, top': seq<Word> := c[co..co + 2 * n], c[co + half + n..co + half + n + half];
    CombineSum(low, mid, top, mid', top', carry, x);
    PiecesOf(all, half, 3 * half);
    SliceOfArray(c, co, co + 2 * n, half, 3 * half);
    assert all[..half] == low;
    assert all[half..3 * half] == mid';
    assert all[3 * half..] == top';
  }

  /** The two products side by side are the same words as the three pieces the middle is added to. */
  lemma JoinedPieces(c: array<Word>, co: nat, n: nat, x: int)
    requires n % 2 == 0 && co + 2 * n <= c.Length
    ensures Joined(Val(c[co..co + n]), Val(c[co + n..co + 2 * n]), x, n / 2)
         == Pieces(c[co..co + n / 2], c[co + n / 2..co + n / 2 + n], c[co + n / 2 + n..co + n / 2 + n + n / 2])
            + Shift(x, n / 2)
  {
    hide Val, Shift, Pieces;
    var half := n / 2;
    var all: seq<Word> := c[co..co + 2 * n];
    PiecesOf(all, half, half + n);
    ValSplit(all, n);
    SliceOfArray(c, co, co + 2 * n, 0, n);
    SliceOfArray(c, co, co + 2 * n, n, 2 * n);
    SliceOfArray(c, co, co + 2 * n, 0, half);
    SliceOfArray(c, co, co + 2 * n, half, half + n);
    SliceOfArray(c, co, co + 2 * n, half + n, 2 * n);
    assert all[n..] == all[n..2 * n] && all[half + n..] == all[half + n..2 * n];
    assert all[..n] == all[0..n] && all[..half] == all[0..half];
  }

  // --- the recursions ---

  ghost function Pow2(k: nat): nat { if k == 0 then 1 else 2 * Pow2(k - 1) }

  /** The lengths the recursion runs on: the cutoff doubled k times. */
  ghost predicate Doubling(n: nat, cutoff: nat, k: nat) {
    cutoff >= 1 && n == cutoff * Pow2(k)
  }

  lemma HalveDoubling(n: nat, cutoff: nat, k: nat)
    requires Doubling(n, cutoff, k) && n != cutoff
    ensures k > 0 && n % 2 == 0 && n >= 2 && Doubling(n / 2, cutoff, k - 1)
  {
    hide Pow2;
    if k == 0 {
      Pow2Zero();
    } else {
      Pow2Positive(k - 1);
      MulMono(1, cutoff, 1, Pow2(k - 1));
      TwiceOut(cutoff, Pow2(k - 1));
      Pow2Step(k);
    }
  }

  lemma Pow2Zero()
    ensures Pow2(0) == 1
  {}

  lemma Pow2Step(k: nat)
    requires k > 0
    ensures Pow2(k) == 2 * Pow2(k - 1)
  {}

  lemma TwiceOut(x: int, y: int)
    ensures x * (2 * y) == 2 * (x * y)
  {}

  lemma {:induction false} Pow2Positive(k: nat)
    ensures Pow2(k) >= 1
  {
    if k > 0 { Pow2Positive(k - 1); }
  }

  ghost function Product(x: seq<Word>, y: seq<Word>): nat { Val(x) * Val(y) }

  lemma ProductIs(x: seq<Word>, y: seq<Word>)
    ensures Product(x, y) == Val(x) * Val(y)
  {}

  /** The sum the recombination leaves is the product, in either sign case, and it fits. */
  lemma KaratsubaProduct(a0: seq<Word>, a1: seq<Word>, b0: seq<Word>, b1: seq<Word>, u: seq<Word>, v: seq<Word>,
                         l: nat, h: nat, d: nat, subtract: bool)
    requires |a0| == |a1| == |b0| == |b1|
    requires l == Product(a0, b0) && h == Product(a1, b1) && d == Product(u, v)
    requires Val(u) == AbsGap(Val(a1), Val(a0)) && Val(v) == AbsGap(Val(b0), Val(b1))
    requires d == 0 || subtract == ((Val(a1) >= Val(a0)) != (Val(b0) >= Val(b1)))
    ensures Middle(l, h, d, subtract) >= 0
    ensures Joined(l, h, Middle(l, h, d, subtract), |a0|) == Product(a0 + a1, b0 + b1) < Pow(4 * |a0|)
  {
    hide Val, Shift, Pow, Product, Joined, Middle, AbsGap;
    ProductIs(a0, b0);
    ProductIs(a1, b1);
    ProductIs(u, v);
    ProductIs(a0 + a1, b0 + b1);
    ValConcat(a0, a1);
    ValConcat(b0, b1);
    ProductFits(a0 + a1, b0 + b1, 4 * |a0|);
    KaratsubaSum(Val(a0), Val(a1), Val(b0), Val(b1), |a0|, Val(a0 + a1), Val(b0 + b1), l, h, d, subtract);
  }

  lemma KaratsubaSum(a0: nat, a1: nat, b0: nat, b1: nat, half: nat, a: int, b: int, l: int, h: int, d: int,
      subtract: bool)
    requires a == a0 + Shift(a1, half) && b == b0 + Shift(b1, half)
    requires l == a0 * b0 && h == a1 * b1 && d == AbsGap(a1, a0) * AbsGap(b0, b1)
    requires d == 0 || subtract == ((a1 >= a0) != (b0 >= b1))
    ensures Middle(l, h, d, subtract) >= 0
    ensures Joined(l, h, Middle(l, h, d, subtract), half) == a * b
  {
    hide Shift;
    SignedProduct(a1, a0, b0, b1);
    ThreeProducts(a0, a1, b0, b1);
    MulMono(0, a0, 0, b1);
    MulMono(0, a1, 0, b0);
    TwoDigitProduct(a0, a1, b0, b1, half);
  }

  lemma ProductFits(a: seq<Word>, b: seq<Word>, n: nat)
    requires n == |a| + |b|
    ensures 0 <= Product(a, b) < Pow(n)
  {
    hide Val, Pow, Shift;
    ValBound(a);
    ValBound(b);
    PowAdd(|a|, |b|);
    MulMono(Val(a), Pow(|a|) - 1, Val(b), Pow(|b|) - 1);
    MulDist(Pow(|a|), Pow(|b|), 1);
    MulDist(Pow(|b|) - 1, Pow(|a|), 1);
    PowPositive(|a|);
  }

  lemma DoublingPositive(n: nat, cutoff: nat, k: nat)
    requires Doubling(n, cutoff, k)
    ensures n >= 1
  {
    Pow2Positive(k);
    MulMono(1, cutoff, 1, Pow2(k));
  }

  /** |a1 - a0| in the last quarter of c; the operands' halves are as they were. */
  method HighDifference(a: array<Word>, ao: nat, b: array<Word>, bo: nat, c: array<Word>, co: nat,
      half: nat) returns (sign: bool)
    requires half >= 1
    requires ao + 2 * half <= a.Length && bo + 2 * half <= b.Length && co + 4 * half <= c.Length
    requires Apart(c, co, 4 * half, a, ao, 2 * half) && Apart(c, co, 4 * half, b, bo, 2 * half)
    modifies c
    ensures sign <==> old(Val(a[ao + half..ao + 2 * half])) >= old(Val(a[ao..ao + half]))
    ensures Val(c[co + 3 * half..co + 4 * half]) == AbsGap(old(Val(a[ao + half..ao + 2 * half])),
        old(Val(a[ao..ao + half])))
    ensures forall i | 0 <= i < c.Length && !(co + 3 * half <= i < co + 4 * half) :: c[i] == old(c[i])
    ensures a[ao..ao + half] == old(a[ao..ao + half]) && a[ao + half..ao + 2 * half] == old(a[ao + half..ao + 2 * half])
    ensures b[bo..bo + half] == old(b[bo..bo + half]) && b[bo + half..bo + 2 * half] == old(b[bo + half..bo + 2 * half])
  {
    hide Val, AbsGap;
    assert ao + half + half == ao + 2 * half;
    sign := AbsDiff(c, co + 3 * half, a, ao + half, a, ao, half);
  }

  /** |b0 - b1| in the third quarter of c; the last one, and the operands' halves, are as they were. */
  method LowDifference(a: array<Word>, ao: nat, b: array<Word>, bo: nat, c: array<Word>, co: nat,
      half: nat) returns (sign: bool)
    requires half >= 1
    requires ao + 2 * half <= a.Length && bo + 2 * half <= b.Length && co + 4 * half <= c.Length
    requires Apart(c, co, 4 * half, a, ao, 2 * half) && Apart(c, co, 4 * half, b, bo, 2 * half)
    modifies c
    ensures sign <==> old(Val(b[bo..bo + half])) >= old(Val(b[bo + half..bo + 2 * half]))
    ensures Val(c[co + 2 * half..co + 3 * half]) == AbsGap(old(Val(b[bo..bo + half])),
        old(Val(b[bo + half..bo + 2 * half])))
    ensures forall i | 0 <= i < c.Length && !(co + 2 * half <= i < co + 3 * half) :: c[i] == old(c[i])
    ensures c[co + 3 * half..co + 4 * half] == old(c[co + 3 * half..co + 4 * half])
    ensures a[ao..ao + half] == old(a[ao..ao + half]) && a[ao + half..ao + 2 * half] == old(a[ao + half..ao + 2 * half])
    ensures b[bo..bo + half] == old(b[bo..bo + half]) && b[bo + half..bo + 2 * half] == old(b[bo + half..bo + 2 * half])
  {
    hide Val, AbsGap;
    assert bo + half + half == bo + 2 * half;
    sign := AbsDiff(c, co + 2 * half, b, bo, b, bo + half, half);
  }

  /** The differences of the operands' halves, left in the two upper quarters of c. */
  method Differences(a: array<Word>, ao: nat, b: array<Word>, bo: nat, c: array<Word>, co: nat, half: nat)
      returns (signAdiff: bool, signBdiff: bool)
    requires half >= 1
    requires ao + 2 * half <= a.Length && bo + 2 * half <= b.Length && co + 4 * half <= c.Length
    requires Apart(c, co, 4 * half, a, ao, 2 * half) && Apart(c, co, 4 * half, b, bo, 2 * half)
    modifies c
    ensures signAdiff <==> old(Val(a[ao + half..ao + 2 * half])) >= old(Val(a[ao..ao + half]))
    ensures signBdiff <==> old(Val(b[bo..bo + half])) >= old(Val(b[bo + half..bo + 2 * half]))
    ensures Val(c[co + 3 * half..co + 4 * half])
         == AbsGap(old(Val(a[ao + half..ao + 2 * half])), old(Val(a[ao..ao + half])))
    ensures Val(c[co + 2 * half..co + 3 * half])
         == AbsGap(old(Val(b[bo..bo + half])), old(Val(b[bo + half..bo + 2 * half])))
    ensures forall i | 0 <= i < c.Length && !(co + 2 * half <= i < co + 4 * half) :: c[i] == old(c[i])
    ensures a[ao..ao + half] == old(a[ao..ao + half]) && a[ao + half..ao + 2 * half] == old(a[ao + half..ao + 2 * half])
    ensures b[bo..bo + half] == old(b[bo..bo + half]) && b[bo + half..bo + 2 * half] == old(b[bo + half..bo + 2 * half])
  {
    hide Val, AbsGap, Apart;
    signAdiff := HighDifference(a, ao, b, bo, c, co, half);
    signBdiff := LowDifference(a, ao, b, bo, c, co, half);
  }

  /** The last two calls: the low and the high product side by side in c, the cross product in t kept. */
  method OuterCalls(a: array<Word>, ao: nat, b: array<Word>, bo: nat, c: array<Word>, co: nat,
                    t: array<Word>, to: nat, half: nat, cutoff: nat, ghost k: nat)
    requires Doubling(half, cutoff, k)
    requires ao + 2 * half <= a.Length && bo + 2 * half <= b.Length && co + 4 * half <= c.Length &&
        to + 4 * half <= t.Length
    requires Apart(c, co, 4 * half, a, ao, 2 * half) && Apart(c, co, 4 * half, b, bo, 2 * half)
    requires Apart(t, to, 4 * half, a, ao, 2 * half) && Apart(t, to, 4 * half, b, bo, 2 * half)
    requires Apart(c, co, 4 * half, t, to, 4 * half)
    modifies c, t
    ensures Val(c[co..co + 2 * half]) == Product(old(a[ao..ao + half]), old(b[bo..bo + half]))
    ensures Val(c[co + 2 * half..co + 4 * half])
         == Product(old(a[ao + half..ao + 2 * half]), old(b[bo + half..bo + 2 * half]))
    ensures forall i | 0 <= i < c.Length && !(co <= i < co + 4 * half) && !(c == t && to + 2 * half <= i < to + 4 * half) ::
        c[i] == old(c[i])
    ensures forall i | 0 <= i < t.Length && !(to + 2 * half <= i < to + 4 * half) && !(c == t && co <= i < co + 4 * half) ::
        t[i] == old(t[i])
    decreases half, 1
  {
    hide Val, Product, Doubling;
    ghost var a1: seq<Word>, b1: seq<Word> := a[ao + half..ao + half + half], b[bo + half..bo + half + half];
    RecursiveMultiply(a, ao, b, bo, c, co, t, to + 2 * half, half, cutoff, k);
    ghost var l: seq<Word> := c[co..co + 2 * half];
    assert a[ao + half..ao + half + half] == a1 && b[bo + half..bo + half + half] == b1;
    RecursiveMultiply(a, ao + half, b, bo + half, c, co + 2 * half, t, to + 2 * half, half, cutoff, k);
    assert c[co..co + 2 * half] == l;
    assert co + 2 * half + 2 * half == co + 4 * half;
    assert ao + half + half == ao + 2 * half && bo + half + half == bo + 2 * half;
  }

  /** The first call: the product of the differences goes to t, and the operands' halves are as they were. */
  method CrossCall(a: array<Word>, ao: nat, b: array<Word>, bo: nat, c: array<Word>, co: nat,
                   t: array<Word>, to: nat, half: nat, cutoff: nat, ghost k: nat)
    requires Doubling(half, cutoff, k)
    requires ao + 2 * half <= a.Length && bo + 2 * half <= b.Length && co + 4 * half <= c.Length &&
        to + 4 * half <= t.Length
    requires Apart(t, to, 4 * half, a, ao, 2 * half) && Apart(t, to, 4 * half, b, bo, 2 * half)
    requires Apart(c, co, 4 * half, t, to, 4 * half)
    modifies t
    ensures Val(t[to..to + 2 * half])
         == Product(old(c[co + 3 * half..co + 4 * half]), old(c[co + 2 * half..co + 3 * half]))
    ensures forall i | 0 <= i < t.Length && !(to <= i < to + 4 * half) :: t[i] == old(t[i])
    ensures a[ao..ao + half] == old(a[ao..ao + half]) && a[ao + half..ao + 2 * half] == old(a[ao + half..ao + 2 * half])
    ensures b[bo..bo + half] == old(b[bo..bo + half]) && b[bo + half..bo + 2 * half] == old(b[bo + half..bo + 2 * half])
    decreases half, 1
  {
    hide Val, Product, Doubling;
    assert co + 3 * half + half == co + 4 * half && co + 2 * half + half == co + 3 * half;
    RecursiveMultiply(c, co + 3 * half, c, co + 2 * half, t, to, t, to + 2 * half, half, cutoff, k);
  }

  /** The recursion's three products, in the order that keeps each operand alive until it is used. */
  method ThreeCalls(a: array<Word>, ao: nat, b: array<Word>, bo: nat, c: array<Word>, co: nat,
                    t: array<Word>, to: nat, half: nat, cutoff: nat, ghost k: nat)
    requires Doubling(half, cutoff, k)
    requires ao + 2 * half <= a.Length && bo + 2 * half <= b.Length && co + 4 * half <= c.Length &&
        to + 4 * half <= t.Length
    requires Apart(c, co, 4 * half, a, ao, 2 * half) && Apart(c, co, 4 * half, b, bo, 2 * half)
    requires Apart(t, to, 4 * half, a, ao, 2 * half) && Apart(t, to, 4 * half, b, bo, 2 * half)
    requires Apart(c, co, 4 * half, t, to, 4 * half)
    modifies c, t
    ensures Val(t[to..to + 2 * half])
         == Product(old(c[co + 3 * half..co + 4 * half]), old(c[co + 2 * half..co + 3 * half]))
    ensures Val(c[co..co + 2 * half]) == Product(old(a[ao..ao + half]), old(b[bo..bo + half]))
    ensures Val(c[co + 2 * half..co + 4 * half])
         == Product(old(a[ao + half..ao + 2 * half]), old(b[bo + half..bo + 2 * half]))
    ensures forall i | 0 <= i < c.Length && !(co <= i < co + 4 * half) && !(c == t && to <= i < to + 4 * half) ::
        c[i] == old(c[i])
    ensures forall i | 0 <= i < t.Length && !(to <= i < to + 4 * half) && !(c == t && co <= i < co + 4 * half) ::
        t[i] == old(t[i])
    decreases half, 2
  {
    hide Val, Product, Doubling;
    CrossCall(a, ao, b, bo, c, co, t, to, half, cutoff, k);
    ghost var d: seq<Word> := t[to..to + 2 * half];
    OuterCalls(a, ao, b, bo, c, co, t, to, half, cutoff, k);
    assert t[to..to + 2 * half] == d;
  }

  /**
   * crypt/fastmult.c recursiveMultiply: c receives the 2n-word product of a and b; t is
   * scratch. Before the recursive calls the two differences sit in the upper half of c,
   * and the middle of c is summed in the upper half of t.
   */
  method RecursiveMultiply(a: array<Word>, ao: nat, b: array<Word>, bo: nat, c: array<Word>, co: nat,
                           t: array<Word>, to: nat, n: nat, cutoff: nat, ghost k: nat)
    requires Doubling(n, cutoff, k)
    requires ao + n <= a.Length && bo + n <= b.Length && co + 2 * n <= c.Length && to + 2 * n <= t.Length
    requires Apart(c, co, 2 * n, a, ao, n) && Apart(c, co, 2 * n, b, bo, n)
    requires Apart(t, to, 2 * n, a, ao, n) && Apart(t, to, 2 * n, b, bo, n)
    requires Apart(c, co, 2 * n, t, to, 2 * n)
    modifies c, t
    ensures Val(c[co..co + 2 * n]) == Product(old(a[ao..ao + n]), old(b[bo..bo + n]))
    ensures forall i | 0 <= i < c.Length && !(co <= i < co + 2 * n) && !(c == t && to <= i < to + 2 * n) ::
        c[i] == old(c[i])
    ensures forall i | 0 <= i < t.Length && !(to <= i < to + 2 * n) && !(c == t && co <= i < co + 2 * n) ::
        t[i] == old(t[i])
    decreases n, 0
  {
    hide Val, Pow, Shift, Joined, Middle, AbsGap, Product, Doubling;
    DoublingPositive(n, cutoff, k);
    if n == cutoff {
      ProductIs(a[ao..ao + n], b[bo..bo + n]);
      BigMultN(a, ao, b, bo, c, co, n);
      return;
    }
    HalveDoubling(n, cutoff, k);
    var half := n / 2;
    assert n == 2 * half && 2 * n == 4 * half;
    ghost var a0: seq<Word>, a1: seq<Word> := a[ao..ao + half], a[ao + half..ao + 2 * half];
    ghost var b0: seq<Word>, b1: seq<Word> := b[bo..bo + half], b[bo + half..bo + 2 * half];
    assert a[ao..ao + n] == a0 + a1 && b[bo..bo + n] == b0 + b1;
    var signAdiff, signBdiff := Differences(a, ao, b, bo, c, co, half);
    ghost var u: seq<Word>, v: seq<Word> := c[co + 3 * half..co + 4 * half], c[co + 2 * half..co + 3 * half];
    ThreeCalls(a, ao, b, bo, c, co, t, to, half, cutoff, k - 1);
    ghost var l, h, d := Val(c[co..co + n]), Val(c[co + n..co + 2 * n]), Val(t[to..to + n]);
    KaratsubaProduct(a0, a1, b0, b1, u, v, l, h, d, signAdiff != signBdiff);
    Combine(c, co, t, to, n, signAdiff != signBdiff, l, h, d);
  }

  /** The last two squares: the low and the high one side by side in c, the one in t kept. */
  method OuterSquares(a: array<Word>, ao: nat, c: array<Word>, co: nat, t: array<Word>, to: nat, half: nat,
                      cutoff: nat, ghost k: nat)
    requires Doubling(half, cutoff, k)
    requires ao + 2 * half <= a.Length && co + 4 * half <= c.Length && to + 4 * half <= t.Length
    requires Apart(c, co, 4 * half, a, ao, 2 * half) && Apart(t, to, 4 * half, a, ao, 2 * half)
    requires Apart(c, co, 4 * half, t, to, 4 * half)
    modifies c, t
    ensures Val(c[co..co + 2 * half]) == Product(old(a[ao..ao + half]), old(a[ao..ao + half]))
    ensures Val(c[co + 2 * half..co + 4 * half])
         == Product(old(a[ao + half..ao + 2 * half]), old(a[ao + half..ao + 2 * half]))
    ensures forall i | 0 <= i < c.Length && !(co <= i < co + 4 * half) && !(c == t && to + 2 * half <= i < to + 4 * half) ::
        c[i] == old(c[i])
    ensures forall i | 0 <= i < t.Length && !(to + 2 * half <= i < to + 4 * half) && !(c == t && co <= i < co + 4 * half) ::
        t[i] == old(t[i])
    decreases half, 1
  {
    hide Val, Product, Doubling;
    ghost var a1: seq<Word> := a[ao + half..ao + half + half];
    RecursiveSquare(a, ao, c, co, t, to + 2 * half, half, cutoff, k);
    ghost var l: seq<Word> := c[co..co + 2 * half];
    assert a[ao + half..ao + half + half] == a1;
    RecursiveSquare(a, ao + half, c, co + 2 * half, t, to + 2 * half, half, cutoff, k);
    assert c[co..co + 2 * half] == l;
    assert co + 2 * half + 2 * half == co + 4 * half && ao + half + half == ao + 2 * half;
  }

  /** The squaring recursion's three squares. */
  method ThreeSquares(a: array<Word>, ao: nat, c: array<Word>, co: nat, t: array<Word>, to: nat, half: nat,
                      cutoff: nat, ghost k: nat)
    requires Doubling(half, cutoff, k)
    requires ao + 2 * half <= a.Length && co + 4 * half <= c.Length && to + 4 * half <= t.Length
    requires Apart(c, co, 4 * half, a, ao, 2 * half) && Apart(t, to, 4 * half, a, ao, 2 * half)
    requires Apart(c, co, 4 * half, t, to, 4 * half)
    modifies c, t
    ensures Val(t[to..to + 2 * half])
         == Product(old(c[co + 2 * half..co + 3 * half]), old(c[co + 2 * half..co + 3 * half]))
    ensures Val(c[co..co + 2 * half]) == Product(old(a[ao..ao + half]), old(a[ao..ao + half]))
    ensures Val(c[co + 2 * half..co + 4 * half])
         == Product(old(a[ao + half..ao + 2 * half]), old(a[ao + half..ao + 2 * half]))
    ensures forall i | 0 <= i < c.Length && !(co <= i < co + 4 * half) && !(c == t && to <= i < to + 4 * half) ::
        c[i] == old(c[i])
    ensures forall i | 0 <= i < t.Length && !(to <= i < to + 4 * half) && !(c == t && co <= i < co + 4 * half) ::
        t[i] == old(t[i])
    decreases half, 2
  {
    hide Val, Product, Doubling;
    assert co + 2 * half + half == co + 3 * half;
    RecursiveSquare(c, co + 2 * half, t, to, t, to + 2 * half, half, cutoff, k);
    ghost var d: seq<Word> := t[to..to + 2 * half];
    assert a[ao..ao + half] == old(a[ao..ao + half]) && a[ao + half..ao + 2 * half] == old(a[ao + half..ao + 2 * half]);
    OuterSquares(a, ao, c, co, t, to, half, cutoff, k);
    assert t[to..to + 2 * half] == d;
  }

  /** |a1 - a0| in the third quarter of c. */
  method SquareDifference(a: array<Word>, ao: nat, c: array<Word>, co: nat, half: nat)
    requires half >= 1 && ao + 2 * half <= a.Length && co + 4 * half <= c.Length &&
        Apart(c, co, 4 * half, a, ao, 2 * half)
    modifies c
    ensures Val(c[co + 2 * half..co + 3 * half]) == AbsGap(old(Val(a[ao + half..ao + 2 * half])),
        old(Val(a[ao..ao + half])))
    ensures forall i | 0 <= i < c.Length && !(co + 2 * half <= i < co + 3 * half) :: c[i] == old(c[i])
    ensures a[ao..ao + half] == old(a[ao..ao + half]) && a[ao + half..ao + 2 * half] == old(a[ao + half..ao + 2 * half])
  {
    hide Val, AbsGap;
    assert ao + half + half == ao + 2 * half && co + 2 * half + half == co + 3 * half;
    var ge := AbsDiff(c, co + 2 * half, a, ao + half, a, ao, half);
  }

  /** crypt/fastmult.c recursiveSquare: c receives the 2n-word square of a; t is scratch. */
  method RecursiveSquare(a: array<Word>, ao: nat, c: array<Word>, co: nat, t: array<Word>, to: nat, n: nat,
                         cutoff: nat, ghost k: nat)
    requires Doubling(n, cutoff, k)
    requires ao + n <= a.Length && co + 2 * n <= c.Length && to + 2 * n <= t.Length
    requires Apart(c, co, 2 * n, a, ao, n) && Apart(t, to, 2 * n, a, ao, n)
    requires Apart(c, co, 2 * n, t, to, 2 * n)
    modifies c, t
    ensures Val(c[co..co + 2 * n]) == Product(old(a[ao..ao + n]), old(a[ao..ao + n]))
    ensures forall i | 0 <= i < c.Length && !(co <= i < co + 2 * n) && !(c == t && to <= i < to + 2 * n) ::
        c[i] == old(c[i])
    ensures forall i | 0 <= i < t.Length && !(to <= i < to + 2 * n) && !(c == t && co <= i < co + 2 * n) ::
        t[i] == old(t[i])
    decreases n, 0
  {
    hide Val, Pow, Shift, Joined, Middle, AbsGap, Product, Doubling;
    DoublingPositive(n, cutoff, k);
    if n == cutoff {
      ProductIs(a[ao..ao + n], a[ao..ao + n]);
      BigSquareN(a, ao, c, co, n);
      return;
    }
    HalveDoubling(n, cutoff, k);
    var half := n / 2;
    assert n == 2 * half && 2 * n == 4 * half;
    ghost var a0: seq<Word>, a1: seq<Word> := a[ao..ao + half], a[ao + half..ao + 2 * half];
    assert a[ao..ao + n] == a0 + a1;
    assert co + n + half == co + 3 * half;
    SquareDifference(a, ao, c, co, half);
    ghost var u: seq<Word> := c[co + n..co + n + half];
    ThreeSquares(a, ao, c, co, t, to, half, cutoff, k - 1);
    ProductIs(u, u);
    GapZero(Val(a1), Val(a0));
    ghost var l, h, d := Val(c[co..co + n]), Val(c[co + n..co + 2 * n]), Val(t[to..to + n]);
    KaratsubaProduct(a0, a1, a0, a1, u, u, l, h, d, true);
    Combine(c, co, t, to, n, true, l, h, d);
  }

  lemma GapZero(x: int, y: int)
    ensures AbsGap(x, y) == AbsGap(y, x)
    ensures (x >= y) == (y >= x) ==> AbsGap(x, y) * AbsGap(x, y) == 0
  {}
}
