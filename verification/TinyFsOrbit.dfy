// Where following data links leads on a medium of emu/devtinyfs.c: to an end, to a bad block, or round a cycle.

module TinyFsOrbit {
  import opened Lists
  import opened TinyFsBlocks

  /** The block n links on from x, if there are as many. */
  ghost function Orbit(m: seq<Block>, x: nat, n: nat): Option<nat> {
    if n == 0 then Some(x) else match Orbit(m, x, n - 1) {
      case None => None
      case Some(y) => LinkFrom(m, y)
    }
  }

  /** The block a data block leads to. */
  ghost function LinkFrom(m: seq<Block>, b: nat): Option<nat> {
    if b < |m| && ParseData(m[b], |m|).Some? && ParseData(m[b], |m|).value.Data?
    then Some(ParseData(m[b], |m|).value.next)
    else None
  }

  ghost predicate Reaches(m: seq<Block>, x: nat, b: nat) { exists n: nat :: Orbit(m, x, n) == Some(b) }

  ghost predicate OnCycle(m: seq<Block>, b: nat) { exists n: nat :: n > 0 && Orbit(m, b, n) == Some(b) }

  lemma {:induction false} OrbitAdd(m: seq<Block>, x: nat, y: nat, k: nat, n: nat)
    requires Orbit(m, x, k) == Some(y)
    ensures Orbit(m, x, k + n) == Orbit(m, y, n)
  {
    hide LinkFrom;
    if n > 0 { OrbitAdd(m, x, y, k, n - 1); }
  }

  /** Where there are n links there are fewer. */
  lemma {:induction false} OrbitBefore(m: seq<Block>, x: nat, n: nat, k: nat)
    requires Orbit(m, x, n).Some? && k <= n
    ensures Orbit(m, x, k).Some?
  {
    hide LinkFrom;
    if k < n { OrbitBefore(m, x, n - 1, k); }
  }

  lemma {:induction false} RoundAgain(m: seq<Block>, b: nat, n: nat, k: nat)
    requires Orbit(m, b, n) == Some(b)
    ensures k * n >= 0 && Orbit(m, b, k * n) == Some(b)
  {
    if k > 0 {
      RoundAgain(m, b, n, k - 1);
      assert k * n == n + (k - 1) * n;
      OrbitAdd(m, b, b, n, (k - 1) * n);
    }
  }

  /** A walk that comes to a cycle never ends. */
  lemma NeverEnds(m: seq<Block>, x: nat, b: nat, n: nat)
    requires Reaches(m, x, b) && OnCycle(m, b)
    ensures Orbit(m, x, n).Some?
  {
    hide Orbit;
    var k: nat :| Orbit(m, x, k) == Some(b);
    var c: nat :| c > 0 && Orbit(m, b, c) == Some(b);
    RoundAgain(m, b, c, n);
    assert n * c >= n by { assert c >= 1; TimesAtLeast(n, c); }
    OrbitAdd(m, x, b, k, n * c);
    OrbitBefore(m, x, k + n * c, n);
  }

  lemma TimesAtLeast(n: nat, c: nat)
    requires c >= 1
    ensures n * c >= n
  {}

  lemma ReachesOn(m: seq<Block>, x: nat, y: nat, z: nat)
    requires Reaches(m, x, y) && Reaches(m, y, z)
    ensures Reaches(m, x, z)
  {
    hide Orbit;
    var k: nat :| Orbit(m, x, k) == Some(y);
    var n: nat :| Orbit(m, y, n) == Some(z);
    OrbitAdd(m, x, y, k, n);
  }

  /** Of two blocks a walk passes, one leads to the other; from a block on a cycle everything leads back. */
  lemma BackToCycle(m: seq<Block>, x: nat, b: nat, c: nat)
    requires Reaches(m, x, b) && Reaches(m, x, c) && OnCycle(m, c)
    ensures Reaches(m, b, c)
  {
    hide Orbit;
    var k: nat :| Orbit(m, x, k) == Some(b);
    var n: nat :| Orbit(m, x, n) == Some(c);
    var r: nat :| r > 0 && Orbit(m, c, r) == Some(c);
    RoundAgain(m, c, r, k);
    OrbitAdd(m, x, c, n, k * r);
    TimesAtLeast(k, r);
    var on := n + k * r - k;
    OrbitAdd(m, x, b, k, on);
    assert Orbit(m, b, on) == Some(c);
  }

  /** A walk of distinct blocks that comes back to its own i-th block stays in what follows from there. */
  lemma {:induction false} Lap(m: seq<Block>, x: nat, ws: seq<nat>, i: nat, n: nat) returns (h: nat)
    requires i < |ws| && i <= n && Orbit(m, x, |ws|) == Some(ws[i])
    requires forall k | 0 <= k < |ws| :: Orbit(m, x, k) == Some(ws[k])
    ensures i <= h < |ws| && Orbit(m, x, n) == Some(ws[h])
    decreases n
  {
    hide Orbit;
    if n < |ws| {
      h := n;
    } else {
      OrbitAdd(m, x, ws[i], |ws|, n - |ws|);
      OrbitAdd(m, x, ws[i], i, n - |ws|);
      h := Lap(m, x, ws, i, i + (n - |ws|));
    }
  }

  /** Whatever is on the cycle such a walk leads to is on its last part. */
  lemma CycleInWalk(m: seq<Block>, x: nat, ws: seq<nat>, i: nat, y: nat) returns (h: nat)
    requires i < |ws| && Orbit(m, x, |ws|) == Some(ws[i]) && OnCycle(m, y) && Reaches(m, x, y)
    requires forall k | 0 <= k < |ws| :: Orbit(m, x, k) == Some(ws[k])
    ensures i <= h < |ws| && ws[h] == y
  {
    hide Orbit;
    var k: nat :| Orbit(m, x, k) == Some(y);
    var c: nat :| c > 0 && Orbit(m, y, c) == Some(y);
    RoundAgain(m, y, c, i);
    TimesAtLeast(i, c);
    OrbitAdd(m, x, y, k, i * c);
    h := Lap(m, x, ws, i, k + i * c);
  }

  /** Its last part is a cycle. */
  lemma WalkCycles(m: seq<Block>, x: nat, ws: seq<nat>, i: nat, h: nat)
    requires i <= h < |ws| && Orbit(m, x, |ws|) == Some(ws[i])
    requires forall k | 0 <= k < |ws| :: Orbit(m, x, k) == Some(ws[k])
    ensures OnCycle(m, ws[h]) && Reaches(m, x, ws[h])
  {
    hide Orbit;
    OrbitAdd(m, x, ws[h], h, |ws| - h);
    OrbitAdd(m, x, ws[i], i, h - i);
    OrbitAdd(m, ws[h], ws[i], |ws| - h, h - i);
    assert Orbit(m, ws[h], |ws| - h + (h - i)) == Some(ws[h]);
    assert Orbit(m, x, h) == Some(ws[h]);
  }

  /** A block that leads to a cycle links on. */
  lemma CycleLinks(m: seq<Block>, b: nat, c: nat)
    requires Reaches(m, b, c) && OnCycle(m, c)
    ensures LinkFrom(m, b).Some?
  {
    NeverEnds(m, b, c, 1) by { hide Orbit; }
    assert Orbit(m, b, 0) == Some(b);
  }

  // --- chains ---

  /** A whole chain is an orbit that stops behind its last block. */
  lemma {:induction false} ChainOrbit(m: seq<Block>, x: nat, bs: seq<nat>, i: nat)
    requires ChainOf(m, x, bs) && i < |bs|
    ensures Orbit(m, x, i) == Some(bs[i])
    ensures Orbit(m, x, |bs|) == None
    decreases i
  {
    ChainShape(m, x, bs, |bs| - 1);
    hide ChainOf, ParseData, Content;
    ChainPlaces(m, x, bs, i);
    ChainPlaces(m, x, bs, |bs| - 1);
  }

  lemma {:induction false} ChainPlaces(m: seq<Block>, x: nat, bs: seq<nat>, i: nat)
    requires ChainOf(m, x, bs) && i < |bs|
    ensures Orbit(m, x, i) == Some(bs[i])
  {
    hide ParseData, Content;
    if i > 0 {
      ChainPlaces(m, x, bs, i - 1);
      hide ChainOf;
      ChainShape(m, x, bs, i - 1);
    }
  }

  /** A whole chain leads to no cycle. */
  lemma ChainNoCycle(m: seq<Block>, x: nat, bs: seq<nat>, b: nat)
    requires ChainOf(m, x, bs) && Reaches(m, x, b)
    ensures !OnCycle(m, b) && b in bs
  {
    ChainOrbit(m, x, bs, 0) by { hide Orbit, ParseData; }
    hide ChainOf, Orbit;
    if OnCycle(m, b) { NeverEnds(m, x, b, |bs|); }
    var n: nat :| Orbit(m, x, n) == Some(b);
    if n >= |bs| { OrbitBefore(m, x, n, |bs|); }
    ChainOrbit(m, x, bs, n);
  }

  /** What is left of a chain from any of its blocks on is the chain of that block. */
  lemma {:induction false} ChainRest(m: seq<Block>, x: nat, bs: seq<nat>, i: nat)
    requires ChainOf(m, x, bs) && i < |bs|
    ensures ChainOf(m, bs[i], bs[i..])
    decreases i
  {
    hide ParseData;
    if i > 0 {
      ChainRest(m, bs[1], bs[1..], i - 1);
      assert bs[1..][i - 1..] == bs[i..];
    } else {
      assert bs[0..] == bs;
    }
  }

  /** Two whole chains that share a block share the last one. */
  lemma SharedEnd(m: seq<Block>, x: nat, bs: seq<nat>, y: nat, cs: seq<nat>, b: nat)
    requires ChainOf(m, x, bs) && ChainOf(m, y, cs) && b in bs && b in cs
    ensures bs[|bs| - 1] == cs[|cs| - 1]
  {
    var i :| 0 <= i < |bs| && bs[i] == b;
    var k :| 0 <= k < |cs| && cs[k] == b;
    ChainRest(m, x, bs, i);
    ChainRest(m, y, cs, k);
    ChainUnique(m, b, bs[i..], cs[k..]);
    hide ChainOf;
    assert bs[i..][|bs| - i - 1] == cs[k..][|cs| - k - 1];
  }

  // --- which files a mount keeps ---

  /** The directory block d leads to the whole chain bs. */
  ghost predicate Whole(m: seq<Block>, d: nat, bs: seq<nat>) {
    d < |m| && ParseDir(m[d], |m|).Some? && ChainOf(m, ParseDir(m[d], |m|).value.first, bs)
  }

  ghost predicate Disjoint(bs: seq<nat>, cs: seq<nat>) { forall b | b in bs :: b !in cs }

  /** d has a whole chain, none of whose blocks an earlier directory block's whole chain has. */
  ghost predicate Keeps(m: seq<Block>, d: nat) {
    exists bs :: Whole(m, d, bs) && forall e: nat, cs | e < d && Whole(m, e, cs) :: Disjoint(bs, cs)
  }

  /** b is on a cycle the directory block d leads to. */
  ghost predicate Circles(m: seq<Block>, d: nat, b: nat) {
    d < |m| && ParseDir(m[d], |m|).Some? && OnCycle(m, b) && Reaches(m, ParseDir(m[d], |m|).value.first, b)
  }

  lemma WholeUnique(m: seq<Block>, d: nat, bs: seq<nat>, cs: seq<nat>)
    requires Whole(m, d, bs) && Whole(m, d, cs)
    ensures bs == cs
  {
    hide ParseDir;
    ChainUnique(m, ParseDir(m[d], |m|).value.first, bs, cs);
  }

  /** A file that meets an earlier one is not kept. */
  lemma MeetsEarlier(m: seq<Block>, d: nat, bs: seq<nat>, e: nat, cs: seq<nat>, b: nat)
    requires Whole(m, d, bs) && Whole(m, e, cs) && e < d && b in bs && b in cs
    ensures !Keeps(m, d)
  {
    hide Whole;
    forall zs | Whole(m, d, zs) ensures zs == bs { WholeUnique(m, d, zs, bs); }
  }

  /** b is on a cycle some directory block leads to. */
  ghost predicate Circled(m: seq<Block>, b: nat) { exists d: nat :: Circles(m, d, b) }

  /** On a medium of whole, separate files every directory block keeps its file, and none circles. */
  lemma RecoverableKeeps(m: seq<Block>, d: nat)
    requires Recoverable(m) && d < |m| && ParseDir(m[d], |m|).Some?
    ensures Keeps(m, d) && forall b :: !Circles(m, d, b)
  {
    hide ParseDir, ChainOf, OnCycle, Reaches;
    var whole :| Sound(m, whole) && Apart(whole);
    assert Whole(m, d, whole[d]);
    forall e: nat, cs | e < d && Whole(m, e, cs) ensures Disjoint(whole[d], cs) {
      assert Whole(m, e, whole[e]);
      WholeUnique(m, e, cs, whole[e]);
    }
    forall b ensures !Circles(m, d, b) {
      if Circles(m, d, b) { ChainNoCycle(m, ParseDir(m[d], |m|).value.first, whole[d], b); }
    }
  }

  // --- media with the same links ---

  ghost predicate SameLinks(m: seq<Block>, m': seq<Block>) {
    |m| == |m'| && forall b | 0 <= b < |m| :: ParseData(m[b], |m|) == ParseData(m'[b], |m|)
  }

  lemma {:induction false} SameChain(m: seq<Block>, m': seq<Block>, x: nat, bs: seq<nat>)
    requires SameLinks(m, m') && ChainOf(m, x, bs)
    ensures ChainOf(m', x, bs)
    decreases |bs|
  {
    hide ParseData;
    if |bs| > 1 { SameChain(m, m', bs[1], bs[1..]); }
  }

  lemma {:induction false} SameOrbit(m: seq<Block>, m': seq<Block>, x: nat, n: nat)
    requires SameLinks(m, m')
    ensures Orbit(m', x, n) == Orbit(m, x, n)
  {
    hide ParseData;
    if n > 0 { SameOrbit(m, m', x, n - 1); }
  }
}
