// The chunks of emu/alloc.c: blocks laid end to end, each with a tail that points back to its header.

module PoolArena {
  import opened Lists
  import opened PoolTree
  import W = Words

  /** Where the blocks, the leaders of chunks and the end markers are. */
  datatype Layout = Layout(blocks: set<nat>, leaders: set<nat>, ends: set<nat>)

  ghost function Starts(y: Layout): set<nat> { y.blocks + y.leaders }

  ghost function Marks(y: Layout): set<nat> { y.blocks + y.leaders + y.ends }

  /** B2NB: the address after a block. */
  function Next(h: Heap, b: nat): nat
    requires b in h
  {
    b + h[b].size
  }

  /** A positive number of units. */
  ghost predicate Units(x: int, unit: nat) {
    unit > 0 && x > 0 && x % unit == 0
  }

  /** A block ends where the next block or an end marker begins, and its tail points back to it. */
  ghost predicate LinkedOn(h: Heap, tail: map<nat, nat>, y: Layout, b: nat)
    requires b in h
  {
    Next(h, b) in y.blocks + y.ends && Next(h, b) in tail && tail[Next(h, b)] == b
  }

  /** The block before b ends where b begins. */
  ghost predicate LinkedBack(h: Heap, tail: map<nat, nat>, y: Layout, b: nat) {
    b in tail && tail[b] in Starts(y) && tail[b] in h && Next(h, tail[b]) == b
  }

  ghost predicate Shape(h: Heap, y: Layout) {
    && NIL !in h && Marks(y) <= h.Keys
    && y.blocks !! y.leaders && y.blocks !! y.ends && y.leaders !! y.ends
  }

  /** The extent of a chunk, from its leader to its end marker. */
  ghost predicate Spans(h: Heap, y: Layout)
    requires Shape(h, y)
  {
    && (forall l | l in y.leaders :: l + h[l].csize in y.ends)
    && (forall l, x | l in y.leaders && x in y.leaders + y.ends && l < x :: l + h[l].csize <= x)
  }

  /**
   * Every chunk is tiled: from its leader each block ends where the next one or the end marker begins,
   * the tail before an address points back to the block that ends there, and no block overlaps another.
   */
  ghost predicate Tiled(h: Heap, tail: map<nat, nat>, y: Layout, unit: nat) {
    && Shape(h, y) && Spans(h, y)
    && (forall b | b in Starts(y) :: Units(h[b].size, unit))
    && (forall b | b in Starts(y) :: LinkedOn(h, tail, y, b))
    && (forall b | b in y.blocks :: LinkedBack(h, tail, y, b))
    && (forall b, x | b in Starts(y) && x in Marks(y) && b < x :: Next(h, b) <= x)
  }

  // What the tiling says of one block.

  lemma TiledAt(h: Heap, tail: map<nat, nat>, y: Layout, unit: nat, b: nat)
    requires Tiled(h, tail, y, unit) && b in Starts(y)
    ensures b in h && b != NIL && Units(h[b].size, unit) && h[b].size > 0 && unit > 0
    ensures Next(h, b) in y.blocks + y.ends && Next(h, b) in tail && tail[Next(h, b)] == b && Next(h, b) in h
  {}

  lemma TiledBack(h: Heap, tail: map<nat, nat>, y: Layout, unit: nat, b: nat)
    requires Tiled(h, tail, y, unit) && b in y.blocks
    ensures b in h && b in tail && tail[b] in Starts(y) && tail[b] in h && Next(h, tail[b]) == b && tail[b] < b
  {
    TiledAt(h, tail, y, unit, tail[b]);
  }

  lemma TiledGap(h: Heap, tail: map<nat, nat>, y: Layout, unit: nat, b: nat, x: nat)
    requires Tiled(h, tail, y, unit) && b in Starts(y) && x in Marks(y) && b < x
    ensures b in h && Next(h, b) <= x
  {}

  /** The tiling, from what it says of every block. */
  lemma TiledFrom(h: Heap, tail: map<nat, nat>, y: Layout, unit: nat)
    requires Shape(h, y) && Spans(h, y)
    requires forall b | b in Starts(y) :: Units(h[b].size, unit)
    requires forall b | b in Starts(y) :: LinkedOn(h, tail, y, b)
    requires forall b | b in y.blocks :: LinkedBack(h, tail, y, b)
    requires forall b, x | b in Starts(y) && x in Marks(y) && b < x :: Next(h, b) <= x
    ensures Tiled(h, tail, y, unit)
  {}

  lemma TiledShape(h: Heap, tail: map<nat, nat>, y: Layout, unit: nat)
    requires Tiled(h, tail, y, unit)
    ensures Shape(h, y) && Spans(h, y)
  {}

  /** Two blocks that end at the same place are the same. */
  lemma SameEnd(h: Heap, tail: map<nat, nat>, y: Layout, unit: nat, b: nat, x: nat)
    requires Tiled(h, tail, y, unit) && b in Starts(y) && x in Starts(y)
    ensures b in h && x in h && (Next(h, b) == Next(h, x) ==> b == x)
  {
    hide Tiled;
    TiledAt(h, tail, y, unit, b);
    TiledAt(h, tail, y, unit, x);
  }

  lemma SpansFrame(h: Heap, h': Heap, y: Layout, y': Layout)
    requires Shape(h, y) && Spans(h, y) && Shape(h', y') && y'.leaders == y.leaders && y'.ends == y.ends
    requires forall l | l in y.leaders && l in h && l in h' :: h'[l].csize == h[l].csize
    ensures Spans(h', y')
  {}

  lemma TiledFrame(h: Heap, h': Heap, tail: map<nat, nat>, y: Layout, unit: nat)
    requires Tiled(h, tail, y, unit) && h'.Keys == h.Keys
    requires forall b | b in Starts(y) && b in h :: h'[b].size == h[b].size && h'[b].csize == h[b].csize
    ensures Tiled(h', tail, y, unit)
  {
    hide Tiled, Units, Spans;
    TiledShape(h, tail, y, unit);
    SpansFrame(h, h', y, y);
    forall b | b in Starts(y)
      ensures Units(h'[b].size, unit) && LinkedOn(h', tail, y, b)
    {
      TiledAt(h, tail, y, unit, b);
    }
    forall b | b in y.blocks ensures LinkedBack(h', tail, y, b) { TiledBack(h, tail, y, unit, b); }
    forall b, x | b in Starts(y) && x in Marks(y) && b < x
      ensures Next(h', b) <= x
    {
      TiledGap(h, tail, y, unit, b, x);
    }
    TiledFrom(h', tail, y, unit);
  }

  // --- joining two blocks ---

  lemma TiledMerge(h: Heap, h': Heap, tail: map<nat, nat>, y: Layout, unit: nat, b: nat, c: nat)
    requires Tiled(h, tail, y, unit) && b in y.blocks && b in h && c == Next(h, b) && c in y.blocks && c in h &&
        h'.Keys == h.Keys
    requires h'[b].size == h[b].size + h[c].size
    requires forall x | x in Starts(y) && x in h && x != b :: h'[x].size == h[x].size && h'[x].csize == h[x].csize
    ensures Tiled(h', tail[Next(h', b) := b], y.(blocks := y.blocks - {c}), unit)
  {
    hide Tiled, Units, Spans;
    var y' := y.(blocks := y.blocks - {c});
    var e := Next(h, c);
    var tail' := tail[e := b];
    TiledShape(h, tail, y, unit);
    SpansFrame(h, h', y, y');
    TiledAt(h, tail, y, unit, b);
    TiledAt(h, tail, y, unit, c);
    UnitsSum(h[b].size, h[c].size, unit);
    forall x | x in Starts(y') ensures Units(h'[x].size, unit) && LinkedOn(h', tail', y', x) {
      TiledAt(h, tail, y, unit, x);
      SameEnd(h, tail, y, unit, x, c);
      SameEnd(h, tail, y, unit, x, b);
    }
    forall x | x in y'.blocks ensures LinkedBack(h', tail', y', x) {
      TiledBack(h, tail, y, unit, x);
    }
    forall x, z | x in Starts(y') && z in Marks(y') && x < z ensures Next(h', x) <= z {
      TiledGap(h, tail, y, unit, x, z);
      if x == b { TiledGap(h, tail, y, unit, c, z); }
    }
    TiledFrom(h', tail', y', unit);
  }

  lemma UnitsSum(a: nat, b: nat, unit: nat)
    requires Units(a, unit) && Units(b, unit)
    ensures Units(a + b, unit) && (a > b ==> Units(a - b, unit))
  {
    var i, j := a / unit, b / unit;
    assert a == unit * i && b == unit * j;
    UnitTimes(unit, i, j);
    W.DivUnique(a + b, unit, i + j, 0);
    if a > b {
      if i < j { LessFactor(unit, i, j); }
      W.DivUnique(a - b, unit, i - j, 0);
    }
  }

  lemma UnitTimes(u: int, i: int, j: int)
    ensures u * (i + j) == u * i + u * j && u * (i - j) == u * i - u * j
  {}

  lemma LessFactor(u: nat, i: nat, j: nat)
    requires u > 0 && i < j
    ensures u * i < u * j
  {}

  // --- splitting a block ---

  lemma TiledSplit(h: Heap, h': Heap, tail: map<nat, nat>, y: Layout, unit: nat, q: nat, size: nat)
    requires Tiled(h, tail, y, unit) && q in y.blocks && q in h && Units(size, unit) && size < h[q].size
    requires q + size in h' && h'.Keys == h.Keys + {q + size} && h'[q].size == size &&
        h'[q + size].size == h[q].size - size
    requires forall x | x in Starts(y) && x in h && x != q && x in h' ::
        h'[x].size == h[x].size && h'[x].csize == h[x].csize
    ensures q + size !in Marks(y)
    ensures Tiled(h', tail[q + size := q][q + h[q].size := q + size], y.(blocks := y.blocks + {q + size}), unit)
  {
    hide Tiled, Units, Spans;
    var t, e := q + size, Next(h, q);
    var y' := y.(blocks := y.blocks + {t});
    var tail' := tail[t := q][e := t];
    TiledShape(h, tail, y, unit);
    TiledAt(h, tail, y, unit, q);
    UnitsPositive(size, unit);
    assert t !in Marks(y) by { if t in Marks(y) { TiledGap(h, tail, y, unit, q, t); } }
    UnitsSum(h[q].size, size, unit);
    SpansFrame(h, h', y, y');
    forall x | x in Starts(y') ensures Units(h'[x].size, unit) && LinkedOn(h', tail', y', x) {
      if x != t {
        TiledAt(h, tail, y, unit, x);
        SameEnd(h, tail, y, unit, x, q);
      }
    }
    forall x | x in y'.blocks ensures LinkedBack(h', tail', y', x) {
      if x != t {
        TiledBack(h, tail, y, unit, x);
      }
    }
    forall x, z | x in Starts(y') && z in Marks(y') && x < z ensures Next(h', x) <= z {
      if x != t && z != t {
        TiledGap(h, tail, y, unit, x, z);
      } else if x == t {
        TiledGap(h, tail, y, unit, q, z);
      } else if x < q {
        TiledGap(h, tail, y, unit, x, q);
      } else if q < x {
        TiledGap(h, tail, y, unit, q, x);
      }
    }
    TiledFrom(h', tail', y', unit);
  }

  lemma UnitsPositive(x: int, unit: nat)
    requires Units(x, unit)
    ensures x > 0 && unit > 0
  {}

  // --- a new chunk ---

  /** The memory from lo up to hi holds nothing of any chunk. */
  ghost predicate Unused(h: Heap, y: Layout, lo: nat, hi: nat) {
    && Marks(y) <= h.Keys
    && (forall x | x in Marks(y) :: x < lo || hi <= x)
    && (forall b | b in Starts(y) && b < lo :: Next(h, b) <= lo)
    && (forall l | l in y.leaders && l < lo :: l + h[l].csize <= lo)
  }

  /** A leader, a block, perhaps a second block for the rest, and an end marker. */
  lemma TiledChunk(h: Heap, h': Heap, tail: map<nat, nat>, tail': map<nat, nat>, y: Layout, unit: nat, l: nat,
      t: nat, r: nat, e: nat)
    requires Tiled(h, tail, y, unit) && 0 < l < t < r <= e && Unused(h, y, l, e + 1)
    requires h'.Keys == h.Keys + {l, t, r, e} && (forall x | x in Marks(y) && x in h && x in h' :: h'[x] == h[x])
    requires l in h' && t in h' && r in h'
    requires h'[l].size == t - l && h'[l].csize == e - l && h'[t].size == r - t && (r < e ==> h'[r].size == e - r)
    requires Units(t - l, unit) && Units(r - t, unit) && (r < e ==> Units(e - r, unit))
    requires tail' == tail[t := l][r := t][e := if r < e then r else t]
    ensures Tiled(h', tail', Layout(y.blocks + (if r < e then {t, r} else {t}), y.leaders + {l}, y.ends + {e}), unit)
  {
    hide Tiled, Units, Spans;
    var y' := Layout(y.blocks + (if r < e then {t, r} else {t}), y.leaders + {l}, y.ends + {e});
    TiledShape(h, tail, y, unit);
    ChunkSpans(h, h', y, y', l, e);
    ChunkLinks(h, h', tail, tail', y, y', unit, l, t, r, e);
    forall x, z | x in Starts(y') && z in Marks(y') && x < z ensures Next(h', x) <= z {
      if x in Starts(y) && z in Marks(y) { TiledGap(h, tail, y, unit, x, z); }
      ChunkGap(h, h', tail, y, y', unit, l, t, r, e, x, z);
    }
    TiledFrom(h', tail', y', unit);
  }

  /** The tails of a new chunk lead back to its blocks. */
  lemma ChunkLinks(h: Heap, h': Heap, tail: map<nat, nat>, tail': map<nat, nat>, y: Layout, y': Layout, unit: nat,
      l: nat, t: nat, r: nat, e: nat)
    requires Tiled(h, tail, y, unit) && Shape(h, y) && Shape(h', y') && 0 < l < t < r <= e && Unused(h, y, l, e + 1)
    requires forall x | x in Marks(y) && x in h && x in h' :: h'[x] == h[x]
    requires h'.Keys == h.Keys + {l, t, r, e} && h'[l].size == t - l && h'[t].size == r - t
    requires (r < e ==> h'[r].size == e - r)
    requires Units(t - l, unit) && Units(r - t, unit) && (r < e ==> Units(e - r, unit))
    requires y' == Layout(y.blocks + (if r < e then {t, r} else {t}), y.leaders + {l}, y.ends + {e})
    requires tail' == tail[t := l][r := t][e := if r < e then r else t]
    ensures forall x | x in Starts(y') :: x in h' && Units(h'[x].size, unit) && LinkedOn(h', tail', y', x)
    ensures forall x | x in y'.blocks :: LinkedBack(h', tail', y', x)
  {
    hide Tiled, Units;
    forall x | x in Starts(y') ensures x in h' && Units(h'[x].size, unit) && LinkedOn(h', tail', y', x) {
      if x in Starts(y) { TiledAt(h, tail, y, unit, x); }
    }
    forall x | x in y'.blocks ensures LinkedBack(h', tail', y', x) {
      if x in y.blocks { TiledBack(h, tail, y, unit, x); }
    }
  }

  /** Nothing overlaps across the border of a new chunk, or in it. */
  lemma ChunkGap(h: Heap, h': Heap, tail: map<nat, nat>, y: Layout, y': Layout, unit: nat, l: nat, t: nat, r: nat,
      e: nat, x: nat, z: nat)
    requires Shape(h, y) && Unused(h, y, l, e + 1) && 0 < l < t < r <= e && x < z && x in h'
    requires (x in h && x in Marks(y) ==> h'[x] == h[x])
    requires y' == Layout(y.blocks + (if r < e then {t, r} else {t}), y.leaders + {l}, y.ends + {e})
    requires x in Starts(y') && z in Marks(y')
    requires l in h' && t in h' && r in h' && h'[l].size == t - l && h'[t].size == r - t
    requires (r < e ==> h'[r].size == e - r)
    requires x in Starts(y) && z in Marks(y) ==> x in h && Next(h, x) <= z
    ensures Next(h', x) <= z
  {}

  lemma ChunkSpans(h: Heap, h': Heap, y: Layout, y': Layout, l: nat, e: nat)
    requires Shape(h, y) && Spans(h, y) && Shape(h', y') && l <= e && Unused(h, y, l, e + 1)
    requires y'.leaders == y.leaders + {l} && y'.ends == y.ends + {e} && l in h' && h'[l].csize == e - l
    requires forall x | x in y.leaders && x in h && x in h' :: h'[x] == h[x]
    ensures Spans(h', y')
  {
    forall k | k in y'.leaders ensures k + h'[k].csize in y'.ends {
      if k != l { assert k in y.leaders; }
    }
    forall k, x | k in y'.leaders && x in y'.leaders + y'.ends && k < x ensures k + h'[k].csize <= x {
      if k != l { assert k in Marks(y) && k in Starts(y); }
      if x in y.leaders + y.ends { assert x in Marks(y); }
    }
  }

  // --- a chunk, block by block ---

  /** s are the blocks from b up to e, each with its tail pointing back to it. */
  ghost predicate LaidOut(h: Heap, tail: map<nat, nat>, b: nat, e: nat, s: seq<nat>)
    decreases |s|
  {
    if s == [] then b == e
    else s[0] == b && b in h && Next(h, b) in tail && tail[Next(h, b)] == b && LaidOut(h, tail, Next(h, b), e, s[1..])
  }

  lemma SpanAt(h: Heap, y: Layout, l: nat, x: nat)
    requires Shape(h, y) && Spans(h, y) && l in y.leaders && l in h
    ensures l + h[l].csize in y.ends && (l < x && x in y.leaders + y.ends ==> l + h[l].csize <= x)
  {}

  /** From its leader a chunk is laid out exactly up to its end marker. */
  lemma {:induction false} ChunkLaidOut(h: Heap, tail: map<nat, nat>, y: Layout, unit: nat, l: nat,
      b: nat) returns (s: seq<nat>)
    requires Tiled(h, tail, y, unit) && l in y.leaders && l in h && b in Starts(y) && (b == l || b in y.blocks) &&
        l <= b < l + h[l].csize
    ensures LaidOut(h, tail, b, l + h[l].csize, s) && |s| > 0 && s[0] == b
    ensures l + h[l].csize in y.ends && forall i | 0 < i < |s| :: s[i] in y.blocks
    decreases l + h[l].csize - b
  {
    hide Tiled;
    TiledShape(h, tail, y, unit);
    TiledAt(h, tail, y, unit, b);
    var e := l + h[l].csize;
    TiledGap(h, tail, y, unit, b, e);
    if Next(h, b) == e {
      s := [b];
      assert s[1..] == [];
    } else {
      SpanAt(h, y, l, Next(h, b));
      var rest := ChunkLaidOut(h, tail, y, unit, l, Next(h, b));
      s := [b] + rest;
      assert s[1..] == rest;
    }
  }
}
