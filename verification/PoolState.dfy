// When the chunks, the free tree and the counters of a pool of emu/alloc.c agree.

module PoolState {
  import opened Lists
  import opened PoolTree
  import opened PoolArena

  /** Memory nobody has written yet. */
  const BLANK: Bhdr := Bhdr(0, 0, NIL, NIL, NIL, NIL, NIL, NIL, 0)

  /** The header at an address, written or not. */
  function At(h: Heap, a: nat): Bhdr { if a in h then h[a] else BLANK }

  /** Magic numbers tell what every header is, except for x, a block on its way between states. */
  ghost predicate Marked(h: Heap, y: Layout, tree: Tree, x: nat)
    requires Marks(y) <= h.Keys
  {
    && Blocks(tree) <= y.blocks && x !in Blocks(tree)
    && (forall l | l in y.leaders + y.ends :: h[l].magic == MAGIC_E)
    && (forall b | b in Blocks(tree) :: h[b].magic == MAGIC_F)
    && (forall b | b in y.blocks - Blocks(tree) && b != x :: h[b].magic == MAGIC_A || h[b].magic == MAGIC_I)
    && (forall a | a in h && a !in Marks(y) :: h[a].magic == 0)
  }

  /** No two neighbouring blocks are both free. */
  ghost predicate NoFreePair(h: Heap, tree: Tree)
    requires Blocks(tree) <= h.Keys
  {
    forall b | b in Blocks(tree) :: Next(h, b) !in Blocks(tree)
  }

  ghost predicate PoolOk(h: Heap, tail: map<nat, nat>, root: nat, y: Layout, tree: Tree, unit: nat, x: nat) {
    Tiled(h, tail, y, unit) && Marks(y) <= h.Keys && Marked(h, y, tree, x) && FreeTree(h, tree, root) &&
        NoFreePair(h, tree)
  }

  // --- sums of sizes ---

  ghost function Total(h: Heap, s: set<nat>): nat
    requires s <= h.Keys
  {
    if s == {} then 0 else
      var x :| x in s;
      h[x].size + Total(h, s - {x})
  }

  lemma {:induction false} TotalRemove(h: Heap, s: set<nat>, x: nat)
    requires s <= h.Keys && x in s
    ensures Total(h, s) == h[x].size + Total(h, s - {x})
    decreases s
  {
    var z :| z in s && Total(h, s) == h[z].size + Total(h, s - {z});
    if z != x {
      TotalRemove(h, s - {z}, x);
      TotalRemove(h, s - {x}, z);
      assert s - {z} - {x} == s - {x} - {z};
    }
  }

  lemma {:induction false} TotalFrame(h: Heap, h': Heap, s: set<nat>)
    requires s <= h.Keys && s <= h'.Keys && forall b | b in s :: h'[b].size == h[b].size
    ensures Total(h', s) == Total(h, s)
    decreases s
  {
    if s != {} {
      var x :| x in s;
      TotalRemove(h, s, x);
      TotalRemove(h', s, x);
      TotalFrame(h, h', s - {x});
    }
  }

  /** The sum with one more block. */
  lemma TotalAdd(h: Heap, h': Heap, s: set<nat>, b: nat)
    requires s <= h.Keys && b !in s && b in h' && s <= h'.Keys && forall c | c in s :: h'[c].size == h[c].size
    ensures s + {b} <= h'.Keys && Total(h', s + {b}) == Total(h, s) + h'[b].size
  {
    TotalRemove(h', s + {b}, b);
    assert s + {b} - {b} == s;
    TotalFrame(h, h', s);
  }

  // --- steps ---

  /** Only a free block has the free magic, and only an allocated one the others. */
  lemma MagicTells(h: Heap, tail: map<nat, nat>, root: nat, y: Layout, tree: Tree, unit: nat, x: nat, b: nat)
    requires PoolOk(h, tail, root, y, tree, unit, x) && b in h && b != x
    ensures h[b].magic == MAGIC_F <==> b in Blocks(tree)
    ensures h[b].magic == MAGIC_A || h[b].magic == MAGIC_I <==> b in y.blocks - Blocks(tree)
  {}

  /** A free block out of the tree, on its way to be allocated or joined. */
  lemma TakenOut(h: Heap, h': Heap, tail: map<nat, nat>, root: nat, root': nat, y: Layout, tree: Tree, tree': Tree,
      unit: nat, b: nat)
    requires PoolOk(h, tail, root, y, tree, unit, NIL) && b in Blocks(tree)
    requires FreeTree(h', tree', root') && Blocks(tree') == Blocks(tree) - {b} && OnlyLinks(h, h', Blocks(tree))
    ensures PoolOk(h', tail, root', y, tree', unit, b)
    ensures b in h' && h'[b].size == h[b].size && h'[b].magic == MAGIC_F && Next(h', b) !in Blocks(tree') &&
        Next(h', b) == Next(h, b)
  {
    hide Tiled, FreeTree, Blocks;
    TiledShape(h, tail, y, unit);
    TiledFrame(h, h', tail, y, unit);
    assert Marked(h', y, tree', b);
    FreePairFrame(h, h', tree, tree');
    assert Next(h', b) == Next(h, b);
  }

  lemma FreePairFrame(h: Heap, h': Heap, tree: Tree, tree': Tree)
    requires Blocks(tree) <= h.Keys && Blocks(tree') <= Blocks(tree) && h'.Keys == h.Keys && NoFreePair(h, tree)
    requires forall b | b in Blocks(tree') && b in h && b in h' :: h'[b].size == h[b].size
    ensures NoFreePair(h', tree')
  {
    forall b | b in Blocks(tree') ensures Next(h', b) !in Blocks(tree') { assert Next(h', b) == Next(h, b); }
  }

  /** The block on its way is settled as allocated. */
  lemma Allocated(h: Heap, h': Heap, tail: map<nat, nat>, root: nat, y: Layout, tree: Tree, unit: nat, b: nat)
    requires PoolOk(h, tail, root, y, tree, unit, b) && b in y.blocks && b in h && h' == h[b := h[b].(magic := MAGIC_A)]
    ensures PoolOk(h', tail, root, y, tree, unit, NIL)
  {
    hide Tiled, FreeTree, Blocks;
    TiledShape(h, tail, y, unit);
    TiledFrame(h, h', tail, y, unit);
    TreeFrame(h, h', tree, root);
    assert Marked(h', y, tree, NIL);
    FreePairFrame(h, h', tree, tree);
  }

  lemma TreeFrame(h: Heap, h': Heap, tree: Tree, root: nat)
    requires FreeTree(h, tree, root) && NIL !in h' && forall b | b in Blocks(tree) && b in h :: b in h' && h'[b] == h[b]
    ensures FreeTree(h', tree, root)
  {
    RootIn(h, tree, root);
    RepFrame(h, h', tree, root);
  }

  /** The block on its way joins the tree, its neighbours not being free. */
  lemma Settled(h: Heap, h': Heap, tail: map<nat, nat>, root: nat, root': nat, y: Layout, tree: Tree, tree': Tree,
      unit: nat, b: nat)
    requires PoolOk(h, tail, root, y, tree, unit, b) && b in y.blocks && b in h && b in tail
    requires Next(h, b) !in Blocks(tree) && tail[b] !in Blocks(tree)
    requires FreeTree(h', tree', root') && Blocks(tree') == Blocks(tree) + {b} && h'.Keys == h.Keys &&
        h'[b].magic == MAGIC_F
    requires OnlyLinks(h[b := h[b].(magic := MAGIC_F)], h', Blocks(tree'))
    ensures PoolOk(h', tail, root', y, tree', unit, NIL)
  {
    hide Tiled, FreeTree, Blocks;
    TiledShape(h, tail, y, unit);
    TiledAt(h, tail, y, unit, b);
    TiledFrame(h, h', tail, y, unit);
    forall c | c in Blocks(tree') ensures Next(h', c) !in Blocks(tree') {
      TiledAt(h, tail, y, unit, c);
    }
  }

  lemma SplitMarked(h: Heap, h': Heap, y: Layout, tree: Tree, q: nat, size: nat, t: nat)
    requires Marks(y) <= h.Keys && Marked(h, y, tree, NIL) && q in y.blocks - Blocks(tree) && q in h && size < h[q].size
    requires h' == h[q := h[q].(size := size)][t := At(h, t).(size := h[q].size - size)] && t !in Marks(y) && NIL !in h
    ensures Marked(h', y.(blocks := y.blocks + {t}), tree, t)
  {
    hide Blocks;
  }

  /** Cutting an allocated block in two: the second part is on its way to the tree. */
  lemma SplitOff(h: Heap, h': Heap, tail: map<nat, nat>, root: nat, y: Layout, tree: Tree, unit: nat, q: nat,
      size: nat, t: nat, e: nat)
    requires PoolOk(h, tail, root, y, tree, unit, NIL) && q in y.blocks - Blocks(tree) && q in h
    requires Units(size, unit) && size < h[q].size && Next(h, q) !in Blocks(tree) && t == q + size && e == q + h[q].size
    requires h' == h[q := h[q].(size := size)][t := At(h, t).(size := h[q].size - size)]
    ensures t !in Marks(y) && t in h' && h'[t].size == e - t && e !in Blocks(tree) && q !in Blocks(tree)
    ensures PoolOk(h', tail[t := q][e := t], root, y.(blocks := y.blocks + {t}), tree, unit, t)
  {
    hide Tiled, FreeTree, Blocks, Units;
    TiledShape(h, tail, y, unit);
    TiledAt(h, tail, y, unit, q);
    UnitsPositive(size, unit);
    InsideBlock(h, tail, y, unit, q, t);
    TiledSplit(h, h', tail, y, unit, q, size);
    TreeFrame(h, h', tree, root);
    var y', tail' := y.(blocks := y.blocks + {t}), tail[q + size := q][q + h[q].size := q + size];
    TiledShape(h', tail', y', unit);
    assert tail' == tail[t := q][e := t];
    SplitMarked(h, h', y, tree, q, size, t);
    forall b | b in Blocks(tree) ensures Next(h', b) !in Blocks(tree) { assert Next(h', b) == Next(h, b); }
  }

  /** Nothing starts inside a block. */
  lemma InsideBlock(h: Heap, tail: map<nat, nat>, y: Layout, unit: nat, q: nat, t: nat)
    requires Tiled(h, tail, y, unit) && q in Starts(y) && q in h && q < t < Next(h, q)
    ensures t !in Marks(y)
  {
    hide Tiled;
    if t in Marks(y) { TiledGap(h, tail, y, unit, q, t); }
  }

  /** Joining two neighbours that are not in the tree into the first; the second one's header is dead. */
  lemma Joined(h: Heap, h': Heap, tail: map<nat, nat>, root: nat, y: Layout, tree: Tree, unit: nat, x0: nat, p: nat,
      d: nat, x1: nat)
    requires PoolOk(h, tail, root, y, tree, unit, x0) && p in y.blocks - Blocks(tree) && p in h && d == Next(h, p)
    requires d in y.blocks - Blocks(tree) && d in h && Next(h, d) !in Blocks(tree)
    requires x0 == p || x0 == d || x0 == NIL
    requires x1 == p || (x1 == NIL && (h[p].magic == MAGIC_A || h[p].magic == MAGIC_I))
    requires h' == h[d := h[d].(magic := 0)][p := h[p].(size := h[p].size + h[d].size)]
    ensures p in h' && PoolOk(h', tail[Next(h', p) := p], root, y.(blocks := y.blocks - {d}), tree, unit, x1)
    ensures Next(h', p) == Next(h, d)
  {
    hide Tiled, FreeTree, Blocks, Units;
    TiledShape(h, tail, y, unit);
    TiledAt(h, tail, y, unit, p);
    assert d != p;
    TiledMerge(h, h', tail, y, unit, p, d);
    TreeFrame(h, h', tree, root);
    var y' := y.(blocks := y.blocks - {d});
    assert Marked(h', y', tree, x1);
    FreePairFrame(h, h', tree, tree);
  }

  /** Any block outside the tree may be taken to be on its way. */
  lemma OnItsWay(h: Heap, tail: map<nat, nat>, root: nat, y: Layout, tree: Tree, unit: nat, b: nat)
    requires PoolOk(h, tail, root, y, tree, unit, NIL) && b !in Blocks(tree)
    ensures PoolOk(h, tail, root, y, tree, unit, b)
  {}

  /** The neighbours of a free block are not free. */
  lemma FreeNeighbours(h: Heap, tail: map<nat, nat>, root: nat, y: Layout, tree: Tree, unit: nat, x: nat, b: nat)
    requires PoolOk(h, tail, root, y, tree, unit, x) && b in Blocks(tree)
    ensures b in h && b in tail && tail[b] !in Blocks(tree) && Next(h, b) !in Blocks(tree) && b in y.blocks && b != NIL
  {
    hide Tiled, FreeTree, Blocks;
    TiledBack(h, tail, y, unit, b);
    PairApart(h, tree, tail[b], b);
  }

  lemma PairApart(h: Heap, tree: Tree, c: nat, b: nat)
    requires Blocks(tree) <= h.Keys && NoFreePair(h, tree) && b in Blocks(tree) && c in h && Next(h, c) == b
    ensures c !in Blocks(tree)
  {}

  /** The heap once a new chunk's headers are written: leader, block, the rest if any, and end marker. */
  ghost predicate ChunkHeap(h: Heap, h': Heap, l: nat, t: nat, r: nat, e: nat) {
    && h'.Keys == h.Keys + {l, t, r, e}
    && (forall x | x in h && x != l && x != t && x != r && x != e :: x in h' && h'[x] == h[x])
    && l in h' && h'[l].magic == MAGIC_E && h'[l].size == t - l && h'[l].csize == e - l
    && t in h' && h'[t].magic == MAGIC_A && h'[t].size == r - t
    && r in h' && (r < e ==> h'[r].size == e - r)
    && e in h' && h'[e].magic == MAGIC_E
  }

  /** The layout with a new chunk. */
  ghost function WithChunk(y: Layout, l: nat, t: nat, r: nat, e: nat): Layout {
    Layout(y.blocks + (if r < e then {t, r} else {t}), y.leaders + {l}, y.ends + {e})
  }

  lemma NewChunk(h: Heap, h': Heap, tail: map<nat, nat>, tail': map<nat, nat>, root: nat, y: Layout, tree: Tree,
      unit: nat, l: nat, t: nat, r: nat, e: nat)
    requires PoolOk(h, tail, root, y, tree, unit, NIL) && 0 < l < t < r <= e && Unused(h, y, l, e + 1)
    requires ChunkHeap(h, h', l, t, r, e) && tail' == tail[t := l][r := t][e := if r < e then r else t]
    requires Units(t - l, unit) && Units(r - t, unit) && (r < e ==> Units(e - r, unit))
    ensures PoolOk(h', tail', root, WithChunk(y, l, t, r, e), tree, unit, if r < e then r else NIL)
    ensures l !in Blocks(tree) && t !in Blocks(tree) && r !in Blocks(tree) && e !in Blocks(tree)
  {
    hide Tiled, FreeTree, Blocks, Units;
    var y' := WithChunk(y, l, t, r, e);
    TiledShape(h, tail, y, unit);
    assert forall x | x in Marks(y) :: x != l && x != t && x != r && x != e;
    assert forall b | b in Blocks(tree) :: b in Marks(y);
    hide Marked, Unused, NoFreePair, ChunkHeap;
    ChunkHeads(h, h', y, l, t, r, e);
    TiledChunk(h, h', tail, tail', y, unit, l, t, r, e);
    TiledShape(h', tail', y', unit);
    NilAbsent(h, tree, root);
    ChunkMarked(h, h', y, y', tree, l, t, r, e);
    ChunkPairs(h, h', tree);
    TreeFrame(h, h', tree, root);
  }

  lemma ChunkHeads(h: Heap, h': Heap, y: Layout, l: nat, t: nat, r: nat, e: nat)
    requires ChunkHeap(h, h', l, t, r, e) && Marks(y) <= h.Keys && forall x | x in Marks(y) ::
        x != l && x != t && x != r && x != e
    ensures h'.Keys == h.Keys + {l, t, r, e} && l in h' && t in h' && r in h'
    ensures forall x | x in Marks(y) :: x in h && x in h' && h'[x] == h[x]
    ensures h'[l].size == t - l && h'[l].csize == e - l && h'[t].size == r - t && (r < e ==> h'[r].size == e - r)
  {}

  /** The magic numbers of a new chunk. */
  lemma ChunkMarked(h: Heap, h': Heap, y: Layout, y': Layout, tree: Tree, l: nat, t: nat, r: nat, e: nat)
    requires Marks(y) <= h.Keys && Marked(h, y, tree, NIL) && ChunkHeap(h, h', l, t, r, e) && NIL < l < t < r <= e &&
        NIL !in h
    requires forall x | x in Marks(y) :: x != l && x != t && x != r && x != e
    requires y' == Layout(y.blocks + (if r < e then {t, r} else {t}), y.leaders + {l}, y.ends + {e})
    requires Marks(y') <= h'.Keys
    ensures Marked(h', y', tree, if r < e then r else NIL)
  {
    hide Blocks;
    assert forall a | a in y.leaders + y.ends + y.blocks :: a in Marks(y) && a in h && h'[a] == h[a];
    NotMarked(h, h', y, y', l, t, r, e);
    NewMarks(h, h', y, y', tree, l, t, r, e);
  }

  lemma NewMarks(h: Heap, h': Heap, y: Layout, y': Layout, tree: Tree, l: nat, t: nat, r: nat, e: nat)
    requires Marks(y) <= h.Keys && Marked(h, y, tree, NIL) && NIL !in h && l < t < r <= e
    requires forall a | a in y.leaders + y.ends + y.blocks :: a in h && a in h' && h'[a] == h[a]
    requires forall x | x in y.leaders + y.ends + y.blocks :: x != l && x != t && x != r && x != e
    requires l in h' && t in h' && r in h' && e in h'
    requires h'[l].magic == MAGIC_E && h'[t].magic == MAGIC_A && h'[e].magic == MAGIC_E
    requires y' == Layout(y.blocks + (if r < e then {t, r} else {t}), y.leaders + {l}, y.ends + {e})
    requires Marks(y') <= h'.Keys && forall a | a in h' && a !in Marks(y') :: h'[a].magic == 0
    ensures Marked(h', y', tree, if r < e then r else NIL)
  {
    hide Blocks;
  }

  lemma NotMarked(h: Heap, h': Heap, y: Layout, y': Layout, l: nat, t: nat, r: nat, e: nat)
    requires Marks(y) <= h.Keys && ChunkHeap(h, h', l, t, r, e) && l < t < r <= e
    requires forall a | a in h && a !in Marks(y) :: h[a].magic == 0
    requires y' == Layout(y.blocks + (if r < e then {t, r} else {t}), y.leaders + {l}, y.ends + {e})
    ensures forall a | a in h' && a !in Marks(y') :: h'[a].magic == 0
  {}

  /** A new chunk has no free neighbours. */
  lemma ChunkPairs(h: Heap, h': Heap, tree: Tree)
    requires Blocks(tree) <= h.Keys && NoFreePair(h, tree) && forall b | b in Blocks(tree) :: b in h' && h'[b] == h[b]
    ensures Blocks(tree) <= h'.Keys && NoFreePair(h', tree)
  {
    forall b | b in Blocks(tree) ensures Next(h', b) !in Blocks(tree) { assert Next(h', b) == Next(h, b); }
  }

  lemma NilAbsent(h: Heap, tree: Tree, root: nat)
    requires FreeTree(h, tree, root)
    ensures NIL !in h
  {}
}
