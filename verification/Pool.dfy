// The tree allocator of emu/alloc.c: pooldel, pooladd, poolalloc and poolfree.

module Pools {
  import opened Lists
  import opened PoolTree
  import opened PoolRemove
  import opened PoolInsert
  import opened PoolArena
  import opened PoolState

  /** BHDRSIZE with four-byte words: magic and size before the data, and a tail of two words (include/pool.h:57). */
  const BHDRSIZE: nat := 16

  /**
   * The size of the block for a request: with header and tail, in whole units. Masking with ~quanta is this
   * when quanta is one less than a power of two, as in all three pools, where it is 31 (emu/alloc.c:43-45).
   */
  function Need(size: nat, quanta: nat): nat {
    (size + BHDRSIZE + quanta) / (quanta + 1) * (quanta + 1)
  }

  lemma NeedUnits(size: nat, quanta: nat)
    ensures Units(Need(size, quanta), quanta + 1)
    ensures size + BHDRSIZE <= Need(size, quanta) < size + BHDRSIZE + quanta + 1
  {
    var u := quanta + 1;
    var x := size + BHDRSIZE + quanta;
    var k := x / u;
    assert x == u * k + x % u;
    Commute(u, k);
    W.DivUnique(k * u, u, k, 0);
  }

  lemma Commute(a: int, b: int)
    ensures a * b == b * a
  {}

  /** The blocks of held are as they were. */
  ghost predicate Kept(h: Heap, h': Heap, held: set<nat>) {
    forall c | c in held :: c in h && c in h' && h'[c] == h[c]
  }

  /** The free blocks with their sizes. */
  ghost function FreeOf(h: Heap, tree: Tree): map<nat, nat> {
    map b | b in Blocks(tree) && b in h :: h[b].size
  }

  /** What giving back b does to the free blocks f: it takes in the free block behind it, n, and that before it, p. */
  ghost function GivenBack(f: map<nat, nat>, b: nat, size: nat, n: nat, p: nat): map<nat, nat> {
    (f - {n, p})[(if p in f then p else b) := (if p in f then f[p] else 0) + size + (if n in f then f[n] else 0)]
  }

  class Pool {
    var hdr: Heap
    var tail: map<nat, nat>
    var root: nat
    var chain: nat
    var maxsize: nat
    var quanta: nat
    var chunk: nat
    var cursize: nat
    var arenasize: nat
    var nalloc: nat
    var nfree: nat
    var nbrk: nat
    ghost var layout: Layout
    ghost var tree: Tree

    /** The allocated blocks. */
    ghost function Held(): set<nat>
      reads this
    {
      layout.blocks - Blocks(tree)
    }

    /** The free blocks, with their sizes. */
    ghost function Free(): map<nat, nat>
      reads this
    {
      FreeOf(hdr, tree)
    }

    ghost predicate Valid()
      reads this
    {
      && PoolOk(hdr, tail, root, layout, tree, quanta + 1, NIL)
      && Held() <= hdr.Keys && cursize == Total(hdr, Held())
      && Units(chunk, quanta + 1)
    }

    /** An entry of the table of pools (emu/alloc.c:40-47): sizes are given, and there is no memory yet. */
    constructor (maxsize: nat, quanta: nat, chunk: nat)
      requires Units(chunk, quanta + 1)
      ensures Valid() && Held() == {} && layout.blocks == {} && fresh(this)
      ensures this.maxsize == maxsize && this.quanta == quanta && this.chunk == chunk && arenasize == 0
    {
      hdr, tail, root, chain := map[], map[], NIL, NIL;
      this.maxsize, this.quanta, this.chunk := maxsize, quanta, chunk;
      cursize, arenasize, nalloc, nfree, nbrk := 0, 0, 0, 0, 0;
      layout, tree := Layout({}, {}, {}), Nil;
    }

    /** A block leaves its list: its two neighbours are linked to each other. */
    method Unlink(t: nat)
      requires t in hdr && hdr[t].prev in hdr && hdr[t].fwd in hdr
      modifies this`hdr
      ensures hdr == Unlinked(old(hdr), t)
    {
      var p := hdr[t].prev;
      hdr := hdr[p := hdr[p].(fwd := hdr[t].fwd)];
      var n := hdr[t].fwd;
      hdr := hdr[n := hdr[n].(prev := hdr[t].prev)];
    }

    /** The link to t in its parent q, or the root, becomes c. */
    method Redirect(t: nat, q: nat, c: nat)
      requires q != NIL ==> q in hdr
      modifies this`hdr, this`root
      ensures q == NIL ==> root == c && hdr == old(hdr)
      ensures q != NIL ==> root == old(root) && hdr == old(hdr)[q := Relink(old(hdr)[q], t, c)]
    {
      if q == NIL {
        root := c;
      } else {
        if hdr[q].left == t {
          hdr := hdr[q := hdr[q].(left := c)];
        } else {
          hdr := hdr[q := hdr[q].(right := c)];
        }
      }
    }

    /** c's parent becomes q, if c is a block. */
    method Adopt(c: nat, q: nat)
      requires c != NIL ==> c in hdr
      modifies this`hdr
      ensures hdr == if c == NIL then old(hdr) else old(hdr)[c := old(hdr)[c].(parent := q)]
    {
      if c != NIL {
        hdr := hdr[c := hdr[c].(parent := q)];
      }
    }

    /** pooldel's second case: the next block of the list takes t's place in the tree. */
    method Promote(t: nat, ghost s: Tree) returns (ghost s': Tree, ghost f: nat)
      requires NIL !in hdr && Rep(hdr, s, t) && Distinct(s) && s.Node? && |s.ring| >= 2 && t in hdr
      requires var q := hdr[t].parent; q !in Blocks(s) && (q != NIL ==> q in hdr)
      modifies this`hdr, this`root
      ensures s' == s.(ring := s.ring[1..]) && Rep(hdr, s', f) && ChildOf(hdr, f, old(hdr)[t].parent)
      ensures Outside(old(hdr), hdr, Blocks(s), old(hdr)[t].parent, t, f)
      ensures root == if old(hdr)[t].parent == NIL then f else old(root)
    {
      hide Ring, NoDup, Rep, Distinct, RemoveAt, Succ, Pred;
      ghost var h := hdr;
      NodeFacts(h, s, t);
      var fb := hdr[t].fwd;
      f := fb;
      var q := hdr[t].parent;
      hdr := hdr[fb := hdr[fb].(parent := q)];
      ghost var h1 := hdr;
      Redirect(t, q, fb);
      ghost var h2 := hdr;
      var l := hdr[t].left;
      hdr := hdr[fb := hdr[fb].(left := l)];
      Adopt(l, fb);
      ghost var h4 := hdr;
      var r := hdr[t].right;
      hdr := hdr[fb := hdr[fb].(right := r)];
      Adopt(r, fb);
      ghost var h6 := hdr;
      PromoteSteps(h, h1, h2, h4, h6, s, t, q, fb, l, r);
      Unlink(t);
      s' := s.(ring := s.ring[1..]);
      Promoted(h, hdr, s, t, q);
    }

    /** The way down to the smallest block of the right side, with its parent. */
    method FindSmallest(t: nat, ghost s: Tree) returns (f: nat, rp: nat)
      requires Rep(hdr, s, t) && Distinct(s) && s.Node? && t in hdr && s.right != Nil
      ensures LeftSpine(s.right, rp) && rp in Heads(s.right) && rp in hdr && Subtree(s.right, rp).left == Nil
      ensures rp == hdr[t].right <==> f == t
      ensures f != t ==> f in hdr && f == hdr[rp].parent && hdr[f].left == rp
    {
      hide Ring, NoDup, Rep, Distinct, Ordered, Blocks, Sizes, Subtree, Replace, LeftSpine;
      ghost var h, right := hdr, s.right;
      NodeRing(h, s, t);
      RootIn(h, right, h[t].right);
      TopNotBelow(s, t);
      f := t;
      rp := hdr[t].right;
      SpineStart(right);
      SubtreeRep(h, right, h[t].right, rp);
      NodeRing(h, Subtree(right, rp), rp);
      var c := hdr[rp].left;
      while c != NIL
        invariant LeftSpine(right, rp) && rp in Heads(right) && rp in hdr && Rep(h, Subtree(right, rp), rp)
        invariant c == hdr[rp].left && (c == NIL <==> Subtree(right, rp).left == Nil)
        invariant rp == h[t].right <==> f == t
        invariant f != t ==> f == h[rp].parent && f in h && h[f].left == rp
        decreases Subtree(right, rp)
      {
        ghost var sub := Subtree(right, rp);
        SubtreeParts(right, rp);
        NodeRing(h, sub, rp);
        RootIn(h, sub.left, c);
        SpineStep(right, rp, c);
        LeftIsNot(h, sub, rp, right, h[t].right);
        f := rp;
        rp := c;
        SubtreeRep(h, right, h[t].right, rp);
        NodeRing(h, Subtree(right, rp), rp);
        c := hdr[rp].left;
      }
    }

    /**
     * pooldel's third case with two children: the smallest block of the right side, and its list,
     * take t's place, but for the link above.
     */
    method Splice(t: nat, ghost s: Tree) returns (rp: nat, ghost s': Tree)
      requires NIL !in hdr && Rep(hdr, s, t) && Distinct(s) && Ordered(s) && s.Node? && t in hdr
      requires s.left != Nil && s.right != Nil
      modifies this`hdr
      ensures Rep(hdr, s', rp) && rp in hdr && rp in Blocks(s) - Elements(s.ring)
      ensures Blocks(s') == Blocks(s) - Elements(s.ring) && Sizes(s') <= Sizes(s) && Distinct(s') && Ordered(s')
      ensures OnlyLinks(old(hdr), hdr, Blocks(s) - Elements(s.ring))
    {
      hide Ring, NoDup, Rep, Distinct, Ordered, Blocks, Sizes, Subtree, Replace, LeftSpine, Heads;
      ghost var h, l0, r0 := hdr, hdr[t].left, hdr[t].right;
      NodeRing(h, s, t);
      var f;
      f, rp := FindSmallest(t, s);
      SmallestParts(h, s, t, f, rp);
      if f != t {
        var c := hdr[rp].right;
        hdr := hdr[f := hdr[f].(left := c)];
        Adopt(c, f);
        ghost var h2 := hdr;
        c := hdr[t].right;
        hdr := hdr[rp := hdr[rp].(right := c)];
        Adopt(c, rp);
        ghost var h4 := hdr;
        c := hdr[t].left;
        hdr := hdr[rp := hdr[rp].(left := c)];
        Adopt(c, rp);
        s' := SplicedDeep(h, h2, h4, hdr, s, t, f, rp);
      } else {
        var c := hdr[t].left;
        hdr := hdr[rp := hdr[rp].(left := c)];
        Adopt(c, rp);
        s' := SplicedNear(h, hdr, s, t, rp);
      }
    }

    /** pooldel: the block t, and no other, leaves the free tree. */
    method PoolDel(t: nat, ghost tree: Tree) returns (ghost tree': Tree)
      requires FreeTree(hdr, tree, root) && t in Blocks(tree)
      modifies this`hdr, this`root
      ensures FreeTree(hdr, tree', root) && Blocks(tree') == Blocks(tree) - {t} &&
          OnlyLinks(old(hdr), hdr, Blocks(tree))
    {
      hide Ring, NoDup, Rep, Distinct, Ordered, Blocks, Sizes, Heads, Subtree, Replace, Outside, OnlyLinks, Unlinked,
          FreeTree;
      ghost var h, root0 := hdr, root;
      ghost var a, i := Locate(h, tree, root, t);
      ghost var s := Subtree(tree, a);
      if hdr[t].parent == NIL && root != t {
        MemberLeaves(h, s, a, i);
        Unlink(t);
        ghost var s' := s.(ring := RemoveAt(s.ring, i));
        MemberOutside(h, hdr, s, a);
        TreeWithout(h, hdr, tree, root, a, s', a, t);
        return Replace(tree, a, s');
      }
      if hdr[t].fwd != t {
        ghost var s', f := Promote(t, s);
        PromotedTree(s, t);
        TreeWithout(h, hdr, tree, root0, a, s', f, t);
        return Replace(tree, a, s');
      }
      SingleRing(h, s, t);
      var rp;
      ghost var s' := Nil;
      if hdr[t].left == NIL {
        rp := hdr[t].right;
        s' := s.right;
      } else {
        if hdr[t].right == NIL {
          rp := hdr[t].left;
          s' := s.left;
        } else {
          rp, s' := Splice(t, s);
        }
      }
      ghost var h1 := hdr;
      SpliceKept(h, h1, s, t);
      var q := hdr[t].parent;
      Redirect(t, q, rp);
      Adopt(rp, q);
      Raised(h, h1, hdr, s, s', t, q, rp);
      TreeWithout(h, hdr, tree, root0, a, s', rp, t);
      tree' := Replace(tree, a, s');
    }

    /** q joins t's list behind t. */
    method LinkBehind(t: nat, q: nat)
      requires t in hdr && q in hdr && q != t && hdr[t].fwd in hdr
      modifies this`hdr
      ensures hdr == Linked(old(hdr), t, q)
    {
      hdr := hdr[q := hdr[q].(fwd := hdr[t].fwd)];
      var n := hdr[q].fwd;
      hdr := hdr[n := hdr[n].(prev := q)];
      hdr := hdr[q := hdr[q].(prev := t)];
      hdr := hdr[t := hdr[t].(fwd := q)];
    }

    /** pooladd: the block q, and no other, joins the free tree. */
    method PoolAdd(q: nat, ghost tree: Tree) returns (ghost tree': Tree)
      requires FreeTree(hdr, tree, root) && q in hdr && q !in Blocks(tree)
      modifies this`hdr, this`root
      ensures FreeTree(hdr, tree', root) && Blocks(tree') == Blocks(tree) + {q} && hdr.Keys == old(hdr).Keys
      ensures hdr[q].magic == MAGIC_F && OnlyLinks(old(hdr)[q := old(hdr)[q].(magic := MAGIC_F)], hdr, Blocks(tree'))
    {
      hide Ring, NoDup, Rep, Distinct, Ordered, Blocks, Sizes, Heads, Subtree, Replace, Linked, OnPath, OnlyLinks,
          FreeTree;
      hdr := hdr[q := hdr[q].(magic := MAGIC_F)];
      hdr := hdr[q := hdr[q].(left := NIL)];
      hdr := hdr[q := hdr[q].(right := NIL)];
      hdr := hdr[q := hdr[q].(parent := NIL)];
      hdr := hdr[q := hdr[q].(fwd := q)];
      hdr := hdr[q := hdr[q].(prev := q)];
      ghost var h := hdr;
      Prepared(old(hdr), h, tree, root, q);
      var t := root;
      if t == NIL {
        root := q;
        tree' := FirstBlock(h, tree, q);
        AddedLinks(old(hdr), h, h, Blocks(tree'), q);
        return;
      }
      var size := hdr[q].size;
      var tp := NIL;
      PathStart(h, tree, root, size);
      while t != NIL
        invariant hdr == h && root == old(root)
        invariant t != NIL ==> t in h && OnPath(tree, size, t) && t in Heads(tree)
        invariant t == NIL ==> tp in h && OnPath(tree, size, tp) && tp in Heads(tree) && size != Subtree(tree, tp).size
                               && h[tp].size == Subtree(tree, tp).size
                               && if size < h[tp].size then h[tp].left == NIL else h[tp].right == NIL
        decreases if t == NIL then Nil else Subtree(tree, t)
      {
        JoinSite(h, tree, root, t, q);
        if size == hdr[t].size {
          JoinsList(h, tree, root, t, q);
          LinkBehind(t, q);
          AddedLinks(old(hdr), h, hdr, Blocks(tree) + {q}, q);
          return Replace(tree, t, Subtree(tree, t).(ring := InsertSecond(Subtree(tree, t).ring, q)));
        }
        tp := t;
        Descend(h, tree, root, t, size);
        if size < hdr[t].size {
          t := hdr[t].left;
        } else {
          t := hdr[t].right;
        }
      }
      hdr := hdr[q := hdr[q].(parent := tp)];
      if size < hdr[tp].size {
        hdr := hdr[tp := hdr[tp].(left := q)];
      } else {
        hdr := hdr[tp := hdr[tp].(right := q)];
      }
      JoinSite(h, tree, root, tp, q);
      tree' := JoinsLeaf(h, hdr, tree, root, tp, q);
      AddedLinks(old(hdr), h, hdr, Blocks(tree'), q);
    }

    /** The descent of poolalloc: a free block of the least size that is enough. */
    method Search(size: nat) returns (q: nat)
      requires FreeTree(hdr, tree, root)
      ensures q == NIL ==> forall b | b in Blocks(tree) :: b in hdr && hdr[b].size < size
      ensures q != NIL ==> q in Blocks(tree) && q in hdr && hdr[q].size >= size
      ensures q != NIL ==>
          forall b | b in Blocks(tree) :: b in hdr && (hdr[b].size >= size ==> hdr[b].size >= hdr[q].size)
    {
      hide Ring, Rep, Distinct, Ordered, Sizes, Blocks, Heads, Subtree, FreeTree, OnPath;
      var t := root;
      q := NIL;
      ghost var sub := tree;
      SearchStart(hdr, tree, root, size);
      while t != NIL
        invariant t == NIL <==> sub == Nil
        invariant t != NIL ==> t in hdr && t in Heads(tree) && OnPath(tree, size, t) && sub == Subtree(tree, t)
        invariant q != NIL ==>
            q in Heads(tree) && q in hdr && hdr[q].size > size && forall x | x in Sizes(sub) :: x < hdr[q].size
        invariant forall x | x in Sizes(tree) && x >= size :: x in Sizes(sub) || (q != NIL && x >= hdr[q].size)
        decreases sub
      {
        SearchNode(hdr, tree, root, t);
        if hdr[t].size == size {
          q := t;
          FoundFit(hdr, tree, root, size, q);
          return;
        }
        Descend(hdr, tree, root, t, size);
        if size < hdr[t].size {
          q := t;
          sub := sub.left;
          t := hdr[t].left;
        } else {
          sub := sub.right;
          t := hdr[t].right;
        }
      }
      NoSizes();
      FoundFit(hdr, tree, root, size, q);
    }

    /** A free block leaves the tree. */
    method Detach(c: nat)
      requires PoolOk(hdr, tail, root, layout, tree, quanta + 1, NIL) && c in Blocks(tree)
      modifies this`hdr, this`root, this`tree
      ensures PoolOk(hdr, tail, root, layout, tree, quanta + 1, c) && Blocks(tree) == old(Blocks(tree)) - {c}
      ensures c in layout.blocks && c in old(hdr) && c in hdr && hdr.Keys == old(hdr).Keys && c in tail
      ensures hdr[c].magic == MAGIC_F && Next(hdr, c) !in Blocks(tree) && tail[c] !in Blocks(tree)
      ensures forall a | a in hdr && a !in old(Blocks(tree)) :: hdr[a] == old(hdr)[a]
      ensures forall a | a in hdr :: hdr[a].size == old(hdr)[a].size
      ensures Free() == old(Free()) - {c}
      ensures layout.blocks - Blocks(tree) == old(Held()) + {c} && c !in old(Held())
    {
      hide Tiled, FreeTree, Blocks, Marked, NoFreePair, PoolOk;
      ghost var h, r0, t0 := hdr, root, tree;
      OkTree(hdr, tail, root, layout, tree, quanta + 1, NIL);
      FreeNeighbours(hdr, tail, root, layout, tree, quanta + 1, NIL, c);
      tree := PoolDel(c, tree);
      TakenOut(h, hdr, tail, r0, root, layout, t0, tree, quanta + 1, c);
      SizesLess(h, hdr, t0, tree, {c});
      HeldTaken(layout, t0, tree, c);
    }

    /** A free block leaves the tree and is marked allocated. */
    method TakeOut(b: nat)
      requires PoolOk(hdr, tail, root, layout, tree, quanta + 1, NIL) && b in Blocks(tree)
      modifies this`hdr, this`root, this`tree
      ensures PoolOk(hdr, tail, root, layout, tree, quanta + 1, NIL) && Blocks(tree) == old(Blocks(tree)) - {b}
      ensures b in hdr && b in old(hdr) && hdr[b].magic == MAGIC_A && hdr[b].size == old(hdr)[b].size &&
          Next(hdr, b) !in Blocks(tree)
      ensures b in layout.blocks && hdr.Keys == old(hdr).Keys
      ensures forall c | c in hdr && c !in old(Blocks(tree)) :: hdr[c] == old(hdr)[c]
      ensures forall c | c in hdr :: hdr[c].size == old(hdr)[c].size
      ensures Free() == old(Free()) - {b}
    {
      hide Tiled, FreeTree, Blocks, Marked, NoFreePair;
      ghost var h := hdr;
      Detach(b);
      ghost var h1 := hdr;
      hdr := hdr[b := hdr[b].(magic := MAGIC_A)];
      Allocated(h1, hdr, tail, root, layout, tree, quanta + 1, b);
      OkTree(h1, tail, root, layout, tree, quanta + 1, b);
      SizesLess(h1, hdr, tree, tree, {});
    }

    /** A block on its way joins the tree. */
    method Settle(t: nat)
      requires PoolOk(hdr, tail, root, layout, tree, quanta + 1, t) && t in layout.blocks && t in hdr && t in tail
      requires Next(hdr, t) !in Blocks(tree) && tail[t] !in Blocks(tree)
      modifies this`hdr, this`root, this`tree
      ensures PoolOk(hdr, tail, root, layout, tree, quanta + 1, NIL) && Blocks(tree) == old(Blocks(tree)) + {t}
      ensures hdr.Keys == old(hdr).Keys && forall a | a in hdr && a !in Blocks(tree) :: hdr[a] == old(hdr)[a]
      ensures t in old(hdr) && Free() == old(Free())[t := old(hdr)[t].size]
      ensures Held() == layout.blocks - {t} - old(Blocks(tree)) && t !in old(Blocks(tree))
    {
      hide Tiled, FreeTree, Blocks, Marked, NoFreePair, PoolOk;
      ghost var h, r0, t0 := hdr, root, tree;
      OkTree(hdr, tail, root, layout, tree, quanta + 1, t);
      OnWay(hdr, tail, root, layout, tree, quanta + 1, t);
      tree := PoolAdd(t, tree);
      Settled(h, hdr, tail, r0, root, layout, t0, tree, quanta + 1, t);
      SizesMore(h, hdr, t0, tree, t);
    }

    /** poolalloc's split: q keeps size, and the rest becomes a free block. */
    method Split(q: nat, size: nat)
      requires PoolOk(hdr, tail, root, layout, tree, quanta + 1, NIL) && q in layout.blocks - Blocks(tree) && q in hdr
      requires Units(size, quanta + 1) && size < hdr[q].size && Next(hdr, q) !in Blocks(tree)
      modifies this`hdr, this`tail, this`root, this`tree, this`layout
      ensures PoolOk(hdr, tail, root, layout, tree, quanta + 1, NIL) && Held() == old(Held())
      ensures q in hdr && hdr[q] == old(hdr)[q].(size := size)
      ensures Free() == old(Free())[q + size := old(hdr)[q].size - size]
      ensures forall c | c in old(Held()) && c in old(hdr) && c != q :: c in hdr && hdr[c] == old(hdr)[c]
    {
      hide Tiled, FreeTree, Blocks, Marked, NoFreePair, Units, PoolOk, FreeOf;
      var t := CutInTwo(q, size);
      Settle(t);
    }

    /** The two headers and the two tails; the second part is on its way to the tree. */
    method CutInTwo(q: nat, size: nat) returns (t: nat)
      requires PoolOk(hdr, tail, root, layout, tree, quanta + 1, NIL) && q in layout.blocks - Blocks(tree) && q in hdr
      requires Units(size, quanta + 1) && size < hdr[q].size && Next(hdr, q) !in Blocks(tree)
      modifies this`hdr, this`tail, this`layout
      ensures PoolOk(hdr, tail, root, layout, tree, quanta + 1, t) && t == q + size && q != t
      ensures layout.blocks == old(layout).blocks + {t} && t !in old(layout).blocks
      ensures t in hdr && hdr[t].size == old(hdr)[q].size - size && t in tail
      ensures Next(hdr, t) !in Blocks(tree) && tail[t] !in Blocks(tree)
      ensures q in hdr && hdr[q] == old(hdr)[q].(size := size) && Free() == old(Free())
      ensures forall c | c in old(hdr) && c != q && c != t :: c in hdr && hdr[c] == old(hdr)[c]
    {
      hide Tiled, FreeTree, Blocks, Marked, NoFreePair, Units, PoolOk;
      OkTree(hdr, tail, root, layout, tree, quanta + 1, NIL);
      TiledIs(hdr, tail, root, layout, tree, quanta + 1, NIL);
      ghost var h, tail0, e := hdr, tail, q + hdr[q].size;
      t := q + size;
      var ns := hdr[q].size - size;
      hdr := hdr[q := hdr[q].(size := size)];
      tail := tail[q + hdr[q].size := q];
      hdr := hdr[t := At(hdr, t).(size := ns)];
      tail := tail[t + hdr[t].size := t];
      SplitPoint(h, tail0, layout, quanta + 1, q, t, size);
      SplitOff(h, hdr, tail0, root, layout, tree, quanta + 1, q, size, t, e);
      layout := layout.(blocks := layout.blocks + {t});
      SizesLess(h, hdr, tree, tree, {});
    }

    /** The rest of a new chunk joins the free tree, and the end is marked. */
    method FreeRest(q: nat, ghost e: nat, ghost hB: Heap)
      requires q in hdr && e == q + hdr[q].size && e != NIL && e != q && hB == hdr[e := At(hdr, e).(magic := MAGIC_E)]
      requires PoolOk(hB, tail, root, layout, tree, quanta + 1, q) && q in layout.blocks && q in tail
      requires FreeTree(hdr, tree, root) && e !in Blocks(tree) && q !in Blocks(tree) && tail[q] !in Blocks(tree)
      modifies this`hdr, this`root, this`tree
      ensures PoolOk(hdr, tail, root, layout, tree, quanta + 1, NIL) && Blocks(tree) == old(Blocks(tree)) + {q}
      ensures hdr.Keys == hB.Keys && forall c | c in hB && c !in Blocks(tree) :: hdr[c] == hB[c]
      ensures forall c | c in hB :: hdr[c].size == hB[c].size
    {
      hide Tiled, FreeTree, Blocks, Marked, NoFreePair, Units, Unused, PoolOk;
      ghost var hA, r0, tree0 := hdr, root, tree;
      tree := PoolAdd(q, tree);
      ghost var h1 := hdr;
      var end := q + hdr[q].size;
      hdr := hdr[end := At(hdr, end).(magic := MAGIC_E)];
      EndMarked(hA, h1, hB, hdr, q, e, tree, root);
      Settled(hB, hdr, tail, r0, root, layout, tree0, tree, quanta + 1, q);
    }

    /** The header and tail of the part behind the block asked for; hB is the heap with the end marker too. */
    method WriteRest(t: nat, ns: nat, ghost h: Heap, ghost tail0: map<nat, nat>, ghost l: nat, ghost r: nat,
        ghost e: nat)
        returns (ghost hB: Heap)
      requires PoolOk(h, tail0, root, layout, tree, quanta + 1, NIL) && 0 < l < t < r < e && Unused(h, layout, l, e + 1)
      requires HeadsLaid(h, hdr, l, t, r, e) && tail == tail0[t := l][r := t] && ns == e - r
      requires Units(t - l, quanta + 1) && Units(r - t, quanta + 1) && Units(e - r, quanta + 1)
      modifies this`hdr, this`tail, this`layout
      ensures layout == Layout(old(layout).blocks + {t, r}, old(layout).leaders + {l}, old(layout).ends + {e})
      ensures r in hdr && hdr[r].size == e - r && hB == hdr[e := At(hdr, e).(magic := MAGIC_E)]
      ensures PoolOk(hB, tail, root, layout, tree, quanta + 1, r) && r in tail && FreeTree(hdr, tree, root)
      ensures e !in Blocks(tree) && r !in Blocks(tree) && tail[r] !in Blocks(tree)
      ensures t !in Blocks(tree) && t !in old(layout).blocks && r !in old(layout).blocks && l !in Blocks(tree)
      ensures t in old(hdr) && l in old(hdr) && t in hB && l in hB && hB[t] == old(hdr)[t] && hB[l] == old(hdr)[l]
      ensures forall c | c in old(layout).blocks && c in h :: c in hB && hB[c] == h[c]
    {
      hide Tiled, FreeTree, Blocks, Marked, NoFreePair, Units, Unused, PoolOk;
      ghost var y0, h0 := layout, hdr;
      ChunkApart(h, y0, tree, root, tail0, quanta + 1, l, e);
      var q := t + hdr[t].size;
      hdr := hdr[q := At(hdr, q).(size := ns)];
      tail := tail[q + hdr[q].size := q];
      hB := hdr[e := At(hdr, e).(magic := MAGIC_E)];
      RestWritten(h, h0, hdr, hB, l, t, r, e);
      hide HeadsLaid, ChunkHeap;
      NewChunk(h, hB, tail0, tail, root, y0, tree, quanta + 1, l, t, r, e);
      TreeFrame(h, hdr, tree, root);
      layout := Layout(y0.blocks + {t, r}, y0.leaders + {l}, y0.ends + {e});
    }

    /** The part of a new chunk behind the block asked for. */
    method AddRest(t: nat, ns: nat, ghost h: Heap, ghost tail0: map<nat, nat>, ghost l: nat, ghost r: nat, ghost e: nat)
      requires PoolOk(h, tail0, root, layout, tree, quanta + 1, NIL) && 0 < l < t < r < e && Unused(h, layout, l, e + 1)
      requires HeadsLaid(h, hdr, l, t, r, e) && tail == tail0[t := l][r := t] && ns == e - r
      requires Units(t - l, quanta + 1) && Units(r - t, quanta + 1) && Units(e - r, quanta + 1)
      modifies this`hdr, this`tail, this`root, this`tree, this`layout
      ensures PoolOk(hdr, tail, root, layout, tree, quanta + 1, NIL)
      ensures t !in old(Held()) && Held() == old(Held()) + {t}
      ensures t in hdr && t in old(hdr) && hdr[t] == old(hdr)[t] && l in old(hdr) && l in hdr && hdr[l] == old(hdr)[l]
      ensures forall c | c in old(Held()) && c in h :: c in hdr && hdr[c] == h[c]
      ensures Free() == FreeOf(h, old(tree))[r := e - r]
    {
      hide Tiled, FreeTree, Blocks, Marked, NoFreePair, Units, Unused, PoolOk, HeadsLaid;
      ghost var tree0, y0 := tree, layout;
      OkTree(h, tail0, root, layout, tree, quanta + 1, NIL);
      HeadsAt(h, hdr, l, t, r, e);
      var q := t + hdr[t].size;
      ghost var hB := WriteRest(t, ns, h, tail0, l, r, e);
      FreeRest(q, e, hB);
      HeldGrown(y0, layout, tree0, tree, t, r);
      SizesMore(h, hdr, tree0, tree, r);
    }

    /** No part behind it: just the end marker. */
    method EndOnly(t: nat, ghost h: Heap, ghost tail0: map<nat, nat>, ghost l: nat, ghost e: nat)
      requires PoolOk(h, tail0, root, layout, tree, quanta + 1, NIL) && 0 < l < t < e && Unused(h, layout, l, e + 1)
      requires HeadsLaid(h, hdr, l, t, e, e) && tail == tail0[t := l][e := t]
      requires Units(t - l, quanta + 1) && Units(e - t, quanta + 1)
      modifies this`hdr, this`layout
      ensures PoolOk(hdr, tail, root, layout, tree, quanta + 1, NIL)
      ensures t !in old(Held()) && Held() == old(Held()) + {t}
      ensures t in hdr && t in old(hdr) && hdr[t] == old(hdr)[t] && l in old(hdr) && l in hdr && hdr[l] == old(hdr)[l]
      ensures forall c | c in old(Held()) && c in h :: c in hdr && hdr[c] == h[c]
      ensures Free() == FreeOf(h, tree)
    {
      hide Tiled, FreeTree, Blocks, Marked, NoFreePair, Units, Unused, PoolOk;
      ghost var y0, h0 := layout, hdr;
      ChunkApart(h, y0, tree, root, tail0, quanta + 1, l, e);
      HeadsAt(h, hdr, l, t, e, e);
      var end := t + hdr[t].size;
      hdr := hdr[end := At(hdr, end).(magic := MAGIC_E)];
      EndWritten(h, h0, hdr, l, t, e);
      hide HeadsLaid, ChunkHeap;
      assert tail == tail0[t := l][e := t][e := t];
      NewChunk(h, hdr, tail0, tail, root, y0, tree, quanta + 1, l, t, e, e);
      layout := Layout(y0.blocks + {t}, y0.leaders + {l}, y0.ends + {e});
      HeldAdded(y0, layout, tree, t);
      SizesLess(h, hdr, tree, tree, {});
    }

    /** The new chunk of poolalloc: a leader, the block asked for, the rest in the free tree, and an end marker. */
    method Grow(l: nat, size: nat, ns0: nat) returns (t: nat)
      requires PoolOk(hdr, tail, root, layout, tree, quanta + 1, NIL) && l != NIL
      requires Units(size, quanta + 1) && Units(ns0, quanta + 1) && size <= ns0
      requires Unused(hdr, layout, l, l + quanta + 1 + ns0 + 1)
      modifies this`hdr, this`tail, this`root, this`tree, this`layout, this`chain
      ensures PoolOk(hdr, tail, root, layout, tree, quanta + 1, NIL)
      ensures t == l + quanta + 1 && t !in old(Held()) && Held() == old(Held()) + {t}
      ensures t in hdr && hdr[t].magic == MAGIC_A && hdr[t].size == size
      ensures forall c | c in old(Held()) && c in old(hdr) :: c in hdr && hdr[c] == old(hdr)[c]
      ensures chain == l && l in hdr && hdr[l].clink == old(chain)
      ensures Free() == if ns0 > size then old(Free())[t + size := ns0 - size] else old(Free())
    {
      hide Tiled, FreeTree, Blocks, Marked, NoFreePair, Units, Unused, PoolOk;
      ghost var h: Heap, tail0: map<nat, nat> := hdr, tail;
      var ldr := quanta + 1;
      var ns := ns0;
      UnitsPositive(size, quanta + 1);
      hdr := hdr[l := At(hdr, l).(magic := MAGIC_E, size := ldr, csize := ns + ldr, clink := chain)];
      chain := l;
      tail := tail[l + hdr[l].size := l];
      t := l + hdr[l].size;
      hdr := hdr[t := At(hdr, t).(magic := MAGIC_A, size := size)];
      tail := tail[t + hdr[t].size := t];
      ns := ns - size;
      ghost var r: nat, e: nat := t + size, t + ns0;
      UnitsLeader(quanta);
      if ns > 0 {
        UnitsSum(ns0, size, quanta + 1);
        AddRest(t, ns, h, tail0, l, r, e);
      } else {
        EndOnly(t, h, tail0, l, e);
      }
    }

    /** The size of the chunk a request would ask for: ns, besides leader and end marker. */
    function ChunkSize(size: nat): nat
      reads this
    {
      if size > chunk then size else chunk
    }

    /**
     * poolalloc, for a request of size0 bytes; brk is what sbrk would give, or NIL. The block is the least
     * free one that fits, cut if the rest is worth it; memory is asked for only when none fits.
     */
    method PoolAlloc(size0: nat, brk: nat) returns (b: nat)
      requires Valid()
      requires brk != NIL ==> Unused(hdr, layout, brk, brk + quanta + 1 + ChunkSize(Need(size0, quanta)) + 1)
      modifies this
      ensures Valid() && quanta == old(quanta) && chunk == old(chunk) && maxsize == old(maxsize)
      ensures nalloc == old(nalloc) + 1 && nfree == old(nfree)
      ensures forall c | c in old(Held()) :: c in old(hdr) && c in hdr && hdr[c] == old(hdr)[c]
      ensures b == NIL ==>
          Held() == old(Held()) && hdr == old(hdr) && cursize == old(cursize) && Blocks(tree) == old(Blocks(tree))
      ensures b != NIL ==> b !in old(Held()) && Held() == old(Held()) + {b} && b in hdr
                           && hdr[b].magic == MAGIC_A && hdr[b].size >= Need(size0, quanta) &&
                               cursize == old(cursize) + hdr[b].size
      ensures (exists c :: c in old(Blocks(tree)) && c in old(hdr) && old(hdr)[c].size >= Need(size0, quanta)) ==>
        && b in old(Blocks(tree)) && b in old(hdr) && b in hdr && arenasize == old(arenasize) && nbrk == old(nbrk)
        && (forall c | c in old(Blocks(tree)) && c in old(hdr) && old(hdr)[c].size >= Need(size0, quanta) ::
            old(hdr)[c].size >= old(hdr)[b].size)
        && var size := Need(size0, quanta); var whole := old(hdr)[b].size;
           && hdr[b].size == (if whole == size || whole - size < size / 4 then whole else size)
           && Free() == (if whole == size || whole - size < size / 4 then old(Free()) - {b}
                         else (old(Free()) - {b})[b + size := whole - size])
      ensures (forall c | c in old(Blocks(tree)) && c in old(hdr) :: old(hdr)[c].size < Need(size0, quanta)) ==>
        var alloc := old(ChunkSize(Need(size0, quanta))) + quanta + 1 + 4;
        if old(arenasize) + alloc > maxsize then b == NIL && arenasize == old(arenasize) && nbrk == old(nbrk)
        else arenasize == old(arenasize) + alloc && nbrk == old(nbrk) + 1 && b == if brk == NIL then NIL else brk + quanta + 1
      ensures b == NIL ==> Free() == old(Free())
      ensures b != NIL && (forall c | c in old(Blocks(tree)) && c in old(hdr) :: old(hdr)[c].size < Need(size0, quanta)) ==>
        var size, ns := Need(size0, quanta), old(ChunkSize(Need(size0, quanta)));
        hdr[b].size == size && Free() == if ns > size then old(Free())[b + size := ns - size] else old(Free())
    {
      hide Tiled, FreeTree, Blocks, Marked, NoFreePair, Units, Unused, Total, Need, PoolOk, FreeOf;
      var size := Need(size0, quanta);
      NeedUnits(size0, quanta);
      nalloc := nalloc + 1;
      OkTree(hdr, tail, root, layout, tree, quanta + 1, NIL);
      var q := Search(size);
      if q != NIL {
        TakeFit(q, size);
        return q;
      }
      b := NewMemory(size, brk);
    }

    /** poolalloc once it has found a block: taken out, and cut if the rest is worth it. */
    method TakeFit(q: nat, size: nat)
      requires Valid() && q in Blocks(tree) && q in hdr && hdr[q].size >= size && Units(size, quanta + 1)
      modifies this`hdr, this`tail, this`root, this`tree, this`layout, this`cursize
      ensures Valid() && Kept(old(hdr), hdr, old(Held())) && q !in old(Held()) && Held() == old(Held()) + {q}
      ensures q in old(hdr) && q in hdr && hdr[q].magic == MAGIC_A && hdr[q].size >= size &&
          cursize == old(cursize) + hdr[q].size
      ensures var whole := old(hdr)[q].size;
        && hdr[q].size == (if whole == size || whole - size < size / 4 then whole else size)
        && Free() == (if whole == size || whole - size < size / 4 then old(Free()) - {q}
                      else (old(Free()) - {q})[q + size := whole - size])
    {
      hide Tiled, FreeTree, Blocks, Marked, NoFreePair, Units, Unused, Total, PoolOk, FreeOf;
      ghost var h, held := hdr, Held();
      OkTree(hdr, tail, root, layout, tree, quanta + 1, NIL);
      TakeOut(q);
      HeldTaken(layout, old(tree), tree, q);
      assert Kept(h, hdr, held);
      if hdr[q].size != size {
        var frag := hdr[q].size - size;
        if frag < size / 4 {
        } else {
          Split(q, size);
        }
      }
      cursize := cursize + hdr[q].size;
      TotalAdd(h, hdr, held, q);
    }

    /** poolalloc when no free block fits: a new chunk, if the pool may grow and there is memory. */
    method NewMemory(size: nat, brk: nat) returns (b: nat)
      requires Valid() && Units(size, quanta + 1)
      requires brk != NIL ==> Unused(hdr, layout, brk, brk + quanta + 1 + ChunkSize(size) + 1)
      modifies this`hdr, this`tail, this`root, this`tree, this`layout, this`cursize, this`arenasize, this`nbrk,
          this`chain
      ensures Valid() && Kept(old(hdr), hdr, old(Held()))
      ensures b == NIL ==> Held() == old(Held()) && hdr == old(hdr) && cursize == old(cursize) && tree == old(tree)
      ensures b != NIL ==> b !in old(Held()) && Held() == old(Held()) + {b} && b in hdr
                           && hdr[b].magic == MAGIC_A && hdr[b].size == size && cursize == old(cursize) + hdr[b].size
      ensures b != NIL ==> var ns := old(ChunkSize(size));
        Free() == if ns > size then old(Free())[b + size := ns - size] else old(Free())
      ensures var alloc := old(ChunkSize(size)) + quanta + 1 + 4;
        if old(arenasize) + alloc > maxsize then b == NIL && arenasize == old(arenasize) && nbrk == old(nbrk)
        else arenasize == old(arenasize) + alloc && nbrk == old(nbrk) + 1 && b == if brk == NIL then NIL else brk + quanta + 1
    {
      hide Tiled, FreeTree, Blocks, Marked, NoFreePair, Units, Unused, Total, PoolOk;
      ghost var h, held := hdr, Held();
      OkTree(hdr, tail, root, layout, tree, quanta + 1, NIL);
      var ns := chunk;
      if size > ns {
        ns := size;
      }
      var alloc := ns + (quanta + 1) + 4;
      arenasize := arenasize + alloc;
      if arenasize > maxsize {
        arenasize := arenasize - alloc;
        return NIL;
      }
      nbrk := nbrk + 1;
      if brk == NIL {
        return NIL;
      }
      b := Grow(brk, size, ns);
      cursize := cursize + hdr[b].size;
      TotalAdd(h, hdr, held, b);
    }

    /** poolfree's join with the next block, which is free. */
    method JoinForward(b: nat, c: nat)
      requires PoolOk(hdr, tail, root, layout, tree, quanta + 1, NIL) && b in Held() && b in hdr &&
          c == Next(hdr, b) && c in Blocks(tree)
      modifies this`hdr, this`tail, this`root, this`tree, this`layout
      ensures PoolOk(hdr, tail, root, layout, tree, quanta + 1, NIL) && Held() == old(Held()) && b in hdr &&
          Next(hdr, b) !in Blocks(tree)
      ensures Blocks(tree) == old(Blocks(tree)) - {c} && Free() == old(Free()) - {c}
      ensures c in old(hdr) && hdr[b].size == old(hdr)[b].size + old(hdr)[c].size && b in tail && tail[b] == old(tail)[b]
      ensures forall a | a in old(Held()) && a in old(hdr) && a != b :: a in hdr && hdr[a] == old(hdr)[a]
    {
      hide Tiled, FreeTree, Blocks, Marked, NoFreePair, Units, PoolOk;
      ghost var h, y0 := hdr, layout;
      OkTree(hdr, tail, root, layout, tree, quanta + 1, NIL);
      MagicTells(hdr, tail, root, layout, tree, quanta + 1, NIL, b);
      Detach(c);
      OkTree(hdr, tail, root, layout, tree, quanta + 1, c);
      ghost var h1, tail0: map<nat, nat> := hdr, tail;
      hdr := hdr[c := hdr[c].(magic := 0)];
      hdr := hdr[b := hdr[b].(size := hdr[b].size + hdr[c].size)];
      tail := tail[b + hdr[b].size := b];
      assert h1[b] == h[b];
      TiledOf(h1, tail0, root, layout, tree, quanta + 1, c, b);
      Joined(h1, hdr, tail0, root, layout, tree, quanta + 1, c, b, c, NIL);
      layout := layout.(blocks := layout.blocks - {c});
      SizesLess(h1, hdr, tree, tree, {});
    }

    /** poolfree's join with the block before, which is free and is now on its way with b in it. */
    method JoinBackward(b: nat, c: nat)
      requires PoolOk(hdr, tail, root, layout, tree, quanta + 1, NIL) && b in Held() && b in hdr &&
          Next(hdr, b) !in Blocks(tree)
      requires b in tail && c == tail[b] && c in Blocks(tree)
      modifies this`hdr, this`tail, this`root, this`tree, this`layout
      ensures PoolOk(hdr, tail, root, layout, tree, quanta + 1, c) && c in layout.blocks && c in hdr && c in tail
      ensures Next(hdr, c) !in Blocks(tree) && tail[c] !in Blocks(tree)
      ensures layout.blocks - {c} - Blocks(tree) == old(Held()) - {b} && Blocks(tree) == old(Blocks(tree)) - {c} &&
          c !in old(Held())
      ensures c in old(hdr) && hdr[c].size == old(hdr)[c].size + old(hdr)[b].size && Free() == old(Free()) - {c}
      ensures forall a | a in old(Held()) && a in old(hdr) && a != b :: a in hdr && hdr[a] == old(hdr)[a]
    {
      hide Tiled, FreeTree, Blocks, Marked, NoFreePair, Units, PoolOk;
      ghost var h, y0 := hdr, layout;
      TiledOf(h, tail, root, layout, tree, quanta + 1, NIL, b);
      Detach(c);
      OkTree(hdr, tail, root, layout, tree, quanta + 1, c);
      ghost var h1, tail0: map<nat, nat> := hdr, tail;
      TiledOf(h1, tail0, root, layout, tree, quanta + 1, c, c);
      hdr := hdr[b := hdr[b].(magic := 0)];
      hdr := hdr[c := hdr[c].(size := hdr[c].size + hdr[b].size)];
      tail := tail[c + hdr[c].size := c];
      assert h1[b] == h[b];
      Joined(h1, hdr, tail0, root, layout, tree, quanta + 1, c, c, b, c);
      assert tail[c] == tail0[c] && Next(hdr, c) == Next(h1, b);
      layout := layout.(blocks := layout.blocks - {b});
      SizesLess(h1, hdr, tree, tree, {});
    }

    /**
     * poolfree, of an address poolalloc gave out at some time. It panics exactly when the block is not allocated
     * now; otherwise its bytes are free again, joined with whatever is free on either side. D2B looks only at the
     * magic number, so an address inside a block whose user wrote one there is beyond this heap of headers.
     */
    method PoolFree(b0: nat) returns (ok: bool)
      requires Valid()
      modifies this
      ensures ok <==> b0 in old(Held())
      ensures Valid() && quanta == old(quanta) && chunk == old(chunk) && maxsize == old(maxsize) &&
          arenasize == old(arenasize)
      ensures !ok ==> hdr == old(hdr) && Held() == old(Held()) && cursize == old(cursize) && nfree == old(nfree)
      ensures ok ==> Held() == old(Held()) - {b0} && nfree == old(nfree) + 1
      ensures ok ==> b0 in old(hdr) && cursize == old(cursize) - old(hdr)[b0].size
      ensures !ok ==> Free() == old(Free())
      ensures ok ==> b0 in old(tail)
      ensures ok ==>
          Free() == GivenBack(old(Free()), b0, old(hdr)[b0].size, Next(old(hdr), b0), old(tail)[b0])
      ensures forall c | c in Held() :: c in old(hdr) && c in hdr && hdr[c] == old(hdr)[c]
    {
      hide Tiled, FreeTree, Blocks, Marked, NoFreePair, Units, Unused, Total, PoolOk;
      var b := b0;
      OkTree(hdr, tail, root, layout, tree, quanta + 1, NIL);
      if b in hdr { MagicTells(hdr, tail, root, layout, tree, quanta + 1, NIL, b); }
      if b !in hdr || (hdr[b].magic != MAGIC_A && hdr[b].magic != MAGIC_I) {
        return false;
      }
      nfree := nfree + 1;
      Release(b);
      ok := true;
    }

    /** poolfree once the magic has been looked at: the joins, and the block into the free tree. */
    method Release(b0: nat)
      requires Valid() && b0 in Held() && b0 in hdr
      modifies this`hdr, this`tail, this`root, this`tree, this`layout, this`cursize
      ensures Valid() && b0 in old(hdr) && Held() == old(Held()) - {b0} && cursize == old(cursize) - old(hdr)[b0].size
      ensures Kept(old(hdr), hdr, Held())
      ensures b0 in old(tail)
      ensures Free() == GivenBack(old(Free()), b0, old(hdr)[b0].size, Next(old(hdr), b0), old(tail)[b0])
    {
      hide Tiled, FreeTree, Blocks, Marked, NoFreePair, Units, Unused, Total, PoolOk, FreeOf, GivenBack;
      ghost var h, held := hdr, Held();
      TotalRemove(hdr, held, b0);
      cursize := cursize - hdr[b0].size;
      var b := JoinBoth(b0);
      ghost var h1 := hdr;
      Settle(b);
      assert Held() == held - {b0};
      TotalFrame(h, hdr, held - {b0});
    }

    /** The block with whatever is free on either side of it, on its way to the free tree. */
    method JoinBoth(b0: nat) returns (b: nat)
      requires PoolOk(hdr, tail, root, layout, tree, quanta + 1, NIL) && b0 in Held() && b0 in hdr
      modifies this`hdr, this`tail, this`root, this`tree, this`layout
      ensures PoolOk(hdr, tail, root, layout, tree, quanta + 1, b) && b in layout.blocks && b in hdr && b in tail
      ensures Next(hdr, b) !in Blocks(tree) && tail[b] !in Blocks(tree)
      ensures layout.blocks - {b} - Blocks(tree) == old(Held()) - {b0} && (b == b0 || b !in old(Held()))
      ensures forall a | a in old(Held()) && a in old(hdr) && a != b0 :: a in hdr && hdr[a] == old(hdr)[a]
      ensures b0 in old(hdr) && b0 in old(tail)
      ensures Free()[b := hdr[b].size] ==
          GivenBack(old(Free()), b0, old(hdr)[b0].size, Next(old(hdr), b0), old(tail)[b0])
    {
      hide Tiled, FreeTree, Blocks, Marked, NoFreePair, Units, Unused, PoolOk, FreeOf, GivenBack;
      TiledOf(hdr, tail, root, layout, tree, quanta + 1, NIL, b0);
      Between(hdr, tail, root, layout, tree, quanta + 1, NIL, b0);
      ghost var f, size, n, p := Free(), hdr[b0].size, Next(hdr, b0), tail[b0];
      FreeNext(b0);
      b := FreeBefore(b0);
      Returned(f, Free(), b0, size, n, p, b, hdr[b].size);
    }

    /** The next block is joined if it is free. */
    method FreeNext(b: nat)
      requires PoolOk(hdr, tail, root, layout, tree, quanta + 1, NIL) && b in Held() && b in hdr
      modifies this`hdr, this`tail, this`root, this`tree, this`layout
      ensures PoolOk(hdr, tail, root, layout, tree, quanta + 1, NIL) && Held() == old(Held()) && b in hdr &&
          Next(hdr, b) !in Blocks(tree)
      ensures forall a | a in old(Held()) && a in old(hdr) && a != b :: a in hdr && hdr[a] == old(hdr)[a]
      ensures b in tail && b in old(tail) && tail[b] == old(tail)[b] && b in old(hdr)
      ensures var n, f := Next(old(hdr), b), old(Free());
        Free() == f - {n} && hdr[b].size == old(hdr)[b].size + if n in f then f[n] else 0
    {
      hide Tiled, FreeTree, Blocks, Marked, NoFreePair, Units, Unused, PoolOk;
      TiledOf(hdr, tail, root, layout, tree, quanta + 1, NIL, b);
      var c := b + hdr[b].size;
      FreeIs(hdr, tail, root, layout, tree, quanta + 1, NIL, c);
      MagicTells(hdr, tail, root, layout, tree, quanta + 1, NIL, c);
      if hdr[c].magic == MAGIC_F {
        JoinForward(b, c);
      }
    }

    /** The block before takes b in if it is free; what is left on its way is the result. */
    method FreeBefore(b: nat) returns (c: nat)
      requires PoolOk(hdr, tail, root, layout, tree, quanta + 1, NIL) && b in Held() && b in hdr &&
          Next(hdr, b) !in Blocks(tree)
      modifies this`hdr, this`tail, this`root, this`tree, this`layout
      ensures PoolOk(hdr, tail, root, layout, tree, quanta + 1, c) && c in layout.blocks && c in hdr && c in tail
      ensures Next(hdr, c) !in Blocks(tree) && tail[c] !in Blocks(tree)
      ensures layout.blocks - {c} - Blocks(tree) == old(Held()) - {b} && (c == b || c !in old(Held()))
      ensures forall a | a in old(Held()) && a in old(hdr) && a != b :: a in hdr && hdr[a] == old(hdr)[a]
      ensures b in old(tail) && b in old(hdr)
      ensures var p, f := old(tail)[b], old(Free());
        && Free() == f - {p} && c == (if p in f then p else b)
        && hdr[c].size == old(hdr)[b].size + if p in f then f[p] else 0
    {
      hide Tiled, FreeTree, Blocks, Marked, NoFreePair, Units, Unused, PoolOk;
      TiledOf(hdr, tail, root, layout, tree, quanta + 1, NIL, b);
      OkTree(hdr, tail, root, layout, tree, quanta + 1, NIL);
      c := tail[b];
      FreeIs(hdr, tail, root, layout, tree, quanta + 1, NIL, c);
      MagicTells(hdr, tail, root, layout, tree, quanta + 1, NIL, c);
      if hdr[c].magic == MAGIC_F {
        JoinBackward(b, c);
      } else {
        OnItsWay(hdr, tail, root, layout, tree, quanta + 1, b);
        c := b;
      }
    }
  }

  lemma Between(h: Heap, tail: map<nat, nat>, root: nat, y: Layout, tree: Tree, unit: nat, x: nat, b: nat)
    requires PoolOk(h, tail, root, y, tree, unit, x) && b in y.blocks && b in h && b in tail
    ensures tail[b] < b < Next(h, b)
  {
    TiledAt(h, tail, y, unit, b);
    TiledBack(h, tail, y, unit, b);
  }

  lemma Returned(f: map<nat, nat>, f': map<nat, nat>, b: nat, size: nat, n: nat, p: nat, c: nat, total: nat)
    requires f' == f - {n} - {p} && p != n && c == (if p in f - {n} then p else b)
    requires total == size + (if n in f then f[n] else 0) + if p in f - {n} then (f - {n})[p] else 0
    ensures f'[c := total] == GivenBack(f, b, size, n, p)
  {
    assert f - {n} - {p} == f - {n, p};
  }

  lemma FreeIs(h: Heap, tail: map<nat, nat>, root: nat, y: Layout, tree: Tree, unit: nat, x: nat, b: nat)
    requires PoolOk(h, tail, root, y, tree, unit, x)
    ensures b in FreeOf(h, tree) <==> b in Blocks(tree)
    ensures b in FreeOf(h, tree) ==> b in h && FreeOf(h, tree)[b] == h[b].size
    ensures b !in FreeOf(h, tree) ==> FreeOf(h, tree) - {b} == FreeOf(h, tree)
  {
    hide Tiled, FreeTree, Blocks, Marked, NoFreePair;
    OkTree(h, tail, root, y, tree, unit, x);
  }

  lemma SizesMore(h: Heap, h': Heap, tree: Tree, tree': Tree, t: nat)
    requires Blocks(tree') == Blocks(tree) + {t} && t in h' && Blocks(tree) <= h.Keys && t !in Blocks(tree)
    requires forall c | c in Blocks(tree) && c in h :: c in h' && h'[c].size == h[c].size
    ensures FreeOf(h', tree') == FreeOf(h, tree)[t := h'[t].size]
  {
    hide Blocks;
  }

  lemma SizesLess(h: Heap, h': Heap, tree: Tree, tree': Tree, s: set<nat>)
    requires Blocks(tree') == Blocks(tree) - s
    requires forall c | c in Blocks(tree') :: c in h && c in h' && h'[c].size == h[c].size
    ensures FreeOf(h', tree') == FreeOf(h, tree) - s
  {
    hide Blocks;
  }

  lemma TiledOf(h: Heap, tail: map<nat, nat>, root: nat, y: Layout, tree: Tree, unit: nat, x: nat, b: nat)
    requires PoolOk(h, tail, root, y, tree, unit, x) && b in y.blocks && b in h
    ensures Next(h, b) != b && Next(h, b) in h && b in tail && tail[b] in h && tail[b] in Starts(y) &&
        Next(h, tail[b]) == b && tail[b] != b
    ensures Next(h, b) in Marks(y)
  {
    TiledAt(h, tail, y, unit, b);
    TiledBack(h, tail, y, unit, b);
  }

  lemma TiledIs(h: Heap, tail: map<nat, nat>, root: nat, y: Layout, tree: Tree, unit: nat, x: nat)
    requires PoolOk(h, tail, root, y, tree, unit, x)
    ensures Tiled(h, tail, y, unit)
  {}

  lemma OkTree(h: Heap, tail: map<nat, nat>, root: nat, y: Layout, tree: Tree, unit: nat, x: nat)
    requires PoolOk(h, tail, root, y, tree, unit, x)
    ensures FreeTree(h, tree, root) && Blocks(tree) <= y.blocks && Marks(y) <= h.Keys &&
        y.blocks - Blocks(tree) <= h.Keys
  {}

  lemma HeldTaken(y: Layout, tree: Tree, tree': Tree, q: nat)
    requires q in Blocks(tree) && q in y.blocks && Blocks(tree') == Blocks(tree) - {q}
    ensures y.blocks - Blocks(tree') == y.blocks - Blocks(tree) + {q} && q !in y.blocks - Blocks(tree)
  {}

  /** The leader and the first block of a new chunk are written, and nothing else. */
  ghost predicate HeadsLaid(h: Heap, h': Heap, l: nat, t: nat, r: nat, e: nat) {
    && h'.Keys == h.Keys + {l, t} && l in h' && t in h'
    && (forall x | x in h && x != l && x != t :: x in h' && h'[x] == h[x])
    && h'[l].magic == MAGIC_E && h'[l].size == t - l && h'[l].csize == e - l
    && h'[t].magic == MAGIC_A && h'[t].size == r - t
  }

  /** The header of the rest and the end marker complete the chunk. */
  lemma RestWritten(h: Heap, h0: Heap, h1: Heap, hB: Heap, l: nat, t: nat, r: nat, e: nat)
    requires HeadsLaid(h, h0, l, t, r, e) && 0 < l < t < r < e
    requires h1 == h0[r := At(h0, r).(size := e - r)] && hB == h1[e := At(h1, e).(magic := MAGIC_E)]
    ensures ChunkHeap(h, hB, l, t, r, e) && hB[t] == h0[t] && hB[l] == h0[l] && r in h1 && h1[r].size == e - r
    ensures forall c | c in h && c != l && c != t && c != r && c != e ::
        c in hB && hB[c] == h[c] && c in h1 && h1[c] == h[c]
  {}

  lemma EndWritten(h: Heap, h0: Heap, h1: Heap, l: nat, t: nat, e: nat)
    requires HeadsLaid(h, h0, l, t, e, e) && 0 < l < t < e && h1 == h0[e := At(h0, e).(magic := MAGIC_E)]
    ensures ChunkHeap(h, h1, l, t, e, e) && h1[t] == h0[t] && h1[l] == h0[l]
    ensures forall c | c in h && c != l && c != t && c != e :: c in h1 && h1[c] == h[c]
  {}

  lemma HeadsAt(h: Heap, h': Heap, l: nat, t: nat, r: nat, e: nat)
    requires HeadsLaid(h, h', l, t, r, e) && l < t < r
    ensures l in h' && t in h' && t + h'[t].size == r
  {}

  lemma UnitsLeader(quanta: nat)
    ensures Units(quanta + 1, quanta + 1)
  {
    W.DivUnique(quanta + 1, quanta + 1, 1, 0);
  }

  /** The memory of a new chunk has no part in the pool. */
  lemma ChunkApart(h: Heap, y: Layout, tree: Tree, root: nat, tail: map<nat, nat>, unit: nat, l: nat, e: nat)
    requires PoolOk(h, tail, root, y, tree, unit, NIL) && Unused(h, y, l, e + 1)
    ensures forall x | l <= x <= e :: x !in Marks(y) && x !in Blocks(tree)
    ensures FreeTree(h, tree, root) && NIL !in h && Blocks(tree) <= y.blocks && Blocks(tree) <= h.Keys
  {}

  /** The end marker, written after the rest has joined the tree, might as well have been written before. */
  lemma EndMarked(hA: Heap, h1: Heap, hB: Heap, h2: Heap, r: nat, e: nat, tree: Tree, root: nat)
    requires r in hA && e != NIL && e != r && e !in Blocks(tree) && hB == hA[e := At(hA, e).(magic := MAGIC_E)]
    requires FreeTree(h1, tree, root) && h1.Keys == hA.Keys &&
        OnlyLinks(hA[r := hA[r].(magic := MAGIC_F)], h1, Blocks(tree))
    requires h2 == h1[e := At(h1, e).(magic := MAGIC_E)]
    ensures FreeTree(h2, tree, root) && h2.Keys == hB.Keys &&
        OnlyLinks(hB[r := hB[r].(magic := MAGIC_F)], h2, Blocks(tree))
  {
    NilAbsent(h1, tree, root);
    hide FreeTree, Blocks;
    EndLinks(hA, h1, hB, h2, r, e, Blocks(tree));
    TreeFrame(h1, h2, tree, root);
  }

  lemma EndLinks(hA: Heap, h1: Heap, hB: Heap, h2: Heap, r: nat, e: nat, s: set<nat>)
    requires r in hA && e != r && e !in s && hB == hA[e := At(hA, e).(magic := MAGIC_E)]
    requires h1.Keys == hA.Keys && OnlyLinks(hA[r := hA[r].(magic := MAGIC_F)], h1, s) &&
        h2 == h1[e := At(h1, e).(magic := MAGIC_E)]
    ensures h2.Keys == hB.Keys && OnlyLinks(hB[r := hB[r].(magic := MAGIC_F)], h2, s)
  {}

  lemma HeldGrown(y0: Layout, y: Layout, tree0: Tree, tree: Tree, t: nat, r: nat)
    requires y.blocks == y0.blocks + {t, r} && Blocks(tree) == Blocks(tree0) + {r}
    requires t !in Blocks(tree0) && r !in y0.blocks && t != r
    ensures y.blocks - Blocks(tree) == y0.blocks - Blocks(tree0) + {t}
  {}

  lemma HeldAdded(y0: Layout, y: Layout, tree: Tree, t: nat)
    requires y.blocks == y0.blocks + {t} && t !in Blocks(tree)
    ensures y.blocks - Blocks(tree) == y0.blocks - Blocks(tree) + {t}
  {}

  /** A cut inside a block. */
  lemma SplitPoint(h: Heap, tail: map<nat, nat>, y: Layout, unit: nat, q: nat, t: nat, size: nat)
    requires Tiled(h, tail, y, unit) && q in y.blocks && q in h && Units(size, unit) && size < h[q].size &&
        t == q + size
    ensures t != q && t !in Marks(y)
  {
    UnitsPositive(size, unit);
    InsideBlock(h, tail, y, unit, q, t);
  }

  /** What PoolAdd needs of a block on its way. */
  lemma OnWay(h: Heap, tail: map<nat, nat>, root: nat, y: Layout, tree: Tree, unit: nat, t: nat)
    requires PoolOk(h, tail, root, y, tree, unit, t)
    ensures t !in Blocks(tree) && FreeTree(h, tree, root) && Blocks(tree) <= y.blocks
  {}
}
