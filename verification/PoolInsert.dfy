// Searching the free tree of emu/alloc.c by size, and where a new block belongs.

module PoolInsert {
  import opened Lists
  import opened PoolTree

  /** The search for size comes to the node headed by a. */
  ghost predicate OnPath(t: Tree, size: nat, a: nat) {
    t.Node? && t.ring != [] &&
        (t.ring[0] == a || (size < t.size && OnPath(t.left, size, a)) || (t.size < size && OnPath(t.right, size, a)))
  }

  lemma {:induction false} PathHead(t: Tree, size: nat, a: nat)
    requires OnPath(t, size, a)
    ensures a in Heads(t)
  {
    if t.ring[0] != a {
      if size < t.size && OnPath(t.left, size, a) { PathHead(t.left, size, a); } else { PathHead(t.right, size, a); }
    }
  }

  /** The node the path goes through is the one of that head. */
  lemma PathSide(t: Tree, size: nat, a: nat)
    requires OnPath(t, size, a) && Distinct(t) && t.ring[0] != a
    ensures size != t.size
    ensures size < t.size ==> OnPath(t.left, size, a) && a in Heads(t.left) && a !in Heads(t.right)
    ensures size > t.size ==> OnPath(t.right, size, a) && a in Heads(t.right) && a !in Heads(t.left)
  {
    HeadsAreBlocks(t.left);
    HeadsAreBlocks(t.right);
    if size < t.size { PathHead(t.left, size, a); } else { PathHead(t.right, size, a); }
  }

  /** One more step of the search. */
  lemma {:induction false} PathStep(t: Tree, size: nat, a: nat, c: nat)
    requires OnPath(t, size, a) && Distinct(t) && a in Heads(t)
    requires var s := Subtree(t, a);
      size != s.size && var n := if size < s.size then s.left else s.right; n.Node? && n.ring != [] && n.ring[0] == c
    ensures OnPath(t, size, c) && c in Heads(t)
    ensures var s := Subtree(t, a); Subtree(t, c) == if size < s.size then s.left else s.right
  {
    var s := Subtree(t, a);
    var n := if size < s.size then s.left else s.right;
    assert c in Elements(n.ring);
    assert t.ring[0] in Elements(t.ring);
    HeadsAreBlocks(t.left);
    HeadsAreBlocks(t.right);
    if t.ring[0] != a {
      PathSide(t, size, a);
      SubtreeParts(if size < t.size then t.left else t.right, a);
      PathStep(if size < t.size then t.left else t.right, size, a, c);
    }
  }

  /** Replacing the node the search for size ends at, by one that may also hold that size and a new block. */
  lemma {:induction false} PathReplace(t: Tree, size: nat, a: nat, s: Tree, q: nat)
    requires OnPath(t, size, a) && Distinct(t) && Ordered(t) && a in Heads(t) && q !in Blocks(t)
    requires Distinct(s) && Ordered(s) && Sizes(s) <= Sizes(Subtree(t, a)) + {size} &&
        Blocks(s) == Blocks(Subtree(t, a)) + {q}
    ensures Distinct(Replace(t, a, s)) && Ordered(Replace(t, a, s))
    ensures Sizes(Replace(t, a, s)) <= Sizes(t) + {size} && Blocks(Replace(t, a, s)) == Blocks(t) + {q}
  {
    if t.ring[0] != a {
      PathSide(t, size, a);
      if size < t.size {
        SubtreeParts(t.left, a);
        PathReplace(t.left, size, a, s, q);
        LeftGrown(t, Replace(t.left, a, s), size, q);
      } else {
        SubtreeParts(t.right, a);
        PathReplace(t.right, size, a, s, q);
        RightGrown(t, Replace(t.right, a, s), size, q);
      }
    }
  }

  lemma LeftGrown(t: Tree, t': Tree, size: nat, q: nat)
    requires t.Node? && Distinct(t) && Ordered(t) && size < t.size && q !in Blocks(t)
    requires Distinct(t') && Ordered(t') && Sizes(t') <= Sizes(t.left) + {size} && Blocks(t') == Blocks(t.left) + {q}
    ensures var n := t.(left := t');
      Distinct(n) && Ordered(n) && Sizes(n) <= Sizes(t) + {size} && Blocks(n) == Blocks(t) + {q}
  {}

  lemma RightGrown(t: Tree, t': Tree, size: nat, q: nat)
    requires t.Node? && Distinct(t) && Ordered(t) && size > t.size && q !in Blocks(t)
    requires Distinct(t') && Ordered(t') && Sizes(t') <= Sizes(t.right) + {size} && Blocks(t') == Blocks(t.right) + {q}
    ensures var n := t.(right := t');
      Distinct(n) && Ordered(n) && Sizes(n) <= Sizes(t) + {size} && Blocks(n) == Blocks(t) + {q}
  {}

  lemma {:induction false} SizeOf(h: Heap, t: Tree, p: nat, b: nat)
    requires Rep(h, t, p) && b in Blocks(t)
    ensures b in h && h[b].size in Sizes(t) && h[b].magic == MAGIC_F
  {
    if b in Elements(t.ring) {
      var i :| 0 <= i < |t.ring| && t.ring[i] == b;
      RingAt(h, t.ring, t.size, i);
    } else if b in Blocks(t.left) {
      SizeOf(h, t.left, h[p].left, b);
    } else {
      SizeOf(h, t.right, h[p].right, b);
    }
  }

  // --- a block joins a list ---

  /** The assignments that put q behind t in t's circular list. */
  function Linked(h: Heap, t: nat, q: nat): Heap
    requires t in h && q in h && h[t].fwd in h
  {
    var n := h[t].fwd;
    var h1 := h[q := h[q].(fwd := n)];
    var h2 := h1[n := h1[n].(prev := q)];
    var h3 := h2[q := h2[q].(prev := t)];
    h3[t := h3[t].(fwd := q)]
  }

  ghost function InsertSecond(ring: seq<nat>, q: nat): seq<nat>
    requires |ring| > 0
  {
    [ring[0], q] + ring[1..]
  }

  lemma RingInsert(h: Heap, ring: seq<nat>, size: nat, q: nat)
    requires Ring(h, ring, size) && NoDup(ring) && q in h && q != NIL && q !in ring
    requires h[q].size == size && h[q].magic == MAGIC_F && h[q].parent == NIL
    ensures ring[0] in h && h[ring[0]].fwd in h
    ensures var h' := Linked(h, ring[0], q);
            && Ring(h', InsertSecond(ring, q), size) && h'.Keys == h.Keys
            && (forall b | b in h :: h'[b] == h[b].(fwd := h'[b].fwd, prev := h'[b].prev))
            && (forall b | b in h && b !in ring && b != q :: h'[b] == h[b])
  {
    hide Ring, NoDup, InsertSecond, Linked;
    RingHead(h, ring, size);
    LinkedKept(h, ring, size, q);
    var h' := Linked(h, ring[0], q);
    var ring' := InsertSecond(ring, q);
    var n := |ring|;
    var n' := n + 1;
    InsertedAt(ring, q);
    forall k | 0 <= k < n'
      ensures ring'[k] in h' && ring'[k] != NIL && h'[ring'[k]].size == size && h'[ring'[k]].magic == MAGIC_F
      ensures k > 0 ==> h'[ring'[k]].parent == NIL
      ensures Succ(k, n') < n' && Pred(k, n') < n' && h'[ring'[k]].fwd == ring'[Succ(k, n')] &&
          h'[ring'[k]].prev == ring'[Pred(k, n')]
    {
      InsertAt(h, ring, size, q, k);
    }
    RingFrom(h', ring', size);
  }

  /** The k-th block of the longer list has the right neighbours. */
  lemma InsertAt(h: Heap, ring: seq<nat>, size: nat, q: nat, k: nat)
    requires Ring(h, ring, size) && NoDup(ring) && q in h && q != NIL && q !in ring && k <= |ring|
    requires h[q].size == size && h[q].magic == MAGIC_F && h[q].parent == NIL
    ensures |ring| > 0 && ring[0] in h && h[ring[0]].fwd in h && |InsertSecond(ring, q)| == |ring| + 1
    ensures var h', r, n := Linked(h, ring[0], q), InsertSecond(ring, q), |ring| + 1;
            && r[k] in h' && r[k] != NIL && h'[r[k]].size == size && h'[r[k]].magic == MAGIC_F
            && (k > 0 ==> h'[r[k]].parent == NIL)
            && Succ(k, n) < n && Pred(k, n) < n && h'[r[k]].fwd == r[Succ(k, n)] && h'[r[k]].prev == r[Pred(k, n)]
  {
    hide Ring, NoDup, Succ, Pred, InsertSecond, Linked;
    RingHead(h, ring, size);
    RingAt(h, ring, size, 0);
    LinkedKept(h, ring, size, q);
    InsertedAt(ring, q);
    var n := |ring|;
    Neighbours(k, n + 1);
    InsertIndex(ring, q, k, n);
    PredZero(0, n);
    if k == 1 {
    } else {
      var j := if k == 0 then 0 else k - 1;
      RingAt(h, ring, size, j);
      LinkedAt(h, ring, size, q, j);
      PredZero(j, n);
    }
  }

  lemma LinkedKept(h: Heap, ring: seq<nat>, size: nat, q: nat)
    requires Ring(h, ring, size) && NoDup(ring) && q in h && q !in ring
    ensures |ring| > 0 && ring[0] in h && h[ring[0]].fwd in h && Succ(0, |ring|) < |ring|
    ensures var h' := Linked(h, ring[0], q);
            && h'.Keys == h.Keys && h'[q] == h[q].(fwd := ring[Succ(0, |ring|)], prev := ring[0])
            && (forall b | b in h :: h'[b] == h[b].(fwd := h'[b].fwd, prev := h'[b].prev))
            && (forall b | b in h && b !in ring && b != q :: h'[b] == h[b])
  {
    hide Ring, NoDup, Succ, Pred;
    RingHead(h, ring, size);
    RingAt(h, ring, size, 0);
    RingAt(h, ring, size, Succ(0, |ring|));
    assert ring[0] in ring && ring[Succ(0, |ring|)] in ring;
  }

  lemma LinkedAt(h: Heap, ring: seq<nat>, size: nat, q: nat, j: nat)
    requires Ring(h, ring, size) && NoDup(ring) && q in h && q !in ring && j < |ring|
    ensures ring[0] in h && h[ring[0]].fwd in h && ring[j] in h && Succ(0, |ring|) < |ring| && Pred(j, |ring|) < |ring|
    ensures Linked(h, ring[0], q)[ring[j]] == h[ring[j]].(fwd := if j == 0 then q else h[ring[j]].fwd,
                                                         prev := if j == Succ(0, |ring|) then q else h[ring[j]].prev)
  {
    hide Ring, NoDup, Succ, Pred;
    RingHead(h, ring, size);
    RingAt(h, ring, size, 0);
    RingAt(h, ring, size, j);
    SameIndex(ring, j, 0);
    SameIndex(ring, j, Succ(0, |ring|));
    assert ring[j] in ring && ring[0] in ring && ring[Succ(0, |ring|)] in ring;
  }

  lemma PredZero(j: nat, n: nat)
    requires j < n
    ensures Pred(j, n) == 0 <==> j == Succ(0, n)
    ensures Succ(0, n) == (if n > 1 then 1 else 0) && Pred(0, n) == n - 1
  {}

  lemma InsertedAt(ring: seq<nat>, q: nat)
    requires |ring| > 0
    ensures |InsertSecond(ring, q)| == |ring| + 1
    ensures forall k | 0 <= k <= |ring| ::
        InsertSecond(ring, q)[k] == if k == 0 then ring[0] else if k == 1 then q else ring[k - 1]
  {}

  /** The neighbours of the k-th block of the longer list. */
  lemma InsertIndex(ring: seq<nat>, q: nat, k: nat, n: nat)
    requires n == |ring| > 0 && k <= n
    ensures Succ(0, n) < n && Succ(k, n + 1) <= n && Pred(k, n + 1) <= n
    ensures var r := InsertSecond(ring, q);
            && |r| == n + 1
            && r[Succ(k, n + 1)] == (if k == 0 then q else if k == 1 then ring[Succ(0, n)] else ring[Succ(k - 1, n)])
            && r[Pred(k, n + 1)] == (if k == 0 then (if n == 1 then q else ring[n - 1]) else if k == 1 then ring[0]
                                     else if k == 2 then q else ring[Pred(k - 1, n)])
  {}

  lemma InsertedRing(ring: seq<nat>, q: nat)
    requires NoDup(ring) && |ring| > 0 && q !in ring
    ensures NoDup(InsertSecond(ring, q)) && Elements(InsertSecond(ring, q)) == Elements(ring) + {q}
    ensures InsertSecond(ring, q)[0] == ring[0]
  {
    var r := InsertSecond(ring, q);
    assert forall i | 0 <= i < |ring| :: ring[i] in ring;
    forall b | b in Elements(ring) + {q} ensures b in Elements(r) {
      if b == q { assert r[1] == q; } else {
        var k :| 0 <= k < |ring| && ring[k] == b;
        assert r[if k == 0 then 0 else k + 1] == b;
      }
    }
  }

  // --- a block joins the tree ---

  /** A new block as pooladd prepares it: free, without links, alone in its list. */
  function Fresh(b: Bhdr, q: nat): Bhdr {
    b.(magic := MAGIC_F, left := NIL, right := NIL, parent := NIL, fwd := q, prev := q)
  }

  lemma LoneRing(h: Heap, q: nat, b: Bhdr)
    requires q in h && q != NIL && h[q] == Fresh(b, q).(parent := h[q].parent)
    ensures Rep(h, Node(Nil, b.size, [q], Nil), q)
  {}

  /** The block joins the list of a node of its own size. */
  lemma JoinsList(h: Heap, tree: Tree, root: nat, a: nat, q: nat)
    requires FreeTree(h, tree, root) && a in h && q in h && q !in Blocks(tree) && OnPath(tree, h[q].size, a)
    requires a in Heads(tree) && Subtree(tree, a).size == h[q].size && h[q].magic == MAGIC_F && h[q].parent == NIL
    ensures h[a].fwd in h
    ensures var s := Subtree(tree, a);
            s.ring != [] &&
            var tree' := Replace(tree, a, s.(ring := InsertSecond(s.ring, q)));
            FreeTree(Linked(h, a, q), tree', root) && Blocks(tree') == Blocks(tree) + {q} &&
                OnlyLinks(h, Linked(h, a, q), Blocks(tree) + {q})
  {
    hide Ring, NoDup, Linked, InsertSecond, Outside;
    var s := Subtree(tree, a);
    SubtreeRep(h, tree, root, a);
    SubtreeParts(tree, a);
    NotInRing(s, q);
    RingHead(h, s.ring, s.size);
    RingInsert(h, s.ring, s.size, q);
    InsertedRing(s.ring, q);
    var h' := Linked(h, a, q);
    var s' := s.(ring := InsertSecond(s.ring, q));
    SideKept(h, h', s.left, h[a].left, s.ring, q);
    SideKept(h, h', s.right, h[a].right, s.ring, q);
    NodeJoined(h, h', s, s', a);
    SameOrdered(s, s');
    JoinTree(h, h', tree, root, a, s', q);
  }

  lemma NotInRing(s: Tree, q: nat)
    requires s.Node? && q !in Blocks(s)
    ensures q !in s.ring
  {
    assert q !in Elements(s.ring);
  }

  /** A subtree of a node is not touched by what happens to its list. */
  lemma SideKept(h: Heap, h': Heap, t: Tree, p: nat, ring: seq<nat>, q: nat)
    requires Rep(h, t, p) && NIL !in h && q !in Blocks(t) && Elements(ring) !! Blocks(t) && h'.Keys == h.Keys
    requires forall b | b in h && b !in ring && b != q :: h'[b] == h[b]
    ensures Rep(h', t, p) && (p in h ==> p in h' && h'[p] == h[p])
  {
    hide Ring, NoDup;
    assert forall b | b in ring :: b in Elements(ring);
    RootIn(h, t, p);
    RepFrame(h, h', t, p);
  }

  lemma NodeJoined(h: Heap, h': Heap, s: Tree, s': Tree, a: nat)
    requires Rep(h, s, a) && s.Node? && s'.Node? && a in h && a in h' &&
        h'[a] == h[a].(fwd := h'[a].fwd, prev := h'[a].prev)
    requires s' == s.(ring := s'.ring) && Ring(h', s'.ring, s.size) && s'.ring[0] == a
    requires Rep(h', s.left, h[a].left) && Rep(h', s.right, h[a].right)
    requires forall b | b in {h[a].left, h[a].right} && b in h :: b in h' && h'[b] == h[b]
    ensures Rep(h', s', a)
  {}

  lemma SameOrdered(s: Tree, s': Tree)
    requires s.Node? && s'.Node? && s' == s.(ring := s'.ring) && Distinct(s) && Ordered(s)
    ensures Ordered(s') && Sizes(s') == Sizes(s)
  {}

  /** The tree once the node at a is s'. */
  lemma JoinTree(h: Heap, h': Heap, tree: Tree, root: nat, a: nat, s': Tree, q: nat)
    requires FreeTree(h, tree, root) && a in Heads(tree) && a in h && q in h && q !in Blocks(tree) &&
        OnPath(tree, h[q].size, a)
    requires Rep(h', s', a) && a in h' && h'[a].parent == h[a].parent &&
        OnlyLinks(h, h', Blocks(Subtree(tree, a)) + {q})
    requires Distinct(s') && Ordered(s') && Sizes(s') <= Sizes(Subtree(tree, a)) + {h[q].size} &&
        Blocks(s') == Blocks(Subtree(tree, a)) + {q}
    ensures FreeTree(h', Replace(tree, a, s'), root) && Blocks(Replace(tree, a, s')) == Blocks(tree) + {q}
    ensures OnlyLinks(h, h', Blocks(tree) + {q})
  {
    SubtreeRep(h, tree, root, a);
    SubtreeParts(tree, a);
    PathReplace(tree, h[q].size, a, s', q);
    RootIn(h, tree, root);
    Plug(h, h', tree, root, a, s', a);
  }

  /** The block becomes a new child of the last node on the path. */
  lemma JoinsLeaf(h: Heap, h': Heap, tree: Tree, root: nat, a: nat, q: nat) returns (tree': Tree)
    requires FreeTree(h, tree, root) && a in h && q in h && q !in Blocks(tree) && OnPath(tree, h[q].size, a) &&
        a in Heads(tree)
    requires h[q] == Fresh(h[q], q) && h[q].size != Subtree(tree, a).size
    requires if h[q].size < Subtree(tree, a).size then h[a].left == NIL else h[a].right == NIL
    requires h' == var h1 := h[q := h[q].(parent := a)];
      if a in h1
      then h1[a := if h[q].size < h[a].size then h1[a].(left := q) else h1[a].(right := q)]
      else h1
    ensures FreeTree(h', tree', root) && Blocks(tree') == Blocks(tree) + {q} && OnlyLinks(h, h', Blocks(tree) + {q})
  {
    hide Ring, NoDup, Outside, Rep, Distinct, Ordered, Sizes, Blocks, Subtree, Replace, Heads;
    JoinSite(h, tree, root, a, q);
    var s := Subtree(tree, a);
    var leaf := Node(Nil, h[q].size, [q], Nil);
    LoneRing(h', q, h[q]);
    var left := h[q].size < s.size;
    var s' := if left then s.(left := leaf) else s.(right := leaf);
    LeafJoined(s, s', q, h[q].size);
    if left { PlugLeft(h, h', s, a, q, leaf); } else { PlugRight(h, h', s, a, q, leaf); }
    JoinTree(h, h', tree, root, a, s', q);
    tree' := Replace(tree, a, s');
  }

  lemma JoinSite(h: Heap, tree: Tree, root: nat, a: nat, q: nat)
    requires FreeTree(h, tree, root) && a in Heads(tree) && q !in Blocks(tree)
    ensures var s := Subtree(tree, a);
            && a in h && h[a].size == s.size && Rep(h, s, a) && Distinct(s) && Ordered(s) && s.Node? &&
                q !in Blocks(s) && a in Blocks(s) && NIL !in h
            && Blocks(s) == Elements(s.ring) + Blocks(s.left) + Blocks(s.right)
            && (h[a].left == NIL <==> s.left == Nil) && (h[a].right == NIL <==> s.right == Nil)
  {
    SubtreeRep(h, tree, root, a);
    SubtreeParts(tree, a);
    NodeRing(h, Subtree(tree, a), a);
    RingAt(h, Subtree(tree, a).ring, Subtree(tree, a).size, 0);
    assert a in Elements(Subtree(tree, a).ring);
  }

  lemma LeafJoined(s: Tree, s': Tree, q: nat, size: nat)
    requires s.Node? && Distinct(s) && Ordered(s) && q !in Blocks(s) && size != s.size
    requires if size < s.size then s.left == Nil && s' == s.(left := Node(Nil, size, [q], Nil))
             else s.right == Nil && s' == s.(right := Node(Nil, size, [q], Nil))
    ensures Distinct(s') && Ordered(s') && Sizes(s') == Sizes(s) + {size} && Blocks(s') == Blocks(s) + {q}
  {
    LeafParts(q, size);
  }

  lemma LeafParts(q: nat, size: nat)
    ensures var leaf := Node(Nil, size, [q], Nil);
      Blocks(leaf) == {q} && Sizes(leaf) == {size} && Distinct(leaf) && Ordered(leaf)
  {}

  /** The new block is not yet in the tree, which is as it was. */
  lemma Prepared(h0: Heap, h: Heap, tree: Tree, root: nat, q: nat)
    requires FreeTree(h0, tree, root) && q in h0 && q !in Blocks(tree)
    requires h == h0[q := Fresh(h0[q], q)]
    ensures FreeTree(h, tree, root) && q in h && h[q] == Fresh(h[q], q) && h[q].size == h0[q].size
    ensures NIL !in h && q != NIL
  {
    RootIn(h0, tree, root);
    RepFrame(h0, h, tree, root);
  }

  /** The first block of an empty tree. */
  lemma FirstBlock(h: Heap, tree: Tree, q: nat) returns (tree': Tree)
    requires FreeTree(h, tree, NIL) && q in h && h[q] == Fresh(h[q], q)
    ensures FreeTree(h, tree', q) && Blocks(tree') == Blocks(tree) + {q}
  {
    RootIn(h, tree, NIL);
    LoneRing(h, q, h[q]);
    LeafParts(q, h[q].size);
    tree' := Node(Nil, h[q].size, [q], Nil);
  }

  lemma PathStart(h: Heap, tree: Tree, root: nat, size: nat)
    requires FreeTree(h, tree, root) && root != NIL
    ensures root in h && OnPath(tree, size, root) && root in Heads(tree) && Subtree(tree, root) == tree
  {
    RootIn(h, tree, root);
  }

  /** The search goes on to a child, or ends at t. */
  lemma Descend(h: Heap, tree: Tree, root: nat, t: nat, size: nat)
    requires FreeTree(h, tree, root) && t in Heads(tree) && OnPath(tree, size, t) && t in h &&
        h[t].size == Subtree(tree, t).size && size != h[t].size
    ensures var c := if size < h[t].size then h[t].left else h[t].right;
            && (c != NIL ==> c in h && OnPath(tree, size, c) && c in Heads(tree) && Subtree(tree, c) < Subtree(tree, t)
                             && Subtree(tree, c) == if size < h[t].size then Subtree(tree, t).left else Subtree(tree, t).right)
            && (c == NIL <==> (if size < h[t].size then Subtree(tree, t).left else Subtree(tree, t).right) == Nil)
  {
    var s := Subtree(tree, t);
    SubtreeRep(h, tree, root, t);
    SubtreeParts(tree, t);
    var c := if size < h[t].size then h[t].left else h[t].right;
    RootIn(h, if size < h[t].size then s.left else s.right, c);
    if c != NIL { PathStep(tree, size, t, c); }
  }

  lemma AddedLinks(h0: Heap, h: Heap, h': Heap, s: set<nat>, q: nat)
    requires q in h0 && h == h0[q := Fresh(h0[q], q)] && q in s && (OnlyLinks(h, h', s) || h' == h)
    ensures OnlyLinks(h0[q := h0[q].(magic := MAGIC_F)], h', s) && h'[q].magic == MAGIC_F && h'.Keys == h0.Keys
  {}

  // --- best fit ---

  lemma SearchStart(h: Heap, tree: Tree, root: nat, size: nat)
    requires FreeTree(h, tree, root)
    ensures root == NIL <==> tree == Nil
    ensures root != NIL ==> root in h && root in Heads(tree) && OnPath(tree, size, root) && Subtree(tree, root) == tree
  {
    RootIn(h, tree, root);
  }

  lemma SearchNode(h: Heap, tree: Tree, root: nat, t: nat)
    requires FreeTree(h, tree, root) && t in Heads(tree)
    ensures var s := Subtree(tree, t);
            && t in h && h[t].size == s.size && Sizes(s) == {s.size} + Sizes(s.left) + Sizes(s.right)
            && (forall x | x in Sizes(s.left) :: x < s.size) && (forall x | x in Sizes(s.right) :: s.size < x)
            && t in Blocks(tree) && s.size in Sizes(tree)
  {
    JoinSiteHead(h, tree, root, t);
    SubtreeParts(tree, t);
    HeadsAreBlocks(tree);
  }

  lemma JoinSiteHead(h: Heap, tree: Tree, root: nat, a: nat)
    requires FreeTree(h, tree, root) && a in Heads(tree)
    ensures a in h && h[a].size == Subtree(tree, a).size && Ordered(Subtree(tree, a))
  {
    SubtreeRep(h, tree, root, a);
    SubtreeParts(tree, a);
    RingAt(h, Subtree(tree, a).ring, Subtree(tree, a).size, 0);
  }

  /** A node of the least size that fits is a block of the least size that fits. */
  lemma FoundFit(h: Heap, tree: Tree, root: nat, size: nat, q: nat)
    requires FreeTree(h, tree, root) && (q != NIL ==> q in Heads(tree) && q in h && h[q].size >= size)
    requires forall x | x in Sizes(tree) && x >= size :: q != NIL && x >= h[q].size
    ensures q != NIL ==> q in Blocks(tree)
    ensures forall b | b in Blocks(tree) :: b in h && (h[b].size >= size ==> q != NIL && h[b].size >= h[q].size)
  {
    HeadsAreBlocks(tree);
    forall b | b in Blocks(tree) ensures b in h && h[b].size in Sizes(tree) { SizeOf(h, tree, root, b); }
  }

  lemma NoSizes()
    ensures Sizes(Nil) == {}
  {}
}
