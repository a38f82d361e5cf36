// Taking a block out of the free tree of emu/alloc.c: the pointer surgery of pooldel, on values.

module PoolRemove {
  import opened Lists
  import opened PoolTree

  /** A node whose list is one block, and its sides. */
  lemma SingleRing(h: Heap, s: Tree, t: nat)
    requires Rep(h, s, t) && Distinct(s) && Ordered(s) && s.Node? && |s.ring| == 1
    ensures Elements(s.ring) == {t} && t in h && t in Blocks(s)
    ensures s.left == Nil <==> h[t].left == NIL
    ensures s.right == Nil <==> h[t].right == NIL
    ensures Rep(h, s.left, h[t].left) && Rep(h, s.right, h[t].right)
    ensures h[t].left != NIL ==> h[t].left in h && h[t].left in Blocks(s.left)
    ensures h[t].right != NIL ==> h[t].right in h && h[t].right in Blocks(s.right)
    ensures s.left == Nil ==>
        Blocks(s.right) == Blocks(s) - {t} && Sizes(s.right) <= Sizes(s) && Distinct(s.right) && Ordered(s.right)
    ensures s.right == Nil ==>
        Blocks(s.left) == Blocks(s) - {t} && Sizes(s.left) <= Sizes(s) && Distinct(s.left) && Ordered(s.left)
    ensures OnlyLinks(h, h, Blocks(s) - {t})
  {
    RootIn(h, s.left, h[t].left);
    RootIn(h, s.right, h[t].right);
  }

  lemma SpliceKept(h: Heap, h1: Heap, s: Tree, t: nat)
    requires t in h && OnlyLinks(h, h1, Blocks(s) - {t})
    ensures t in h1 && h1[t] == h[t] && h1.Keys == h.Keys
  {}

  /** The link above and the new child's parent. */
  lemma Raised(h: Heap, h1: Heap, h': Heap, s: Tree, s': Tree, t: nat, q: nat, rp: nat)
    requires NIL !in h && OnlyLinks(h, h1, Blocks(s) - {t}) && Rep(h1, s', rp) && Distinct(s') &&
        Blocks(s') == Blocks(s) - {t}
    requires t in h && q == h[t].parent && q !in Blocks(s) && (q != NIL ==> q in h)
    requires (rp != NIL ==> rp in h1 && rp in Blocks(s'))
    requires h' == var h2 := if q == NIL then h1 else h1[q := Relink(h1[q], t, rp)];
      if rp == NIL then h2 else h2[rp := h2[rp].(parent := q)]
    ensures Rep(h', s', rp) && ChildOf(h', rp, q) && Outside(h, h', Blocks(s), q, t, rp)
  {
    hide Rep, Blocks, Distinct;
    if rp != NIL {
      RepReparent(h1, h', s', rp);
    } else {
      NoneAtNil(h1, s');
      EmptyRep(h');
    }
  }

  lemma NoneAtNil(h: Heap, t: Tree)
    requires Rep(h, t, NIL)
    ensures t == Nil
  {
    RootIn(h, t, NIL);
  }

  /** Where a block is: its node a, and its place i in the node's list. */
  lemma Locate(h: Heap, tree: Tree, root: nat, t: nat) returns (a: nat, i: nat)
    requires FreeTree(h, tree, root) && t in Blocks(tree)
    ensures a in Heads(tree) && i < |Subtree(tree, a).ring| && Subtree(tree, a).ring[i] == t && t in h && a in h
    ensures var s := Subtree(tree, a);
            && Rep(h, s, a) && Distinct(s) && Ordered(s) && s.Node? && t in Blocks(s)
            && (h[t].parent == NIL && root != t <==> i > 0) && (i == 0 ==> a == t) && (h[t].fwd != t <==> |s.ring| >= 2)
            && (h[a].parent == NIL <==> a == root)
            && h[a].parent !in Blocks(s)
            && (h[a].parent != NIL ==> h[a].parent in h && (h[h[a].parent].left == a || h[h[a].parent].right == a))
    ensures NIL !in h
  {
    a, i := FindHead(h, tree, root, t);
    var s := Subtree(tree, a);
    SubtreeRep(h, tree, root, a);
    SubtreeParts(tree, a);
    MemberTest(h, tree, root, a, i);
    assert t in Elements(s.ring);
    BlocksIn(h, s, a);
  }

  lemma {:induction false} BlocksIn(h: Heap, t: Tree, p: nat)
    requires Rep(h, t, p)
    ensures Blocks(t) <= h.Keys
  {
    match t
    case Nil =>
    case Node(l, size, ring, r) =>
      RingHead(h, ring, size);
      BlocksIn(h, l, h[p].left);
      BlocksIn(h, r, h[p].right);
  }

  lemma MemberOutside(h: Heap, h': Heap, s: Tree, a: nat)
    requires a in h && h'.Keys == h.Keys && (forall b | b in h :: SameBody(h'[b], h[b]))
    requires (forall b | b in h && b !in Blocks(s) :: h'[b] == h[b])
    requires h[a].parent != NIL && h[a].parent in h ==> h[h[a].parent].left == a || h[h[a].parent].right == a
    ensures Outside(h, h', Blocks(s), h[a].parent, a, a)
  {}

  lemma PromotedTree(s: Tree, t: nat)
    requires s.Node? && Distinct(s) && Ordered(s) && |s.ring| >= 2 && s.ring[0] == t
    ensures var s' := s.(ring := s.ring[1..]);
            Blocks(s') == Blocks(s) - {t} && Sizes(s') <= Sizes(s) && Distinct(s') && Ordered(s')
  {
    RemovedRing(s.ring, 0);
    assert t in Elements(s.ring);
  }

  lemma SpineStart(t: Tree)
    requires t.Node? && t.ring != []
    ensures LeftSpine(t, t.ring[0]) && t.ring[0] in Heads(t) && Subtree(t, t.ring[0]) == t
  {}

  /** A left child is not the root above it, and its parent is the node it hangs from. */
  lemma LeftIsNot(h: Heap, sub: Tree, rp: nat, t: Tree, root: nat)
    requires Rep(h, sub, rp) && sub.Node? && rp in h && h[rp].left != NIL
    requires Rep(h, t, root) && Distinct(t) && rp in Heads(t) && Subtree(t, rp) == sub
    ensures h[rp].left in h && h[h[rp].left].parent == rp && h[rp].left != root
  {
    SubtreeRep(h, t, root, rp);
    SubtreeParts(t, rp);
    RootIn(h, sub.left, h[rp].left);
    HeadsAreBlocks(sub.left);
    assert rp in Elements(sub.ring);
    if h[rp].left == root {
      RootIn(h, t, root);
      SubtreeParts(t, rp);
      RootNotBelow(t, rp, root);
    }
  }

  /** The root's head is in no proper subtree. */
  lemma RootNotBelow(t: Tree, a: nat, root: nat)
    requires Distinct(t) && t.Node? && t.ring != [] && t.ring[0] == root && a in Heads(t) && Distinct(Subtree(t, a))
    ensures root !in Blocks(Subtree(t, a).left)
  {
    assert root in Elements(t.ring);
    if a != root {
      if a in Heads(t.left) { SubtreeParts(t.left, a); } else { SubtreeParts(t.right, a); }
    }
  }

  /** t itself is not among the blocks on its right. */
  lemma TopNotBelow(s: Tree, t: nat)
    requires s.Node? && Distinct(s) && s.ring != [] && s.ring[0] == t
    ensures t !in Blocks(s.right) && t !in Heads(s.right)
  {
    assert t in Elements(s.ring);
    HeadsAreBlocks(s.right);
  }

  lemma NodeOrder(s: Tree)
    requires s.Node? && Distinct(s) && Ordered(s)
    ensures Ordered(s.left) && Ordered(s.right)
    ensures (forall x | x in Sizes(s.left) :: x < s.size) && (forall x | x in Sizes(s.right) :: s.size < x)
    ensures Sizes(s) == {s.size} + Sizes(s.left) + Sizes(s.right)
    ensures Blocks(s) == Elements(s.ring) + Blocks(s.left) + Blocks(s.right)
    ensures Elements(s.ring) !! Blocks(s.left) && Elements(s.ring) !! Blocks(s.right) &&
        Blocks(s.left) !! Blocks(s.right)
  {}

  /** What the surgery below needs to know of the smallest block on the right. */
  lemma SmallestParts(h: Heap, s: Tree, t: nat, f: nat, rp: nat)
    requires NIL !in h && Rep(h, s, t) && Distinct(s) && Ordered(s) && s.Node? && t in h && s.left != Nil &&
        s.right != Nil
    requires LeftSpine(s.right, rp) && rp in Heads(s.right) && rp in h && Subtree(s.right, rp).left == Nil
    ensures var sub := Subtree(s.right, rp);
            && Rep(h, sub, rp) && Rep(h, s.right, h[t].right) && Rep(h, s.left, h[t].left) && Distinct(sub)
            && Blocks(sub) <= Blocks(s.right) && rp in sub.ring && Elements(sub.ring) <= Blocks(sub) &&
                rp in Blocks(sub)
            && Rep(h, sub.right, h[rp].right)
            && (h[rp].right != NIL ==> h[rp].right in h && h[rp].right in Blocks(sub.right))
            && (sub.right == Nil <==> h[rp].right == NIL) && Blocks(sub.right) <= Blocks(sub)
            && Elements(sub.ring) !! Blocks(sub.right)
            && Ring(h, sub.ring, sub.size) && NoDup(sub.ring) && sub.ring[0] == rp && Distinct(sub.right)
    ensures h[t].left != NIL && h[t].left in h && h[t].left in Blocks(s.left)
    ensures h[t].right != NIL && h[t].right in h && h[t].right in Blocks(s.right)
    ensures t !in Blocks(s.left) && t !in Blocks(s.right) && t in Elements(s.ring) && Blocks(s.left) !! Blocks(s.right)
    ensures Blocks(s) == Elements(s.ring) + Blocks(s.left) + Blocks(s.right)
    ensures Elements(s.ring) !! Blocks(s.left) && Elements(s.ring) !! Blocks(s.right)
    ensures rp != h[t].right ==>
        h[rp].parent in h && h[rp].parent in Blocks(s.right) && h[rp].parent !in Blocks(Subtree(s.right, rp))
                                 && h[t].right !in Blocks(Subtree(s.right, rp))
  {
    hide Ring, NoDup, LeftSpine, Subtree, Rep, Distinct, Ordered, Blocks;
    NodeRing(h, s, t);
    NodeOrder(s);
    var sub := Subtree(s.right, rp);
    SubtreeRep(h, s.right, h[t].right, rp);
    SubtreeParts(s.right, rp);
    NodeOrder(sub);
    NodeRing(h, sub, rp);
    RootIn(h, sub.right, h[rp].right);
    RootIn(h, s.left, h[t].left);
    RootIn(h, s.right, h[t].right);
    HeadsAreBlocks(s.right);
    assert rp == sub.ring[0] && rp in sub.ring;
    assert t == s.ring[0] && t in s.ring;
    if rp != h[t].right { RootAbove(s.right, rp, h[t].right); }
  }

  lemma RootAbove(t: Tree, a: nat, root: nat)
    requires Distinct(t) && t.Node? && t.ring != [] && t.ring[0] == root && a in Heads(t) && a != root
    ensures root !in Blocks(Subtree(t, a))
  {
    assert root in Elements(t.ring);
    if a in Heads(t.left) { SubtreeParts(t.left, a); } else { SubtreeParts(t.right, a); }
  }

  /** The smallest block hangs directly from t: its right side stays. */
  lemma SplicedNear(h: Heap, h': Heap, s: Tree, t: nat, rp: nat) returns (s': Tree)
    requires NIL !in h && Rep(h, s, t) && Distinct(s) && Ordered(s) && s.Node? && t in h && s.left != Nil &&
        s.right != Nil
    requires LeftSpine(s.right, rp) && rp in Heads(s.right) && rp in h && Subtree(s.right, rp).left == Nil &&
        rp == h[t].right
    requires h[t].left in h && h' == AdoptedBy(h[rp := h[rp].(left := h[t].left)], h[t].left, rp)
    ensures Rep(h', s', rp)
    ensures Blocks(s') == Blocks(s) - Elements(s.ring) && Sizes(s') <= Sizes(s) && Distinct(s') && Ordered(s')
    ensures OnlyLinks(h, h', Blocks(s) - Elements(s.ring))
  {
    hide Ring, NoDup, LeftSpine, Rep;
    SmallestParts(h, s, t, t, rp);
    NodeOrder(s);
    RootIn(h, s.right, rp);
    var sub := s.right;
    NodeOrder(sub);
    RingHead(h, sub.ring, sub.size);
    forall i | 0 < i < |sub.ring| ensures sub.ring[i] != rp { SameIndex(sub.ring, i, 0); }
    assert forall b | b in sub.ring :: b in Elements(sub.ring);
    RingKept(h, h', sub.ring, sub.size);
    RepReparent(h, h', s.left, h[t].left);
    RepFrame(h, h', sub.right, h[rp].right);
    NodeRing(h, sub, rp);
    ChildKept(h, h', sub, rp);
    s' := Node(s.left, sub.size, sub.ring, sub.right);
    NodeAgain(h, h', s.left, sub.right, sub.ring, sub.size, rp, h[t].left, h[rp].right);
  }

  lemma ChildKept(h: Heap, h': Heap, s: Tree, p: nat)
    requires Rep(h, s, p) && s.Node? && p in h
    requires (h[p].right != NIL ==> h[p].right in h && h[p].right in h' && h'[h[p].right] == h[h[p].right])
    ensures ChildOf(h', h[p].right, p)
  {}

  /** The smallest block lies deeper: its right side replaces it, and it takes over t's right side. */
  lemma SplicedDeep(h: Heap, h2: Heap, h4: Heap, h': Heap, s: Tree, t: nat, f: nat, rp: nat) returns (s': Tree)
    requires NIL !in h && Rep(h, s, t) && Distinct(s) && Ordered(s) && s.Node? && t in h && s.left != Nil &&
        s.right != Nil
    requires LeftSpine(s.right, rp) && rp in Heads(s.right) && rp in h && Subtree(s.right, rp).left == Nil &&
        rp != h[t].right
    requires f in h && f == h[rp].parent && h[f].left == rp && h[t].left in h && h[t].right in h
    requires h[rp].right != NIL ==> h[rp].right in h
    requires h2 == AdoptedBy(h[f := h[f].(left := h[rp].right)], h[rp].right, f)
    requires rp in h2 && h4 == AdoptedBy(h2[rp := h2[rp].(right := h[t].right)], h[t].right, rp)
    requires rp in h4 && h' == AdoptedBy(h4[rp := h4[rp].(left := h[t].left)], h[t].left, rp)
    ensures Rep(h', s', rp)
    ensures Blocks(s') == Blocks(s) - Elements(s.ring) && Sizes(s') <= Sizes(s) && Distinct(s') && Ordered(s')
    ensures OnlyLinks(h, h', Blocks(s) - Elements(s.ring))
  {
    hide Ring, NoDup, LeftSpine, Rep, Subtree, Replace, Blocks, Heads, Distinct, Ordered, Sizes, OnlyLinks;
    SmallestParts(h, s, t, f, rp);
    NodeOrder(s);
    NodeRing(h, s, t);
    var sub := Subtree(s.right, rp);
    SpineMin(s.right, rp);
    var right' := Replace(s.right, rp, sub.right);
    s' := Node(s.left, sub.size, sub.ring, right');
    DeepRep(h, h2, h4, h', s, t, f, rp);
    NodeMade(s, s', sub, right');
  }

  lemma DeepRep(h: Heap, h2: Heap, h4: Heap, h': Heap, s: Tree, t: nat, f: nat, rp: nat)
    requires NIL !in h && Rep(h, s, t) && Distinct(s) && Ordered(s) && s.Node? && t in h && s.left != Nil &&
        s.right != Nil
    requires LeftSpine(s.right, rp) && rp in Heads(s.right) && rp in h && Subtree(s.right, rp).left == Nil &&
        rp != h[t].right
    requires f in h && f == h[rp].parent && h[f].left == rp && h[t].left in h && h[t].right in h
    requires h[rp].right != NIL ==> h[rp].right in h
    requires h2 == AdoptedBy(h[f := h[f].(left := h[rp].right)], h[rp].right, f)
    requires rp in h2 && h4 == AdoptedBy(h2[rp := h2[rp].(right := h[t].right)], h[t].right, rp)
    requires rp in h4 && h' == AdoptedBy(h4[rp := h4[rp].(left := h[t].left)], h[t].left, rp)
    ensures var sub := Subtree(s.right, rp);
            Rep(h', Node(s.left, sub.size, sub.ring, Replace(s.right, rp, sub.right)), rp)
    ensures OnlyLinks(h, h', Blocks(s) - Elements(s.ring))
  {
    hide Ring, NoDup, LeftSpine, Rep, Subtree, Replace, Blocks, Heads, Distinct, Ordered, Sizes, OnlyLinks;
    SmallestParts(h, s, t, f, rp);
    var right, sub, c, r0, l0 := s.right, Subtree(s.right, rp), h[rp].right, h[t].right, h[t].left;
    NodeOrder(s);
    NodeRing(h, s, t);
    var right' := Replace(right, rp, sub.right);
    DeepSteps(h, h2, h4, h', f, c, rp, r0, l0);
    DeepLinks(h, h', Blocks(s) - Elements(s.ring), f, c, rp, r0, l0);
    DeepSide(h, h2, h4, h', s, t, f, rp);
    RepReparent(h, h', s.left, l0);
    DeepRing(h, h', sub.ring, sub.size, rp);
    NodeAgain(h, h', s.left, right', sub.ring, sub.size, rp, l0, r0);
  }

  /** The right side, once the smallest node has left it. */
  lemma DeepSide(h: Heap, h2: Heap, h4: Heap, h': Heap, s: Tree, t: nat, f: nat, rp: nat)
    requires NIL !in h && Rep(h, s, t) && Distinct(s) && Ordered(s) && s.Node? && t in h && s.left != Nil &&
        s.right != Nil
    requires LeftSpine(s.right, rp) && rp in Heads(s.right) && rp in h && Subtree(s.right, rp).left == Nil &&
        rp != h[t].right
    requires f in h && f == h[rp].parent && h[f].left == rp && h[t].left in h && h[t].right in h
    requires h[rp].right != NIL ==> h[rp].right in h
    requires h2 == AdoptedBy(h[f := h[f].(left := h[rp].right)], h[rp].right, f)
    requires rp in h2 && h4 == AdoptedBy(h2[rp := h2[rp].(right := h[t].right)], h[t].right, rp)
    requires rp in h4 && h' == AdoptedBy(h4[rp := h4[rp].(left := h[t].left)], h[t].left, rp)
    ensures Rep(h', Replace(s.right, rp, Subtree(s.right, rp).right), h[t].right)
  {
    hide Ring, NoDup, LeftSpine, Rep, Subtree, Replace, Blocks, Heads, Distinct, Ordered, Sizes;
    SmallestParts(h, s, t, f, rp);
    var right, sub, c, r0, l0 := s.right, Subtree(s.right, rp), h[rp].right, h[t].right, h[t].left;
    NodeOrder(s);
    NodeRing(h, s, t);
    SpineMin(right, rp);
    DeepSteps(h, h2, h4, h', f, c, rp, r0, l0);
    DeepRight(h, h2, right, r0, rp, f, c);
    RepReparent(h2, h4, Replace(right, rp, sub.right), r0);
    RepFrame(h4, h', Replace(right, rp, sub.right), r0);
  }

  lemma DeepRing(h: Heap, h': Heap, ring: seq<nat>, size: nat, rp: nat)
    requires Ring(h, ring, size) && NoDup(ring) && rp == ring[0] && rp in h && rp in h'
    requires h'[rp] == h[rp].(left := h'[rp].left, right := h'[rp].right)
    requires forall b | b in Elements(ring) && b in h && b != rp :: b in h' && h'[b] == h[b]
    ensures Ring(h', ring, size)
  {
    hide Ring, NoDup;
    RingHead(h, ring, size);
    forall i | 0 < i < |ring| ensures ring[i] != rp { SameIndex(ring, i, 0); }
    assert forall b | b in ring :: b in Elements(ring);
    RingKept(h, h', ring, size);
  }

  /** The assignments, put together. */
  lemma DeepSteps(h: Heap, h2: Heap, h4: Heap, h': Heap, f: nat, c: nat, rp: nat, r0: nat, l0: nat)
    requires NIL !in h && f in h && rp in h && r0 in h && l0 in h && (c != NIL ==> c in h)
    requires h2 == AdoptedBy(h[f := h[f].(left := c)], c, f)
    requires rp in h2 && h4 == AdoptedBy(h2[rp := h2[rp].(right := r0)], r0, rp)
    requires rp in h4 && h' == AdoptedBy(h4[rp := h4[rp].(left := l0)], l0, rp)
    requires rp != f && rp != c && rp != r0 && rp != l0 && l0 != f && l0 != c && l0 != r0 && c != f && c != r0
    ensures h2.Keys == h.Keys && h4.Keys == h.Keys && h'.Keys == h.Keys
    ensures h2[f] == h[f].(left := c) && (c != NIL ==> h2[c] == h[c].(parent := f))
    ensures forall b | b in h && b != f && b != c :: h2[b] == h[b]
    ensures h4[r0] == h2[r0].(parent := rp) && forall b | b in h && b != rp && b != r0 :: h4[b] == h2[b]
    ensures forall b | b in h && b != rp && b != l0 :: h'[b] == h4[b]
    ensures h'[rp] == h[rp].(left := l0, right := r0) && h'[l0] == h[l0].(parent := rp) && h'[r0].parent == rp
    ensures forall b | b in h && b != f && b != c && b != rp && b != r0 && b != l0 :: h'[b] == h[b]
    ensures forall b | b in h :: SameBody(h'[b], h[b])
  {}

  lemma DeepLinks(h: Heap, h': Heap, blocks: set<nat>, f: nat, c: nat, rp: nat, r0: nat, l0: nat)
    requires NIL !in h && {f, rp, r0, l0} <= blocks && (c != NIL ==> c in blocks) && h'.Keys == h.Keys
    requires forall b | b in h && b != f && b != c && b != rp && b != r0 && b != l0 :: h'[b] == h[b]
    requires forall b | b in h :: SameBody(h'[b], h[b])
    ensures OnlyLinks(h, h', blocks)
  {}

  /** The right side without its smallest node. */
  lemma DeepRight(h: Heap, h2: Heap, right: Tree, r0: nat, rp: nat, f: nat, c: nat)
    requires NIL !in h && Rep(h, right, r0) && Distinct(right) && rp in Heads(right) && rp in h && rp != r0
    requires Rep(h, Subtree(right, rp).right, c) && Distinct(Subtree(right, rp).right)
    requires (c == NIL <==> Subtree(right, rp).right == Nil)
    requires Blocks(Subtree(right, rp).right) <= Blocks(Subtree(right, rp)) <= Blocks(right)
    requires c != NIL ==> c in h && c in Blocks(Subtree(right, rp).right)
    requires f == h[rp].parent && f in h && h[f].left == rp && f !in Blocks(Subtree(right, rp))
    requires h2.Keys == h.Keys && h2[f] == h[f].(left := c) && (c != NIL ==> h2[c] == h[c].(parent := f))
    requires forall b | b in h && b != f && b != c :: h2[b] == h[b]
    ensures Rep(h2, Replace(right, rp, Subtree(right, rp).right), r0)
  {
    hide Ring, Rep, Subtree, Replace, Blocks, Heads, Distinct;
    var sub := Subtree(right, rp);
    if c != NIL { RepReparent(h, h2, sub.right, c); } else { EmptyRep(h2); }
    Plug(h, h2, right, r0, rp, sub.right, c);
  }

  lemma NodeMade(s: Tree, s': Tree, sub: Tree, right': Tree)
    requires s.Node? && Distinct(s) && Ordered(s) && sub.Node? && s' == Node(s.left, sub.size, sub.ring, right')
    requires NoDup(sub.ring) && Elements(sub.ring) <= Blocks(s.right) &&
        Blocks(right') == Blocks(s.right) - Elements(sub.ring)
    requires Distinct(right') && Ordered(right') && sub.size in Sizes(s.right) && Sizes(right') <= Sizes(s.right)
    requires forall x | x in Sizes(right') :: sub.size < x
    ensures Blocks(s') == Blocks(s) - Elements(s.ring) && Sizes(s') <= Sizes(s) && Distinct(s') && Ordered(s')
  {
    NodeOrder(s);
    NodeBlocks(s, s', sub, right');
    assert Ordered(s') && Sizes(s') <= Sizes(s) by { hide Blocks, Distinct; }
  }

  lemma NodeBlocks(s: Tree, s': Tree, sub: Tree, right': Tree)
    requires s.Node? && Distinct(s) && sub.Node? && s' == Node(s.left, sub.size, sub.ring, right')
    requires NoDup(sub.ring) && Elements(sub.ring) <= Blocks(s.right) &&
        Blocks(right') == Blocks(s.right) - Elements(sub.ring)
    requires Distinct(right')
    ensures Blocks(s') == Blocks(s) - Elements(s.ring) && Distinct(s')
  {}

  function AdoptedBy(h: Heap, c: nat, q: nat): Heap
    requires c != NIL ==> c in h
  {
    if c == NIL then h else h[c := h[c].(parent := q)]
  }

  /** The assignments of a promotion before the list is closed, put together. */
  lemma PromoteSteps(h: Heap, h1: Heap, h2: Heap, h4: Heap, h6: Heap, s: Tree, t: nat, q: nat, f: nat, l: nat, r: nat)
    requires NIL !in h && Rep(h, s, t) && Distinct(s) && s.Node? && |s.ring| >= 2 && q !in Blocks(s)
    requires t in h && q == h[t].parent && f == h[t].fwd && l == h[t].left && r == h[t].right && f in h
    requires (q != NIL ==> q in h)
    requires l != NIL ==> l in h
    requires r != NIL ==> r in h
    requires h1 == h[f := h[f].(parent := q)]
    requires h2 == if q == NIL then h1 else h1[q := Relink(h1[q], t, f)]
    requires f in h2 && h4 == AdoptedBy(h2[f := h2[f].(left := l)], l, f)
    requires f in h4 && h6 == AdoptedBy(h4[f := h4[f].(right := r)], r, f)
    ensures h[t].prev in h && h[t].fwd in h && h6.Keys == h.Keys && h6[t] == h[t]
    ensures PromotedHeap(h, Unlinked(h6, t), t, q, f, l, r)
  {
    hide Rep, Ring, Distinct, NoDup, Unlinked, PromotedHeap;
    NodeFacts(h, s, t);
    MovedUp(h, h1, h2, h4, h6, t, q, f, l, r);
    UnlinkMoved(h, h6, t, q, f, l, r);
  }

  lemma MovedUp(h: Heap, h1: Heap, h2: Heap, h4: Heap, h6: Heap, t: nat, q: nat, f: nat, l: nat, r: nat)
    requires NIL !in h && t in h && f in h && (q != NIL ==> q in h) && (l != NIL ==> l in h) && (r != NIL ==> r in h)
    requires f != q && f != l && f != r && (l != NIL ==> l != r && l != q) && (r != NIL ==> r != q) && t != f
    requires t != q && t != l && t != r
    requires h1 == h[f := h[f].(parent := q)]
    requires h2 == if q == NIL then h1 else h1[q := Relink(h1[q], t, f)]
    requires f in h2 && h4 == AdoptedBy(h2[f := h2[f].(left := l)], l, f)
    requires f in h4 && h6 == AdoptedBy(h4[f := h4[f].(right := r)], r, f)
    ensures h6.Keys == h.Keys && forall b | b in h :: h6[b] == Moved(h[b], b, t, q, f, l, r)
  {
    hide Relink;
  }

  /** A header once f has been put in t's place. */
  function Moved(x: Bhdr, b: nat, t: nat, q: nat, f: nat, l: nat, r: nat): Bhdr {
    if b == f then x.(left := l, right := r, parent := q)
    else if b == l || b == r then x.(parent := f)
    else if b == q then Relink(x, t, f)
    else x
  }

  lemma UnlinkMoved(h: Heap, h6: Heap, t: nat, q: nat, f: nat, l: nat, r: nat)
    requires t in h && f in h && h[t].prev in h && f == h[t].fwd && h6.Keys == h.Keys && f != t && h[t].prev != t
    requires t != q && t != l && t != r && h[t].prev != l && h[t].prev != r && h[t].prev != q && f != l && f != r &&
        f != q
    requires forall b | b in h :: h6[b] == Moved(h[b], b, t, q, f, l, r)
    ensures h6[t] == h[t] && PromotedHeap(h, Unlinked(h6, t), t, q, f, l, r)
  {}

  /** What the surgery needs of a node with two blocks or more. */
  lemma NodeFacts(h: Heap, s: Tree, t: nat)
    requires Rep(h, s, t) && Distinct(s) && s.Node? && |s.ring| >= 2
    ensures t in h && t == s.ring[0] && h[t].fwd == s.ring[1] && h[t].prev in s.ring && h[t].prev in h && h[t].fwd in h
    ensures h[t].fwd != t && h[t].prev != t && h[t].fwd != NIL
    ensures h[t].left != NIL ==> h[t].left in h && h[t].left in Blocks(s.left)
    ensures h[t].right != NIL ==> h[t].right in h && h[t].right in Blocks(s.right)
    ensures forall b | b in s.ring :: b in Blocks(s) && b !in Blocks(s.left) && b !in Blocks(s.right)
    ensures Blocks(s.left) !! Blocks(s.right) && Blocks(s.left) <= Blocks(s) && Blocks(s.right) <= Blocks(s)
  {
    RingAt(h, s.ring, s.size, 0);
    SameIndex(s.ring, 0, 1);
    SameIndex(s.ring, 0, Pred(0, |s.ring|));
    RootIn(h, s.left, h[t].left);
    RootIn(h, s.right, h[t].right);
    assert forall b | b in s.ring :: b in Elements(s.ring);
  }

  /** The heap after a promotion, block by block. */
  ghost predicate PromotedHeap(h: Heap, h': Heap, t: nat, q: nat, f: nat, l: nat, r: nat)
    requires t in h && h[t].prev in h && h[t].fwd in h
  {
    && h'.Keys == h.Keys
    && (forall b | b in h :: h'[b] == (if b == f then Unlinked(h, t)[b].(left := l, right := r, parent := q)
                                       else if b == l || b == r then h[b].(parent := f)
                                       else if b == q then Relink(h[b], t, f)
                                       else Unlinked(h, t)[b]))
  }

  lemma PromotedParts(h: Heap, h': Heap, s: Tree, t: nat, q: nat, f: nat, l: nat, r: nat)
    requires NIL !in h && Rep(h, s, t) && Distinct(s) && s.Node? && |s.ring| >= 2 && t in h && q !in Blocks(s)
    requires f == s.ring[1] && l == h[t].left && r == h[t].right && h[t].prev in h && h[t].fwd in h
    requires PromotedHeap(h, h', t, q, f, l, r)
    ensures f in h' && h'[f].left == l && h'[f].right == r && h'[f].parent == q
    ensures forall b | b in s.ring && b in h && b != f :: b in h' && h'[b] == Unlinked(h, t)[b]
    ensures f in h && h'[f] == Unlinked(h, t)[f].(left := l, right := r, parent := q)
    ensures forall b | b in Blocks(s.left) && b in h :: b in h' && h'[b] == if b == l then h[b].(parent := f) else h[b]
    ensures forall b | b in Blocks(s.right) && b in h :: b in h' && h'[b] == if b == r then h[b].(parent := f) else h[b]
  {
    hide Ring, NoDup, Unlinked, RemoveAt, Succ, Pred, Rep, Distinct, Relink;
    NodeFacts(h, s, t);
    NodeRing(h, s, t);
    RingUnlink(h, s.ring, s.size, 0);
  }

  lemma PromotedOutside(h: Heap, h': Heap, s: Tree, t: nat, q: nat, f: nat, l: nat, r: nat)
    requires NIL !in h && Rep(h, s, t) && Distinct(s) && s.Node? && |s.ring| >= 2 && t in h && q !in Blocks(s)
    requires f == s.ring[1] && l == h[t].left && r == h[t].right && h[t].prev in h && h[t].fwd in h
    requires PromotedHeap(h, h', t, q, f, l, r)
    ensures Outside(h, h', Blocks(s), q, t, f)
  {
    hide Ring, NoDup, Unlinked, RemoveAt, Succ, Pred, Rep, Distinct, PromotedHeap, Relink, SameBody, Blocks;
    NodeFacts(h, s, t);
    NodeRing(h, s, t);
    RingUnlink(h, s.ring, s.size, 0);
    PromotedKeys(h, h', t, q, f, l, r);
    forall b | b in h
      ensures SameBody(h'[b], h[b])
      ensures (b !in Blocks(s) ==> h'[b] == if b == q && q != NIL then Relink(h[b], t, f) else h[b])
    {
      PromotedOne(h, h', t, q, f, l, r, b);
    }
  }

  lemma PromotedKeys(h: Heap, h': Heap, t: nat, q: nat, f: nat, l: nat, r: nat)
    requires t in h && h[t].prev in h && h[t].fwd in h && PromotedHeap(h, h', t, q, f, l, r)
    ensures h'.Keys == h.Keys
  {}

  lemma PromotedOne(h: Heap, h': Heap, t: nat, q: nat, f: nat, l: nat, r: nat, b: nat)
    requires t in h && h[t].prev in h && h[t].fwd in h && PromotedHeap(h, h', t, q, f, l, r) && b in h
    ensures b in h' && SameBody(h'[b], h[b])
    ensures b != f && b != l && b != r && b != h[t].prev && b != h[t].fwd ==> h'[b] == if b == q then Relink(h[b], t, f) else h[b]
  {}

  lemma Promoted(h: Heap, h': Heap, s: Tree, t: nat, q: nat)
    requires NIL !in h && Rep(h, s, t) && Distinct(s) && s.Node? && |s.ring| >= 2 && t in h && q !in Blocks(s)
    requires h[t].prev in h && h[t].fwd in h && PromotedHeap(h, h', t, q, s.ring[1], h[t].left, h[t].right)
    ensures Rep(h', s.(ring := s.ring[1..]), s.ring[1])
    ensures Outside(h, h', Blocks(s), q, t, s.ring[1]) && s.ring[1] in h' && h'[s.ring[1]].parent == q
  {
    hide Ring, NoDup, Unlinked, RemoveAt, Succ, Pred, PromotedHeap, Rep, Distinct, Outside;
    NodeFacts(h, s, t);
    NodeRing(h, s, t);
    var f, l, r := s.ring[1], h[t].left, h[t].right;
    PromotedParts(h, h', s, t, q, f, l, r);
    PromotedOutside(h, h', s, t, q, f, l, r);
    RingUnlink(h, s.ring, s.size, 0);
    RemovedRing(s.ring, 0);
    PromotedRing(h, h', s.ring, s.size, t, q, l, r);
    if l != NIL { RepReparent(h, h', s.left, l); }
    if r != NIL { RepReparent(h, h', s.right, r); }
    if l == NIL { EmptyRep(h'); }
    if r == NIL { EmptyRep(h'); }
    SameHead(s.ring);
    NodeAgain(h, h', s.left, s.right, s.ring[1..], s.size, f, l, r);
  }

  lemma EmptyRep(h: Heap)
    ensures Rep(h, Nil, NIL)
  {}

  lemma PromotedRing(h: Heap, h': Heap, ring: seq<nat>, size: nat, t: nat, q: nat, l: nat, r: nat)
    requires |ring| >= 2 && NoDup(ring) && t in h && h[t].prev in h && h[t].fwd in h
    requires Ring(Unlinked(h, t), ring[1..], size)
    requires forall b | b in ring && b in h && b != ring[1] :: b in h' && h'[b] == Unlinked(h, t)[b]
    requires ring[1] in h && ring[1] in h' &&
        h'[ring[1]] == Unlinked(h, t)[ring[1]].(left := l, right := r, parent := q)
    ensures Ring(h', ring[1..], size)
  {
    hide Ring, NoDup, Unlinked, Succ, Pred;
    var u, ring' := Unlinked(h, t), ring[1..];
    UnlinkedKeys(h, t);
    RingHead(u, ring', size);
    assert forall b | b in ring' :: b in ring && b in u;
    forall i | 0 < i < |ring'| ensures ring'[i] in h' && h'[ring'[i]].parent == NIL {
      SameIndex(ring, i + 1, 1);
    }
    forall b | b in ring'
      ensures b in h' && h'[b] == u[b].(left := h'[b].left, right := h'[b].right, parent := h'[b].parent)
    {}
    RingKept(u, h', ring', size);
  }

  lemma UnlinkedKeys(h: Heap, t: nat)
    requires t in h && h[t].prev in h && h[t].fwd in h
    ensures Unlinked(h, t).Keys == h.Keys
  {}

  lemma SameHead(ring: seq<nat>)
    requires |ring| >= 2
    ensures ring[1..][0] == ring[1]
  {}
}
