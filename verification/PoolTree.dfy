// The free blocks of emu/alloc.c: a search tree by size, linked by parent, left and right, with a
// circular list of equal-sized blocks hanging off each node.

module PoolTree {
  import opened Lists

  const MAGIC_A: nat := 0xa110c
  const MAGIC_F: nat := 0xbadc0c0a
  const MAGIC_E: nat := 0xdeadbabe
  const MAGIC_I: nat := 0xabba

  /** A block header; the links are those of a free block, clink and csize those of a chunk's leader. */
  datatype Bhdr = Bhdr(magic: nat, size: nat, left: nat, right: nat, parent: nat, prev: nat, fwd: nat,
                       clink: nat, csize: nat)

  /** Headers by address. */
  type Heap = map<nat, Bhdr>

  /** The shape of the free tree: each node has a size and the blocks of that size, its head first. */
  datatype Tree = Nil | Node(left: Tree, size: nat, ring: seq<nat>, right: Tree)

  ghost function Blocks(t: Tree): set<nat> {
    match t
    case Nil => {}
    case Node(l, _, ring, r) => Elements(ring) + Blocks(l) + Blocks(r)
  }

  ghost function Heads(t: Tree): set<nat> {
    match t
    case Nil => {}
    case Node(l, _, ring, r) => (if ring == [] then {} else {ring[0]}) + Heads(l) + Heads(r)
  }

  ghost function Sizes(t: Tree): set<nat> {
    match t
    case Nil => {}
    case Node(l, size, _, r) => {size} + Sizes(l) + Sizes(r)
  }

  /** No block is in the tree twice. */
  ghost predicate Distinct(t: Tree) {
    match t
    case Nil => true
    case Node(l, _, ring, r) =>
      && NoDup(ring) && Distinct(l) && Distinct(r)
      && Elements(ring) !! Blocks(l) && Elements(ring) !! Blocks(r) && Blocks(l) !! Blocks(r)
  }

  /** Sizes are strictly ordered. */
  ghost predicate Ordered(t: Tree) {
    match t
    case Nil => true
    case Node(l, size, _, r) =>
      && Ordered(l) && Ordered(r) && (forall x | x in Sizes(l) :: x < size) && (forall x | x in Sizes(r) :: size < x)
  }

  function Succ(i: nat, n: nat): nat { if i + 1 < n then i + 1 else 0 }

  function Pred(i: nat, n: nat): nat
    requires i < n
  {
    if i == 0 then n - 1 else i - 1
  }

  /** A circular list of free blocks of one size; all but the head have no parent. */
  ghost predicate Ring(h: Heap, ring: seq<nat>, size: nat) {
    && |ring| > 0
    && (forall i | 0 <= i < |ring| ::
        ring[i] in h && ring[i] != NIL && h[ring[i]].size == size && h[ring[i]].magic == MAGIC_F)
    && (forall i | 0 <= i < |ring| ::
        h[ring[i]].fwd == ring[Succ(i, |ring|)] && h[ring[i]].prev == ring[Pred(i, |ring|)])
    && (forall i | 0 < i < |ring| :: h[ring[i]].parent == NIL)
  }

  /** c is no block, or a block whose parent is p. */
  ghost predicate ChildOf(h: Heap, c: nat, p: nat) {
    c != NIL ==> c in h && h[c].parent == p
  }

  /** The headers from p on have the shape t. The parent of p itself is left open. */
  ghost predicate Rep(h: Heap, t: Tree, p: nat) {
    match t
    case Nil => p == NIL
    case Node(l, size, ring, r) =>
      && Ring(h, ring, size) && p == ring[0]
      && Rep(h, l, h[p].left) && ChildOf(h, h[p].left, p)
      && Rep(h, r, h[p].right) && ChildOf(h, h[p].right, p)
  }

  /** The whole free tree: shape, order, no block twice, and a root without a parent. */
  ghost predicate FreeTree(h: Heap, t: Tree, root: nat) {
    NIL !in h && Rep(h, t, root) && ChildOf(h, root, NIL) && Distinct(t) && Ordered(t)
  }

  // --- framing ---

  /** Agreement but for the parent link. */
  ghost predicate SameButParent(x: Bhdr, y: Bhdr) {
    x == y.(parent := x.parent)
  }

  lemma {:induction false} RepFrame(h: Heap, h': Heap, t: Tree, p: nat)
    requires Rep(h, t, p) && forall b | b in Blocks(t) && b in h :: b in h' && h'[b] == h[b]
    ensures Rep(h', t, p)
  {
    match t
    case Nil =>
    case Node(l, size, ring, r) =>
      RootIn(h, l, h[p].left);
      RootIn(h, r, h[p].right);
      forall i | 0 <= i < |ring| ensures ring[i] in h' && h'[ring[i]] == h[ring[i]] { assert ring[i] in Blocks(t); }
      RepFrame(h, h', l, h[p].left);
      RepFrame(h, h', r, h[p].right);
  }

  /** A tree's root is one of its heads. */
  lemma RootIn(h: Heap, t: Tree, p: nat)
    requires Rep(h, t, p)
    ensures p != NIL ==> p in Heads(t) && p in Blocks(t) && p in h && t.Node? && t.ring != [] && t.ring[0] == p
    ensures p == NIL <==> t == Nil
  {
    if t.Node? { assert t.ring[0] in Elements(t.ring); }
  }

  lemma {:induction false} HeadsAreBlocks(t: Tree)
    ensures Heads(t) <= Blocks(t)
  {
    match t
    case Nil =>
    case Node(l, size, ring, r) =>
      HeadsAreBlocks(l);
      HeadsAreBlocks(r);
      if ring != [] { assert ring[0] in Elements(ring); }
  }

  // --- subtrees ---

  ghost function Subtree(t: Tree, a: nat): (s: Tree)
    requires a in Heads(t)
    ensures s.Node? && s.ring != [] && s.ring[0] == a
  {
    if t.ring != [] && t.ring[0] == a then t else if a in Heads(t.left) then Subtree(t.left, a) else Subtree(t.right, a)
  }

  ghost function Replace(t: Tree, a: nat, s: Tree): Tree
    requires a in Heads(t)
  {
    if t.ring != [] && t.ring[0] == a then s
    else if a in Heads(t.left) then t.(left := Replace(t.left, a, s))
    else t.(right := Replace(t.right, a, s))
  }

  lemma {:induction false} SubtreeParts(t: Tree, a: nat)
    requires a in Heads(t)
    ensures Blocks(Subtree(t, a)) <= Blocks(t) && Sizes(Subtree(t, a)) <= Sizes(t) && Heads(Subtree(t, a)) <= Heads(t)
    ensures Distinct(t) ==> Distinct(Subtree(t, a))
    ensures Ordered(t) ==> Ordered(Subtree(t, a))
  {
    if !(t.ring != [] && t.ring[0] == a) {
      if a in Heads(t.left) { SubtreeParts(t.left, a); } else { SubtreeParts(t.right, a); }
    }
  }

  lemma {:induction false} SubtreeRep(h: Heap, t: Tree, p: nat, a: nat)
    requires Rep(h, t, p) && Distinct(t) && a in Heads(t)
    ensures Rep(h, Subtree(t, a), a) && a in h && a != NIL
    ensures a != p ==>
        h[a].parent in Heads(t) && h[a].parent in h && h[a].parent !in Blocks(Subtree(t, a)) && h[a].parent != NIL
    ensures a != p ==> h[h[a].parent].left == a || h[h[a].parent].right == a
    ensures p != NIL
  {
    var l, r := t.left, t.right;
    RootIn(h, t, p);
    HeadsAreBlocks(l);
    HeadsAreBlocks(r);
    assert p in Elements(t.ring);
    if a != p {
      if a in Heads(l) {
        SubtreeRep(h, l, h[p].left, a);
        SubtreeParts(l, a);
      } else {
        SubtreeRep(h, r, h[p].right, a);
        SubtreeParts(r, a);
      }
    }
  }

  /** What replacing a subtree by one of its own blocks and sizes does. */
  lemma {:induction false} ReplaceParts(t: Tree, a: nat, s: Tree)
    requires a in Heads(t) && Distinct(t) && Blocks(s) <= Blocks(Subtree(t, a)) && Distinct(s)
    ensures Blocks(Replace(t, a, s)) == Blocks(t) - Blocks(Subtree(t, a)) + Blocks(s)
    ensures Distinct(Replace(t, a, s))
  {
    if !(t.ring != [] && t.ring[0] == a) {
      HeadsAreBlocks(t.left);
      HeadsAreBlocks(t.right);
      if a in Heads(t.left) {
        SubtreeParts(t.left, a);
        ReplaceParts(t.left, a, s);
        LeftReplaced(t, Replace(t.left, a, s), Blocks(Subtree(t, a)), Blocks(s));
      } else {
        SubtreeParts(t.right, a);
        ReplaceParts(t.right, a, s);
        RightReplaced(t, Replace(t.right, a, s), Blocks(Subtree(t, a)), Blocks(s));
      }
    }
  }

  lemma LeftReplaced(t: Tree, t': Tree, sub: set<nat>, s: set<nat>)
    requires t.Node? && Distinct(t) && Distinct(t') && sub <= Blocks(t.left) && s <= sub &&
        Blocks(t') == Blocks(t.left) - sub + s
    ensures var n := t.(left := t'); Distinct(n) && Blocks(n) == Blocks(t) - sub + s
  {
    Reunite(Elements(t.ring) + Blocks(t.right), Blocks(t.left), sub, s);
  }

  lemma RightReplaced(t: Tree, t': Tree, sub: set<nat>, s: set<nat>)
    requires t.Node? && Distinct(t) && Distinct(t') && sub <= Blocks(t.right) && s <= sub &&
        Blocks(t') == Blocks(t.right) - sub + s
    ensures var n := t.(right := t'); Distinct(n) && Blocks(n) == Blocks(t) - sub + s
  {
    Reunite(Elements(t.ring) + Blocks(t.left), Blocks(t.right), sub, s);
  }

  lemma Reunite(rest: set<nat>, x: set<nat>, sub: set<nat>, s: set<nat>)
    requires rest !! x && sub <= x && s <= sub
    ensures rest + (x - sub + s) == (rest + x) - sub + s
    ensures x - sub + s <= x
  {}

  lemma {:induction false} ReplaceOrdered(t: Tree, a: nat, s: Tree)
    requires a in Heads(t) && Ordered(t) && Sizes(s) <= Sizes(Subtree(t, a)) && Ordered(s)
    ensures Sizes(Replace(t, a, s)) <= Sizes(t) && Ordered(Replace(t, a, s))
  {
    if !(t.ring != [] && t.ring[0] == a) {
      if a in Heads(t.left) { ReplaceOrdered(t.left, a, s); } else { ReplaceOrdered(t.right, a, s); }
    }
  }

  /** The link to a, on whichever side it is. */
  function Relink(b: Bhdr, a: nat, c: nat): Bhdr {
    if b.left == a then b.(left := c) else b.(right := c)
  }

  /** Putting the subtree s, rooted at c, in the place of the one at a: only the link to a need change outside. */
  lemma {:induction false} Plug(h: Heap, h': Heap, t: Tree, p: nat, a: nat, s: Tree, c: nat)
    requires Rep(h, t, p) && Distinct(t) && a in Heads(t) && a in h
    requires Rep(h', s, c) && ChildOf(h', c, h[a].parent)
    requires forall b | b in Blocks(t) - Blocks(Subtree(t, a)) && b in h ::
               b in h' && h'[b] == if b == h[a].parent && a != p then Relink(h[b], a, c) else h[b]
    ensures Rep(h', Replace(t, a, s), if p == a then c else p)
    ensures p != a ==> p in h && p in h' && h'[p].parent == h[p].parent
  {
    if p != a {
      var l, r, q := t.left, t.right, h[a].parent;
      RootIn(h, t, p);
      HeadsAreBlocks(l);
      HeadsAreBlocks(r);
      if a in Heads(l) {
        SubtreeParts(l, a);
        SubtreeRep(h, l, h[p].left, a);
        RootIn(h, l, h[p].left);
        Plug(h, h', l, h[p].left, a, s, c);
        PlugLeft(h, h', t, p, if h[p].left == a then c else h[p].left, Replace(l, a, s));
      } else {
        SubtreeParts(r, a);
        SubtreeRep(h, r, h[p].right, a);
        RootIn(h, r, h[p].right);
        Plug(h, h', r, h[p].right, a, s, c);
        PlugRight(h, h', t, p, if h[p].right == a then c else h[p].right, Replace(r, a, s));
      }
    }
  }

  lemma RingKept(h: Heap, h': Heap, ring: seq<nat>, size: nat)
    requires Ring(h, ring, size)
    requires forall b | b in ring ::
        b in h' && h'[b] == h[b].(left := h'[b].left, right := h'[b].right, parent := h'[b].parent)
    requires forall i | 0 < i < |ring| :: h'[ring[i]].parent == NIL
    ensures Ring(h', ring, size)
  {
    assert forall i | 0 <= i < |ring| :: ring[i] in ring;
  }

  lemma PlugLeft(h: Heap, h': Heap, t: Tree, p: nat, c: nat, l': Tree)
    requires Rep(h, t, p) && Distinct(t) && t.Node?
    requires Rep(h', l', c) && ChildOf(h', c, p)
    requires p in h && p in h' && h'[p] == h[p].(left := c)
    requires forall b | b in Elements(t.ring) + Blocks(t.right) && b in h && b != p :: b in h' && h'[b] == h[b]
    ensures Rep(h', t.(left := l'), p)
  {
    hide Ring;
    RingHead(h, t.ring, t.size);
    assert forall i | 0 <= i < |t.ring| :: t.ring[i] in Elements(t.ring);
    assert forall i | 0 < i < |t.ring| :: t.ring[i] != p;
    RingKept(h, h', t.ring, t.size);
    RootIn(h, t.right, h[p].right);
    RepFrame(h, h', t.right, h[p].right);
  }

  lemma PlugRight(h: Heap, h': Heap, t: Tree, p: nat, c: nat, r': Tree)
    requires Rep(h, t, p) && Distinct(t) && t.Node?
    requires Rep(h', r', c) && ChildOf(h', c, p)
    requires p in h && p in h' && h'[p] == h[p].(right := c)
    requires forall b | b in Elements(t.ring) + Blocks(t.left) && b in h && b != p :: b in h' && h'[b] == h[b]
    ensures Rep(h', t.(right := r'), p)
  {
    hide Ring;
    RingHead(h, t.ring, t.size);
    assert forall i | 0 <= i < |t.ring| :: t.ring[i] in Elements(t.ring);
    assert forall i | 0 < i < |t.ring| :: t.ring[i] != p;
    RingKept(h, h', t.ring, t.size);
    RootIn(h, t.left, h[p].left);
    RepFrame(h, h', t.left, h[p].left);
  }

  lemma RingHead(h: Heap, ring: seq<nat>, size: nat)
    requires Ring(h, ring, size)
    ensures |ring| > 0 && forall i | 0 <= i < |ring| ::
        ring[i] in h && ring[i] != NIL && (i > 0 ==> h[ring[i]].parent == NIL)
  {}

  /** Changing the root's parent does not change the shape. */
  lemma RepReparent(h: Heap, h': Heap, t: Tree, p: nat)
    requires Rep(h, t, p) && Distinct(t) && p != NIL && p in h && p in h' && SameButParent(h'[p], h[p])
    requires forall b | b in Blocks(t) && b in h && b != p :: b in h' && h'[b] == h[b]
    ensures Rep(h', t, p)
  {
    hide Ring;
    RingHead(h, t.ring, t.size);
    assert forall i | 0 <= i < |t.ring| :: t.ring[i] in Elements(t.ring);
    assert forall i | 0 < i < |t.ring| :: t.ring[i] != p;
    RingKept(h, h', t.ring, t.size);
    RootIn(h, t.left, h[p].left);
    RootIn(h, t.right, h[p].right);
    RepFrame(h, h', t.left, h[p].left);
    RepFrame(h, h', t.right, h[p].right);
  }

  // --- taking a block out of a list ---

  ghost function RemoveAt(ring: seq<nat>, i: nat): seq<nat>
    requires i < |ring|
  {
    ring[..i] + ring[i + 1..]
  }

  /** The two assignments that take t out of its circular list. */
  function Unlinked(h: Heap, t: nat): Heap
    requires t in h && h[t].prev in h && h[t].fwd in h
  {
    var p, n := h[t].prev, h[t].fwd;
    var h1 := h[p := h[p].(fwd := n)];
    h1[n := h1[n].(prev := h1[t].prev)]
  }

  lemma RingUnlink(h: Heap, ring: seq<nat>, size: nat, i: nat)
    requires Ring(h, ring, size) && NoDup(ring) && i < |ring| && |ring| >= 2
    ensures h[ring[i]].prev in h && h[ring[i]].fwd in h
    ensures Ring(Unlinked(h, ring[i]), RemoveAt(ring, i), size)
    ensures forall b | b in h ::
        Unlinked(h, ring[i])[b] == h[b].(fwd := Unlinked(h, ring[i])[b].fwd, prev := Unlinked(h, ring[i])[b].prev)
    ensures forall b | b in h && b !in ring :: Unlinked(h, ring[i])[b] == h[b]
    ensures Unlinked(h, ring[i])[ring[i]] == h[ring[i]] && Unlinked(h, ring[i]).Keys == h.Keys
  {
    hide Ring, NoDup, Succ, Pred, RemoveAt, Unlinked;
    var n := |ring|;
    var t := ring[i];
    RingAt(h, ring, size, i);
    UnlinkedKept(h, ring, size, i);
    var h' := Unlinked(h, t);
    var ring' := RemoveAt(ring, i);
    RemovedAt(ring, i);
    var n' := n - 1;
    forall k | 0 <= k < n' ensures Succ(k, n') < n' && Pred(k, n') < n' { Neighbours(k, n'); }
    forall k | 0 <= k < n'
      ensures ring'[k] in h' && ring'[k] != NIL && h'[ring'[k]].size == size && h'[ring'[k]].magic == MAGIC_F
      ensures k > 0 ==> h'[ring'[k]].parent == NIL
      ensures h'[ring'[k]].fwd == ring'[Succ(k, n')] && h'[ring'[k]].prev == ring'[Pred(k, n')]
    {
      var j := if k < i then k else k + 1;
      RingAt(h, ring, size, j);
      UnlinkedAt(h, ring, size, i, j);
      IndexAfter(ring, i, k, n);
    }
    RingFrom(h', ring', size);
  }

  lemma RemovedAt(ring: seq<nat>, i: nat)
    requires i < |ring|
    ensures |RemoveAt(ring, i)| == |ring| - 1
    ensures forall k | 0 <= k < |ring| - 1 :: RemoveAt(ring, i)[k] == ring[if k < i then k else k + 1]
  {}

  lemma RingFrom(h: Heap, ring: seq<nat>, size: nat)
    requires |ring| > 0
    requires forall k | 0 <= k < |ring| ::
        ring[k] in h && ring[k] != NIL && h[ring[k]].size == size && h[ring[k]].magic == MAGIC_F
    requires forall k | 0 < k < |ring| :: h[ring[k]].parent == NIL
    requires forall k | 0 <= k < |ring| ::
        h[ring[k]].fwd == ring[Succ(k, |ring|)] && h[ring[k]].prev == ring[Pred(k, |ring|)]
    ensures Ring(h, ring, size)
  {}

  lemma UnlinkedKept(h: Heap, ring: seq<nat>, size: nat, i: nat)
    requires Ring(h, ring, size) && NoDup(ring) && i < |ring| && |ring| >= 2
    ensures h[ring[i]].prev in h && h[ring[i]].fwd in h
    ensures forall b | b in h ::
        Unlinked(h, ring[i])[b] == h[b].(fwd := Unlinked(h, ring[i])[b].fwd, prev := Unlinked(h, ring[i])[b].prev)
    ensures forall b | b in h && b !in ring :: Unlinked(h, ring[i])[b] == h[b]
    ensures Unlinked(h, ring[i])[ring[i]] == h[ring[i]] && Unlinked(h, ring[i]).Keys == h.Keys
  {
    hide Ring, NoDup, Succ, Pred;
    var n := |ring|;
    Neighbours(i, n);
    RingAt(h, ring, size, i);
    RingAt(h, ring, size, Pred(i, n));
    RingAt(h, ring, size, Succ(i, n));
    NeighbourOf(i, i, n);
    SameIndex(ring, i, Pred(i, n));
    SameIndex(ring, i, Succ(i, n));
    Apart2(i, n);
  }

  lemma Apart2(i: nat, n: nat)
    requires i < n && n >= 2
    ensures Succ(i, n) != i && Pred(i, n) != i
  {}

  /** Where a survivor's neighbours are, after the i-th is gone. */
  lemma IndexAfter(ring: seq<nat>, i: nat, k: nat, n: nat)
    requires n == |ring| >= 2 && i < n && k < n - 1
    ensures var j := if k < i then k else k + 1;
            var ring' := RemoveAt(ring, i);
            && ring'[Succ(k, n - 1)] == (if Succ(j, n) == i then ring[Succ(i, n)] else ring[Succ(j, n)])
            && ring'[Pred(k, n - 1)] == (if Pred(j, n) == i then ring[Pred(i, n)] else ring[Pred(j, n)])
  {}

  lemma UnlinkedAt(h: Heap, ring: seq<nat>, size: nat, i: nat, j: nat)
    requires Ring(h, ring, size) && NoDup(ring) && i < |ring| && j < |ring| && i != j
    ensures h[ring[i]].prev in h && h[ring[i]].fwd in h
    ensures var n := |ring|;
            var x := Unlinked(h, ring[i])[ring[j]];
            && x == h[ring[j]].(fwd := x.fwd, prev := x.prev)
            && x.fwd == (if Succ(j, n) == i then ring[Succ(i, n)] else ring[Succ(j, n)])
            && x.prev == (if Pred(j, n) == i then ring[Pred(i, n)] else ring[Pred(j, n)])
  {
    hide Ring, NoDup, Succ, Pred;
    var n := |ring|;
    Neighbours(i, n);
    RingAt(h, ring, size, i);
    RingAt(h, ring, size, j);
    RingAt(h, ring, size, Pred(i, n));
    RingAt(h, ring, size, Succ(i, n));
    SameIndex(ring, j, Pred(i, n));
    SameIndex(ring, j, Succ(i, n));
    SameIndex(ring, i, Pred(i, n));
    NeighbourOf(i, j, n);
  }

  lemma RingAt(h: Heap, ring: seq<nat>, size: nat, i: nat)
    requires Ring(h, ring, size) && i < |ring|
    ensures Succ(i, |ring|) < |ring| && Pred(i, |ring|) < |ring|
    ensures ring[i] in h && ring[i] != NIL && h[ring[i]].size == size && h[ring[i]].magic == MAGIC_F
    ensures h[ring[i]].fwd == ring[Succ(i, |ring|)] && h[ring[i]].prev == ring[Pred(i, |ring|)]
    ensures i > 0 ==> h[ring[i]].parent == NIL
  {}

  lemma SameIndex(ring: seq<nat>, i: nat, j: nat)
    requires NoDup(ring) && i < |ring| && j < |ring|
    ensures ring[i] == ring[j] <==> i == j
  {}

  lemma Neighbours(i: nat, n: nat)
    requires i < n
    ensures Succ(i, n) < n && Pred(i, n) < n
  {}

  lemma NeighbourOf(i: nat, j: nat, n: nat)
    requires i < n && j < n
    ensures Succ(j, n) == i <==> j == Pred(i, n)
    ensures Pred(j, n) == i <==> j == Succ(i, n)
  {}

  // --- the smallest node of a subtree ---

  /** rp is found by going left from the root of t. */
  ghost predicate LeftSpine(t: Tree, rp: nat) {
    t.Node? && t.ring != [] && (t.ring[0] == rp || LeftSpine(t.left, rp))
  }

  lemma {:induction false} SpineHead(t: Tree, rp: nat)
    requires LeftSpine(t, rp)
    ensures rp in Heads(t)
  {
    if t.ring[0] != rp { SpineHead(t.left, rp); }
  }

  /** One more step to the left. */
  lemma {:induction false} SpineStep(t: Tree, rp: nat, s: nat)
    requires LeftSpine(t, rp) && Distinct(t) && rp in Heads(t)
    requires Subtree(t, rp).left.Node? && Subtree(t, rp).left.ring != [] && Subtree(t, rp).left.ring[0] == s
    ensures LeftSpine(t, s) && s in Heads(t) && Subtree(t, s) == Subtree(t, rp).left
  {
    HeadsAreBlocks(t.left);
    if t.ring[0] == rp {
      assert s in Elements(t.left.ring);
      assert t.ring[0] in Elements(t.ring);
    } else {
      SpineHead(t.left, rp);
      SpineStep(t.left, rp, s);
      assert t.ring[0] in Elements(t.ring);
    }
  }

  /** A node without a left child on the left spine is the smallest; without it the tree keeps the rest. */
  lemma {:induction false} SpineMin(t: Tree, rp: nat)
    requires LeftSpine(t, rp) && Distinct(t) && Ordered(t) && rp in Heads(t) && Subtree(t, rp).left == Nil
    ensures var s := Subtree(t, rp);
            var t' := Replace(t, rp, s.right);
            && (forall x | x in Sizes(t') :: s.size < x) && s.size in Sizes(t) && Sizes(t') <= Sizes(t)
            && Blocks(t') == Blocks(t) - Elements(s.ring) && Elements(s.ring) <= Blocks(t)
            && Distinct(t') && Ordered(t')
  {
    HeadsAreBlocks(t.left);
    assert t.ring[0] in Elements(t.ring);
    if t.ring[0] != rp {
      SpineHead(t.left, rp);
      SpineMin(t.left, rp);
    }
  }

  // --- finding a block's node ---

  lemma {:induction false} FindHead(h: Heap, t: Tree, p: nat, b: nat) returns (a: nat, i: nat)
    requires Rep(h, t, p) && Distinct(t) && b in Blocks(t)
    ensures a in Heads(t) && i < |Subtree(t, a).ring| && Subtree(t, a).ring[i] == b
  {
    HeadsAreBlocks(t.left);
    HeadsAreBlocks(t.right);
    if b in Elements(t.ring) {
      a := t.ring[0];
      i :| 0 <= i < |t.ring| && t.ring[i] == b;
    } else if b in Blocks(t.left) {
      a, i := FindHead(h, t.left, h[p].left, b);
      assert t.ring[0] in Elements(t.ring);
    } else {
      a, i := FindHead(h, t.right, h[p].right, b);
      assert t.ring[0] in Elements(t.ring);
    }
  }

  /** The test pooldel starts with tells the members of a list from its head. */
  lemma MemberTest(h: Heap, t: Tree, root: nat, a: nat, i: nat)
    requires FreeTree(h, t, root) && a in Heads(t) && i < |Subtree(t, a).ring|
    ensures var b := Subtree(t, a).ring[i];
            b in h && (h[b].parent == NIL && root != b <==> i > 0) && (i == 0 ==> b == a)
    ensures var b := Subtree(t, a).ring[i]; h[b].fwd != b <==> |Subtree(t, a).ring| >= 2
    ensures NoDup(Subtree(t, a).ring) && Ring(h, Subtree(t, a).ring, Subtree(t, a).size)
  {
    var s := Subtree(t, a);
    SubtreeRep(h, t, root, a);
    SubtreeParts(t, a);
    RingAt(h, s.ring, s.size, i);
    SameIndex(s.ring, i, Succ(i, |s.ring|));
    SameIndex(s.ring, i, 0);
    if i > 0 && s.ring[i] == root {
      RootIn(h, t, root);
      HeadsAreBlocks(t);
      if root != a {
        OneHead(t, root, a, i);
      }
    }
  }

  /** A head is in no list but its own. */
  lemma {:induction false} OneHead(t: Tree, b: nat, a: nat, i: nat)
    requires Distinct(t) && t.Node? && t.ring != [] && t.ring[0] == b && a in Heads(t) && a != b
    requires i < |Subtree(t, a).ring|
    ensures Subtree(t, a).ring[i] != b
  {
    assert b in Elements(t.ring);
    if a in Heads(t.left) { SubtreeParts(t.left, a); } else { SubtreeParts(t.right, a); }
    assert Subtree(t, a).ring[i] in Elements(Subtree(t, a).ring);
  }

  // --- the whole tree after a removal ---

  /** Agreement on everything but the links. */
  ghost predicate SameBody(x: Bhdr, y: Bhdr) {
    x == y.(left := x.left, right := x.right, parent := x.parent, prev := x.prev, fwd := x.fwd)
  }

  /** Only links changed, and only those of the blocks s. */
  ghost predicate OnlyLinks(h: Heap, h': Heap, s: set<nat>) {
    && h'.Keys == h.Keys
    && (forall b | b in h :: SameBody(h'[b], h[b]))
    && (forall b | b in h && b !in s :: h'[b] == h[b])
  }

  /** The heap outside a subtree at a with parent q, when c takes its place. */
  ghost predicate Outside(h: Heap, h': Heap, s: set<nat>, q: nat, a: nat, c: nat) {
    && h'.Keys == h.Keys
    && (forall b | b in h :: SameBody(h'[b], h[b]))
    && (forall b | b in h && b !in s :: h'[b] == if b == q && q != NIL then Relink(h[b], a, c) else h[b])
  }

  lemma TreeWithout(h: Heap, h': Heap, t: Tree, root: nat, a: nat, s: Tree, c: nat, b: nat)
    requires FreeTree(h, t, root) && a in Heads(t) && a in h
    requires Rep(h', s, c) && ChildOf(h', c, h[a].parent) && Outside(h, h', Blocks(Subtree(t, a)), h[a].parent, a, c)
    requires Blocks(s) == Blocks(Subtree(t, a)) - {b} && Sizes(s) <= Sizes(Subtree(t, a)) && Distinct(s) && Ordered(s)
    requires b in Blocks(Subtree(t, a))
    ensures FreeTree(h', Replace(t, a, s), if h[a].parent == NIL then c else root)
    ensures Blocks(Replace(t, a, s)) == Blocks(t) - {b} && OnlyLinks(h, h', Blocks(t))
  {
    hide Distinct, Ordered, Sizes, Heads, Replace, Subtree, Rep;
    SubtreeRep(h, t, root, a);
    SubtreeParts(t, a);
    ReplaceParts(t, a, s);
    ReplaceOrdered(t, a, s);
    HeadsAreBlocks(t);
    RootIn(h, t, root);
    Plug(h, h', t, root, a, s, c);
  }

  // --- the three removals, on values ---

  lemma NodeAgain(h: Heap, h': Heap, l: Tree, r: Tree, ring: seq<nat>, size: nat, a: nat, lp: nat, rp: nat)
    requires Ring(h', ring, size) && ring[0] == a && h'[a].left == lp && h'[a].right == rp
    requires Rep(h', l, lp) && ChildOf(h', lp, a) && Rep(h', r, rp) && ChildOf(h', rp, a)
    ensures Rep(h', Node(l, size, ring, r), a)
  {}

  /** A member leaves its list. */
  lemma MemberLeaves(h: Heap, s: Tree, a: nat, i: nat)
    requires Rep(h, s, a) && Distinct(s) && s.Node? && 0 < i < |s.ring|
    ensures h[s.ring[i]].prev in h && h[s.ring[i]].fwd in h
    ensures var s' := s.(ring := RemoveAt(s.ring, i));
            var h' := Unlinked(h, s.ring[i]);
            && Rep(h', s', a) && h'[a].parent == h[a].parent
            && Distinct(s') && Blocks(s') == Blocks(s) - {s.ring[i]} && Sizes(s') == Sizes(s)
            && (Ordered(s) ==> Ordered(s'))
            && h'.Keys == h.Keys && (forall b | b in h :: SameBody(h'[b], h[b]))
            && (forall b | b in h && b !in Blocks(s) :: h'[b] == h[b])
  {
    hide Ring, NoDup, Unlinked, RemoveAt;
    RingHead(h, s.ring, s.size);
    RingUnlink(h, s.ring, s.size, i);
    var h' := Unlinked(h, s.ring[i]);
    RemovedRing(s.ring, i);
    RootIn(h, s.left, h[a].left);
    RootIn(h, s.right, h[a].right);
    assert forall b | b in s.ring :: b in Elements(s.ring);
    RepFrame(h, h', s.left, h[a].left);
    RepFrame(h, h', s.right, h[a].right);
    NodeAgain(h, h', s.left, s.right, RemoveAt(s.ring, i), s.size, a, h[a].left, h[a].right);
  }

  lemma RemovedRing(ring: seq<nat>, i: nat)
    requires NoDup(ring) && i < |ring|
    ensures NoDup(RemoveAt(ring, i)) && Elements(RemoveAt(ring, i)) == Elements(ring) - {ring[i]}
    ensures i > 0 ==> RemoveAt(ring, i)[0] == ring[0]
    ensures i == 0 ==> RemoveAt(ring, i) == ring[1..]
  {
    forall b | b in Elements(ring) - {ring[i]} ensures b in Elements(RemoveAt(ring, i)) {
      var k :| 0 <= k < |ring| && ring[k] == b;
      assert RemoveAt(ring, i)[if k < i then k else k - 1] == b;
    }
  }

  lemma NodeRing(h: Heap, s: Tree, t: nat)
    requires Rep(h, s, t) && Distinct(s) && s.Node?
    ensures Ring(h, s.ring, s.size) && NoDup(s.ring) && t == s.ring[0] && t in h
    ensures Rep(h, s.left, h[t].left) && Rep(h, s.right, h[t].right) && Distinct(s.left) && Distinct(s.right)
    ensures h[t].left != NIL ==> h[t].left in h
    ensures h[t].right != NIL ==> h[t].right in h
    ensures s.left == Nil <==> h[t].left == NIL
    ensures s.right == Nil <==> h[t].right == NIL
  {
    RootIn(h, s.left, h[t].left);
    RootIn(h, s.right, h[t].right);
  }
}
