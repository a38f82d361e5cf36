// Mount tables: pgrpinsert, pgrpcpy and newmount of emu/main.c, and mntscan of emu/devprog.c.

module Namespace {
  import opened Lists

  const MNTHASH := 32

  /** The last mount id a scan can tell from its initial bestmid. */
  const LASTID: nat := 0xFFFF_FFFE

  /** The structure Mount, without its list links; head and to are addresses. */
  datatype Mount = Mount(mountid: nat, head: nat, to: nat, flag: int, spec: string)

  /** The structure Mhead, with the list of its mounts. */
  datatype Mhead = Mhead(from: nat, mount: seq<nat>)

  // --- lists of mounts ---

  ghost predicate Heads(heads: map<nat, Mhead>, hs: seq<nat>) {
    forall h | h in hs :: h in heads
  }

  ghost predicate AllHeads(heads: map<nat, Mhead>, table: seq<seq<nat>>) {
    forall i | 0 <= i < |table| :: Heads(heads, table[i])
  }

  /** All mounts of some heads, in the order a walk over them meets them. */
  ghost function Under(heads: map<nat, Mhead>, hs: seq<nat>): seq<nat>
    requires Heads(heads, hs)
  {
    if hs == [] then [] else Under(heads, hs[..|hs| - 1]) + heads[hs[|hs| - 1]].mount
  }

  /** All mounts of a table. */
  ghost function Mounts(heads: map<nat, Mhead>, table: seq<seq<nat>>): seq<nat>
    requires AllHeads(heads, table)
  {
    if table == [] then [] else Mounts(heads, table[..|table| - 1]) + Under(heads, table[|table| - 1])
  }

  /** In strictly increasing order of mount id. */
  ghost predicate Sorted(mounts: map<nat, Mount>, q: seq<nat>) {
    && (forall m | m in q :: m in mounts)
    && (forall i, j | 0 <= i < j < |q| :: mounts[q[i]].mountid < mounts[q[j]].mountid)
  }

  /** No two mounts of the list have the same id. */
  ghost predicate Apart(mounts: map<nat, Mount>, q: seq<nat>) {
    && (forall m | m in q :: m in mounts)
    && (forall i, j | 0 <= i < j < |q| :: mounts[q[i]].mountid != mounts[q[j]].mountid)
  }

  /** pgrpinsert: the list with m in its place. */
  method Insert(mounts: map<nat, Mount>, order: seq<nat>, m: nat) returns (order': seq<nat>)
    requires Sorted(mounts, order) && m in mounts && m !in order
    requires forall x | x in order :: mounts[x].mountid != mounts[m].mountid
    ensures Sorted(mounts, order') && multiset(order') == multiset(order) + multiset{m}
  {
    var f := 0;
    while f < |order|
      invariant 0 <= f <= |order|
      invariant forall i | 0 <= i < f :: mounts[order[i]].mountid < mounts[m].mountid
    {
      if mounts[m].mountid < mounts[order[f]].mountid {
        order' := order[..f] + [m] + order[f..];
        Placed(mounts, order, f, m);
        OneMore(order, f, m);
        return;
      }
      assert order[f] in order;
      f := f + 1;
    }
    order' := order + [m];
    assert order[..f] + [m] + order[f..] == order';
    Placed(mounts, order, f, m);
    OneMore(order, f, m);
  }

  lemma Placed(mounts: map<nat, Mount>, order: seq<nat>, f: nat, m: nat)
    requires Sorted(mounts, order) && m in mounts && f <= |order|
    requires forall i | 0 <= i < f :: mounts[order[i]].mountid < mounts[m].mountid
    requires f < |order| ==> mounts[m].mountid < mounts[order[f]].mountid
    ensures Sorted(mounts, order[..f] + [m] + order[f..])
  {
    var lo, hi := order[..f], order[f..];
    Before(mounts, order, f, m);
    Behind(mounts, order, f, m);
    hide Sorted;
    Joined(mounts, lo, [m]);
    Joined(mounts, lo + [m], hi);
  }

  lemma OneMore(order: seq<nat>, f: nat, m: nat)
    requires f <= |order|
    ensures multiset(order[..f] + [m] + order[f..]) == multiset(order) + multiset{m}
  {
    assert order == order[..f] + order[f..];
  }

  lemma Before(mounts: map<nat, Mount>, order: seq<nat>, f: nat, m: nat)
    requires Sorted(mounts, order) && m in mounts && f <= |order|
    requires forall i | 0 <= i < f :: mounts[order[i]].mountid < mounts[m].mountid
    ensures Sorted(mounts, order[..f]) && Sorted(mounts, [m])
    ensures forall x | x in order[..f] :: x in mounts && mounts[x].mountid < mounts[m].mountid
  {
    assert forall x | x in order[..f] :: x in order;
  }

  /** From place f on, everything is behind m. */
  lemma Behind(mounts: map<nat, Mount>, order: seq<nat>, f: nat, m: nat)
    requires Sorted(mounts, order) && m in mounts && f <= |order|
    requires forall i | 0 <= i < f :: mounts[order[i]].mountid < mounts[m].mountid
    requires f < |order| ==> mounts[m].mountid < mounts[order[f]].mountid
    ensures Sorted(mounts, order[f..])
    ensures forall x, y | x in order[..f] + [m] && y in order[f..] :: mounts[x].mountid < mounts[y].mountid
  {
    var hi := order[f..];
    assert forall i | 0 <= i < |hi| :: hi[i] == order[f + i] && hi[i] in order;
    forall x, y | x in order[..f] + [m] && y in hi ensures mounts[x].mountid < mounts[y].mountid {
      var j :| 0 <= j < |hi| && hi[j] == y;
      if x != m {
        var i :| 0 <= i < f && order[i] == x;
      }
    }
  }

  lemma Joined(mounts: map<nat, Mount>, lo: seq<nat>, hi: seq<nat>)
    requires Sorted(mounts, lo) && Sorted(mounts, hi)
    requires forall x, y | x in lo && y in hi :: mounts[x].mountid < mounts[y].mountid
    ensures Sorted(mounts, lo + hi)
  {
    var q := lo + hi;
    forall i, j | 0 <= i < j < |q| ensures mounts[q[i]].mountid < mounts[q[j]].mountid {
      if i < |lo| {
        if j >= |lo| { assert lo[i] in lo && hi[j - |lo|] in hi; }
      }
    }
  }

  // --- the structures, at their addresses ---

  /** Heads and mounts, the scratch field copy of a mount, the reference counts of channels, and the id counter. */
  datatype Store = Store(
    heads: map<nat, Mhead>, mounts: map<nat, Mount>, copy: map<nat, nat>, ref: map<nat, int>, mountid: nat, brk: nat)

  /** Pointers lead somewhere, addresses in use are below brk, ids have been given out. */
  ghost predicate Valid(s: Store) {
    && (forall h | h in s.heads :: h < s.brk && s.heads[h].from in s.ref && forall m | m in s.heads[h].mount :: m in s.mounts)
    && (forall m | m in s.mounts :: m < s.brk && s.mounts[m].to in s.ref && s.mounts[m].mountid <= s.mountid)
  }

  /** A mount table: no mount is listed twice, and their ids are distinct and positive. */
  ghost predicate Table(s: Store, table: seq<seq<nat>>) {
    && |table| == MNTHASH && AllHeads(s.heads, table)
    && NoDup(Mounts(s.heads, table)) && Apart(s.mounts, Mounts(s.heads, table))
    && (forall m | m in Mounts(s.heads, table) :: s.mounts[m].mountid > 0)
  }

  /** What was there is still there, and the copies of the mounts in done are still theirs. */
  ghost predicate Grew(s: Store, s': Store, done: seq<nat>) {
    && s.brk <= s'.brk && s'.mountid == s.mountid && s'.ref.Keys == s.ref.Keys
    && (forall h | h in s.heads :: h in s'.heads && s'.heads[h] == s.heads[h])
    && (forall m | m in s.mounts :: m in s'.mounts && s'.mounts[m] == s.mounts[m])
    && (forall m | m in done && m in s.copy :: m in s'.copy && s'.copy[m] == s.copy[m])
  }

  /** A copy: everything but the id and the head. */
  ghost predicate Alike(m: Mount, n: Mount) {
    n.to == m.to && n.flag == m.flag && n.spec == m.spec
  }

  /** Every mount in done has a copy of its own, at an address not below low. */
  ghost predicate Copied(s: Store, done: seq<nat>, low: nat) {
    && (forall m | m in done :: m in s.mounts && m in s.copy && s.copy[m] in s.mounts && s.copy[m] >= low
                               && Alike(s.mounts[m], s.mounts[s.copy[m]]))
    && (forall m, m' | m in done && m' in done && s.copy[m] == s.copy[m'] :: m == m')
  }

  ghost function Images(copy: map<nat, nat>, q: seq<nat>): seq<nat>
    requires forall m | m in q :: m in copy
  {
    seq(|q|, i requires 0 <= i < |q| => copy[q[i]])
  }

  /** Head g is head f over again, with the copies of its mounts in their order. */
  ghost predicate HeadLike(s: Store, f: nat, g: nat) {
    && f in s.heads && g in s.heads && s.heads[g].from == s.heads[f].from
    && (forall m | m in s.heads[f].mount :: m in s.copy && s.copy[m] in s.mounts && s.mounts[s.copy[m]].head == g)
    && s.heads[g].mount == Images(s.copy, s.heads[f].mount)
  }

  /** The channels some mounts stand for, one reference each. */
  ghost function Tos(mounts: map<nat, Mount>, q: seq<nat>): multiset<nat>
    requires forall m | m in q :: m in mounts
  {
    if q == [] then multiset{} else Tos(mounts, q[..|q| - 1]) + multiset{mounts[q[|q| - 1]].to}
  }

  /** One reference for the channel mounted upon, and one for each mount. */
  ghost function Uses(s: Store, hs: seq<nat>): multiset<nat>
    requires Valid(s) && Heads(s.heads, hs)
  {
    if hs == [] then multiset{}
    else Uses(s, hs[..|hs| - 1]) + multiset{s.heads[hs[|hs| - 1]].from} + Tos(s.mounts, s.heads[hs[|hs| - 1]].mount)
  }

  /** The reference counts went up by exactly these. */
  ghost predicate Counted(s: Store, s': Store, taken: multiset<nat>) {
    s'.ref.Keys == s.ref.Keys && forall c | c in s.ref :: s'.ref[c] == s.ref[c] + taken[c]
  }

  /** The references of a whole table. */
  ghost function TableUses(s: Store, table: seq<seq<nat>>): multiset<nat>
    requires Valid(s) && AllHeads(s.heads, table)
  {
    if table == [] then multiset{} else TableUses(s, table[..|table| - 1]) + Uses(s, table[|table| - 1])
  }

  /** Bucket by bucket, a chain of copies for every chain. */
  ghost predicate TableLike(s: Store, table: seq<seq<nat>>, table': seq<seq<nat>>) {
    |table'| == |table| && forall i | 0 <= i < |table| :: ChainLike(s, table[i], table'[i])
  }

  /** The mounts differ in nothing but ids, and not below low. */
  ghost predicate OnlyIds(mounts: map<nat, Mount>, mounts': map<nat, Mount>, low: nat) {
    && mounts'.Keys == mounts.Keys
    && (forall m | m in mounts :: mounts'[m] == mounts[m].(mountid := mounts'[m].mountid))
    && (forall m | m in mounts && m < low :: mounts'[m] == mounts[m])
  }

  /** The copies of the mounts listed have the ids from base on, in the order of the list. */
  ghost predicate Numbered(s: Store, order: seq<nat>, base: nat) {
    forall j | 0 <= j < |order| ::
      order[j] in s.copy && s.copy[order[j]] in s.mounts && s.mounts[s.copy[order[j]]].mountid == base + j
  }

  /** Buckets without heads, as newpgrp leaves them. */
  function Empties(n: nat): (table: seq<seq<nat>>)
    ensures |table| == n && forall i | 0 <= i < n :: table[i] == []
  {
    seq(n, _ => [])
  }

  lemma {:induction false} NothingMounted(heads: map<nat, Mhead>, table: seq<seq<nat>>)
    requires forall i | 0 <= i < |table| :: table[i] == []
    ensures AllHeads(heads, table) && Mounts(heads, table) == []
    decreases |table|
  {
    assert AllHeads(heads, table);
    if table != [] {
      NothingMounted(heads, table[..|table| - 1]);
      assert Under(heads, table[|table| - 1]) == [];
    }
  }

  class Space {
    var heads: map<nat, Mhead>
    var mounts: map<nat, Mount>
    var copy: map<nat, nat>
    var ref: map<nat, int>
    var mountid: nat
    var brk: nat

    ghost function View(): Store
      reads this
    {
      Store(heads, mounts, copy, ref, mountid, brk)
    }

    /** Before anything is mounted, with the channels there are. */
    constructor (ref: map<nat, int>)
      ensures Valid(View()) && mounts == map[] && heads == map[] && copy == map[] && this.ref == ref && mountid == 0
      ensures Table(View(), Empties(MNTHASH))
    {
      heads, mounts, copy, this.ref := map[], map[], map[], ref;
      mountid, brk := 0, 1;
      new;
      NothingMounted(heads, Empties(MNTHASH));
    }

    /** newmount: an id beyond every id given out so far. */
    method NewMount(mh: nat, to: nat, flag: int, spec: string) returns (m: nat)
      requires Valid(View()) && to in ref
      modifies this
      ensures Valid(View()) && m == old(brk) && m in mounts && mounts == old(mounts)[m := mounts[m]]
      ensures mounts[m].head == mh && mounts[m].to == to && mounts[m].flag == flag && mounts[m].spec == spec
      ensures forall x | x in old(mounts) :: 0 <= mounts[x].mountid < mounts[m].mountid
      ensures mountid == old(mountid) + 1 && mounts[m].mountid == mountid
      ensures heads == old(heads) && Counted(old(View()), View(), multiset{to})
      ensures copy == old(copy) && brk == old(brk) + 1
    {
      m := brk;
      brk := brk + 1;
      ref := ref[to := ref[to] + 1];
      mountid := mountid + 1;
      mounts := mounts[m := Mount(mountid, mh, to, flag, spec)];
    }

    /** One mount copied onto the end of head mh's list, and the original put in its place in the order. */
    method CopyMount(m: nat, mh: nat, order: seq<nat>, ghost done: seq<nat>, ghost low: nat) returns (order': seq<nat>)
      requires Valid(View()) && m in mounts && mh in heads && mh >= low && low <= brk && m < low
      requires Copied(View(), done, low) && m !in done
      requires Sorted(mounts, order) && multiset(order) == multiset(done)
      requires forall x | x in done :: mounts[x].mountid != mounts[m].mountid
      modifies this
      ensures Valid(View()) && Copied(View(), done + [m], low)
      ensures Sorted(mounts, order') && multiset(order') == multiset(done + [m])
      ensures heads == old(heads)[mh := old(heads)[mh].(mount := old(heads)[mh].mount + [copy[m]])]
      ensures old(brk) in mounts && mounts == old(mounts)[old(brk) := mounts[old(brk)]] && mounts[old(brk)].head == mh
      ensures copy == old(copy)[m := old(brk)] && brk == old(brk) + 1 && mountid == old(mountid)
      ensures Counted(old(View()), View(), multiset{old(mounts)[m].to})
    {
      ghost var s := View();
      SameMembers(order, done);
      order' := Insert(mounts, order, m);
      hide Sorted, Copied;
      var n := brk;
      brk := brk + 1;
      SortedKept(mounts, mounts[n := Mount(0, mh, mounts[m].to, mounts[m].flag, mounts[m].spec)], order');
      mounts := mounts[n := Mount(0, mh, mounts[m].to, mounts[m].flag, mounts[m].spec)];
      ref := ref[mounts[m].to := ref[mounts[m].to] + 1];
      copy := copy[m := n];
      heads := heads[mh := heads[mh].(mount := heads[mh].mount + [n])];
      CopiedMore(s, View(), done, m, low);
    }

    /** A new head for what head f is for, with no mounts yet. */
    method NewHead(f: nat, order: seq<nat>, ghost done: seq<nat>, ghost low: nat) returns (mh: nat)
      requires Valid(View()) && f in heads && Copied(View(), done, low) && Sorted(mounts, order)
      modifies this
      ensures Valid(View()) && Grew(old(View()), View(), done) && mh == old(brk) < brk
      ensures PartLike(View(), f, mh, 0) && Copied(View(), done + [], low) && Sorted(mounts, order)
      ensures Counted(old(View()), View(), multiset{old(heads)[f].from})
    {
      mh := brk;
      brk := brk + 1;
      heads := heads[mh := Mhead(heads[f].from, [])];
      ref := ref[heads[f].from := ref[heads[f].from] + 1];
      assert done + [] == done;
    }

    /** Mount i of head f copied to head mh. */
    method NextMount(f: nat, mh: nat, i: nat, order: seq<nat>, ghost s: Store, ghost done: seq<nat>,
        ghost low: nat) returns (order': seq<nat>)
      requires Valid(View()) && low <= brk && low <= mh && f < low && PartLike(View(), f, mh, i) && i < |heads[f].mount|
      requires Copied(View(), done + heads[f].mount[..i], low)
      requires Sorted(mounts, order) && multiset(order) == multiset(done + heads[f].mount[..i])
      requires heads[f].mount[i] !in done + heads[f].mount[..i] && heads[f].mount[i] in mounts &&
          heads[f].mount[i] < low
      requires forall x | x in done + heads[f].mount[..i] ::
          x in mounts && mounts[x].mountid != mounts[heads[f].mount[i]].mountid
      requires mh !in s.heads && Grew(s, View(), done)
      modifies this
      ensures Valid(View()) && PartLike(View(), f, mh, i + 1) && f in heads && heads[f] == old(heads)[f] &&
          brk > old(brk)
      ensures Copied(View(), done + heads[f].mount[..i + 1], low) && Grew(s, View(), done)
      ensures Sorted(mounts, order') && multiset(order') == multiset(done + heads[f].mount[..i + 1])
      ensures Counted(old(View()), View(), multiset{old(mounts)[old(heads)[f].mount[i]].to})
    {
      ghost var before := View();
      ghost var q: seq<nat> := heads[f].mount;
      var m := heads[f].mount[i];
      order' := CopyMount(m, mh, order, done + q[..i], low);
      assert done + q[..i] + [m] == done + q[..i + 1];
      assert m !in q[..i];
      hide Copied, Sorted, Counted;
      MountAdded(before, View(), f, mh, i, m);
      MountGrew(s, before, View(), done, mh, m);
    }

    /** The body of pgrpcpy's second loop: a head and its mounts. */
    method CopyHead(f: nat, order: seq<nat>, ghost done: seq<nat>, ghost low: nat) returns (mh: nat, order': seq<nat>)
      requires Valid(View()) && f in heads && f < low <= brk && forall m | m in heads[f].mount :: m < low
      requires Copied(View(), done, low) && Sorted(mounts, order) && multiset(order) == multiset(done)
      requires NoDup(done + heads[f].mount) && Apart(mounts, done + heads[f].mount)
      modifies this
      ensures Valid(View()) && Grew(old(View()), View(), done)
      ensures old(brk) <= mh < brk && HeadLike(View(), f, mh)
      ensures Copied(View(), done + old(heads)[f].mount, low)
      ensures Sorted(mounts, order') && multiset(order') == multiset(done + old(heads)[f].mount)
      ensures Counted(old(View()), View(), multiset{old(heads)[f].from} + Tos(old(mounts), old(heads)[f].mount))
    {
      ghost var s := View();
      HeadsBelow(s);
      mh := NewHead(f, order, done, low);
      assert done + [] == done;
      hide Copied, Sorted, Counted, Valid, Apart, NoDup, PartLike, HeadLike, Tos, Grew;
      StillThere(s, View(), f, done);
      order' := CopyMounts(f, mh, order, s, done, low);
    }

    /** pgrpcpy's third loop: the mounts of a head. */
    method CopyMounts(f: nat, mh: nat, order: seq<nat>, ghost s: Store, ghost done: seq<nat>,
        ghost low: nat) returns (order': seq<nat>)
      requires Valid(View()) && f < low <= mh < brk && f in s.heads && f in heads && heads[f] == s.heads[f]
      requires mh !in s.heads && low <= s.brk && Grew(s, View(), done) && PartLike(View(), f, mh, 0)
      requires forall m | m in s.heads[f].mount :: m < low && m in s.mounts
      requires Copied(View(), done, low) && Sorted(mounts, order) && multiset(order) == multiset(done)
      requires NoDup(done + s.heads[f].mount) && Apart(s.mounts, done + s.heads[f].mount)
      requires Counted(s, View(), multiset{s.heads[f].from})
      modifies this
      ensures Valid(View()) && Grew(s, View(), done) && brk > mh && HeadLike(View(), f, mh)
      ensures Copied(View(), done + s.heads[f].mount, low)
      ensures Sorted(mounts, order') && multiset(order') == multiset(done + s.heads[f].mount)
      ensures Counted(s, View(), multiset{s.heads[f].from} + Tos(s.mounts, s.heads[f].mount))
    {
      hide Copied, Sorted, Counted, Valid, Apart, NoDup, PartLike, HeadLike, Tos, Grew;
      var q := heads[f].mount;
      order' := order;
      assert q[..0] == [] && done + [] == done;
      NoTos(s.mounts, s.heads[f].from);
      for i := 0 to |q|
        invariant Valid(View()) && Grew(s, View(), done) && PartLike(View(), f, mh, i) && brk > mh
        invariant f in heads && heads[f] == s.heads[f]
        invariant Copied(View(), done + q[..i], low)
        invariant Sorted(mounts, order') && multiset(order') == multiset(done + q[..i])
        invariant Counted(s, View(), multiset{s.heads[f].from} + Tos(s.mounts, q[..i]))
      {
        order' := MountAt(f, mh, i, order', s, done, low);
      }
      assert q[..|q|] == q;
      WholeLike(View(), f, mh);
    }

    /** The body of the third loop. */
    method MountAt(f: nat, mh: nat, i: nat, order: seq<nat>, ghost s: Store, ghost done: seq<nat>,
        ghost low: nat) returns (order': seq<nat>)
      requires f in heads && f in s.heads && heads[f] == s.heads[f] && i < |s.heads[f].mount| && f < low <= mh < brk
      requires mh !in s.heads && (forall m | m in s.heads[f].mount :: m < low && m in s.mounts)
      requires NoDup(done + s.heads[f].mount) && Apart(s.mounts, done + s.heads[f].mount)
      requires Valid(View()) && Grew(s, View(), done) && PartLike(View(), f, mh, i)
      requires Copied(View(), done + s.heads[f].mount[..i], low)
      requires Sorted(mounts, order) && multiset(order) == multiset(done + s.heads[f].mount[..i])
      requires Counted(s, View(), multiset{s.heads[f].from} + Tos(s.mounts, s.heads[f].mount[..i]))
      modifies this
      ensures Valid(View()) && Grew(s, View(), done) && PartLike(View(), f, mh, i + 1) && brk > mh
      ensures f in heads && heads[f] == s.heads[f]
      ensures Copied(View(), done + s.heads[f].mount[..i + 1], low)
      ensures Sorted(mounts, order') && multiset(order') == multiset(done + s.heads[f].mount[..i + 1])
      ensures Counted(s, View(), multiset{s.heads[f].from} + Tos(s.mounts, s.heads[f].mount[..i + 1]))
    {
      hide Copied, Sorted, Counted, Valid, Apart, NoDup, PartLike, HeadLike, Tos, Grew;
      ghost var before := View();
      ghost var q: seq<nat> := s.heads[f].mount;
      NextApart(s, View(), done, q, i);
      order' := NextMount(f, mh, i, order, s, done, low);
      CountedMore(s, before, View(), f, q, i);
    }

    /** pgrpcpy's second loop: one chain of heads. */
    method CopyChain(hs: seq<nat>, order: seq<nat>, ghost done: seq<nat>, ghost low: nat) returns (gs: seq<nat>,
        order': seq<nat>)
      requires Valid(View()) && Heads(heads, hs) && low <= brk && Below(View(), hs, low)
      requires Copied(View(), done, low) && Sorted(mounts, order) && multiset(order) == multiset(done)
      requires NoDup(done + Under(heads, hs)) && Apart(mounts, done + Under(heads, hs))
      modifies this
      ensures Valid(View()) && Grew(old(View()), View(), done) && ChainLike(View(), hs, gs)
      ensures Copied(View(), done + Under(old(heads), hs), low)
      ensures Sorted(mounts, order') && multiset(order') == multiset(done + Under(old(heads), hs))
      ensures Counted(old(View()), View(), Uses(old(View()), hs))
    {
      ghost var s := View();
      gs, order' := [], order;
      hide Copied, Sorted, Counted, Valid, Apart, NoDup, HeadLike, Under, Uses, Grew;
      StartChain(s, hs, done);
      for k := 0 to |hs|
        invariant Valid(View()) && low <= brk && Grew(s, View(), done) && ChainLike(View(), hs[..k], gs)
        invariant Copied(View(), done + Under(s.heads, hs[..k]), low)
        invariant Sorted(mounts, order') && multiset(order') == multiset(done + Under(s.heads, hs[..k]))
        invariant Counted(s, View(), Uses(s, hs[..k]))
      {
        ghost var before, all := View(), done + Under(s.heads, hs[..k]);
        NextHead(s, before, hs, done, k, low);
        var g;
        g, order' := CopyHead(hs[k], order', all, low);
        ChainMore(s, before, View(), hs, gs, done, k, g);
        gs := gs + [g];
      }
      assert hs[..|hs|] == hs;
    }

    /** pgrpcpy's first loop: all chains of the table. */
    method CopyTable(table: seq<seq<nat>>) returns (table': seq<seq<nat>>, order: seq<nat>)
      requires Valid(View()) && Table(View(), table)
      modifies this
      ensures Valid(View()) && Grew(old(View()), View(), []) && TableLike(View(), table, table')
      ensures Copied(View(), Mounts(old(heads), table), old(brk))
      ensures Sorted(mounts, order) && multiset(order) == multiset(Mounts(old(heads), table))
      ensures Counted(old(View()), View(), TableUses(old(View()), table))
    {
      ghost var s := View();
      table', order := [], [];
      StartTable(s, table);
      hide Copied, Sorted, Counted, Valid, Apart, NoDup, Under, Uses, Grew, ChainLike, Mounts, TableUses;
      for k := 0 to |table|
        invariant Valid(View()) && s.brk <= brk && Grew(s, View(), []) && TableLike(View(), table[..k], table')
        invariant Copied(View(), Mounts(s.heads, table[..k]), s.brk)
        invariant Sorted(mounts, order) && multiset(order) == multiset(Mounts(s.heads, table[..k]))
        invariant Counted(s, View(), TableUses(s, table[..k]))
      {
        ghost var before := View();
        NextChain(s, before, table, k);
        var gs;
        gs, order := CopyChain(table[k], order, Mounts(s.heads, table[..k]), s.brk);
        TableMore(s, before, View(), table, table', k, gs);
        table' := table' + [gs];
      }
      assert table[..|table|] == table;
    }

    /** pgrpcpy's last loop: ids for the copies, in the order of the originals' ids. */
    method Number(order: seq<nat>, ghost all: seq<nat>, ghost low: nat)
      requires Valid(View()) && Copied(View(), all, low) && multiset(order) == multiset(all) && NoDup(order)
      modifies this`mounts, this`mountid
      ensures Valid(View()) && OnlyIds(old(mounts), mounts, low)
      ensures mountid == old(mountid) + |order| && Numbered(View(), order, old(mountid))
    {
      OwnCopies(View(), all, order, low);
      ghost var s := View();
      UpTo(s);
      hide Copied, Valid, NoDup;
      for j := 0 to |order|
        invariant mountid == old(mountid) + j && OnlyIds(old(mounts), mounts, low)
        invariant forall k | 0 <= k < j :: mounts[copy[order[k]]].mountid == old(mountid) + k
        invariant forall m | m in mounts :: mounts[m].mountid <= mountid
      {
        var n := copy[order[j]];
        mounts := mounts[n := mounts[n].(mountid := mountid)];
        mountid := mountid + 1;
      }
      StillValid(s, View(), low);
    }

    /**
     * pgrpcpy: a table of copies, bucket by bucket and mount by mount, numbered in the order of
     * the ids of the originals; one reference for every channel copied.
     */
    method PgrpCpy(table: seq<seq<nat>>) returns (table': seq<seq<nat>>, ghost order: seq<nat>)
      requires Valid(View()) && Table(View(), table)
      modifies this
      ensures Valid(View()) && Table(View(), table) && Table(View(), table')
      ensures TableLike(View(), table, table') && Copied(View(), Mounts(old(heads), table), old(brk))
      ensures Sorted(old(mounts), order) && multiset(order) == multiset(Mounts(old(heads), table))
      ensures Numbered(View(), order, old(mountid)) && mountid == old(mountid) + |order|
      ensures forall h | h in old(heads) :: h in heads && heads[h] == old(heads)[h]
      ensures forall m | m in old(mounts) :: m in mounts && mounts[m] == old(mounts)[m]
      ensures Counted(old(View()), View(), TableUses(old(View()), table))
    {
      ghost var s := View();
      var list;
      table', list := CopyTable(table);
      order := list;
      ghost var t := View();
      hide Copied, Sorted, Counted, Valid, Apart, NoDup, Under, Uses, ChainLike, Mounts, TableUses, Numbered;
      OrderNoDup(t.mounts, order);
      Number(list, Mounts(s.heads, table), s.brk);
      NewTable(s, t, View(), table, table', order);
    }
  }

  /** The heads, and the mounts under them, were there before the copying began. */
  ghost predicate Below(s: Store, hs: seq<nat>, low: nat) {
    forall h | h in hs :: h in s.heads && h < low && forall m | m in s.heads[h].mount :: m < low
  }

  /** A chain of copies of the heads of a chain. */
  ghost predicate ChainLike(s: Store, hs: seq<nat>, gs: seq<nat>) {
    |gs| == |hs| && forall k | 0 <= k < |hs| :: HeadLike(s, hs[k], gs[k])
  }

  lemma StartChain(s: Store, hs: seq<nat>, done: seq<nat>)
    requires Valid(s) && Heads(s.heads, hs)
    ensures hs[..0] == [] && done + Under(s.heads, hs[..0]) == done && Uses(s, hs[..0]) == multiset{}
    ensures Counted(s, s, multiset{}) && Grew(s, s, done)
  {}

  lemma {:induction false} UnderPrefix(heads: map<nat, Mhead>, hs: seq<nat>, k: nat)
    requires Heads(heads, hs) && k <= |hs|
    ensures Under(heads, hs[..k]) <= Under(heads, hs)
    decreases |hs|
  {
    if k == |hs| {
      assert hs[..k] == hs;
    } else {
      UnderPrefix(heads, hs[..|hs| - 1], k);
      assert hs[..|hs| - 1][..k] == hs[..k];
    }
  }

  lemma UnderNext(heads: map<nat, Mhead>, hs: seq<nat>, k: nat)
    requires Heads(heads, hs) && k < |hs|
    ensures Under(heads, hs[..k + 1]) == Under(heads, hs[..k]) + heads[hs[k]].mount
  {
    assert hs[..k + 1][..k] == hs[..k];
  }

  lemma PrefixApart(mounts: map<nat, Mount>, all: seq<nat>, p: seq<nat>)
    requires NoDup(all) && Apart(mounts, all) && p <= all
    ensures NoDup(p) && Apart(mounts, p)
  {
    assert forall i | 0 <= i < |p| :: p[i] == all[i] && all[i] in all;
  }

  lemma ApartKept(mounts: map<nat, Mount>, mounts': map<nat, Mount>, q: seq<nat>)
    requires Apart(mounts, q) && forall m | m in mounts :: m in mounts' && mounts'[m] == mounts[m]
    ensures Apart(mounts', q)
  {
    assert forall i | 0 <= i < |q| :: q[i] in q;
  }

  /** The next head of a chain can be copied. */
  lemma NextHead(s: Store, t: Store, hs: seq<nat>, done: seq<nat>, k: nat, low: nat)
    requires Heads(s.heads, hs) && k < |hs| && Below(s, hs, low) && Grew(s, t, done) && Valid(t)
    requires NoDup(done + Under(s.heads, hs)) && Apart(s.mounts, done + Under(s.heads, hs))
    ensures hs[k] in s.heads && hs[k] in t.heads && t.heads[hs[k]] == s.heads[hs[k]]
    ensures hs[k] < low && forall m | m in t.heads[hs[k]].mount :: m < low && m in t.mounts
    ensures NoDup(done + Under(s.heads, hs[..k]) + t.heads[hs[k]].mount)
    ensures Apart(t.mounts, done + Under(s.heads, hs[..k]) + t.heads[hs[k]].mount)
  {
    hide NoDup, Apart;
    var h := hs[k];
    assert h in hs;
    UnderNext(s.heads, hs, k);
    UnderPrefix(s.heads, hs, k + 1);
    var p := done + Under(s.heads, hs[..k + 1]);
    assert p == done + Under(s.heads, hs[..k]) + s.heads[h].mount;
    assert p <= done + Under(s.heads, hs);
    PrefixApart(s.mounts, done + Under(s.heads, hs), p);
    ApartKept(s.mounts, t.mounts, p);
  }

  /** A copied head stays a copy while more are made. */
  lemma LikeKept(s: Store, t: Store, f: nat, g: nat, done: seq<nat>)
    requires HeadLike(s, f, g) && Grew(s, t, done) && forall m | m in s.heads[f].mount :: m in done
    ensures HeadLike(t, f, g)
  {
    assert Images(t.copy, s.heads[f].mount) == Images(s.copy, s.heads[f].mount);
  }

  lemma {:induction false} InUnder(heads: map<nat, Mhead>, hs: seq<nat>, j: nat)
    requires Heads(heads, hs) && j < |hs|
    ensures forall m | m in heads[hs[j]].mount :: m in Under(heads, hs)
    decreases |hs|
  {
    if j < |hs| - 1 {
      InUnder(heads, hs[..|hs| - 1], j);
    }
  }

  lemma GrewMore(s: Store, t: Store, u: Store, done: seq<nat>, done': seq<nat>)
    requires Grew(s, t, done) && Grew(t, u, done') && forall m | m in done :: m in done'
    ensures Grew(s, u, done)
  {}

  lemma UsesSame(s: Store, hs: seq<nat>, k: nat)
    requires Valid(s) && Heads(s.heads, hs) && k < |hs|
    ensures Uses(s, hs[..k + 1]) == Uses(s, hs[..k]) + multiset{s.heads[hs[k]].from} + Tos(s.mounts,
        s.heads[hs[k]].mount)
  {
    assert hs[..k + 1][..k] == hs[..k];
  }

  lemma {:induction false} TosSame(mounts: map<nat, Mount>, mounts': map<nat, Mount>, q: seq<nat>)
    requires forall m | m in q :: m in mounts && m in mounts' && mounts'[m] == mounts[m]
    ensures Tos(mounts', q) == Tos(mounts, q)
  {
    if q != [] {
      assert q[|q| - 1] in q;
      TosSame(mounts, mounts', q[..|q| - 1]);
    }
  }

  lemma CountedTrans(s: Store, t: Store, u: Store, x: multiset<nat>, y: multiset<nat>)
    requires Counted(s, t, x) && Counted(t, u, y)
    ensures Counted(s, u, x + y)
  {}

  /** One more head copied: everything said about the chain still holds. */
  lemma ChainMore(s: Store, t: Store, u: Store, hs: seq<nat>, gs: seq<nat>, done: seq<nat>, k: nat, g: nat)
    requires Valid(s) && Heads(s.heads, hs) && k < |hs| && Grew(s, t, done) && ChainLike(t, hs[..k], gs)
    requires hs[k] in t.heads && t.heads[hs[k]] == s.heads[hs[k]] && forall m | m in t.heads[hs[k]].mount ::
        m in t.mounts
    requires Grew(t, u, done + Under(s.heads, hs[..k])) && HeadLike(u, hs[k], g)
    requires Counted(s, t, Uses(s, hs[..k])) &&
        Counted(t, u, multiset{t.heads[hs[k]].from} + Tos(t.mounts, t.heads[hs[k]].mount))
    ensures Grew(s, u, done) && ChainLike(u, hs[..k + 1], gs + [g]) && Counted(s, u, Uses(s, hs[..k + 1]))
    ensures done + Under(s.heads, hs[..k + 1]) == done + Under(s.heads, hs[..k]) + s.heads[hs[k]].mount
  {
    hide Counted, Under, Uses, Grew, HeadLike, Valid, ChainLike, Tos;
    var all := done + Under(s.heads, hs[..k]);
    UnderNext(s.heads, hs, k);
    assert hs[k] in hs;
    ChainCounted(s, t, u, hs, done, k);
    GrewMore(s, t, u, done, all);
    LikesStay(s, t, u, hs, gs, done, k, g);
  }

  lemma ChainCounted(s: Store, t: Store, u: Store, hs: seq<nat>, done: seq<nat>, k: nat)
    requires Valid(s) && Heads(s.heads, hs) && k < |hs| && Grew(s, t, done)
    requires hs[k] in t.heads && t.heads[hs[k]] == s.heads[hs[k]] && forall m | m in t.heads[hs[k]].mount ::
        m in t.mounts
    requires Counted(s, t, Uses(s, hs[..k])) &&
        Counted(t, u, multiset{t.heads[hs[k]].from} + Tos(t.mounts, t.heads[hs[k]].mount))
    ensures Counted(s, u, Uses(s, hs[..k + 1]))
  {
    hide Counted, Grew, Tos, Uses;
    assert hs[k] in hs;
    UsesSame(s, hs, k);
    MountsSame(s, t, hs[k], done);
    CountedTrans(s, t, u, Uses(s, hs[..k]), multiset{t.heads[hs[k]].from} + Tos(t.mounts, t.heads[hs[k]].mount));
    MoreUses(Uses(s, hs[..k]), multiset{t.heads[hs[k]].from}, Tos(t.mounts, t.heads[hs[k]].mount));
  }

  lemma MoreUses(x: multiset<nat>, y: multiset<nat>, z: multiset<nat>)
    ensures x + (y + z) == x + y + z
  {}

  lemma LikesStay(s: Store, t: Store, u: Store, hs: seq<nat>, gs: seq<nat>, done: seq<nat>, k: nat, g: nat)
    requires Heads(s.heads, hs) && k < |hs| && Grew(s, t, done) && ChainLike(t, hs[..k], gs)
    requires Grew(t, u, done + Under(s.heads, hs[..k])) && HeadLike(u, hs[k], g)
    ensures ChainLike(u, hs[..k + 1], gs + [g])
  {
    hide Under, Grew, HeadLike;
    var all := done + Under(s.heads, hs[..k]);
    forall j | 0 <= j < k + 1 ensures HeadLike(u, hs[..k + 1][j], (gs + [g])[j]) {
      if j < k {
        InUnder(s.heads, hs[..k], j);
        assert hs[j] in hs && hs[..k][j] == hs[j];
        LikeStays(s, t, u, hs[j], gs[j], done, all);
      }
    }
  }

  lemma LikeStays(s: Store, t: Store, u: Store, f: nat, g: nat, done: seq<nat>, all: seq<nat>)
    requires HeadLike(t, f, g) && Grew(s, t, done) && Grew(t, u, all) && f in s.heads &&
        forall m | m in s.heads[f].mount :: m in all
    ensures HeadLike(u, f, g)
  {
    LikeKept(t, u, f, g, all);
  }

  lemma MountsSame(s: Store, t: Store, f: nat, done: seq<nat>)
    requires Valid(s) && f in s.heads && Grew(s, t, done) && t.heads[f] == s.heads[f]
    ensures forall m | m in s.heads[f].mount :: m in t.mounts
    ensures Tos(t.mounts, s.heads[f].mount) == Tos(s.mounts, s.heads[f].mount)
  {
    TosSame(s.mounts, t.mounts, s.heads[f].mount);
  }

  lemma HeadsBelow(s: Store)
    requires Valid(s)
    ensures s.brk !in s.heads && s.brk !in s.mounts
  {}

  lemma NoTos(mounts: map<nat, Mount>, c: nat)
    ensures multiset{c} + Tos(mounts, []) == multiset{c}
  {}

  lemma StillThere(s: Store, t: Store, f: nat, done: seq<nat>)
    requires Valid(s) && f in s.heads && Grew(s, t, done)
    ensures f in t.heads && t.heads[f] == s.heads[f] && forall m | m in s.heads[f].mount :: m in s.mounts
  {}

  lemma WholeLike(s: Store, f: nat, g: nat)
    requires f in s.heads && PartLike(s, f, g, |s.heads[f].mount|)
    ensures HeadLike(s, f, g)
  {
    assert s.heads[f].mount[..|s.heads[f].mount|] == s.heads[f].mount;
  }

  lemma CountedMore(s: Store, t: Store, u: Store, f: nat, q: seq<nat>, i: nat)
    requires f in s.heads && i < |q| && (forall m | m in q :: m in s.mounts) && q[i] in t.mounts
    requires t.mounts[q[i]] == s.mounts[q[i]]
    requires Counted(s, t, multiset{s.heads[f].from} + Tos(s.mounts, q[..i])) &&
        Counted(t, u, multiset{t.mounts[q[i]].to})
    ensures Counted(s, u, multiset{s.heads[f].from} + Tos(s.mounts, q[..i + 1]))
  {
    assert q[..i + 1][..i] == q[..i];
  }

  /** The copying of a mount keeps what there was before the head was made. */
  lemma MountGrew(s: Store, t: Store, u: Store, done: seq<nat>, mh: nat, m: nat)
    requires Grew(s, t, done) && mh !in s.heads && mh in t.heads && m !in done && Valid(t)
    requires mh in u.heads && u.heads == t.heads[mh := u.heads[mh]] && t.brk in u.mounts &&
        u.mounts == t.mounts[t.brk := u.mounts[t.brk]]
    requires m in u.copy && u.copy == t.copy[m := u.copy[m]] && u.brk >= t.brk && u.mountid == t.mountid &&
        u.ref.Keys == t.ref.Keys
    ensures Grew(s, u, done)
  {}

  // --- whole tables ---

  lemma StartTable(s: Store, table: seq<seq<nat>>)
    requires Valid(s) && AllHeads(s.heads, table)
    ensures table[..0] == [] && Mounts(s.heads, table[..0]) == [] && TableUses(s, table[..0]) == multiset{}
    ensures Counted(s, s, multiset{}) && Grew(s, s, []) && Copied(s, [], s.brk) && Sorted(s.mounts, [])
  {}

  lemma {:induction false} MountsPrefix(s: Store, table: seq<seq<nat>>, k: nat)
    requires AllHeads(s.heads, table) && k <= |table|
    ensures Mounts(s.heads, table[..k]) <= Mounts(s.heads, table)
    decreases |table|
  {
    if k == |table| {
      assert table[..k] == table;
    } else {
      MountsPrefix(s, table[..|table| - 1], k);
      assert table[..|table| - 1][..k] == table[..k];
    }
  }

  lemma MountsNext(s: Store, table: seq<seq<nat>>, k: nat)
    requires AllHeads(s.heads, table) && k < |table|
    ensures Mounts(s.heads, table[..k + 1]) == Mounts(s.heads, table[..k]) + Under(s.heads, table[k])
  {
    assert table[..k + 1][..k] == table[..k];
  }

  lemma {:induction false} InMounts(s: Store, table: seq<seq<nat>>, j: nat)
    requires AllHeads(s.heads, table) && j < |table|
    ensures forall m | m in Under(s.heads, table[j]) :: m in Mounts(s.heads, table)
    decreases |table|
  {
    if j < |table| - 1 {
      InMounts(s, table[..|table| - 1], j);
    }
  }

  /** The chains are where they were. */
  lemma {:induction false} UnderSame(s: Store, t: Store, hs: seq<nat>, done: seq<nat>)
    requires Heads(s.heads, hs) && Grew(s, t, done)
    ensures Heads(t.heads, hs) && Under(t.heads, hs) == Under(s.heads, hs)
    decreases |hs|
  {
    if hs != [] {
      UnderSame(s, t, hs[..|hs| - 1], done);
      assert hs[|hs| - 1] in hs;
    }
  }

  lemma {:induction false} UsesKept(s: Store, t: Store, hs: seq<nat>, done: seq<nat>)
    requires Valid(s) && Valid(t) && Heads(s.heads, hs) && Heads(t.heads, hs) && Grew(s, t, done)
    ensures Uses(t, hs) == Uses(s, hs)
    decreases |hs|
  {
    if hs != [] {
      UsesKept(s, t, hs[..|hs| - 1], done);
      assert hs[|hs| - 1] in hs;
      TosSame(s.mounts, t.mounts, s.heads[hs[|hs| - 1]].mount);
    }
  }

  /** The next chain of a table can be copied. */
  lemma NextChain(s: Store, t: Store, table: seq<seq<nat>>, k: nat)
    requires Valid(s) && Valid(t) && Table(s, table) && k < |table| && Grew(s, t, [])
    ensures Heads(s.heads, table[k]) && Heads(t.heads, table[k]) && Below(t, table[k], s.brk)
    ensures NoDup(Mounts(s.heads, table[..k]) + Under(t.heads, table[k]))
    ensures Apart(t.mounts, Mounts(s.heads, table[..k]) + Under(t.heads, table[k]))
    ensures Under(t.heads, table[k]) == Under(s.heads, table[k]) && Uses(t, table[k]) == Uses(s, table[k])
  {
    UnderSame(s, t, table[k], []);
    UsesKept(s, t, table[k], []);
    MountsNext(s, table, k);
    MountsPrefix(s, table, k + 1);
    PrefixApart(s.mounts, Mounts(s.heads, table), Mounts(s.heads, table[..k + 1]));
    ApartKept(s.mounts, t.mounts, Mounts(s.heads, table[..k + 1]));
    hide NoDup, Apart, Mounts, Under, Uses;
    assert Heads(s.heads, table[k]);
  }

  /** A chain of copies stays one while more are made. */
  lemma ChainStays(t: Store, u: Store, hs: seq<nat>, gs: seq<nat>, all: seq<nat>)
    requires ChainLike(t, hs, gs) && Heads(t.heads, hs) && Grew(t, u, all) && forall m | m in Under(t.heads, hs) ::
        m in all
    ensures ChainLike(u, hs, gs)
  {
    hide Grew, HeadLike, Under;
    forall k | 0 <= k < |hs| ensures HeadLike(u, hs[k], gs[k]) {
      InUnder(t.heads, hs, k);
      assert hs[k] in hs;
      LikeKept(t, u, hs[k], gs[k], all);
    }
  }

  /** One more chain copied: everything said about the table still holds. */
  lemma TableMore(s: Store, t: Store, u: Store, table: seq<seq<nat>>, table': seq<seq<nat>>, k: nat, gs: seq<nat>)
    requires Valid(s) && Valid(t) && AllHeads(s.heads, table) && k < |table|
    requires Grew(s, t, []) && TableLike(t, table[..k], table') && Grew(t, u, Mounts(s.heads, table[..k])) &&
        ChainLike(u, table[k], gs)
    requires Counted(s, t, TableUses(s, table[..k])) && Counted(t, u, Uses(s, table[k]))
    ensures Grew(s, u, []) && TableLike(u, table[..k + 1], table' + [gs]) && Counted(s, u, TableUses(s, table[..k + 1]))
    ensures Mounts(s.heads, table[..k + 1]) == Mounts(s.heads, table[..k]) + Under(s.heads, table[k])
  {
    hide Counted, Grew, HeadLike, Under, Uses, ChainLike, Valid, Mounts;
    assert table[..k + 1][..k] == table[..k];
    MountsNext(s, table, k);
    GrewMore(s, t, u, [], Mounts(s.heads, table[..k]));
    CountedTrans(s, t, u, TableUses(s, table[..k]), Uses(s, table[k]));
    forall j | 0 <= j < k + 1 ensures ChainLike(u, table[..k + 1][j], (table' + [gs])[j]) {
      if j < k {
        InMounts(s, table[..k], j);
        assert table[..k][j] == table[j];
        UnderSame(s, t, table[j], []);
        ChainStays(t, u, table[j], table'[j], Mounts(s.heads, table[..k]));
      }
    }
  }

  /** The next mount of a list is not among those before, nor has any of them its id. */
  lemma NextApart(s: Store, t: Store, done: seq<nat>, q: seq<nat>, i: nat)
    requires NoDup(done + q) && Apart(s.mounts, done + q) && i < |q| && Grew(s, t, done)
    ensures q[i] !in done + q[..i] && q[i] in s.mounts && q[i] in t.mounts && t.mounts[q[i]] == s.mounts[q[i]] &&
        q[i] in q
    ensures forall x | x in done + q[..i] :: x in t.mounts && t.mounts[x].mountid != t.mounts[q[i]].mountid
  {
    var all := done + q;
    assert all[|done| + i] == q[i];
    forall x | x in done + q[..i] ensures x != q[i] && x in t.mounts && t.mounts[x].mountid != t.mounts[q[i]].mountid {
      var j :| 0 <= j < |done + q[..i]| && (done + q[..i])[j] == x;
      assert all[j] == x;
    }
  }

  /** The part of a head's copy that is made after i mounts. */
  ghost predicate PartLike(s: Store, f: nat, g: nat, i: nat) {
    && f in s.heads && g in s.heads && s.heads[g].from == s.heads[f].from && i <= |s.heads[f].mount|
    && (forall m | m in s.heads[f].mount[..i] :: m in s.copy && s.copy[m] in s.mounts && s.mounts[s.copy[m]].head == g)
    && s.heads[g].mount == Images(s.copy, s.heads[f].mount[..i])
  }

  /** One more mount copied: everything said so far still holds. */
  lemma MountAdded(s: Store, s': Store, f: nat, g: nat, i: nat, m: nat)
    requires Valid(s) && PartLike(s, f, g, i) && f != g && i < |s.heads[f].mount| && m == s.heads[f].mount[i] &&
        m !in s.heads[f].mount[..i]
    requires s'.heads == s.heads[g := s.heads[g].(mount := s.heads[g].mount + [s.brk])]
    requires s.brk in s'.mounts && s'.mounts == s.mounts[s.brk := s'.mounts[s.brk]] && s'.mounts[s.brk].head == g
    requires s'.copy == s.copy[m := s.brk]
    ensures PartLike(s', f, g, i + 1)
  {
    var q := s.heads[f].mount;
    assert q[..i + 1] == q[..i] + [m];
    assert Images(s'.copy, q[..i + 1]) == Images(s.copy, q[..i]) + [s.brk];
  }

  /** A copy at an address nobody had is one more copy of its own. */
  lemma CopiedMore(s: Store, t: Store, done: seq<nat>, m: nat, low: nat)
    requires Valid(s) && Copied(s, done, low) && m in s.mounts && m !in done && s.brk >= low
    requires s.brk in t.mounts && t.mounts == s.mounts[s.brk := t.mounts[s.brk]] && Alike(s.mounts[m], t.mounts[s.brk])
    requires t.copy == s.copy[m := s.brk]
    ensures Copied(t, done + [m], low)
  {}

  lemma SameMembers(p: seq<nat>, q: seq<nat>)
    requires multiset(p) == multiset(q)
    ensures forall x :: x in p <==> x in q
  {
    forall x ensures x in p <==> x in q {
      assert x in p <==> x in multiset(p);
      assert x in q <==> x in multiset(q);
    }
  }

  lemma SortedKept(mounts: map<nat, Mount>, mounts': map<nat, Mount>, q: seq<nat>)
    requires Sorted(mounts, q) && forall m | m in q :: m in mounts' && mounts'[m].mountid == mounts[m].mountid
    ensures Sorted(mounts', q)
  {}

  // --- the new table ---

  /** The mounts of the order have copies of their own. */
  lemma OwnCopies(s: Store, all: seq<nat>, order: seq<nat>, low: nat)
    requires Copied(s, all, low) && NoDup(order) && multiset(order) == multiset(all)
    ensures forall j | 0 <= j < |order| :: order[j] in s.copy && s.copy[order[j]] in s.mounts && s.copy[order[j]] >= low
    ensures forall k, j | 0 <= k < j < |order| :: s.copy[order[k]] != s.copy[order[j]]
  {
    SameMembers(order, all);
    assert forall j | 0 <= j < |order| :: order[j] in order && order[j] in all;
  }

  lemma UpTo(s: Store)
    requires Valid(s)
    ensures forall m | m in s.mounts :: s.mounts[m].mountid <= s.mountid
  {}

  lemma StillValid(s: Store, t: Store, low: nat)
    requires Valid(s) && t.heads == s.heads && t.ref == s.ref && t.brk == s.brk && OnlyIds(s.mounts, t.mounts, low)
    requires forall m | m in t.mounts :: t.mounts[m].mountid <= t.mountid
    ensures Valid(t)
  {}

  lemma OrderNoDup(mounts: map<nat, Mount>, q: seq<nat>)
    requires Sorted(mounts, q)
    ensures NoDup(q) && Apart(mounts, q)
  {
    assert forall i, j | 0 <= i < j < |q| :: mounts[q[i]].mountid < mounts[q[j]].mountid;
  }

  lemma ImagesJoin(copy: map<nat, nat>, p: seq<nat>, q: seq<nat>)
    requires forall m | m in p + q :: m in copy
    ensures (forall m | m in p :: m in copy) && (forall m | m in q :: m in copy)
    ensures Images(copy, p + q) == Images(copy, p) + Images(copy, q)
  {
    forall m | m in p ensures m in p + q {}
    forall m | m in q ensures m in p + q {}
  }

  /** The mounts of the copies are the copies of the mounts. */
  lemma {:induction false} UnderImages(s: Store, hs: seq<nat>, gs: seq<nat>)
    requires Heads(s.heads, hs) && ChainLike(s, hs, gs)
    ensures Heads(s.heads, gs) && (forall m | m in Under(s.heads, hs) :: m in s.copy)
    ensures Under(s.heads, gs) == Images(s.copy, Under(s.heads, hs))
    decreases |hs|
  {
    if hs != [] {
      var k := |hs| - 1;
      UnderImages(s, hs[..k], gs[..k]);
      assert HeadLike(s, hs[k], gs[k]);
      assert hs[k] in hs && forall g | g in gs :: g in gs[..k] || g == gs[k];
      ImagesJoin(s.copy, Under(s.heads, hs[..k]), s.heads[hs[k]].mount);
    }
  }

  lemma {:induction false} MountsImages(s: Store, table: seq<seq<nat>>, table': seq<seq<nat>>)
    requires AllHeads(s.heads, table) && TableLike(s, table, table')
    ensures AllHeads(s.heads, table') && (forall m | m in Mounts(s.heads, table) :: m in s.copy)
    ensures Mounts(s.heads, table') == Images(s.copy, Mounts(s.heads, table))
    decreases |table|
  {
    if table != [] {
      var k := |table| - 1;
      MountsImages(s, table[..k], table'[..k]);
      UnderImages(s, table[k], table'[k]);
      ImagesJoin(s.copy, Mounts(s.heads, table[..k]), Under(s.heads, table[k]));
    }
  }

  /** Changing ids leaves copies copies. */
  lemma Renumbered(t: Store, u: Store, all: seq<nat>, low: nat, table: seq<seq<nat>>, table': seq<seq<nat>>)
    requires u.heads == t.heads && u.copy == t.copy && OnlyIds(t.mounts, u.mounts, low)
    requires Copied(t, all, low) && TableLike(t, table, table')
    ensures Copied(u, all, low) && TableLike(u, table, table')
  {
    forall i | 0 <= i < |table| ensures ChainLike(u, table[i], table'[i]) {
      assert ChainLike(t, table[i], table'[i]);
      forall k | 0 <= k < |table[i]| ensures HeadLike(u, table[i][k], table'[i][k]) {
        assert HeadLike(t, table[i][k], table'[i][k]);
      }
    }
  }

  /** Distinct copies, numbered apart from a positive number on. */
  lemma ImagesApart(u: Store, all: seq<nat>, order: seq<nat>, low: nat, base: nat)
    requires Copied(u, all, low) && NoDup(all) && multiset(order) == multiset(all) && Numbered(u, order, base)
    requires all != [] ==> base > 0
    ensures NoDup(Images(u.copy, all)) && Apart(u.mounts, Images(u.copy, all))
    ensures forall n | n in Images(u.copy, all) :: u.mounts[n].mountid > 0
  {
    var q := Images(u.copy, all);
    SameMembers(order, all);
    assert forall i | 0 <= i < |all| :: all[i] in all && all[i] in order;
    forall i, j | 0 <= i < j < |q|
      ensures q[i] != q[j] && q[i] in u.mounts && q[j] in u.mounts && u.mounts[q[i]].mountid != u.mounts[q[j]].mountid
    {
      var a :| 0 <= a < |order| && order[a] == all[i];
      var b :| 0 <= b < |order| && order[b] == all[j];
    }
    forall n | n in q ensures n in u.mounts && u.mounts[n].mountid > 0 {
      var i :| 0 <= i < |q| && q[i] == n;
      var a :| 0 <= a < |order| && order[a] == all[i];
    }
  }

  /** What pgrpcpy leaves is a table, and the old one is as it was. */
  lemma NewTable(s: Store, t: Store, u: Store, table: seq<seq<nat>>, table': seq<seq<nat>>, order: seq<nat>)
    requires Valid(s) && Table(s, table) && Grew(s, t, []) && TableLike(t, table, table')
    requires Copied(t, Mounts(s.heads, table), s.brk) && Sorted(t.mounts, order) &&
        multiset(order) == multiset(Mounts(s.heads, table))
    requires Counted(s, t, TableUses(s, table)) && u.ref == t.ref
    requires u.heads == t.heads && u.copy == t.copy && OnlyIds(t.mounts, u.mounts, s.brk) &&
        Numbered(u, order, s.mountid)
    ensures Table(u, table) && Table(u, table') && TableLike(u, table, table') &&
        Copied(u, Mounts(s.heads, table), s.brk)
    ensures Sorted(s.mounts, order) && Counted(s, u, TableUses(s, table))
    ensures forall h | h in s.heads :: h in u.heads && u.heads[h] == s.heads[h]
    ensures forall m | m in s.mounts :: m in u.mounts && u.mounts[m] == s.mounts[m]
  {
    var all := Mounts(s.heads, table);
    Renumbered(t, u, all, s.brk, table, table');
    SameTable(s, u, table);
    MountsImages(u, table, table');
    BasePositive(s, all);
    ImagesApart(u, all, order, s.brk, s.mountid);
    SameMembers(order, all);
    SortedKept(t.mounts, s.mounts, order);
  }

  lemma BasePositive(s: Store, all: seq<nat>)
    requires Valid(s) && (forall m | m in all :: m in s.mounts && s.mounts[m].mountid > 0)
    ensures all != [] ==> s.mountid > 0
  {
    if all != [] { assert all[0] in all; }
  }

  /** A table whose heads and mounts are still there is the same table. */
  lemma SameTable(s: Store, u: Store, table: seq<seq<nat>>)
    requires Table(s, table)
    requires forall h | h in s.heads :: h in u.heads && u.heads[h] == s.heads[h]
    requires forall m | m in s.mounts :: m in u.mounts && u.mounts[m] == s.mounts[m]
    ensures Table(u, table) && Mounts(u.heads, table) == Mounts(s.heads, table)
  {
    MountsSameList(s.heads, u.heads, table);
    ApartKept(s.mounts, u.mounts, Mounts(s.heads, table));
  }

  lemma {:induction false} MountsSameList(heads: map<nat, Mhead>, heads': map<nat, Mhead>, table: seq<seq<nat>>)
    requires AllHeads(heads, table) && forall h | h in heads :: h in heads' && heads'[h] == heads[h]
    ensures AllHeads(heads', table) && Mounts(heads', table) == Mounts(heads, table)
    decreases |table|
  {
    if table != [] {
      MountsSameList(heads, heads', table[..|table| - 1]);
      UnderSameList(heads, heads', table[|table| - 1]);
    }
    assert forall i | 0 <= i < |table| :: Heads(heads, table[i]);
  }

  lemma {:induction false} UnderSameList(heads: map<nat, Mhead>, heads': map<nat, Mhead>, hs: seq<nat>)
    requires Heads(heads, hs) && forall h | h in heads :: h in heads' && heads'[h] == heads[h]
    ensures Heads(heads', hs) && Under(heads', hs) == Under(heads, hs)
    decreases |hs|
  {
    if hs != [] {
      UnderSameList(heads, heads', hs[..|hs| - 1]);
      assert hs[|hs| - 1] in hs;
    }
  }

  /** The copies are in the order of the originals. */
  lemma SameOrder(mounts: map<nat, Mount>, u: Store, all: seq<nat>, order: seq<nat>, base: nat, m: nat, m': nat)
    requires Sorted(mounts, order) && multiset(order) == multiset(all) && Numbered(u, order, base) && m in all &&
        m' in all
    ensures m in mounts && m' in mounts && m in u.copy && m' in u.copy && u.copy[m] in u.mounts &&
        u.copy[m'] in u.mounts
    ensures mounts[m].mountid < mounts[m'].mountid <==> u.mounts[u.copy[m]].mountid < u.mounts[u.copy[m']].mountid
  {
    SameMembers(order, all);
    var i :| 0 <= i < |order| && order[i] == m;
    var j :| 0 <= j < |order| && order[j] == m';
  }

  // --- ids a copy shares ---

  /** Some mount from before the copying has the id of a copy. */
  ghost predicate SharesId(s: Store, u: Store, order: seq<nat>) {
    exists m, j :: m in s.mounts && 0 <= j < |order| && order[j] in u.copy && u.copy[order[j]] in u.mounts
      && s.mounts[m].mountid == u.mounts[u.copy[order[j]]].mountid
  }

  /** Some mount has the id the counter stands at, the last one newmount gave. */
  ghost predicate NewestHere(s: Store) {
    exists m :: m in s.mounts && s.mounts[m].mountid == s.mountid
  }

  /**
   * The copies are numbered from the counter on: the first one's id is taken exactly when the newest mount is
   * there.
   */
  lemma SharedIdExactly(s: Store, u: Store, all: seq<nat>, order: seq<nat>)
    requires Valid(s) && Numbered(u, order, s.mountid) && multiset(order) == multiset(all)
    ensures SharesId(s, u, order) <==> all != [] && NewestHere(s)
  {
    assert |multiset(order)| == |order| && |multiset(all)| == |all|;
    if all != [] && NewestHere(s) {
      var m :| m in s.mounts && s.mounts[m].mountid == s.mountid;
      assert order[0] in u.copy && s.mounts[m].mountid == u.mounts[u.copy[order[0]]].mountid;
    }
  }

  /** A table with one head. */
  lemma OneHead(heads: map<nat, Mhead>, h: nat)
    requires h in heads
    ensures var table := [[h]] + Empties(MNTHASH - 1); AllHeads(heads, table) && Mounts(heads, table) == heads[h].mount
  {
    HeadFirst(heads, h, [[h]] + Empties(MNTHASH - 1));
  }

  lemma {:induction false} HeadFirst(heads: map<nat, Mhead>, h: nat, table: seq<seq<nat>>)
    requires h in heads && table != [] && table[0] == [h] && forall i | 1 <= i < |table| :: table[i] == []
    ensures AllHeads(heads, table) && Mounts(heads, table) == heads[h].mount
    decreases |table|
  {
    if |table| > 1 {
      HeadFirst(heads, h, table[..|table| - 1]);
      assert Under(heads, table[|table| - 1]) == [];
    } else {
      assert table[..0] == [];
      assert [h][..0] == [];
      assert Under(heads, [h]) == Under(heads, []) + heads[h].mount;
    }
  }

  /** A name space with one mount. */
  method OneMount() returns (sp: Space, table: seq<seq<nat>>, m: nat)
    ensures fresh(sp) && Valid(sp.View()) && Table(sp.View(), table) && Mounts(sp.heads, table) == [m]
    ensures m in sp.mounts && m < sp.brk && sp.mounts[m].mountid == sp.mountid
  {
    sp := new Space(map[0 := 1, 1 := 1]);
    var h := sp.brk;
    sp.heads, sp.brk := map[h := Mhead(0, [])], h + 1;
    m := sp.NewMount(h, 1, 0, "");
    sp.heads := sp.heads[h := Mhead(0, [m])];
    table := [[h]] + Empties(MNTHASH - 1);
    OneHead(sp.heads, h);
  }

  /** One mount, and the table copied: original and copy have one id. */
  method SharedId() returns (sp: Space, m: nat, n: nat)
    ensures fresh(sp) && m in sp.mounts && n in sp.mounts && m != n
    ensures sp.mounts[m].mountid == sp.mounts[n].mountid
  {
    hide Table, TableLike, Counted, Sorted, Mounts, TableUses, Valid;
    var table;
    sp, table, m := OneMount();
    var table', order := sp.PgrpCpy(table);
    SameMembers(order, [m]);
    assert order[0] in order && order[0] == m;
    n := sp.copy[m];
  }

  // --- scanning a table ---

  /** What a scan keeps: nothing, or the mount it came to last. */
  datatype Walk = Start | Came(cm: nat)

  /** The id a scan goes on from. */
  ghost function Last(mounts: map<nat, Mount>, mw: Walk): nat
    requires mw.Came? ==> mw.cm in mounts
  {
    if mw.Came? then mounts[mw.cm].mountid else 0
  }

  /** mntscan after the mounts in seen: the least id beyond last, if there is any. */
  ghost predicate Picked(mounts: map<nat, Mount>, seen: seq<nat>, last: nat, was: Walk, mw: Walk, bestmid: nat,
      nxt: bool) {
    && (forall t | t in seen :: t in mounts && 0 < mounts[t].mountid <= LASTID)
    && (nxt ==> mw.Came? && mw.cm in seen && last < mounts[mw.cm].mountid == bestmid
                && forall t | t in seen && mounts[t].mountid > last :: bestmid <= mounts[t].mountid)
    && (!nxt ==> mw == was && bestmid == LASTID + 1 && forall t | t in seen :: mounts[t].mountid <= last)
  }

  /** The body of mntscan's loops: one mount. */
  lemma PickedMore(mounts: map<nat, Mount>, seen: seq<nat>, last: nat, was: Walk, mw: Walk, bestmid: nat, nxt: bool,
      t: nat)
    requires Picked(mounts, seen, last, was, mw, bestmid, nxt) && t in mounts && 0 < mounts[t].mountid <= LASTID
    requires was == Start ==> last == 0
    ensures mw == Start || (mounts[t].mountid > last && mounts[t].mountid < bestmid)
        ==> Picked(mounts, seen + [t], last, was, Came(t), mounts[t].mountid, true)
    ensures !(mw == Start || (mounts[t].mountid > last && mounts[t].mountid < bestmid))
        ==> Picked(mounts, seen + [t], last, was, mw, bestmid, nxt)
  {}

  lemma NoHeads(heads: map<nat, Mhead>)
    ensures Under(heads, []) == [] && Mounts(heads, []) == []
  {}

  /** mntscan's innermost loop. */
  method ScanMounts(mounts: map<nat, Mount>, q: seq<nat>, ghost seen: seq<nat>, last: nat, ghost was: Walk,
      mw0: Walk, best0: nat, nxt0: bool)
      returns (mw: Walk, bestmid: nat, nxt: bool)
    requires Picked(mounts, seen, last, was, mw0, best0, nxt0) && (was == Start ==> last == 0)
    requires forall t | t in q :: t in mounts && 0 < mounts[t].mountid <= LASTID
    ensures Picked(mounts, seen + q, last, was, mw, bestmid, nxt)
  {
    hide Picked;
    mw, bestmid, nxt := mw0, best0, nxt0;
    assert seen + q[..0] == seen;
    for j := 0 to |q|
      invariant Picked(mounts, seen + q[..j], last, was, mw, bestmid, nxt)
    {
      var t := q[j];
      assert t in q;
      PickedMore(mounts, seen + q[..j], last, was, mw, bestmid, nxt, t);
      assert seen + q[..j] + [t] == seen + q[..j + 1];
      if mw == Start || (mounts[t].mountid > last && mounts[t].mountid < bestmid) {
        mw := Came(t);
        bestmid := mounts[t].mountid;
        nxt := true;
      }
    }
    assert q[..|q|] == q;
  }

  /** The ids of a table whose mounts were numbered before the counter wrapped. */
  ghost predicate Scannable(heads: map<nat, Mhead>, mounts: map<nat, Mount>, table: seq<seq<nat>>) {
    && AllHeads(heads, table) && NoDup(Mounts(heads, table)) && Apart(mounts, Mounts(heads, table))
    && (forall t | t in Mounts(heads, table) :: t in mounts && 0 < mounts[t].mountid <= LASTID)
  }

  /** mntscan's loop over one chain of heads. */
  method ScanChain(heads: map<nat, Mhead>, mounts: map<nat, Mount>, hs: seq<nat>, ghost seen: seq<nat>, last: nat,
      ghost was: Walk, mw0: Walk, best0: nat, nxt0: bool)
      returns (mw: Walk, bestmid: nat, nxt: bool)
    requires Picked(mounts, seen, last, was, mw0, best0, nxt0) && (was == Start ==> last == 0) && Heads(heads, hs)
    requires forall t | t in Under(heads, hs) :: t in mounts && 0 < mounts[t].mountid <= LASTID
    ensures Picked(mounts, seen + Under(heads, hs), last, was, mw, bestmid, nxt)
  {
    hide Picked, Under;
    mw, bestmid, nxt := mw0, best0, nxt0;
    NoHeads(heads);
    assert hs[..0] == [] && seen + [] == seen;
    for k := 0 to |hs|
      invariant Picked(mounts, seen + Under(heads, hs[..k]), last, was, mw, bestmid, nxt)
    {
      assert hs[k] in hs;
      InUnder(heads, hs, k);
      UnderNext(heads, hs, k);
      mw, bestmid, nxt := ScanMounts(mounts, heads[hs[k]].mount, seen + Under(heads, hs[..k]), last, was, mw,
          bestmid, nxt);
      assert seen + Under(heads, hs[..k + 1]) == seen + Under(heads, hs[..k]) + heads[hs[k]].mount;
    }
    assert hs[..|hs|] == hs;
  }

  /** mntscan: the mount with the least id beyond the one it came to last, or back to the start. */
  method MntScan(heads: map<nat, Mhead>, mounts: map<nat, Mount>, table: seq<seq<nat>>, was: Walk) returns (mw: Walk)
    requires Scannable(heads, mounts, table) && (was.Came? ==> was.cm in mounts)
    ensures mw == Start <==> forall t | t in Mounts(heads, table) :: mounts[t].mountid <= Last(mounts, was)
    ensures mw.Came? ==> mw.cm in Mounts(heads, table) && mounts[mw.cm].mountid > Last(mounts, was)
    ensures mw.Came? ==> forall t | t in Mounts(heads, table) && mounts[t].mountid > Last(mounts, was) ::
        mounts[mw.cm].mountid <= mounts[t].mountid
  {
    hide Under, Mounts, NoDup, Apart;
    var nxt, bestmid: nat, last: nat := false, LASTID + 1, 0;
    if was.Came? {
      last := mounts[was.cm].mountid;
    }
    mw := was;
    NoHeads(heads);
    assert table[..0] == [];
    for i := 0 to |table|
      invariant Picked(mounts, Mounts(heads, table[..i]), last, was, mw, bestmid, nxt)
    {
      MountsInTable(heads, table, i);
      mw, bestmid, nxt := ScanChain(heads, mounts, table[i], Mounts(heads, table[..i]), last, was, mw, bestmid, nxt);
    }
    assert table[..|table|] == table;
    if !nxt {
      mw := Start;
    }
  }

  lemma MountsInTable(heads: map<nat, Mhead>, table: seq<seq<nat>>, i: nat)
    requires AllHeads(heads, table) && i < |table|
    ensures Mounts(heads, table[..i + 1]) == Mounts(heads, table[..i]) + Under(heads, table[i])
    ensures forall t | t in Under(heads, table[i]) :: t in Mounts(heads, table)
  {
    var s := Store(heads, map[], map[], map[], 0, 0);
    MountsNext(s, table, i);
    InMounts(s, table, i);
  }

  /** Scans until one finds nothing: every mount of an unchanged table, once, by increasing id. */
  method WalkTable(heads: map<nat, Mhead>, mounts: map<nat, Mount>, table: seq<seq<nat>>) returns (visited: seq<nat>)
    requires Scannable(heads, mounts, table)
    ensures Sorted(mounts, visited) && forall m :: m in visited <==> m in Mounts(heads, table)
  {
    hide Mounts, NoDup, Apart;
    var mw := Start;
    visited := [];
    ghost var left := set t | t in Mounts(heads, table);
    while true
      invariant mw.Came? ==> mw.cm in mounts && visited != [] && visited[|visited| - 1] == mw.cm
      invariant Sorted(mounts, visited) && (mw == Start ==> visited == [])
      invariant forall m :: m in visited <==> m in Mounts(heads, table) && mounts[m].mountid <= Last(mounts, mw)
      invariant left == set t | t in Mounts(heads, table) && mounts[t].mountid > Last(mounts, mw)
      decreases left
    {
      ghost var before := mw;
      mw := MntScan(heads, mounts, table, mw);
      if mw == Start {
        break;
      }
      Visited(mounts, Mounts(heads, table), visited, before, mw);
      visited := visited + [mw.cm];
      assert mw.cm in left;
      left := set t | t in Mounts(heads, table) && mounts[t].mountid > Last(mounts, mw);
    }
  }

  lemma Visited(mounts: map<nat, Mount>, all: seq<nat>, visited: seq<nat>, was: Walk, mw: Walk)
    requires Apart(mounts, all) && Sorted(mounts, visited) && mw.Came? && mw.cm in all
    requires (was.Came? ==> was.cm in mounts)
    requires forall m :: m in visited <==> m in all && mounts[m].mountid <= Last(mounts, was)
    requires mounts[mw.cm].mountid > Last(mounts, was)
    requires forall t | t in all && mounts[t].mountid > Last(mounts, was) :: mounts[mw.cm].mountid <= mounts[t].mountid
    ensures Sorted(mounts, visited + [mw.cm])
    ensures forall m :: m in visited + [mw.cm] <==> m in all && mounts[m].mountid <= Last(mounts, mw)
  {
    var q := visited + [mw.cm];
    assert forall i | 0 <= i < |visited| :: q[i] == visited[i] && visited[i] in visited;
    forall m ensures m in q <==> m in all && mounts[m].mountid <= Last(mounts, mw) {
      if m in all && mounts[m].mountid == mounts[mw.cm].mountid {
        var i :| 0 <= i < |all| && all[i] == m;
        var j :| 0 <= j < |all| && all[j] == mw.cm;
        assert i == j;
      }
    }
  }
}
