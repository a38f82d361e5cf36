// The structure isched of emu/dis.c and the critical sections that change it.

module Interp {
  import opened Lists
  import opened Scheduler

  /** The process behind the i-th, if any. */
  ghost function After(q: seq<nat>, i: nat): nat { if i + 1 < |q| then q[i + 1] else NIL }

  /** The processes linked from head by their qnext fields. */
  ghost predicate Linked(head: nat, next: map<nat, nat>, q: seq<nat>) {
    && head == (if q == [] then NIL else q[0])
    && (forall i | 0 <= i < |q| :: q[i] != NIL && q[i] in next && next[q[i]] == After(q, i))
  }

  lemma LinkedFront(head: nat, next: map<nat, nat>, q: seq<nat>, up: nat)
    requires Linked(head, next, q) && up !in q && up != NIL
    ensures Linked(up, next[up := head], [up] + q)
  {
    var q' := [up] + q;
    forall i | 0 <= i < |q'| ensures q'[i] != NIL && q'[i] in next[up := head]
                                     && next[up := head][q'[i]] == After(q', i) {
      if i > 0 { assert q'[i] == q[i - 1] && q[i - 1] in q; }
      if i + 1 < |q'| { assert q'[i + 1] == q[i]; }
    }
  }

  lemma LinkedPop(head: nat, next: map<nat, nat>, q: seq<nat>)
    requires Linked(head, next, q)
    ensures head == NIL <==> q == []
    ensures q != [] ==> head == q[0] && head in next && Linked(next[head], next, q[1..])
    ensures |q| > 1 ==> q[1..][|q| - 2] == q[|q| - 1]
  {
    if q != [] {
      assert q[0] != NIL;
      var r := q[1..];
      forall i | 0 <= i < |r| ensures r[i] != NIL && r[i] in next && next[r[i]] == After(r, i) {
        assert r[i] == q[i + 1];
        if i + 1 < |r| { assert r[i + 1] == q[i + 2]; }
      }
      assert next[q[0]] == After(q, 0);
    }
  }

  class Isched {
    var idle: bool
    var asked: int
    var vmq: nat
    var vmqt: nat
    var qnext: map<nat, nat>
    var procs: map<nat, Pc>
    ghost var queue: seq<nat>

    /** The abstract state the fields stand for. */
    ghost function View(): State
      reads this
    {
      State(idle, asked, queue, procs)
    }

    ghost predicate Valid()
      reads this
    {
      && Inv(View()) && NIL !in procs
      && Linked(vmq, qnext, queue) && (queue != [] ==> vmqt == queue[|queue| - 1])
    }

    /** acquire's critical section: take the idle token, or go to the front of vmq. */
    method AcquireStep(up: nat)
      requires Valid() && At(View(), up, Away)
      modifies this
      ensures Valid() && View() == Acquire(old(View()), up)
    {
      hide Inv;
      AcquireInv(View(), up);
      Absent(View(), up);
      if idle {
        idle := false;
        procs := procs[up := Holding];
      } else {
        var n := asked;
        LinkedFront(vmq, qnext, queue, up);
        LinkedPop(vmq, qnext, queue);
        asked := asked + 1;
        qnext := qnext[up := vmq];
        if vmq == NIL {
          vmqt := up;
        }
        vmq := up;
        procs := procs[up := Waiting(n == 0)];
        queue := [up] + queue;
      }
    }

    /** The critical section of release and releasex: give the head of vmq the token, or nobody. */
    method ReleaseStep(up: nat, newproc: nat)
      requires Valid() && At(View(), up, Holding) && newproc !in procs && newproc != NIL
      modifies this
      ensures Valid() && View() == Release(old(View()), up, newproc)
    {
      hide Inv;
      ReleaseInv(View(), up, newproc);
      LinkedPop(vmq, qnext, queue);
      if vmq == NIL {
        idle := true;
        procs := procs[up := Away][newproc := Fresh];
        return;
      }
      var p := vmq;
      vmq := qnext[p];
      procs := procs[up := Handing(p, false)];
      queue := queue[1..];
    }

    /** iyield's critical section: give way to the head of vmq, going to its tail. */
    method YieldStep(up: nat)
      requires Valid() && At(View(), up, Holding) && asked != 0
      modifies this
      ensures Valid() && View() == Yield(old(View()), up)
    {
      hide Inv;
      YieldInv(View(), up);
      HolderAbsent(View(), up);
      LinkedPop(vmq, qnext, queue);
      asked := asked - 1;
      var p := vmq;
      if p == NIL {
        return;
      }
      vmq := qnext[p];
      ghost var q := queue;
      queue := queue[1..];
      TailOf(q);
      assert up !in queue;
      Append(up);
      procs := procs[up := Handing(p, true)];
    }

    /** startup's critical section: take the idle token, or go to the tail of vmq. */
    method StartupStep(up: nat)
      requires Valid() && At(View(), up, Fresh)
      modifies this
      ensures Valid() && View() == Startup(old(View()), up)
    {
      hide Inv;
      StartupInv(View(), up);
      Absent(View(), up);
      if idle {
        idle := false;
        procs := procs[up := Holding];
        return;
      }
      Append(up);
      procs := procs[up := Parked];
    }

    /** The assignments by which a process goes to the tail of vmq. */
    method Append(up: nat)
      requires Linked(vmq, qnext, queue) && (queue != [] ==> vmqt == queue[|queue| - 1]) && up != NIL && up !in queue
      requires NoDup(queue)
      modifies this`vmq, this`vmqt, this`qnext, this`queue
      ensures Linked(vmq, qnext, queue) && queue == old(queue) + [up] && vmqt == up
    {
      if vmq == NIL {
        vmq := up;
      } else {
        qnext := qnext[vmqt := up];
      }
      vmqt := up;
      qnext := qnext[up := NIL];
      queue := queue + [up];
    }
  }

  lemma Absent(s: State, p: nat)
    requires Inv(s) && p in s.procs && (s.procs[p] == Away || s.procs[p] == Fresh)
    ensures p !in s.vmq && NoDup(s.vmq)
  {}

  lemma HolderAbsent(s: State, p: nat)
    requires Inv(s) && At(s, p, Holding)
    ensures p !in s.vmq && NoDup(s.vmq)
  {}
}
