// The structure Mnt of emu/devmnt.c and what its callers do to it under its lock.

module Mount {
  import opened Lists
  import opened Mux

  class Mnt {
    var queue: seq<nat>
    var rip: Option<nat>
    var flushtag: nat
    var rpcs: map<nat, Rpc>
    var bufs: map<nat, Msg>

    /** The abstract state the fields stand for. */
    ghost function View(): State
      reads this
    {
      State(queue, rip, flushtag, rpcs, bufs)
    }

    /** mountio's first critical section. */
    method Enqueue(r: nat)
      requires At(View(), r, Out) && Unlocked(View())
      modifies this
      ensures View() == Start(old(View()), r)
      ensures Inv(old(View())) ==> Inv(View())
    {
      hide Inv, Unlocked;
      Keeps(View(), DoStart(r));
      rpcs := rpcs[r := rpcs[r].(pc := Converting, done := false, flushed := false, got := false, early := false)];
      queue := [r] + queue;
    }

    /** The gate of mountio. */
    method EnterGate(r: nat) returns (reader: bool)
      requires At(View(), r, Gate) && Unlocked(View())
      modifies this
      ensures View() == GateTry(old(View()), r) && (reader <==> old(rip) == None)
      ensures Inv(old(View())) ==> Inv(View())
    {
      hide Inv, Unlocked;
      Keeps(View(), DoGate(r));
      reader := rip == None;
      if reader {
        rip := Some(r);
        rpcs := rpcs[r := rpcs[r].(pc := Reading)];
      } else {
        rpcs := rpcs[r := rpcs[r].(pc := PreSleep)];
      }
    }

    /** mountmux's search of the queue for the rpc the reply of r is for. */
    method FindReply(r: nat)
      requires At(View(), r, Muxing) && Unlocked(View())
      requires forall q | q in queue :: q in rpcs
      modifies this
      ensures View() == Route(old(View()), r)
      ensures Inv(old(View())) ==> Inv(View())
    {
      hide Inv, Unlocked, First;
      Keeps(View(), DoRoute(r));
      var tag := rpcs[r].reply.tag;
      var i := 0;
      FirstFrom(queue, rpcs, tag, 0);
      while i < |queue|
        invariant View() == old(View())
        invariant 0 <= i <= |queue| && First(queue, rpcs, tag) == i + First(queue[i..], rpcs, tag)
      {
        var q := queue[i];
        if rpcs[q].tag == tag || (rpcs[q].flushed && rpcs[q].flushtag == tag) {
          FirstFrom(queue, rpcs, tag, i);
          queue := queue[..i] + queue[i + 1..];
          if q == r {
            rpcs := rpcs[r := rpcs[r].(pc := Reading, done := true, got := true)];
          } else {
            rpcs := rpcs[r := rpcs[r].(pc := Delivering(q))];
          }
          return;
        }
        FirstFrom(queue, rpcs, tag, i);
        i := i + 1;
      }
      FirstFrom(queue, rpcs, tag, i);
      rpcs := rpcs[r := rpcs[r].(pc := Reading)];
    }

    /** mountmux: the buffers change hands, and the rpc is complete. */
    method Complete(r: nat, q: nat)
      requires At(View(), r, Delivering(q)) && q in rpcs && q != r
      modifies this
      ensures View() == Deliver(old(View()), r, q)
      ensures Inv(old(View())) ==> Inv(View())
    {
      hide Inv, Unlocked;
      Keeps(View(), DoDeliver(r, q));
      var mine, its := rpcs[r], rpcs[q];
      var dp := its.buf;
      its := its.(buf := mine.buf);
      mine := mine.(buf := dp);
      its := its.(reply := mine.reply);
      its := its.(done := true, got := true, early := its.pc == Converting);
      rpcs := rpcs[r := mine.(pc := Waking(q))][q := its];
    }

    /** mntflush's critical section: a tag for the flush. */
    method NewFlushTag(r: nat, reader: bool)
      requires At(View(), r, FlushTag(reader)) && Unlocked(View())
      modifies this
      ensures View() == TakeTag(old(View()), r, reader)
      ensures Inv(old(View())) ==> Inv(View())
    {
      hide Inv, Unlocked;
      Keeps(View(), DoTakeTag(r, reader));
      var tag := flushtag;
      flushtag := flushtag + 1;
      if flushtag == TAGEND {
        flushtag := TAGFLS;
      }
      rpcs := rpcs[r := rpcs[r].(pc := FlushWrite(reader), flushed := true, flushtag := tag)];
    }

    /** mntqrm: out of the queue, wherever it is. */
    method Unqueue(r: nat)
      modifies this`queue
      ensures queue == Remove(old(queue), r)
    {
      ghost var q := queue;
      var i := 0;
      while i < |queue|
        invariant 0 <= i <= |queue| && queue == q && Remove(q, r) == q[..i] + Remove(q[i..], r)
      {
        assert q[i..][0] == q[i] && q[i..][1..] == q[i + 1..];
        if queue[i] == r {
          queue := queue[..i] + queue[i + 1..];
          return;
        }
        assert q[..i + 1] == q[..i] + [q[i]];
        i := i + 1;
      }
      assert q[i..] == [] && q[..i] == q;
    }
  }

  /** The search from the i-th on. */
  lemma FirstFrom(q: seq<nat>, rpcs: map<nat, Rpc>, tag: nat, i: nat)
    requires i <= |q|
    ensures i == 0 ==> q[0..] == q
    ensures i == |q| ==> First(q[i..], rpcs, tag) == 0
    ensures i < |q| && q[i] in rpcs && Matches(rpcs[q[i]], tag) ==> First(q[i..], rpcs, tag) == 0
    ensures i < |q| && q[i] in rpcs && !Matches(rpcs[q[i]], tag) ==>
        First(q[i..], rpcs, tag) == 1 + First(q[i + 1..], rpcs, tag)
  {
    if i < |q| { assert q[i..][0] == q[i] && q[i..][1..] == q[i + 1..]; }
  }

  /** Steps keep the invariant, other than a flush that fails harmfully. */
  lemma Keeps(s: State, e: Step)
    requires Enabled(s, e) && Harmless(s, e)
    ensures Inv(s) ==> Inv(Apply(s, e))
  {
    hide Inv, Enabled, Apply, Harmless;
    if Inv(s) { StepInv(s, Apply(s, e)); }
  }
}
