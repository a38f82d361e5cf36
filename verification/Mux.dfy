// The multiplexing of a mount's channel in emu/devmnt.c: mountio, mntrpcread, mountmux, mntgate and
// mntflush as the steps of many callers, interleaved in any order. One step is what a caller does
// under the mount's lock, or between two points where another caller can get in.

module Mux {
  import opened Lists

  datatype Msg = Msg(tag: nat, data: nat)

  const TAGFLS: nat := 0x8000
  const TAGEND: nat := 0xfffe

  /** Where a caller is. `reader` tells a flush begun while reading from one begun while waiting. */
  datatype Pc =
    | Out                              // no call in progress
    | Converting                       // queued, the request not yet in its buffer
    | Sending                          // writing the request
    | Gate                             // about to look whether anyone reads
    | PreSleep                         // about to Sleep
    | Parked                           // asleep on its own rendezvous
    | Back                             // back from Sleep
    | FlushTag(reader: bool)           // in mntflush, before it has a tag
    | FlushWrite(reader: bool)         // in mntflush, writing the flush
    | Reading                          // reads for all: before a read
    | Muxing                           // has a reply, not yet routed
    | Delivering(to: nat)              // has taken another caller off the queue
    | Waking(to: nat)                  // has completed it, and owes it a Wakeup
    | Gating(rest: seq<nat>)           // in mntgate, holding the lock, with the rest of the queue to look at
    | GateWaking(to: nat)              // has let go of the lock, and owes a Wakeup

  /** An rpc and its caller; got and early say how it was completed, for the properties only. */
  datatype Rpc = Rpc(pc: Pc, tag: nat, done: bool, flushed: bool, flushtag: nat, buf: nat, reply: Msg, got: bool,
      early: bool)

  /** The mount: queue, the reader if any, the next flush tag; the rpcs; what the buffers hold. */
  datatype State = State(queue: seq<nat>, rip: Option<nat>, flushtag: nat, rpcs: map<nat, Rpc>, bufs: map<nat, Msg>)

  // --- small parts ---

  ghost predicate At(s: State, r: nat, pc: Pc) { r in s.rpcs && s.rpcs[r].pc == pc }

  function Put(s: State, r: nat, x: Rpc): State { s.(rpcs := s.rpcs[r := x]) }

  function Go(s: State, r: nat, pc: Pc): State
    requires r in s.rpcs
  {
    Put(s, r, s.rpcs[r].(pc := pc))
  }

  /** Nobody is in the middle of mntgate, so the mount's lock can be had. */
  ghost predicate Unlocked(s: State) {
    forall r | r in s.rpcs :: !s.rpcs[r].pc.Gating?
  }

  /** The test mountmux makes of an rpc on the queue. */
  predicate Matches(x: Rpc, tag: nat) {
    x.tag == tag || (x.flushed && x.flushtag == tag)
  }

  /** The place of the first rpc on q that a reply with this tag is for, or the length of q. */
  function First(q: seq<nat>, rpcs: map<nat, Rpc>, tag: nat): (i: nat)
    ensures i <= |q|
    ensures i < |q| ==> q[i] in rpcs && Matches(rpcs[q[i]], tag)
    ensures forall j | 0 <= j < i :: q[j] in rpcs ==> !Matches(rpcs[q[j]], tag)
  {
    if q == [] then 0
    else if q[0] in rpcs && Matches(rpcs[q[0]], tag) then 0
    else 1 + First(q[1..], rpcs, tag)
  }

  function Without(q: seq<nat>, i: nat): seq<nat>
    requires i < |q|
  {
    q[..i] + q[i + 1..]
  }

  function Remove(q: seq<nat>, r: nat): seq<nat> {
    if q == [] then [] else if q[0] == r then q[1..] else [q[0]] + Remove(q[1..], r)
  }

  // --- the steps ---

  /** mountio: the rpc goes to the front of the queue. */
  function Start(s: State, r: nat): State
    requires r in s.rpcs
  {
    Put(s, r, s.rpcs[r].(pc := Converting, done := false, flushed := false, got := false,
        early := false)).(queue := [r] + s.queue)
  }

  /** convS2M puts the request into the rpc's buffer. */
  function Convert(s: State, r: nat, m: Msg): State
    requires r in s.rpcs
  {
    Go(s, r, Sending).(bufs := s.bufs[s.rpcs[r].buf := m])
  }

  /** Gate: become the reader, or prepare to sleep. */
  function GateTry(s: State, r: nat): State
    requires r in s.rpcs
  {
    if s.rip == None then Go(s, r, Reading).(rip := Some(r)) else Go(s, r, PreSleep)
  }

  /** Sleep with rpcattn. */
  function SleepTry(s: State, r: nat): State
    requires r in s.rpcs
  {
    Go(s, r, if s.rpcs[r].done || s.rip == None then Back else Parked)
  }

  /** Back from Sleep: the call is complete, or go and look at the gate again. */
  function Return(s: State, r: nat): State
    requires r in s.rpcs
  {
    Go(s, r, if s.rpcs[r].done then Out else Gate)
  }

  /** mntflush takes a flush tag. */
  function TakeTag(s: State, r: nat, reader: bool): State
    requires r in s.rpcs
  {
    Put(s, r, s.rpcs[r].(pc := FlushWrite(reader), flushed := true, flushtag := s.flushtag))
      .(flushtag := if s.flushtag + 1 == TAGEND then TAGFLS else s.flushtag + 1)
  }

  /** The flush could not be written: mntqrm, and the call fails; a reader opens the gate first. */
  function FlushFail(s: State, r: nat, reader: bool): State
    requires r in s.rpcs
  {
    var q := Remove(s.queue, r);
    Put(s, r, s.rpcs[r].(pc := if reader then Gating(q) else Out, done := true, flushed := false))
      .(queue := q, rip := if reader then None else s.rip)
  }

  /** mntrpcread: a whole message is in the reader's buffer. */
  function Receive(s: State, r: nat, m: Msg): State
    requires r in s.rpcs
  {
    Put(s, r, s.rpcs[r].(pc := Muxing, reply := m)).(bufs := s.bufs[s.rpcs[r].buf := m])
  }

  /** mountmux: take the rpc the reply is for off the queue. */
  function Route(s: State, r: nat): State
    requires r in s.rpcs
  {
    var i := First(s.queue, s.rpcs, s.rpcs[r].reply.tag);
    if i == |s.queue| then Go(s, r, Reading)
    else
      var q := s.queue[i];
      var s1 := s.(queue := Without(s.queue, i));
      if q == r then Put(s1, r, s.rpcs[r].(pc := Reading, done := true, got := true)) else Go(s1, r, Delivering(q))
  }

  /** mountmux: swap buffers with the caller the reply is for, and complete its rpc. */
  function Deliver(s: State, r: nat, q: nat): State
    requires r in s.rpcs && q in s.rpcs
  {
    var x, y := s.rpcs[r], s.rpcs[q];
    Put(Put(s, r, x.(pc := Waking(q), buf := y.buf)), q,
        y.(buf := x.buf, reply := x.reply, done := true, got := true, early := y.pc == Converting))
  }

  /** Wakeup of q by r. */
  function Wake(s: State, r: nat, q: nat, pc: Pc): State
    requires r in s.rpcs && q in s.rpcs
  {
    Go(if s.rpcs[q].pc == Parked then Go(s, q, Back) else s, r, pc)
  }

  /** mntgate begins: nobody reads. */
  function Open(s: State, r: nat): State
    requires r in s.rpcs
  {
    Go(s, r, Gating(s.queue)).(rip := None)
  }

  /** mntgate looks at the next rpc on the queue. */
  function Look(s: State, r: nat, rest: seq<nat>): State
    requires r in s.rpcs
  {
    if rest == [] then Go(s, r, Out)
    else if rest[0] in s.rpcs && !s.rpcs[rest[0]].done && s.rpcs[rest[0]].pc == Parked then Go(s, r, GateWaking(rest[0]))
    else Go(s, r, Gating(rest[1..]))
  }

  /** A new rpc structure, with a request tag and a buffer of its own. */
  function Alloc(s: State, r: nat, x: Rpc): State { Put(s, r, x) }

  ghost predicate Fresh(s: State, r: nat, x: Rpc) {
    && r !in s.rpcs && x.pc == Out && x.tag < TAGFLS && !x.got && !x.flushed
    && forall q | q in s.rpcs :: s.rpcs[q].tag != x.tag && s.rpcs[q].buf != x.buf
  }

  ghost predicate Interruptible(pc: Pc) { pc == PreSleep || pc == Parked || pc == Back }

  /** What a caller may do next. */
  datatype Step =
    | DoAlloc(r: nat, x: Rpc)                   // a new rpc
    | DoStart(r: nat)                           // a call begins
    | DoConvert(r: nat, m: Msg)                 // its request is made up
    | DoSent(r: nat)                            // and written
    | DoSendError(r: nat)                       // or the write is interrupted
    | DoGate(r: nat)                            // a look at the gate
    | DoSleep(r: nat)                           // Sleep
    | DoReturn(r: nat)                          // and what follows it
    | DoInterrupt(r: nat)                       // the wait is interrupted
    | DoReadError(r: nat)                       // the read is interrupted
    | DoTakeTag(r: nat, reader: bool)           // a flush gets its tag
    | DoFlushed(r: nat, reader: bool)           // and is written
    | DoReceive(r: nat, m: Msg)                 // a reply is read
    | DoRoute(r: nat)                           // its rpc is taken off the queue
    | DoDeliver(r: nat, q: nat)                 // completed
    | DoWake(r: nat, q: nat)                    // and woken
    | DoOpen(r: nat)                            // the reader opens the gate
    | DoLook(r: nat, rest: seq<nat>)            // looks for a caller asleep
    | DoGateWake(r: nat, q: nat)                // and wakes it
    | DoFlushFail(r: nat, reader: bool)         // a flush cannot be written

  ghost predicate Enabled(s: State, e: Step) {
    match e
    case DoAlloc(r, x) => Fresh(s, r, x)
    case DoStart(r) => At(s, r, Out) && Unlocked(s)
    case DoConvert(r, m) => At(s, r, Converting)
    case DoSent(r) => At(s, r, Sending)
    case DoSendError(r) => At(s, r, Sending)
    case DoGate(r) => At(s, r, Gate) && Unlocked(s)
    case DoSleep(r) => At(s, r, PreSleep)
    case DoReturn(r) => At(s, r, Back)
    case DoInterrupt(r) => r in s.rpcs && Interruptible(s.rpcs[r].pc)
    case DoReadError(r) => At(s, r, Reading) && !s.rpcs[r].done
    case DoTakeTag(r, reader) => At(s, r, FlushTag(reader)) && Unlocked(s)
    case DoFlushed(r, reader) => At(s, r, FlushWrite(reader))
    case DoReceive(r, m) => At(s, r, Reading) && !s.rpcs[r].done
    case DoRoute(r) => At(s, r, Muxing) && Unlocked(s)
    case DoDeliver(r, q) => At(s, r, Delivering(q)) && q in s.rpcs
    case DoWake(r, q) => At(s, r, Waking(q)) && q in s.rpcs
    case DoOpen(r) => At(s, r, Reading) && s.rpcs[r].done && Unlocked(s)
    case DoLook(r, rest) => At(s, r, Gating(rest))
    case DoGateWake(r, q) => At(s, r, GateWaking(q)) && q in s.rpcs
    case DoFlushFail(r, reader) => At(s, r, FlushWrite(reader)) && Unlocked(s)
  }

  ghost function Apply(s: State, e: Step): State
    requires Enabled(s, e)
  {
    match e
    case DoAlloc(r, x) => Alloc(s, r, x)
    case DoStart(r) => Start(s, r)
    case DoConvert(r, m) => Convert(s, r, m)
    case DoSent(r) => Go(s, r, Gate)
    case DoSendError(r) => Go(s, r, FlushTag(false))
    case DoGate(r) => GateTry(s, r)
    case DoSleep(r) => SleepTry(s, r)
    case DoReturn(r) => Return(s, r)
    case DoInterrupt(r) => Go(s, r, FlushTag(false))
    case DoReadError(r) => Go(s, r, FlushTag(true))
    case DoTakeTag(r, reader) => TakeTag(s, r, reader)
    case DoFlushed(r, reader) => Go(s, r, if reader then Reading else Gate)
    case DoReceive(r, m) => Receive(s, r, m)
    case DoRoute(r) => Route(s, r)
    case DoDeliver(r, q) => Deliver(s, r, q)
    case DoWake(r, q) => Wake(s, r, q, Reading)
    case DoOpen(r) => Open(s, r)
    case DoLook(r, rest) => Look(s, r, rest)
    case DoGateWake(r, q) => Wake(s, r, q, Out)
    case DoFlushFail(r, reader) => FlushFail(s, r, reader)
  }

  /** One step of some caller. */
  ghost predicate Next(s: State, s': State) {
    exists e :: Enabled(s, e) && s' == Apply(s, e)
  }

  ghost predicate Init(s: State) {
    s.queue == [] && s.rip == None && s.flushtag == TAGFLS && s.rpcs == map[]
  }

  // --- the invariants ---

  /** Phases in which a caller reads for all. */
  ghost predicate Reads(pc: Pc) {
    match pc
    case Reading => true
    case Muxing => true
    case Delivering(_) => true
    case Waking(_) => true
    case FlushTag(b) => b
    case FlushWrite(b) => b
    case _ => false
  }

  /** rip is the one caller that reads for all. */
  ghost predicate OneReader(s: State) {
    && (s.rip.Some? ==> s.rip.value in s.rpcs && Reads(s.rpcs[s.rip.value].pc))
    && (forall r | r in s.rpcs && Reads(s.rpcs[r].pc) :: s.rip == Some(r))
    && (forall r, q | r in s.rpcs && q in s.rpcs && s.rpcs[r].pc.Gating? && s.rpcs[q].pc.Gating? :: r == q)
    && (forall r | r in s.rpcs && s.rpcs[r].pc.Gating? :: s.rip == None)
  }

  /** r has been taken off the queue and is about to be completed. */
  ghost predicate Picked(s: State, r: nat) {
    s.rip.Some? && s.rip.value in s.rpcs && s.rpcs[s.rip.value].pc == Delivering(r)
  }

  /** The queue holds exactly the calls in progress that are neither done nor picked. */
  ghost predicate QueueOk(s: State) {
    && NoDup(s.queue)
    && (forall r | r in s.queue :: r in s.rpcs)
    && (forall r | r in s.rpcs :: r in s.queue <==> s.rpcs[r].pc != Out && !s.rpcs[r].done && !Picked(s, r))
    && (forall r | r in s.rpcs && Picked(s, r) :: s.rpcs[r].pc != Out && !s.rpcs[r].done && s.rip != Some(r))
    && (forall r | r in s.rpcs && (s.rpcs[r].pc.Gating? || s.rpcs[r].pc.GateWaking?) :: s.rpcs[r].done)
  }

  /** A caller that will come to the gate without being woken. */
  ghost predicate Active(x: Rpc) {
    match x.pc
    case Converting => true
    case Sending => true
    case Gate => true
    case FlushTag(b) => !b
    case FlushWrite(b) => !b
    case PreSleep => !x.done
    case Back => !x.done
    case _ => false
  }

  /** r is asleep, and nothing has come for it. */
  ghost predicate Stuck(s: State, r: nat) {
    r in s.rpcs && s.rpcs[r].pc == Parked && !s.rpcs[r].done
  }

  ghost predicate ActiveAt(s: State, r: nat) { r in s.rpcs && Active(s.rpcs[r]) }

  /** g is looking for a caller to wake, and has one ahead of it. */
  ghost predicate Looking(s: State, g: nat, r: nat) {
    g in s.rpcs && s.rpcs[g].pc.Gating? && r in s.rpcs[g].pc.rest && Stuck(s, r)
  }

  /** g is about to wake r, which is asleep. */
  ghost predicate WakingUp(s: State, g: nat, r: nat) {
    At(s, g, GateWaking(r)) && At(s, r, Parked)
  }

  /** When nobody reads, not all callers are asleep: someone is on its way to the gate, or about to be woken. */
  ghost predicate Awake(s: State) {
    s.rip == None && (exists r :: Stuck(s, r)) ==>
      (exists a :: ActiveAt(s, a)) || (exists g, r :: Looking(s, g, r)) || (exists g, r :: WakingUp(s, g, r))
  }

  /**
   * Without r nobody would come to the gate: nobody reads, another caller is asleep, and r alone is on
   * its way. This is what mntflush could test, under the mount's lock, before it lets r give up.
   */
  ghost predicate Strands(s: State, r: nat) {
    && s.rip == None && (exists q :: Stuck(s, q))
    && (forall a :: ActiveAt(s, a) ==> a == r)
    && !(exists g, q :: Looking(s, g, q)) && !(exists g, q :: WakingUp(s, g, q))
  }

  /** A flush that fails neither while a reply for its call is on the way, nor so that it strands a sleeper. */
  ghost predicate Harmless(s: State, e: Step) {
    e.DoFlushFail? ==> !Picked(s, e.r) && (e.reader || !Strands(s, e.r))
  }

  /** One step of some caller, with harmless failures of flush writes only. */
  ghost predicate NextOk(s: State, s': State) {
    exists e :: Enabled(s, e) && Harmless(s, e) && s' == Apply(s, e)
  }

  /** Tags and buffers are nobody else's; request tags and flush tags do not meet. */
  ghost predicate Separate(s: State) {
    && (forall r, q | r in s.rpcs && q in s.rpcs && r != q ::
        s.rpcs[r].tag != s.rpcs[q].tag && s.rpcs[r].buf != s.rpcs[q].buf)
    && (forall r | r in s.rpcs ::
        s.rpcs[r].tag < TAGFLS && (s.rpcs[r].flushed ==> TAGFLS <= s.rpcs[r].flushtag < TAGEND))
    && TAGFLS <= s.flushtag < TAGEND
  }

  /** A completed call's reply is the one for its tag, or one for a flush, and its data are in its own buffer. */
  ghost predicate Completed(s: State, r: nat)
    requires r in s.rpcs
  {
    var x := s.rpcs[r];
    && (x.got ==> x.done && (x.reply.tag < TAGFLS ==> x.reply.tag == x.tag))
    && (x.got && !x.early ==> x.pc != Converting && x.buf in s.bufs && s.bufs[x.buf] == x.reply)
  }

  /** A reply on its way is in the reader's buffer, and goes to the call of its tag. */
  ghost predicate Carried(s: State, r: nat)
    requires r in s.rpcs
  {
    var x := s.rpcs[r];
    && (x.pc == Muxing || x.pc.Delivering? ==> !x.done && x.buf in s.bufs && s.bufs[x.buf] == x.reply)
    && (x.pc.Delivering? ==> x.pc.to in s.rpcs && x.pc.to != r && (x.reply.tag < TAGFLS ==> x.reply.tag == s.rpcs[x.pc.to].tag))
  }

  ghost predicate DataOk(s: State) {
    && (forall r | r in s.rpcs :: Completed(s, r))
    && (forall r | r in s.rpcs :: Carried(s, r))
  }

  /** What holds whether or not flush writes succeed. */
  ghost predicate Safe(s: State) {
    OneReader(s) && Separate(s) && DataOk(s)
  }

  // --- the steps keep Safe ---

  /** Between phases that neither read, nor open the gate, nor have a request to convert. */
  ghost predicate Quiet(pc: Pc) {
    !Reads(pc) && !pc.Gating? && pc != Converting
  }

  lemma SafeAt(s: State, r: nat)
    requires Safe(s) && r in s.rpcs
    ensures OneReader(s) && Completed(s, r) && Carried(s, r) && TAGFLS <= s.flushtag < TAGEND
    ensures s.rpcs[r].flushed ==> TAGFLS <= s.rpcs[r].flushtag < TAGEND
  {}

  /** A step that changes one rpc, not its tag or its buffer's place, keeps Safe if it keeps what concerns that rpc. */
  lemma OneChanged(s: State, s': State, r: nat)
    requires Safe(s) && r in s.rpcs && s'.rpcs.Keys == s.rpcs.Keys
    requires forall p | p in s.rpcs && p != r :: s'.rpcs[p] == s.rpcs[p]
    requires s'.rpcs[r].tag == s.rpcs[r].tag && s'.rpcs[r].buf == s.rpcs[r].buf
    requires forall b | b in s.bufs && b != s.rpcs[r].buf :: b in s'.bufs && s'.bufs[b] == s.bufs[b]
    requires s'.rpcs[r].flushed ==> TAGFLS <= s'.rpcs[r].flushtag < TAGEND
    requires TAGFLS <= s'.flushtag < TAGEND && OneReader(s') && Completed(s', r) && Carried(s', r)
    ensures Safe(s')
  {
    hide OneReader;
    forall p | p in s'.rpcs && p != r ensures Completed(s', p) && Carried(s', p) {
      assert Completed(s, p) && Carried(s, p);
    }
  }

  lemma QuietSafe(s: State, r: nat, pc: Pc)
    requires Safe(s) && r in s.rpcs && Quiet(pc) && !Reads(s.rpcs[r].pc)
    ensures Safe(Go(s, r, pc))
  {
    hide Safe, OneReader, Separate, DataOk;
    SafeAt(s, r);
    var s' := Go(s, r, pc);
    QuietReader(s, s', r);
    OneChanged(s, s', r);
  }

  lemma QuietReader(s: State, s': State, r: nat)
    requires OneReader(s) && r in s.rpcs && !Reads(s.rpcs[r].pc) && s'.rpcs.Keys == s.rpcs.Keys && s'.rip == s.rip
    requires !Reads(s'.rpcs[r].pc) && !s'.rpcs[r].pc.Gating?
    requires forall p | p in s.rpcs && p != r :: s'.rpcs[p] == s.rpcs[p]
    ensures OneReader(s')
  {}

  lemma ReaderStays(s: State, s': State, r: nat)
    requires OneReader(s) && r in s.rpcs && Reads(s.rpcs[r].pc) && s'.rpcs.Keys == s.rpcs.Keys && s'.rip == s.rip
    requires Reads(s'.rpcs[r].pc) && forall p | p in s.rpcs && p != r :: s'.rpcs[p] == s.rpcs[p]
    ensures OneReader(s')
  {}

  /** Between the phases of reading that hold no reply. */
  lemma ReaderSafe(s: State, r: nat, pc: Pc)
    requires Safe(s) && r in s.rpcs && Reads(pc) && Reads(s.rpcs[r].pc) && pc != Muxing && !pc.Delivering?
    ensures Safe(Go(s, r, pc))
  {
    hide Safe, OneReader, Separate, DataOk;
    SafeAt(s, r);
    var s' := Go(s, r, pc);
    ReaderStays(s, s', r);
    OneChanged(s, s', r);
  }

  lemma AllocSafe(s: State, r: nat, x: Rpc)
    requires Safe(s) && Fresh(s, r, x)
    ensures Safe(Alloc(s, r, x))
  {
    var s' := Alloc(s, r, x);
    forall p | p in s'.rpcs && p != r
      ensures Completed(s', p) && Carried(s', p)
    {
      assert Completed(s, p) && Carried(s, p);
    }
  }

  lemma StartSafe(s: State, r: nat)
    requires Safe(s) && At(s, r, Out)
    ensures Safe(Start(s, r))
  {
    hide Safe, OneReader, Separate, DataOk;
    SafeAt(s, r);
    var s' := Start(s, r);
    QuietReader(s, s', r);
    OneChanged(s, s', r);
  }

  lemma ConvertSafe(s: State, r: nat, m: Msg)
    requires Safe(s) && At(s, r, Converting)
    ensures Safe(Convert(s, r, m))
  {
    hide Safe, OneReader, Separate, DataOk;
    SafeAt(s, r);
    var s' := Convert(s, r, m);
    QuietReader(s, s', r);
    OneChanged(s, s', r);
  }

  lemma GateTrySafe(s: State, r: nat)
    requires Safe(s) && At(s, r, Gate) && Unlocked(s)
    ensures Safe(GateTry(s, r))
  {
    if s.rip == None { ReaderBegins(s, r); } else { QuietSafe(s, r, PreSleep); }
  }

  lemma ReaderBegins(s: State, r: nat)
    requires Safe(s) && At(s, r, Gate) && Unlocked(s) && s.rip == None
    ensures Safe(Go(s, r, Reading).(rip := Some(r)))
  {
    SafeAt(s, r);
    hide Safe, Separate, DataOk;
    var s' := Go(s, r, Reading).(rip := Some(r));
    OneChanged(s, s', r);
  }

  lemma TakeTagSafe(s: State, r: nat, b: bool)
    requires Safe(s) && At(s, r, FlushTag(b))
    ensures Safe(TakeTag(s, r, b))
  {
    var s' := TakeTag(s, r, b);
    forall p | p in s'.rpcs ensures Completed(s', p) && Carried(s', p) { assert Completed(s, p) && Carried(s, p); }
  }

  lemma ReceiveSafe(s: State, r: nat, m: Msg)
    requires Safe(s) && At(s, r, Reading) && !s.rpcs[r].done
    ensures Safe(Receive(s, r, m))
  {
    hide Safe, OneReader, Separate, DataOk;
    SafeAt(s, r);
    var s' := Receive(s, r, m);
    ReaderStays(s, s', r);
    OneChanged(s, s', r);
  }

  lemma RouteSafe(s: State, r: nat)
    requires Safe(s) && At(s, r, Muxing)
    ensures Safe(Route(s, r))
  {
    hide First;
    var tag := s.rpcs[r].reply.tag;
    var i := First(s.queue, s.rpcs, tag);
    if i < |s.queue| { RouteParts(s, r, i); }
    if i == |s.queue| {
      ReaderSafe(s, r, Reading);
    } else {
      var q := s.queue[i];
      if q == r { OwnReply(s, r, Without(s.queue, i)); } else { PickSafe(s, r, q, Without(s.queue, i)); }
    }
  }

  lemma RouteParts(s: State, r: nat, i: nat)
    requires Safe(s) && At(s, r, Muxing) && i == First(s.queue, s.rpcs, s.rpcs[r].reply.tag) && i < |s.queue|
    ensures s.queue[i] in s.rpcs && (s.rpcs[r].reply.tag < TAGFLS ==> s.rpcs[s.queue[i]].tag == s.rpcs[r].reply.tag)
  {}

  lemma OwnReply(s: State, r: nat, queue: seq<nat>)
    requires Safe(s) && At(s, r, Muxing) && (s.rpcs[r].reply.tag < TAGFLS ==> s.rpcs[r].tag == s.rpcs[r].reply.tag)
    ensures Safe(Put(s.(queue := queue), r, s.rpcs[r].(pc := Reading, done := true, got := true)))
  {
    SafeAt(s, r);
    hide Safe, Separate, DataOk;
    var s' := Put(s.(queue := queue), r, s.rpcs[r].(pc := Reading, done := true, got := true));
    OneChanged(s, s', r);
  }

  lemma PickSafe(s: State, r: nat, q: nat, queue: seq<nat>)
    requires Safe(s) && At(s, r, Muxing) && q in s.rpcs && q != r
    requires (s.rpcs[r].reply.tag < TAGFLS ==> s.rpcs[q].tag == s.rpcs[r].reply.tag)
    ensures Safe(Go(s.(queue := queue), r, Delivering(q)))
  {
    SafeAt(s, r);
    hide Safe, Separate, DataOk;
    var s' := Go(s.(queue := queue), r, Delivering(q));
    OneChanged(s, s', r);
  }

  lemma DeliverSafe(s: State, r: nat, q: nat)
    requires Safe(s) && At(s, r, Delivering(q)) && q in s.rpcs
    ensures Safe(Deliver(s, r, q))
  {
    assert s.rip == Some(r) && Carried(s, r);
    DeliverSeparate(s, r, q);
    DeliverReader(s, r, q);
    DeliverData(s, r, q);
    hide OneReader, Separate, DataOk, Deliver;
  }

  lemma DeliverSeparate(s: State, r: nat, q: nat)
    requires Separate(s) && r in s.rpcs && q in s.rpcs && q != r
    ensures Separate(Deliver(s, r, q))
  {}

  lemma DeliverReader(s: State, r: nat, q: nat)
    requires OneReader(s) && At(s, r, Delivering(q)) && q in s.rpcs && q != r
    ensures OneReader(Deliver(s, r, q))
  {}

  lemma DeliverData(s: State, r: nat, q: nat)
    requires OneReader(s) && Separate(s) && DataOk(s) && At(s, r, Delivering(q)) && q in s.rpcs && q != r &&
        s.rip == Some(r)
    ensures DataOk(Deliver(s, r, q))
  {
    var s' := Deliver(s, r, q);
    assert Carried(s, r);
    forall p | p in s'.rpcs ensures Completed(s', p) && Carried(s', p) { assert Completed(s, p) && Carried(s, p); }
  }

  lemma WakeSafe(s: State, r: nat, q: nat, pc: Pc)
    requires Safe(s) && r in s.rpcs && q in s.rpcs &&
        ((At(s, r, Waking(q)) && pc == Reading) || (At(s, r, GateWaking(q)) && pc == Out))
    ensures Safe(Wake(s, r, q, pc))
  {
    hide Safe;
    var s1 := if s.rpcs[q].pc == Parked then Go(s, q, Back) else s;
    if s.rpcs[q].pc == Parked { QuietSafe(s, q, Back); }
    if pc == Reading { ReaderSafe(s1, r, Reading); } else { QuietSafe(s1, r, Out); }
  }

  lemma OpenSafe(s: State, r: nat)
    requires Safe(s) && At(s, r, Reading) && Unlocked(s)
    ensures Safe(Open(s, r))
  {
    OpenReader(s, r);
    OpenData(s, r);
    hide OneReader, DataOk;
  }

  lemma OpenReader(s: State, r: nat)
    requires OneReader(s) && At(s, r, Reading) && Unlocked(s)
    ensures OneReader(Open(s, r))
  {}

  lemma OpenData(s: State, r: nat)
    requires DataOk(s) && At(s, r, Reading)
    ensures DataOk(Open(s, r))
  {
    var s' := Open(s, r);
    forall p | p in s'.rpcs ensures Completed(s', p) && Carried(s', p) { assert Completed(s, p) && Carried(s, p); }
  }

  lemma LookSafe(s: State, r: nat, rest: seq<nat>)
    requires Safe(s) && At(s, r, Gating(rest))
    ensures Safe(Look(s, r, rest))
  {
    if rest == [] { QuietSafe(s, r, Out); }
    else if rest[0] in s.rpcs && !s.rpcs[rest[0]].done && s.rpcs[rest[0]].pc == Parked {
      QuietSafe(s, r, GateWaking(rest[0]));
    }
    else { StillGating(s, r, rest[1..]); }
  }

  lemma StillGating(s: State, r: nat, rest: seq<nat>)
    requires Safe(s) && r in s.rpcs && s.rpcs[r].pc.Gating?
    ensures Safe(Go(s, r, Gating(rest)))
  {
    hide Safe, OneReader, Separate, DataOk;
    SafeAt(s, r);
    var s' := Go(s, r, Gating(rest));
    GatingStays(s, s', r);
    OneChanged(s, s', r);
  }

  lemma GatingStays(s: State, s': State, r: nat)
    requires OneReader(s) && r in s.rpcs && s.rpcs[r].pc.Gating? && s'.rpcs.Keys == s.rpcs.Keys && s'.rip == s.rip
    requires s'.rpcs[r].pc.Gating? && forall p | p in s.rpcs && p != r :: s'.rpcs[p] == s.rpcs[p]
    ensures OneReader(s')
  {}

  lemma FlushFailSafe(s: State, r: nat, b: bool)
    requires Safe(s) && At(s, r, FlushWrite(b)) && Unlocked(s)
    ensures Safe(FlushFail(s, r, b))
  {
    FlushFailReader(s, r, b);
    FlushFailData(s, r, b);
    FlushFailSeparate(s, r, b);
    hide OneReader, Separate, DataOk, FlushFail;
  }

  lemma FlushFailReader(s: State, r: nat, b: bool)
    requires OneReader(s) && At(s, r, FlushWrite(b)) && Unlocked(s)
    ensures OneReader(FlushFail(s, r, b))
  {
    hide Remove;
  }

  lemma FlushFailSeparate(s: State, r: nat, b: bool)
    requires Separate(s) && r in s.rpcs
    ensures Separate(FlushFail(s, r, b))
  {
    hide Remove;
  }

  lemma FlushFailData(s: State, r: nat, b: bool)
    requires DataOk(s) && At(s, r, FlushWrite(b))
    ensures DataOk(FlushFail(s, r, b))
  {
    hide Remove;
    var s' := FlushFail(s, r, b);
    forall p | p in s'.rpcs ensures Completed(s', p) && Carried(s', p) { assert Completed(s, p) && Carried(s, p); }
  }

  // --- the steps keep the queue ---

  /** A caller asleep whose call is complete is owed a Wakeup by the reader. */
  ghost predicate Owed(s: State) {
    forall q | q in s.rpcs && s.rpcs[q].pc == Parked && s.rpcs[q].done ::
      s.rip.Some? && s.rip.value in s.rpcs && s.rpcs[s.rip.value].pc == Waking(q)
  }

  ghost predicate Inv(s: State) {
    Safe(s) && QueueOk(s) && Owed(s) && Awake(s)
  }

  lemma InitInv(s: State)
    requires Init(s)
    ensures Inv(s)
  {}

  /** A step of r between phases in progress that leaves done and the picks alone. */
  lemma GoQueue(s: State, r: nat, pc: Pc)
    requires Safe(s) && QueueOk(s) && r in s.rpcs && s.rpcs[r].pc != Out && pc != Out && !pc.Delivering? &&
        !s.rpcs[r].pc.Delivering?
    requires pc.Gating? || pc.GateWaking? ==> s.rpcs[r].done
    ensures QueueOk(Go(s, r, pc))
  {
    var s' := Go(s, r, pc);
    assert forall q :: Picked(s', q) <==> Picked(s, q);
  }

  lemma AllocQueue(s: State, r: nat, x: Rpc)
    requires Safe(s) && QueueOk(s) && Fresh(s, r, x)
    ensures QueueOk(Alloc(s, r, x))
  {
    var s' := Alloc(s, r, x);
    assert forall q :: Picked(s', q) <==> Picked(s, q);
  }

  lemma StartQueue(s: State, r: nat)
    requires Safe(s) && QueueOk(s) && At(s, r, Out)
    ensures QueueOk(Start(s, r))
  {
    var s' := Start(s, r);
    assert forall q :: Picked(s', q) <==> Picked(s, q);
  }

  lemma ConvertQueue(s: State, r: nat, m: Msg)
    requires Safe(s) && QueueOk(s) && At(s, r, Converting)
    ensures QueueOk(Convert(s, r, m))
  {
    var s' := Convert(s, r, m);
    assert forall q :: Picked(s', q) <==> Picked(s, q);
  }

  lemma GateTryQueue(s: State, r: nat)
    requires Safe(s) && QueueOk(s) && At(s, r, Gate)
    ensures QueueOk(GateTry(s, r))
  {
    if s.rip == None {
      hide Safe;
      var s' := GateTry(s, r);
      assert forall q :: !Picked(s', q) && !Picked(s, q);
    } else {
      GoQueue(s, r, PreSleep);
    }
  }

  lemma ReturnQueue(s: State, r: nat)
    requires Safe(s) && QueueOk(s) && At(s, r, Back)
    ensures QueueOk(Return(s, r))
  {
    var s' := Return(s, r);
    assert forall q :: Picked(s', q) <==> Picked(s, q);
  }

  lemma TakeTagQueue(s: State, r: nat, b: bool)
    requires Safe(s) && QueueOk(s) && At(s, r, FlushTag(b))
    ensures QueueOk(TakeTag(s, r, b))
  {
    var s' := TakeTag(s, r, b);
    assert forall q :: Picked(s', q) <==> Picked(s, q);
  }

  lemma ReceiveQueue(s: State, r: nat, m: Msg)
    requires Safe(s) && QueueOk(s) && At(s, r, Reading)
    ensures QueueOk(Receive(s, r, m))
  {
    var s' := Receive(s, r, m);
    assert forall q :: Picked(s', q) <==> Picked(s, q);
  }

  lemma WithoutIs(q: seq<nat>, i: nat)
    requires NoDup(q) && i < |q|
    ensures NoDup(Without(q, i)) && forall x :: x in Without(q, i) <==> x in q && x != q[i]
  {
    var q' := Without(q, i);
    forall x | x in q && x != q[i] ensures x in q' {
      var j :| 0 <= j < |q| && q[j] == x;
      assert q'[if j < i then j else j - 1] == x;
    }
  }

  lemma RouteQueue(s: State, r: nat)
    requires Safe(s) && QueueOk(s) && At(s, r, Muxing)
    ensures QueueOk(Route(s, r))
  {
    hide First;
    var i := First(s.queue, s.rpcs, s.rpcs[r].reply.tag);
    assert s.rip == Some(r);
    assert forall q :: !Picked(s, q);
    if i == |s.queue| {
      GoQueue(s, r, Reading);
    } else {
      WithoutIs(s.queue, i);
      RouteOne(s, r, s.queue[i], Without(s.queue, i));
    }
  }

  lemma RouteOne(s: State, r: nat, q: nat, queue: seq<nat>)
    requires Safe(s) && QueueOk(s) && At(s, r, Muxing) && q in s.queue && s.rip == Some(r) && forall p :: !Picked(s, p)
    requires NoDup(queue) && forall x :: x in queue <==> x in s.queue && x != q
    ensures var s1 := s.(queue := queue);
            QueueOk(if q == r then Put(s1, r, s.rpcs[r].(pc := Reading, done := true, got := true)) else Go(s1, r, Delivering(q)))
  {
    hide Safe;
    if q == r { OwnQueue(s, r, queue); } else { PickQueue(s, r, q, queue); }
  }

  lemma OwnQueue(s: State, r: nat, queue: seq<nat>)
    requires QueueOk(s) && At(s, r, Muxing) && r in s.queue && s.rip == Some(r) && forall p :: !Picked(s, p)
    requires NoDup(queue) && forall x :: x in queue <==> x in s.queue && x != r
    ensures QueueOk(Put(s.(queue := queue), r, s.rpcs[r].(pc := Reading, done := true, got := true)))
  {
    var s' := Put(s.(queue := queue), r, s.rpcs[r].(pc := Reading, done := true, got := true));
    assert forall p :: !Picked(s', p);
  }

  lemma PickQueue(s: State, r: nat, q: nat, queue: seq<nat>)
    requires QueueOk(s) && At(s, r, Muxing) && q in s.queue && q != r && s.rip == Some(r) && forall p :: !Picked(s, p)
    requires NoDup(queue) && forall x :: x in queue <==> x in s.queue && x != q
    ensures QueueOk(Go(s.(queue := queue), r, Delivering(q)))
  {
    var s' := Go(s.(queue := queue), r, Delivering(q));
    assert forall p :: Picked(s', p) <==> p == q;
  }

  lemma DeliverQueue(s: State, r: nat, q: nat)
    requires Safe(s) && QueueOk(s) && At(s, r, Delivering(q)) && q in s.rpcs
    ensures QueueOk(Deliver(s, r, q))
  {
    assert s.rip == Some(r) && Carried(s, r);
    hide Safe, QueueOk;
    DeliveredQueue(s, Deliver(s, r, q), r, q);
  }

  lemma DeliveredQueue(s: State, s': State, r: nat, q: nat)
    requires QueueOk(s) && s.rip == Some(r) && r in s.rpcs && s.rpcs[r].pc == Delivering(q) && q in s.rpcs && q != r
    requires s'.queue == s.queue && s'.rip == s.rip && s'.rpcs.Keys == s.rpcs.Keys
    requires forall p | p in s.rpcs && p != r && p != q :: s'.rpcs[p] == s.rpcs[p]
    requires s'.rpcs[r].pc == Waking(q) && s'.rpcs[r].done == s.rpcs[r].done
    requires s'.rpcs[q].done && s'.rpcs[q].pc == s.rpcs[q].pc
    ensures QueueOk(s')
  {
    assert forall p :: Picked(s, p) <==> p == q;
    assert forall p :: !Picked(s', p);
  }

  lemma WakeQueue(s: State, r: nat, q: nat, pc: Pc)
    requires Safe(s) && QueueOk(s) && q in s.rpcs &&
        ((At(s, r, Waking(q)) && pc == Reading) || (At(s, r, GateWaking(q)) && pc == Out))
    ensures QueueOk(Wake(s, r, q, pc))
  {
    GateDone(s, r);
    var s1 := if s.rpcs[q].pc == Parked then Go(s, q, Back) else s;
    RiseQueue(s, q);
    assert s1.rpcs[r] == s.rpcs[r];
    hide QueueOk, Safe;
    if pc == Reading { GoQueue(s1, r, Reading); } else { LeaveQueue(s1, r); }
  }

  /** A caller asleep gets up. */
  lemma RiseQueue(s: State, q: nat)
    requires Safe(s) && QueueOk(s) && q in s.rpcs
    ensures var s1 := if s.rpcs[q].pc == Parked then Go(s, q, Back) else s; QueueOk(s1) && Safe(s1)
  {
    hide QueueOk, Safe;
    if s.rpcs[q].pc == Parked {
      GoQueue(s, q, Back);
      QuietSafe(s, q, Back);
    }
  }

  lemma GateDone(s: State, r: nat)
    requires QueueOk(s) && r in s.rpcs
    ensures s.rpcs[r].pc.Gating? || s.rpcs[r].pc.GateWaking? ==> s.rpcs[r].done
  {}

  /** A caller whose call is complete leaves. */
  lemma LeaveQueue(s: State, r: nat)
    requires Safe(s) && QueueOk(s) && r in s.rpcs && s.rpcs[r].done && s.rpcs[r].pc != Out && !Reads(s.rpcs[r].pc)
    ensures QueueOk(Go(s, r, Out))
  {
    var s' := Go(s, r, Out);
    assert forall p :: Picked(s', p) <==> Picked(s, p);
  }

  lemma OpenQueue(s: State, r: nat)
    requires Safe(s) && QueueOk(s) && At(s, r, Reading) && s.rpcs[r].done
    ensures QueueOk(Open(s, r))
  {
    var s' := Open(s, r);
    assert s.rip == Some(r);
    assert forall p :: !Picked(s, p) && !Picked(s', p);
  }

  lemma LookQueue(s: State, r: nat, rest: seq<nat>)
    requires Safe(s) && QueueOk(s) && At(s, r, Gating(rest))
    ensures QueueOk(Look(s, r, rest))
  {
    if rest == [] { LeaveQueue(s, r); }
    else if rest[0] in s.rpcs && !s.rpcs[rest[0]].done && s.rpcs[rest[0]].pc == Parked {
      GoQueue(s, r, GateWaking(rest[0]));
    }
    else { GoQueue(s, r, Gating(rest[1..])); }
  }

  // --- the steps keep somebody awake ---

  lemma StartAwake(s: State, r: nat)
    requires Inv(s) && At(s, r, Out)
    ensures Owed(Start(s, r)) && Awake(Start(s, r))
  {
    assert ActiveAt(Start(s, r), r);
  }

  lemma ConvertAwake(s: State, r: nat, m: Msg)
    requires Inv(s) && At(s, r, Converting)
    ensures Owed(Convert(s, r, m)) && Awake(Convert(s, r, m))
  {
    assert ActiveAt(Convert(s, r, m), r);
  }

  /** A caller goes, or stays, on its way to the gate. */
  lemma ActiveAwake(s: State, r: nat, pc: Pc)
    requires Inv(s) && r in s.rpcs && !Reads(s.rpcs[r].pc) && Active(s.rpcs[r].(pc := pc))
    ensures Owed(Go(s, r, pc)) && Awake(Go(s, r, pc))
  {
    assert ActiveAt(Go(s, r, pc), r);
  }

  /** Whoever reads goes on reading. */
  lemma ReaderAwake(s: State, s': State, r: nat)
    requires Inv(s) && s'.rip.Some? && s.rip == s'.rip && r in s.rpcs && Reads(s.rpcs[r].pc) && !s.rpcs[r].pc.Waking?
    requires forall q | q in s'.rpcs && q != r :: q in s.rpcs && s'.rpcs[q] == s.rpcs[q]
    requires r in s'.rpcs && s'.rpcs[r].pc != Parked
    ensures Owed(s') && Awake(s')
  {}

  /** A caller that was neither asleep nor on its way to the gate, nor had anyone to wake, moves. */
  lemma OthersAwake(s: State, s': State, r: nat)
    requires Inv(s) && s'.rip == s.rip && r in s'.rpcs && s'.rpcs[r].pc != Parked
    requires r in s.rpcs ==> !Active(s.rpcs[r]) && !Reads(s.rpcs[r].pc) && s.rpcs[r].pc != Parked
    requires r in s.rpcs ==> !s.rpcs[r].pc.Gating? && !s.rpcs[r].pc.GateWaking?
    requires forall q | q != r :: q in s'.rpcs <==> q in s.rpcs
    requires forall q | q in s.rpcs && q in s'.rpcs && q != r :: s'.rpcs[q] == s.rpcs[q]
    ensures Owed(s') && Awake(s')
  {
    hide Safe, QueueOk;
    assert forall q :: Stuck(s', q) ==> Stuck(s, q);
    if s'.rip == None && exists q :: Stuck(s', q) {
      if a :| ActiveAt(s, a) { assert ActiveAt(s', a); }
      else if g, q :| Looking(s, g, q) { assert Looking(s', g, q); }
      else { var g, q :| WakingUp(s, g, q); assert WakingUp(s', g, q); }
    }
  }

  lemma AllocAwake(s: State, r: nat, x: Rpc)
    requires Inv(s) && Fresh(s, r, x)
    ensures Owed(Alloc(s, r, x)) && Awake(Alloc(s, r, x))
  {
    OthersAwake(s, Alloc(s, r, x), r);
  }

  lemma ReadErrorAwake(s: State, r: nat)
    requires Inv(s) && At(s, r, Reading)
    ensures Owed(Go(s, r, FlushTag(true))) && Awake(Go(s, r, FlushTag(true)))
  {
    ReaderAwake(s, Go(s, r, FlushTag(true)), r);
  }

  lemma ReceiveAwake(s: State, r: nat, m: Msg)
    requires Inv(s) && At(s, r, Reading)
    ensures Owed(Receive(s, r, m)) && Awake(Receive(s, r, m))
  {
    ReaderAwake(s, Receive(s, r, m), r);
  }

  lemma SleepTryAwake(s: State, r: nat)
    requires Inv(s) && At(s, r, PreSleep)
    ensures Owed(SleepTry(s, r)) && Awake(SleepTry(s, r))
  {
    var s' := SleepTry(s, r);
    if s.rpcs[r].done { OthersAwake(s, s', r); }
    else if s.rip == None { ActiveAwake(s, r, Back); }
  }

  lemma ReturnAwake(s: State, r: nat)
    requires Inv(s) && At(s, r, Back)
    ensures Owed(Return(s, r)) && Awake(Return(s, r))
  {
    if s.rpcs[r].done { OthersAwake(s, Return(s, r), r); } else { ActiveAwake(s, r, Gate); }
  }

  lemma RouteAwake(s: State, r: nat)
    requires Inv(s) && At(s, r, Muxing)
    ensures Owed(Route(s, r)) && Awake(Route(s, r))
  {
    ReaderAwake(s, Route(s, r), r);
  }

  lemma GateTryAwake(s: State, r: nat)
    requires Inv(s) && At(s, r, Gate)
    ensures Owed(GateTry(s, r)) && Awake(GateTry(s, r))
  {}

  lemma TakeTagAwake(s: State, r: nat, b: bool)
    requires Inv(s) && At(s, r, FlushTag(b))
    ensures Owed(TakeTag(s, r, b)) && Awake(TakeTag(s, r, b))
  {
    var s' := TakeTag(s, r, b);
    if b { ReaderAwake(s, s', r); } else { assert ActiveAt(s', r); }
  }

  lemma DeliverAwake(s: State, r: nat, q: nat)
    requires Inv(s) && At(s, r, Delivering(q)) && q in s.rpcs
    ensures Owed(Deliver(s, r, q)) && Awake(Deliver(s, r, q))
  {
    assert s.rip == Some(r) && Carried(s, r);
  }

  lemma WakingAwake(s: State, r: nat, q: nat)
    requires Inv(s) && At(s, r, Waking(q)) && q in s.rpcs
    ensures Owed(Wake(s, r, q, Reading)) && Awake(Wake(s, r, q, Reading))
  {
    assert s.rip == Some(r);
  }

  lemma OpenAwake(s: State, r: nat)
    requires Inv(s) && At(s, r, Reading) && s.rpcs[r].done
    ensures Owed(Open(s, r)) && Awake(Open(s, r))
  {
    var s' := Open(s, r);
    assert s.rip == Some(r);
    if q :| Stuck(s', q) {
      assert Stuck(s, q);
      assert !Picked(s, q);
      assert q in s.queue;
      assert Looking(s', r, q);
    }
  }

  /** r, which is awake, moves on; whoever else was on its way, or was about to wake somebody, still is. */
  lemma WitnessKept(s: State, s': State, r: nat)
    requires Inv(s) && s'.rip == s.rip && r in s.rpcs && r in s'.rpcs && s'.rpcs.Keys == s.rpcs.Keys
    requires !Active(s.rpcs[r]) && s.rpcs[r].pc != Parked && s'.rpcs[r].pc != Parked && !Reads(s.rpcs[r].pc)
    requires forall q | q in s.rpcs && q in s'.rpcs && q != r :: s'.rpcs[q] == s.rpcs[q]
    requires s'.rip == None && (exists q :: Stuck(s', q)) && (exists g, q :: Looking(s, g, q) && g == r) ==>
        (exists g, q :: Looking(s', g, q)) || (exists g, q :: WakingUp(s', g, q))
    requires forall q :: !WakingUp(s, r, q)
    ensures Owed(s') && Awake(s')
  {
    hide Safe, QueueOk, Awake;
    WitnessAwake(s, s', r);
  }

  lemma WitnessAwake(s: State, s': State, r: nat)
    requires Inv(s) && s'.rip == s.rip && r in s.rpcs && r in s'.rpcs && s'.rpcs.Keys == s.rpcs.Keys
    requires !Active(s.rpcs[r]) && s.rpcs[r].pc != Parked && s'.rpcs[r].pc != Parked && !Reads(s.rpcs[r].pc)
    requires forall q | q in s.rpcs && q in s'.rpcs && q != r :: s'.rpcs[q] == s.rpcs[q]
    requires s'.rip == None && (exists q :: Stuck(s', q)) && (exists g, q :: Looking(s, g, q) && g == r) ==>
        (exists g, q :: Looking(s', g, q)) || (exists g, q :: WakingUp(s', g, q))
    requires forall q :: !WakingUp(s, r, q)
    ensures Awake(s')
  {
    hide Safe, QueueOk, Owed;
    forall q | Stuck(s', q) ensures Stuck(s, q) {}
    if s'.rip == None && exists q :: Stuck(s', q) {
      if a :| ActiveAt(s, a) { assert ActiveAt(s', a); }
      else if g, q :| Looking(s, g, q) { if g != r { assert Looking(s', g, q); } }
      else { var g, q :| WakingUp(s, g, q); assert WakingUp(s', g, q); }
    }
  }

  lemma LookAwake(s: State, r: nat, rest: seq<nat>)
    requires Inv(s) && At(s, r, Gating(rest))
    ensures Owed(Look(s, r, rest)) && Awake(Look(s, r, rest))
  {
    hide Inv, Owed, Awake;
    var s' := Look(s, r, rest);
    if g, q :| Looking(s, g, q) && g == r {
      if rest[0] in s.rpcs && !s.rpcs[rest[0]].done && s.rpcs[rest[0]].pc == Parked { assert WakingUp(s', r, rest[0]); }
      else {
        assert q in rest[1..];
        assert Looking(s', r, q);
      }
    }
    WitnessKept(s, s', r);
  }

  lemma GateWakingAwake(s: State, r: nat, q: nat)
    requires Inv(s) && At(s, r, GateWaking(q)) && q in s.rpcs
    ensures Owed(Wake(s, r, q, Out)) && Awake(Wake(s, r, q, Out))
  {
    if s.rpcs[q].pc == Parked { GateWakes(s, r, q); } else { WitnessKept(s, Go(s, r, Out), r); }
  }

  lemma GateWakes(s: State, r: nat, q: nat)
    requires Inv(s) && At(s, r, GateWaking(q)) && At(s, q, Parked)
    ensures Owed(Wake(s, r, q, Out)) && Awake(Wake(s, r, q, Out))
  {
    hide Safe, QueueOk;
    var s' := Wake(s, r, q, Out);
    assert s'.rpcs[q] == s.rpcs[q].(pc := Back);
    if s.rip == None { assert ActiveAt(s', q); }
  }

  // --- every step, every run ---

  lemma SleepTrySafe(s: State, r: nat)
    requires Safe(s) && At(s, r, PreSleep)
    ensures Safe(SleepTry(s, r))
  {
    QuietSafe(s, r, if s.rpcs[r].done || s.rip == None then Back else Parked);
  }

  lemma SleepTryQueue(s: State, r: nat)
    requires Safe(s) && QueueOk(s) && At(s, r, PreSleep)
    ensures QueueOk(SleepTry(s, r))
  {
    GoQueue(s, r, if s.rpcs[r].done || s.rip == None then Back else Parked);
  }

  lemma ReturnSafe(s: State, r: nat)
    requires Safe(s) && At(s, r, Back)
    ensures Safe(Return(s, r))
  {
    QuietSafe(s, r, if s.rpcs[r].done then Out else Gate);
  }

  lemma FlushedSafe(s: State, r: nat, b: bool)
    requires Safe(s) && At(s, r, FlushWrite(b))
    ensures Safe(Go(s, r, if b then Reading else Gate))
  {
    if b { ReaderSafe(s, r, Reading); } else { QuietSafe(s, r, Gate); }
  }

  lemma FlushedRest(s: State, r: nat, reader: bool)
    requires Inv(s) && At(s, r, FlushWrite(reader))
    ensures var s' := Go(s, r, if reader then Reading else Gate); QueueOk(s') && Owed(s') && Awake(s')
  {
    GoQueue(s, r, if reader then Reading else Gate);
    if reader { ReaderAwake(s, Go(s, r, Reading), r); } else { ActiveAwake(s, r, Gate); }
  }

  // --- a flush that fails ---

  lemma {:induction false} RemoveIs(q: seq<nat>, r: nat)
    requires NoDup(q)
    ensures NoDup(Remove(q, r)) && forall x :: x in Remove(q, r) <==> x in q && x != r
  {
    if q != [] {
      RemoveIs(q[1..], r);
      assert forall x :: x in q <==> x == q[0] || x in q[1..];
      assert q[0] !in q[1..];
    }
  }

  lemma FlushFailQueue(s: State, r: nat, reader: bool)
    requires Safe(s) && QueueOk(s) && At(s, r, FlushWrite(reader)) && !Picked(s, r)
    ensures QueueOk(FlushFail(s, r, reader))
  {
    hide Remove;
    RemoveIs(s.queue, r);
    var s' := FlushFail(s, r, reader);
    if reader {
      assert s.rip == Some(r);
      assert forall q :: !Picked(s', q) && !Picked(s, q);
    } else {
      assert s.rip != Some(r);
      assert forall q :: Picked(s', q) <==> Picked(s, q);
    }
  }

  /** A reader that gives up opens the gate first. */
  lemma ReaderFailAwake(s: State, r: nat)
    requires Inv(s) && At(s, r, FlushWrite(true))
    ensures Owed(FlushFail(s, r, true)) && Awake(FlushFail(s, r, true))
  {
    hide Remove;
    RemoveIs(s.queue, r);
    var s' := FlushFail(s, r, true);
    assert s.rip == Some(r);
    if q :| Stuck(s', q) {
      assert Stuck(s, q) && !Picked(s, q) && q in s.queue;
      assert Looking(s', r, q);
    }
  }

  /** A waiting caller that gives up leaves nobody awake exactly when it strands a sleeper. */
  lemma FlushFailExact(s: State, r: nat)
    requires At(s, r, FlushWrite(false)) && Unlocked(s)
    ensures !Awake(FlushFail(s, r, false)) <==> Strands(s, r)
  {
    var s' := FlushFail(s, r, false);
    forall q ensures Stuck(s', q) <==> Stuck(s, q) {}
    forall g, q ensures !Looking(s, g, q) && !Looking(s', g, q) {}
    forall g, q ensures WakingUp(s', g, q) <==> WakingUp(s, g, q) {}
    forall a ensures ActiveAt(s', a) <==> ActiveAt(s, a) && a != r {}
  }

  /** A flush that fails lets a call go that is about to be completed exactly when the reader has picked its own. */
  lemma FlushFailLate(s: State, r: nat, reader: bool)
    requires OneReader(s) && QueueOk(s) && Enabled(s, DoFlushFail(r, reader))
    ensures var s' := FlushFail(s, r, reader);
      (exists p :: p in s'.rpcs && Picked(s', p) && s'.rpcs[p].pc == Out) <==> Picked(s, r)
  {
    hide Remove;
    var s' := FlushFail(s, r, reader);
    if Picked(s, r) { assert Picked(s', r) && s'.rpcs[r].pc == Out; }
    forall p | p in s'.rpcs && Picked(s', p) && s'.rpcs[p].pc == Out ensures p == r && Picked(s, r) {
      assert Picked(s, p);
    }
  }

  lemma FlushFailRest(s: State, r: nat, reader: bool)
    requires Inv(s) && Enabled(s, DoFlushFail(r, reader)) && Harmless(s, DoFlushFail(r, reader))
    ensures var s' := FlushFail(s, r, reader); QueueOk(s') && Owed(s') && Awake(s')
  {
    FlushFailQueue(s, r, reader);
    if reader {
      ReaderFailAwake(s, r);
    } else {
      FlushFailExact(s, r);
      assert s.rip != Some(r);
    }
  }

  lemma ApplySafe(s: State, e: Step)
    requires Safe(s) && Enabled(s, e)
    ensures Safe(Apply(s, e))
  {
    hide Safe, QueueOk, Owed, Awake, Alloc, Start, Convert, GateTry, SleepTry, Return, TakeTag, Receive, Route,
        Deliver, Wake, Open, Look, FlushFail, Fresh, Unlocked;
    match e
    case DoAlloc(r, x) => AllocSafe(s, r, x);
    case DoStart(r) => StartSafe(s, r);
    case DoConvert(r, m) => ConvertSafe(s, r, m);
    case DoSent(r) => QuietSafe(s, r, Gate);
    case DoSendError(r) => QuietSafe(s, r, FlushTag(false));
    case DoGate(r) => GateTrySafe(s, r);
    case DoSleep(r) => SleepTrySafe(s, r);
    case DoReturn(r) => ReturnSafe(s, r);
    case DoInterrupt(r) => QuietSafe(s, r, FlushTag(false));
    case DoReadError(r) => ReaderSafe(s, r, FlushTag(true));
    case DoTakeTag(r, reader) => TakeTagSafe(s, r, reader);
    case DoFlushed(r, reader) => FlushedSafe(s, r, reader);
    case DoReceive(r, m) => ReceiveSafe(s, r, m);
    case DoRoute(r) => RouteSafe(s, r);
    case DoDeliver(r, q) => DeliverSafe(s, r, q);
    case DoWake(r, q) => WakeSafe(s, r, q, Reading);
    case DoOpen(r) => OpenSafe(s, r);
    case DoLook(r, rest) => LookSafe(s, r, rest);
    case DoGateWake(r, q) => WakeSafe(s, r, q, Out);
    case DoFlushFail(r, reader) => FlushFailSafe(s, r, reader);
  }

  lemma ApplyRest(s: State, e: Step)
    requires Inv(s) && Enabled(s, e) && Harmless(s, e)
    ensures QueueOk(Apply(s, e)) && Owed(Apply(s, e)) && Awake(Apply(s, e))
  {
    hide Harmless, QueueOk, Owed, Awake, OneReader, Separate, DataOk, Alloc, Start, Convert, GateTry, SleepTry,
        Return, TakeTag, Receive, Route, Deliver, Wake, Open, Look, FlushFail, Fresh, Unlocked;
    match e
    case DoAlloc(r, x) => AllocQueue(s, r, x); AllocAwake(s, r, x);
    case DoStart(r) => StartQueue(s, r); StartAwake(s, r);
    case DoConvert(r, m) => ConvertQueue(s, r, m); ConvertAwake(s, r, m);
    case DoSent(r) => GoQueue(s, r, Gate); ActiveAwake(s, r, Gate);
    case DoSendError(r) => GoQueue(s, r, FlushTag(false)); ActiveAwake(s, r, FlushTag(false));
    case DoGate(r) => GateTryQueue(s, r); GateTryAwake(s, r);
    case DoSleep(r) => SleepTryQueue(s, r); SleepTryAwake(s, r);
    case DoReturn(r) => ReturnQueue(s, r); ReturnAwake(s, r);
    case DoInterrupt(r) => GoQueue(s, r, FlushTag(false)); ActiveAwake(s, r, FlushTag(false));
    case DoReadError(r) => GoQueue(s, r, FlushTag(true)); ReadErrorAwake(s, r);
    case DoTakeTag(r, reader) => TakeTagQueue(s, r, reader); TakeTagAwake(s, r, reader);
    case DoFlushed(r, reader) => FlushedRest(s, r, reader);
    case DoReceive(r, m) => ReceiveQueue(s, r, m); ReceiveAwake(s, r, m);
    case DoRoute(r) => RouteQueue(s, r); RouteAwake(s, r);
    case DoDeliver(r, q) => DeliverQueue(s, r, q); DeliverAwake(s, r, q);
    case DoWake(r, q) => WakeQueue(s, r, q, Reading); WakingAwake(s, r, q);
    case DoOpen(r) => OpenQueue(s, r); OpenAwake(s, r);
    case DoLook(r, rest) => LookQueue(s, r, rest); LookAwake(s, r, rest);
    case DoGateWake(r, q) => WakeQueue(s, r, q, Out); GateWakingAwake(s, r, q);
    case DoFlushFail(r, reader) => FlushFailRest(s, r, reader);
  }

  lemma StepSafe(s: State, s': State)
    requires Safe(s) && Next(s, s')
    ensures Safe(s')
  {
    hide Safe, Enabled, Apply;
    var e :| Enabled(s, e) && s' == Apply(s, e);
    ApplySafe(s, e);
  }

  lemma StepInv(s: State, s': State)
    requires Inv(s) && NextOk(s, s')
    ensures Inv(s')
  {
    hide Safe, QueueOk, Owed, Awake, Enabled, Apply, Harmless;
    var e :| Enabled(s, e) && Harmless(s, e) && s' == Apply(s, e);
    ApplySafe(s, e);
    ApplyRest(s, e);
  }

  ghost predicate Run(t: seq<State>) {
    && |t| > 0 && Init(t[0])
    && forall i | 0 <= i < |t| - 1 :: Next(t[i], t[i + 1])
  }

  ghost predicate RunOk(t: seq<State>) {
    && |t| > 0 && Init(t[0])
    && forall i | 0 <= i < |t| - 1 :: NextOk(t[i], t[i + 1])
  }

  lemma {:induction false} RunSafe(t: seq<State>, i: nat)
    requires Run(t) && i < |t|
    ensures Safe(t[i])
  {
    hide Safe, Next;
    if i == 0 { InitSafe(t[0]); }
    else {
      RunSafe(t, i - 1);
      assert Next(t[i - 1], t[i - 1 + 1]);
      StepSafe(t[i - 1], t[i]);
    }
  }

  lemma InitSafe(s: State)
    requires Init(s)
    ensures Safe(s)
  {}

  lemma {:induction false} RunInv(t: seq<State>, i: nat)
    requires RunOk(t) && i < |t|
    ensures Inv(t[i])
  {
    hide Inv, NextOk;
    if i == 0 { InitInv(t[0]); }
    else {
      RunInv(t, i - 1);
      assert NextOk(t[i - 1], t[i - 1 + 1]);
      StepInv(t[i - 1], t[i]);
    }
  }

  // --- what it comes to ---

  /** In every run, failing flushes included, one caller at most reads for all, and the gate is shut while it does. */
  lemma OneReaderAtATime(t: seq<State>, i: nat, r: nat, q: nat)
    requires Run(t) && i < |t| && r in t[i].rpcs && q in t[i].rpcs && Reads(t[i].rpcs[r].pc) && Reads(t[i].rpcs[q].pc)
    ensures r == q && t[i].rip == Some(r)
  {
    RunSafe(t, i);
  }

  /**
   * In every run buffers are never shared, and a completed call has the reply for its tag, its data in its own
   * buffer.
   */
  lemma RepliesReachTheirCallers(t: seq<State>, i: nat, r: nat)
    requires Run(t) && i < |t| && r in t[i].rpcs
    ensures forall q | q in t[i].rpcs && q != r :: t[i].rpcs[q].buf != t[i].rpcs[r].buf
    ensures var x := t[i].rpcs[r]; x.got && x.reply.tag < TAGFLS ==> x.reply.tag == x.tag
    ensures var x := t[i].rpcs[r]; x.got && !x.early ==> x.buf in t[i].bufs && t[i].bufs[x.buf] == x.reply
  {
    RunSafe(t, i);
    assert Completed(t[i], r);
  }

  // --- which call a reply completes ---

  /** From k to i the caller r begins no call. */
  ghost predicate SameCall(t: seq<State>, k: nat, i: nat, r: nat)
    requires k <= i < |t|
  {
    forall j | k <= j < i :: !(At(t[j], r, Out) && At(t[j + 1], r, Converting))
  }

  /** At k, no call of r before i, mountmux could take r off the queue for this tag. */
  ghost predicate MatchedAt(t: seq<State>, k: nat, i: nat, r: nat, tag: nat)
    requires i < |t|
  {
    k < i && r in t[k].queue && r in t[k].rpcs && Matches(t[k].rpcs[r], tag) && SameCall(t, k, i, r)
  }

  ghost predicate Matched(t: seq<State>, i: nat, r: nat, tag: nat)
    requires i < |t|
  {
    exists k: nat :: MatchedAt(t, k, i, r, tag)
  }

  /** A completed call, and one about to be completed, bore the tag of the reply while it was on the queue. */
  ghost predicate Answered(t: seq<State>, i: nat, r: nat)
    requires i < |t| && r in t[i].rpcs
  {
    var x := t[i].rpcs[r];
    (x.got ==> Matched(t, i, r, x.reply.tag)) && (x.pc.Delivering? ==> Matched(t, i, x.pc.to, x.reply.tag))
  }

  /** The call whose reply a step may change. */
  ghost function Changing(e: Step): Option<nat> {
    match e
    case DoAlloc(r, _) => Some(r)
    case DoStart(r) => Some(r)
    case DoReceive(r, _) => Some(r)
    case DoRoute(r) => Some(r)
    case DoDeliver(_, q) => Some(q)
    case _ => None
  }

  lemma OthersReply(s: State, e: Step, p: nat)
    requires Enabled(s, e) && p in Apply(s, e).rpcs && Changing(e) != Some(p)
    ensures p in s.rpcs
    ensures var x, y := s.rpcs[p], Apply(s, e).rpcs[p];
      && y.got == x.got && y.reply == x.reply && (y.pc.Delivering? ==> y.pc == x.pc)
      && !(x.pc == Out && y.pc == Converting)
  {
    OthersKeep(s, e, p);
    hide Enabled, Apply;
    if At(s, p, Out) && At(Apply(s, e), p, Converting) { OnlyStartBegins(s, e, p); }
  }

  lemma OthersKeep(s: State, e: Step, p: nat)
    requires Enabled(s, e) && p in Apply(s, e).rpcs && Changing(e) != Some(p)
    ensures p in s.rpcs
    ensures var x, y := s.rpcs[p], Apply(s, e).rpcs[p];
      y.got == x.got && y.reply == x.reply && (y.pc.Delivering? ==> y.pc == x.pc)
  {
    hide Enabled, Apply;
    if ForAnother(e) { OthersKeepTwo(s, e, p); } else { OthersKeepOne(s, e, p); }
  }

  /** The steps that change two rpcs. */
  ghost predicate ForAnother(e: Step) { e.DoDeliver? || e.DoWake? || e.DoGateWake? }

  lemma OthersKeepOne(s: State, e: Step, p: nat)
    requires Enabled(s, e) && p in Apply(s, e).rpcs && Changing(e) != Some(p) && !ForAnother(e)
    ensures p in s.rpcs
    ensures var x, y := s.rpcs[p], Apply(s, e).rpcs[p];
      y.got == x.got && y.reply == x.reply && (y.pc.Delivering? ==> y.pc == x.pc)
  {
    hide Fresh, Unlocked, Remove, First;
  }

  lemma OthersKeepTwo(s: State, e: Step, p: nat)
    requires Enabled(s, e) && p in Apply(s, e).rpcs && Changing(e) != Some(p) && ForAnother(e)
    ensures p in s.rpcs
    ensures var x, y := s.rpcs[p], Apply(s, e).rpcs[p];
      y.got == x.got && y.reply == x.reply && (y.pc.Delivering? ==> y.pc == x.pc)
  {}

  lemma OnlyStartBegins(s: State, e: Step, p: nat)
    requires Enabled(s, e) && At(s, p, Out) && At(Apply(s, e), p, Converting)
    ensures e == DoStart(p)
  {
    hide Unlocked, Remove, First;
  }

  lemma AllocBlank(s: State, r: nat, x: Rpc)
    requires Enabled(s, DoAlloc(r, x))
    ensures var y := Apply(s, DoAlloc(r, x)).rpcs[r]; !y.got && !y.pc.Delivering?
  {}

  lemma StartsBlank(s: State, r: nat)
    requires Enabled(s, DoStart(r))
    ensures var y := Apply(s, DoStart(r)).rpcs[r]; !y.got && !y.pc.Delivering?
  {}

  lemma ReceivedReply(s: State, r: nat, m: Msg)
    requires Safe(s) && Enabled(s, DoReceive(r, m))
    ensures var y := Apply(s, DoReceive(r, m)).rpcs[r]; !y.got && !y.pc.Delivering?
  {
    assert Completed(s, r);
  }

  lemma RoutedReply(s: State, r: nat)
    requires Enabled(s, DoRoute(r))
    ensures var x, y := s.rpcs[r], Apply(s, DoRoute(r)).rpcs[r];
      && y.reply == x.reply && x.pc == Muxing && y.pc != Converting
      && (y.got && !x.got ==> r in s.queue && Matches(x, y.reply.tag))
      && (y.pc.Delivering? ==> y.pc.to in s.queue && y.pc.to in s.rpcs && Matches(s.rpcs[y.pc.to], y.reply.tag))
  {
    hide Matches;
  }

  lemma DeliveredReply(s: State, r: nat, q: nat)
    requires Safe(s) && Enabled(s, DoDeliver(r, q))
    ensures var y := Apply(s, DoDeliver(r, q)).rpcs[q];
      r in s.rpcs && s.rpcs[r].pc == Delivering(q) && s.rpcs[r].reply == y.reply && !y.pc.Delivering?
  {
    assert Carried(s, r);
  }

  /** Where the reply of a completed call, or of one about to be completed, was a step before. */
  lemma ReplyBefore(s: State, e: Step, p: nat)
    requires Safe(s) && QueueOk(s) && Enabled(s, e) && p in Apply(s, e).rpcs
    ensures var y := Apply(s, e).rpcs[p];
      y.got ==>
        || (p in s.rpcs && s.rpcs[p].got && s.rpcs[p].reply == y.reply && !(s.rpcs[p].pc == Out && y.pc == Converting))
        || (exists g :: g in s.rpcs && s.rpcs[g].pc == Delivering(p) && s.rpcs[g].reply == y.reply)
        || (p in s.queue && p in s.rpcs && Matches(s.rpcs[p], y.reply.tag))
    ensures var y := Apply(s, e).rpcs[p];
      y.pc.Delivering? ==>
        || (p in s.rpcs && s.rpcs[p].pc == y.pc && s.rpcs[p].reply == y.reply)
        || (y.pc.to in s.queue && y.pc.to in s.rpcs && Matches(s.rpcs[y.pc.to], y.reply.tag))
  {
    hide QueueOk, Safe, Apply, Matches, First;
    match e
    case DoAlloc(r, x) => if p != r { OthersReply(s, e, p); } else { AllocBlank(s, r, x); }
    case DoStart(r) => if p != r { OthersReply(s, e, p); } else { StartsBlank(s, r); }
    case DoReceive(r, m) => if p != r { OthersReply(s, e, p); } else { ReceivedReply(s, r, m); }
    case DoRoute(r) => if p != r { OthersReply(s, e, p); } else { RoutedReply(s, r); }
    case DoDeliver(r, q) => if p != q { OthersReply(s, e, p); } else { DeliveredReply(s, r, q); }
    case _ => OthersReply(s, e, p);
  }

  /** A call about to be completed does not begin. */
  lemma PickedBegins(s: State, e: Step, p: nat)
    requires QueueOk(s) && Enabled(s, e) && At(s, p, Out) && At(Apply(s, e), p, Converting)
    ensures !Picked(s, p) && p !in s.queue && !Apply(s, e).rpcs[p].got
  {
    OnlyStartBegins(s, e, p);
  }

  lemma MatchedOn(t: seq<State>, i: nat, r: nat, tag: nat)
    requires i + 1 < |t| && Matched(t, i, r, tag) && !(At(t[i], r, Out) && At(t[i + 1], r, Converting))
    ensures Matched(t, i + 1, r, tag)
  {
    hide Matches;
    var k: nat :| MatchedAt(t, k, i, r, tag);
    assert MatchedAt(t, k, i + 1, r, tag);
  }

  lemma MatchedNow(t: seq<State>, i: nat, r: nat, tag: nat)
    requires i + 1 < |t| && r in t[i].queue && r in t[i].rpcs && Matches(t[i].rpcs[r], tag)
    requires !(At(t[i], r, Out) && At(t[i + 1], r, Converting))
    ensures Matched(t, i + 1, r, tag)
  {
    hide Matches;
    assert MatchedAt(t, i, i + 1, r, tag);
  }

  lemma AnsweredStep(t: seq<State>, i: nat, p: nat)
    requires RunOk(t) && i + 1 < |t| && p in t[i + 1].rpcs && forall q | q in t[i].rpcs :: Answered(t, i, q)
    ensures Answered(t, i + 1, p)
  {
    hide Matched, Inv, Enabled, Apply, Matches, Harmless, First, Init;
    RunInv(t, i);
    assert NextOk(t[i], t[i + 1]);
    var s, s' := t[i], t[i + 1];
    var e :| Enabled(s, e) && s' == Apply(s, e);
    InvParts(s);
    ReplyBefore(s, e, p);
    var y := s'.rpcs[p];
    if At(s, p, Out) && At(s', p, Converting) { PickedBegins(s, e, p); }
    if y.got {
      if g :| g in s.rpcs && s.rpcs[g].pc == Delivering(p) && s.rpcs[g].reply == y.reply {
        MatchedOn(t, i, p, y.reply.tag);
      } else if p in s.queue && p in s.rpcs && Matches(s.rpcs[p], y.reply.tag) {
        MatchedNow(t, i, p, y.reply.tag);
      } else {
        MatchedOn(t, i, p, y.reply.tag);
      }
    }
    if y.pc.Delivering? {
      var to := y.pc.to;
      if At(s, to, Out) && At(s', to, Converting) { PickedBegins(s, e, to); }
      if p in s.rpcs && s.rpcs[p].pc == y.pc && s.rpcs[p].reply == y.reply {
        PickedBy(s, p, to);
        MatchedOn(t, i, to, y.reply.tag);
      } else {
        MatchedNow(t, i, to, y.reply.tag);
      }
    }
  }

  lemma InvParts(s: State)
    requires Inv(s)
    ensures Safe(s) && QueueOk(s)
  {}

  lemma PickedBy(s: State, p: nat, to: nat)
    requires OneReader(s) && At(s, p, Delivering(to))
    ensures Picked(s, to)
  {}

  lemma {:induction false} AllAnswered(t: seq<State>, i: nat)
    requires RunOk(t) && i < |t|
    ensures forall r | r in t[i].rpcs :: Answered(t, i, r)
  {
    if i > 0 {
      AllAnswered(t, i - 1);
      hide RunOk, Answered;
      forall r | r in t[i].rpcs ensures Answered(t, i, r) { AnsweredStep(t, i - 1, r); }
    }
  }

  /**
   * In every run where no flush fails harmfully, the reply of a completed call bears the call's own tag or the tag
   * of its flush: the call matched it while on the queue, and has not begun anew since.
   */
  lemma RepliesAnswerTheirCalls(t: seq<State>, i: nat, r: nat)
    requires RunOk(t) && i < |t| && r in t[i].rpcs && t[i].rpcs[r].got
    ensures Matched(t, i, r, t[i].rpcs[r].reply.tag)
  {
    AllAnswered(t, i);
    assert Answered(t, i, r);
  }

  // --- replies are messages read from the channel ---

  /** A run with the steps that make it. */
  ghost predicate Steps(t: seq<State>, es: seq<Step>) {
    && |t| == |es| + 1 && Init(t[0])
    && forall i | 0 <= i < |es| :: Enabled(t[i], es[i]) && t[i + 1] == Apply(t[i], es[i])
  }

  /** Every run is made by steps, and what steps make is a run. */
  lemma {:induction false} StepsOf(t: seq<State>) returns (es: seq<Step>)
    requires Run(t)
    ensures Steps(t, es)
    decreases |t|
  {
    hide Enabled, Apply, Init;
    es := [];
    if |t| > 1 {
      var t' := t[..|t| - 1];
      assert Run(t') by {
        forall i | 0 <= i < |t'| - 1 ensures Next(t'[i], t'[i + 1]) { assert Next(t[i], t[i + 1]); }
      }
      es := StepsOf(t');
      assert Next(t[|t| - 2], t[|t| - 2 + 1]);
      var e :| Enabled(t[|t| - 2], e) && t[|t| - 1] == Apply(t[|t| - 2], e);
      es := es + [e];
      forall i | 0 <= i < |es| ensures Enabled(t[i], es[i]) && t[i + 1] == Apply(t[i], es[i]) {
        if i < |t'| - 1 { assert t'[i] == t[i] && t'[i + 1] == t[i + 1]; }
      }
    }
  }

  lemma StepsRun(t: seq<State>, es: seq<Step>)
    requires Steps(t, es)
    ensures Run(t)
  {
    hide Enabled, Apply, Init;
    forall i | 0 <= i < |t| - 1 ensures Next(t[i], t[i + 1]) { assert Enabled(t[i], es[i]); }
  }

  /** The call whose reply a step hands over: the reader's own, or the one it delivers to. */
  ghost function Finishes(s: State, e: Step): Option<nat>
    requires Enabled(s, e)
  {
    match e
    case DoRoute(r) =>
      var i := First(s.queue, s.rpcs, s.rpcs[r].reply.tag);
      if i < |s.queue| && s.queue[i] == r then Some(r) else None
    case DoDeliver(_, q) => Some(q)
    case _ => None
  }

  /** The reader that takes a step. */
  ghost predicate By(e: Step, g: nat) { (e.DoRoute? || e.DoDeliver?) && e.r == g }

  /** g hands a reply over. */
  ghost predicate HandsOver(s: State, e: Step, g: nat) { By(e, g) && Enabled(s, e) && Finishes(s, e).Some? }

  /** After k and before i the caller g hands nothing over. */
  ghost predicate Unspent(t: seq<State>, es: seq<Step>, k: int, i: nat, g: nat)
    requires i <= |es| && |es| < |t|
  {
    forall j: nat | k < j < i :: !HandsOver(t[j], es[j], g)
  }

  lemma UnspentOn(t: seq<State>, es: seq<Step>, k: int, i: nat, g: nat)
    requires i < |es| && |es| < |t| && Unspent(t, es, k, i, g) && !HandsOver(t[i], es[i], g)
    ensures Unspent(t, es, k, i + 1, g)
  {
    hide HandsOver;
  }

  /** When g last read a message before time j, or -1. */
  ghost function LastRead(es: seq<Step>, j: nat, g: nat): int
    requires j <= |es|
    ensures -1 <= LastRead(es, j, g) < j
  {
    if j == 0 then -1 else if es[j - 1].DoReceive? && es[j - 1].r == g then j - 1 else LastRead(es, j - 1, g)
  }

  ghost predicate Carries(s: State, g: nat) {
    g in s.rpcs && (s.rpcs[g].pc == Muxing || s.rpcs[g].pc.Delivering?)
  }

  /** Who carries a reply has just read it, or carried it before and has not handed it over. */
  lemma CarriedStep(s: State, e: Step, g: nat)
    requires Safe(s) && Enabled(s, e) && Carries(Apply(s, e), g)
    ensures var y := Apply(s, e).rpcs[g];
      if e.DoReceive? && e.r == g then y.reply == e.m
      else Carries(s, g) && s.rpcs[g].reply == y.reply && !HandsOver(s, e, g)
  {
    hide Safe, Matches;
    match e
    case DoAlloc(r, x) => if g == r { AllocBlank(s, r, x); } else { OthersCarry(s, e, g); }
    case DoRoute(r) => if g == r { RouteCarries(s, r); } else { OthersCarry(s, e, g); }
    case DoDeliver(r, q) => DeliverSpends(s, r, q, g);
    case DoReceive(r, m) => if g != r { OthersCarry(s, e, g); }
    case _ => OthersCarry(s, e, g);
  }

  lemma OthersCarry(s: State, e: Step, g: nat)
    requires Enabled(s, e) && !By(e, g) && !(e.DoReceive? && e.r == g) && !(e.DoAlloc? && e.r == g) && !e.DoDeliver?
    requires Carries(Apply(s, e), g)
    ensures Carries(s, g) && s.rpcs[g].reply == Apply(s, e).rpcs[g].reply
  {
    hide Fresh, Unlocked, Remove, First;
  }

  lemma RouteCarries(s: State, r: nat)
    requires Enabled(s, DoRoute(r)) && Carries(Apply(s, DoRoute(r)), r)
    ensures Carries(s, r) && s.rpcs[r].reply == Apply(s, DoRoute(r)).rpcs[r].reply
    ensures Finishes(s, DoRoute(r)) == None
  {
    hide First;
  }

  /** The reader that hands a reply over was the only one with a reply. */
  lemma DeliverSpends(s: State, r: nat, q: nat, g: nat)
    requires Safe(s) && Enabled(s, DoDeliver(r, q))
    ensures !Carries(Apply(s, DoDeliver(r, q)), g)
  {
    assert Carried(s, r);
  }

  lemma StepAt(t: seq<State>, es: seq<Step>, i: nat)
    requires Steps(t, es) && i < |es|
    ensures |t| == |es| + 1 && Safe(t[i]) && Enabled(t[i], es[i]) && t[i + 1] == Apply(t[i], es[i])
  {
    StepsRun(t, es);
    RunSafe(t, i);
  }

  lemma StartsEmpty(t: seq<State>, es: seq<Step>)
    requires Steps(t, es)
    ensures t[0].rpcs == map[]
  {}

  lemma JustRead(t: seq<State>, es: seq<Step>, i: nat, g: nat)
    requires 0 < i <= |es| && |es| < |t|
    ensures Unspent(t, es, i - 1, i, g)
  {}

  /** A reply on its way is the message its reader read last, and has not been handed over since. */
  lemma {:induction false} CarriedSince(t: seq<State>, es: seq<Step>, i: nat, g: nat)
    requires Steps(t, es) && i <= |es| && Carries(t[i], g)
    ensures var k := LastRead(es, i, g);
      0 <= k < i && es[k] == DoReceive(g, t[i].rpcs[g].reply) && |es| < |t| && Unspent(t, es, k, i, g)
  {
    if i == 0 {
      StartsEmpty(t, es);
    } else {
      hide Steps, Enabled, Apply, Safe, Finishes, HandsOver, Unspent;
      StepAt(t, es, i - 1);
      var s, e := t[i - 1], es[i - 1];
      CarriedStep(s, e, g);
      if e.DoReceive? && e.r == g {
        JustRead(t, es, i, g);
      } else {
        CarriedSince(t, es, i - 1, g);
        UnspentOn(t, es, LastRead(es, i - 1, g), i - 1, g);
      }
    }
  }

  /** A reply handed over by a step is the message its reader read last. */
  lemma HandedOver(t: seq<State>, es: seq<Step>, j: nat, g: nat, r: nat)
    requires Steps(t, es) && j < |es| && By(es[j], g) && Finishes(t[j], es[j]) == Some(r)
    ensures Carries(t[j], g) && r in t[j + 1].rpcs
    ensures var k := LastRead(es, j, g);
      0 <= k < j && es[k] == DoReceive(g, t[j + 1].rpcs[r].reply)
  {
    StepAt(t, es, j);
    HandsOn(t[j], es[j], g, r);
    hide Steps, Enabled, Apply, Finishes;
    CarriedSince(t, es, j, g);
  }

  lemma HandsOn(s: State, e: Step, g: nat, r: nat)
    requires Enabled(s, e) && By(e, g) && Finishes(s, e) == Some(r)
    ensures Carries(s, g) && r in Apply(s, e).rpcs && Apply(s, e).rpcs[r].reply == s.rpcs[g].reply
  {
    hide First;
  }

  /** A completed call has its reply from a step that handed it over. */
  lemma GotStep(s: State, e: Step, r: nat)
    requires Safe(s) && Enabled(s, e) && r in Apply(s, e).rpcs && Apply(s, e).rpcs[r].got
    ensures Finishes(s, e) == Some(r)
         || (r in s.rpcs && s.rpcs[r].got && s.rpcs[r].reply == Apply(s, e).rpcs[r].reply)
  {
    hide Safe, Apply, Enabled, Matches, First;
    match e
    case DoAlloc(g, x) => if r != g { OthersReply(s, e, r); } else { AllocBlank(s, g, x); }
    case DoStart(g) => if r != g { OthersReply(s, e, r); } else { StartsBlank(s, g); }
    case DoReceive(g, m) => if r != g { OthersReply(s, e, r); } else { ReceivedReply(s, g, m); }
    case DoRoute(g) => if r != g { OthersReply(s, e, r); } else { RoutedSelf(s, g); }
    case DoDeliver(g, q) => if r != q { OthersReply(s, e, r); }
    case _ => OthersReply(s, e, r);
  }

  lemma RoutedSelf(s: State, r: nat)
    requires Enabled(s, DoRoute(r)) && Apply(s, DoRoute(r)).rpcs[r].got
    ensures r in s.rpcs
    ensures Finishes(s, DoRoute(r)) == Some(r)
         || (s.rpcs[r].got && s.rpcs[r].reply == Apply(s, DoRoute(r)).rpcs[r].reply)
  {
    hide First;
  }

  lemma {:induction false} GotSince(t: seq<State>, es: seq<Step>, i: nat, r: nat) returns (j: nat)
    requires Steps(t, es) && i <= |es| && r in t[i].rpcs && t[i].rpcs[r].got
    ensures j < i && Finishes(t[j], es[j]) == Some(r) && r in t[j + 1].rpcs
    ensures t[j + 1].rpcs[r].reply == t[i].rpcs[r].reply
  {
    if i == 0 {
      StartsEmpty(t, es);
    } else {
      hide Steps, Enabled, Apply, Safe, Finishes;
      StepAt(t, es, i - 1);
      var s, e := t[i - 1], es[i - 1];
      GotStep(s, e, r);
      if Finishes(s, e) == Some(r) { j := i - 1; } else { j := GotSince(t, es, i - 1, r); }
    }
  }

  /**
   * In every run, failing flushes included, the reply of a completed call is a message read from the channel: the
   * one read at k, and handed over at j by the caller that read it.
   */
  lemma RepliesWereRead(t: seq<State>, es: seq<Step>, i: nat, r: nat) returns (k: nat, j: nat)
    requires Steps(t, es) && i <= |es| && r in t[i].rpcs && t[i].rpcs[r].got
    ensures k < j < i && Finishes(t[j], es[j]) == Some(r) && (es[j].DoRoute? || es[j].DoDeliver?)
    ensures es[k] == DoReceive(es[j].r, t[i].rpcs[r].reply) && k == LastRead(es, j, es[j].r)
  {
    j := GotSince(t, es, i, r);
    HandedOver(t, es, j, es[j].r, r);
    k := LastRead(es, j, es[j].r);
  }

  /** And no message is handed over twice. */
  lemma ReadOnce(t: seq<State>, es: seq<Step>, j: nat, j': nat)
    requires Steps(t, es) && j < j' < |es| && Finishes(t[j], es[j]).Some? && Finishes(t[j'], es[j']).Some?
    requires (es[j].DoRoute? || es[j].DoDeliver?) && (es[j'].DoRoute? || es[j'].DoDeliver?)
    ensures LastRead(es, j, es[j].r) != LastRead(es, j', es[j'].r)
  {
    HandedOver(t, es, j, es[j].r, Finishes(t[j], es[j]).value);
    HandedOver(t, es, j', es[j'].r, Finishes(t[j'], es[j']).value);
    CarriedSince(t, es, j', es[j'].r);
  }

  // --- flush tags ---

  /** How many flush tags there are. */
  const TAGS: nat := TAGEND - TAGFLS

  /** How many flush tags have been taken by time i. */
  ghost function Count(t: seq<State>, i: nat): nat
    requires i < |t|
  {
    if i == 0 then 0 else Count(t, i - 1) + if t[i - 1].flushtag != t[i].flushtag then 1 else 0
  }

  /** How many had been taken before r took the one it has at time i. */
  ghost function Turn(t: seq<State>, i: nat, r: nat): nat
    requires i < |t|
  {
    if i == 0 then 0 else if Takes(t[i - 1], t[i], r) then Count(t, i - 1) else Turn(t, i - 1, r)
  }

  /** The flush tag whose turn it is after n others. */
  ghost function TagOf(n: nat): nat { TAGFLS + n % TAGS }

  ghost predicate Takes(s: State, s': State, p: nat) {
    && s'.flushtag != s.flushtag && p in s.rpcs && s.rpcs[p].pc.FlushTag? && p in s'.rpcs && s'.rpcs[p].pc.FlushWrite?
  }

  /** Who takes a flush tag takes the mount's next one; every other step leaves tags as they are. */
  lemma TagStep(s: State, e: Step, p: nat)
    requires Separate(s) && Enabled(s, e) && p in Apply(s, e).rpcs && Apply(s, e).rpcs[p].flushed
    ensures p in s.rpcs
    ensures Takes(s, Apply(s, e), p) ==> Apply(s, e).rpcs[p].flushtag == s.flushtag
    ensures !Takes(s, Apply(s, e), p) ==> s.rpcs[p].flushed && Apply(s, e).rpcs[p].flushtag == s.rpcs[p].flushtag
  {
    hide Separate;
    if e.DoTakeTag? { TakesNext(s, e.r, e.reader, p); } else { OthersTag(s, e, p); }
  }

  lemma OthersTag(s: State, e: Step, p: nat)
    requires Enabled(s, e) && !e.DoTakeTag? && p in Apply(s, e).rpcs && Apply(s, e).rpcs[p].flushed
    ensures p in s.rpcs && s.rpcs[p].flushed && Apply(s, e).rpcs[p].flushtag == s.rpcs[p].flushtag
    ensures Apply(s, e).flushtag == s.flushtag
  {
    hide Enabled, Apply;
    if ForAnother(e) { OthersTagTwo(s, e, p); } else { OthersTagOne(s, e, p); }
  }

  lemma OthersTagOne(s: State, e: Step, p: nat)
    requires Enabled(s, e) && !e.DoTakeTag? && !ForAnother(e) && p in Apply(s, e).rpcs && Apply(s, e).rpcs[p].flushed
    ensures p in s.rpcs && s.rpcs[p].flushed && Apply(s, e).rpcs[p].flushtag == s.rpcs[p].flushtag
    ensures Apply(s, e).flushtag == s.flushtag
  {
    hide Unlocked, Remove, First;
  }

  lemma OthersTagTwo(s: State, e: Step, p: nat)
    requires Enabled(s, e) && !e.DoTakeTag? && ForAnother(e) && p in Apply(s, e).rpcs && Apply(s, e).rpcs[p].flushed
    ensures p in s.rpcs && s.rpcs[p].flushed && Apply(s, e).rpcs[p].flushtag == s.rpcs[p].flushtag
    ensures Apply(s, e).flushtag == s.flushtag
  {}

  lemma TakesNext(s: State, r: nat, reader: bool, p: nat)
    requires Separate(s) && At(s, r, FlushTag(reader)) && p in s.rpcs
    ensures var s' := TakeTag(s, r, reader);
      && s'.flushtag != s.flushtag && (p != r ==> s'.rpcs[p] == s.rpcs[p])
      && (p == r ==> s'.rpcs[p].flushtag == s.flushtag)
  {}

  lemma NextTag(s: State, e: Step)
    requires Separate(s) && Enabled(s, e)
    ensures Apply(s, e).flushtag == s.flushtag
         || (e.DoTakeTag? && Apply(s, e).flushtag == if s.flushtag + 1 == TAGEND then TAGFLS else s.flushtag + 1)
  {
    hide Remove, First;
  }

  /** Only one caller takes a tag in a step. */
  lemma OneTakes(s: State, e: Step, p: nat, q: nat)
    requires Enabled(s, e) && Takes(s, Apply(s, e), p) && Takes(s, Apply(s, e), q)
    ensures p == q
  {
    hide Remove, First;
  }

  lemma TagAfter(n: nat)
    ensures TagOf(0) == TAGFLS && TagOf(n + 1) == if TagOf(n) + 1 == TAGEND then TAGFLS else TagOf(n) + 1
  {}

  lemma StepTag(s: State, s': State)
    requires Safe(s) && Next(s, s')
    ensures s'.flushtag == s.flushtag || s'.flushtag == if s.flushtag + 1 == TAGEND then TAGFLS else s.flushtag + 1
  {
    hide Enabled, Apply;
    var e :| Enabled(s, e) && s' == Apply(s, e);
    NextTag(s, e);
  }

  lemma StepCount(t: seq<State>, i: nat)
    requires Run(t) && i + 1 < |t|
    ensures Safe(t[i]) && Next(t[i], t[i + 1])
    ensures Count(t, i + 1) == Count(t, i) + if t[i].flushtag != t[i + 1].flushtag then 1 else 0
  {
    RunSafe(t, i);
  }

  lemma StartCount(t: seq<State>)
    requires Run(t)
    ensures t[0].flushtag == TAGFLS && Count(t, 0) == 0
  {}

  lemma {:induction false} MountTag(t: seq<State>, i: nat)
    requires Run(t) && i < |t|
    ensures t[i].flushtag == TagOf(Count(t, i))
  {
    hide TagOf, Count, Safe, Next, Run;
    if i == 0 {
      StartCount(t);
      TagAfter(0);
    } else {
      MountTag(t, i - 1);
      StepCount(t, i - 1);
      StepTag(t[i - 1], t[i]);
      TagAfter(Count(t, i - 1));
    }
  }

  /** A flush tag is the one of its turn, and no two calls had the same turn. */
  lemma {:induction false} Turns(t: seq<State>, i: nat, r: nat)
    requires Run(t) && i < |t| && r in t[i].rpcs && t[i].rpcs[r].flushed
    ensures Turn(t, i, r) < Count(t, i) && t[i].rpcs[r].flushtag == TagOf(Turn(t, i, r))
    ensures forall q | q in t[i].rpcs && q != r && t[i].rpcs[q].flushed :: Turn(t, i, q) != Turn(t, i, r)
  {
    if i > 0 {
      RunSafe(t, i - 1);
      hide Enabled, Apply, Init, OneReader, DataOk, TagOf, Takes;
      var s, s' := t[i - 1], t[i - 1 + 1];
      assert Next(s, s');
      var e :| Enabled(s, e) && s' == Apply(s, e);
      TagStep(s, e, r);
      MountTag(t, i - 1);
      if s.rpcs[r].flushed { Turns(t, i - 1, r); }
      forall q | q in s'.rpcs && q != r && s'.rpcs[q].flushed ensures Turn(t, i, q) != Turn(t, i, r) {
        TagStep(s, e, q);
        if s.rpcs[q].flushed { Turns(t, i - 1, q); }
        if Turn(t, i, q) == Turn(t, i, r) == Count(t, i - 1) { OneTakes(s, e, r, q); }
      }
    }
  }

  /** Two calls have the same flush tag exactly when the tags have gone round, once or more, between their turns. */
  lemma FlushTagsShared(t: seq<State>, i: nat, r: nat, q: nat)
    requires Run(t) && i < |t| && r in t[i].rpcs && q in t[i].rpcs && r != q
    requires t[i].rpcs[r].flushed && t[i].rpcs[q].flushed
    ensures Turn(t, i, r) != Turn(t, i, q)
    ensures t[i].rpcs[r].flushtag == t[i].rpcs[q].flushtag <==> (Turn(t, i, r) - Turn(t, i, q)) % TAGS == 0
    ensures Count(t, i) <= TAGS ==> t[i].rpcs[r].flushtag != t[i].rpcs[q].flushtag
  {
    hide TagOf, Run;
    Turns(t, i, r);
    Turns(t, i, q);
    SameTag(Turn(t, i, r), Turn(t, i, q));
  }

  lemma SameTag(a: nat, b: nat)
    ensures TagOf(a) == TagOf(b) <==> (a - b) % TAGS == 0
    ensures a != b && a < TAGS && b < TAGS ==> TagOf(a) != TagOf(b)
  {
    var d := a / TAGS - b / TAGS;
    assert a - b == d * TAGS + (a % TAGS - b % TAGS);
  }

  /**
   * What mountmux does with a reply, as long as no more flush tags were taken than there are: it takes the one
   * call on the queue that bears the tag, or drops the reply when none does.
   */
  lemma TheOneThatBearsTheTag(t: seq<State>, i: nat, r: nat)
    requires Run(t) && i < |t| && At(t[i], r, Muxing) && Count(t, i) <= TAGS
    ensures var s, tag := t[i], t[i].rpcs[r].reply.tag; var x := Route(s, r).rpcs[r];
      && (forall q | q in s.queue && q in s.rpcs && q != r && Matches(s.rpcs[q], tag) :: x.pc == Delivering(q))
      && (r in s.queue && Matches(s.rpcs[r], tag) ==> x.got && x.done)
      && ((forall q | q in s.queue && q in s.rpcs :: !Matches(s.rpcs[q], tag)) ==> Route(s, r) == Go(s, r, Reading))
  {
    var s, tag := t[i], t[i].rpcs[r].reply.tag;
    RunSafe(t, i);
    var k := First(s.queue, s.rpcs, tag);
    hide First, OneReader, DataOk, Run;
    forall q | q in s.queue && q in s.rpcs && Matches(s.rpcs[q], tag) ensures k < |s.queue| && s.queue[k] == q {
      var j :| 0 <= j < |s.queue| && s.queue[j] == q;
      OneMatch(t, i, s.queue[k], q, tag);
    }
  }

  lemma OneMatch(t: seq<State>, i: nat, p: nat, q: nat, tag: nat)
    requires Run(t) && i < |t| && Count(t, i) <= TAGS && p in t[i].rpcs && q in t[i].rpcs
    requires Matches(t[i].rpcs[p], tag) && Matches(t[i].rpcs[q], tag)
    ensures p == q
  {
    RunSafe(t, i);
    var s := t[i];
    if p != q && s.rpcs[p].flushed && s.rpcs[q].flushed { FlushTagsShared(t, i, p, q); }
  }

  /** A step completes one call at most. */
  lemma OneCompletion(s: State, s': State, r: nat, q: nat)
    requires Safe(s) && Next(s, s') && r in s.rpcs && q in s.rpcs && r in s'.rpcs && q in s'.rpcs
    requires !s.rpcs[r].got && s'.rpcs[r].got && !s.rpcs[q].got && s'.rpcs[q].got
    ensures r == q
  {
    hide Safe, First;
    var e :| Enabled(s, e) && s' == Apply(s, e);
    Completes(s, e, r);
    Completes(s, e, q);
  }

  /** The call a step completes, if it completes one. */
  ghost function Completing(s: State, e: Step): Option<nat> {
    match e
    case DoRoute(r) => Some(r)
    case DoDeliver(_, q) => Some(q)
    case _ => None
  }

  lemma Completes(s: State, e: Step, r: nat)
    requires Enabled(s, e) && r in s.rpcs && r in Apply(s, e).rpcs && !s.rpcs[r].got && Apply(s, e).rpcs[r].got
    ensures Completing(s, e) == Some(r)
  {
    hide First;
  }

  /** In every run where no flush fails harmfully, sleeping callers are never all there is while nobody reads. */
  lemma SomebodyIsAwake(t: seq<State>, i: nat, r: nat)
    requires RunOk(t) && i < |t| && t[i].rip == None && Stuck(t[i], r)
    ensures (exists a :: ActiveAt(t[i], a)) || (exists g, q :: Looking(t[i], g, q))
        || (exists g, q :: WakingUp(t[i], g, q))
  {
    RunInv(t, i);
  }

  // --- a run that strands a caller ---

  /** The state can be reached with harmless failures only. */
  ghost predicate Reached(s: State) {
    exists t: seq<State> :: RunOk(t) && t[|t| - 1] == s
  }

  lemma Grow(s: State, e: Step) returns (s': State)
    requires Reached(s) && Enabled(s, e) && Harmless(s, e)
    ensures s' == Apply(s, e) && Reached(s')
  {
    hide Enabled, Apply, Init, Harmless;
    s' := Apply(s, e);
    var t: seq<State> :| RunOk(t) && t[|t| - 1] == s;
    assert NextOk(s, s');
    var t' := t + [s'];
    assert RunOk(t');
  }

  function NewRpc(n: nat): Rpc { Rpc(Out, n, false, false, 0, n, Msg(0, 0), false, false) }

  /** A caller's call, as far as the gate. */
  lemma ToGate(s: State, r: nat) returns (s': State)
    requires Reached(s) && At(s, r, Out) && Unlocked(s)
    ensures Reached(s') && s'.queue == [r] + s.queue && s'.rip == s.rip
    ensures s'.rpcs == s.rpcs[r := s.rpcs[r].(pc := Gate, done := false, flushed := false, got := false,
        early := false)]
  {
    hide Reached;
    s' := Grow(s, DoStart(r));
    s' := Grow(s', DoConvert(r, Msg(0, 0)));
    s' := Grow(s', DoSent(r));
  }

  /** A caller's call, asleep behind a reader. */
  lemma ToSleep(s: State, r: nat) returns (s': State)
    requires Reached(s) && At(s, r, Out) && Unlocked(s) && s.rip.Some?
    ensures Reached(s') && s'.queue == [r] + s.queue && s'.rip == s.rip
    ensures s'.rpcs == s.rpcs[r := s.rpcs[r].(pc := Parked, done := false, flushed := false, got := false,
        early := false)]
  {
    hide Reached;
    s' := ToGate(s, r);
    s' := Grow(s', DoGate(r));
    s' := Grow(s', DoSleep(r));
  }

  /** Three rpcs. */
  lemma ThreeRpcs() returns (s: State)
    ensures Reached(s) && s.queue == [] && s.rip == None
    ensures s.rpcs == map[3 := NewRpc(3), 4 := NewRpc(4), 5 := NewRpc(5)]
  {
    s := State([], None, TAGFLS, map[], map[]);
    assert RunOk([s]);
    hide Reached;
    s := Grow(s, DoAlloc(3, NewRpc(3)));
    s := Grow(s, DoAlloc(4, NewRpc(4)));
    s := Grow(s, DoAlloc(5, NewRpc(5)));
  }

  function Call(n: nat, pc: Pc): Rpc { NewRpc(n).(pc := pc) }

  lemma ThirdMatches(rpcs: map<nat, Rpc>, a: nat, b: nat, c: nat, tag: nat)
    requires a in rpcs && b in rpcs && c in rpcs && !Matches(rpcs[a], tag) && !Matches(rpcs[b], tag) &&
        Matches(rpcs[c], tag)
    ensures First([a, b, c], rpcs, tag) == 2
  {
    assert [a, b, c][1..] == [b, c] && [b, c][1..] == [c];
    assert First([c], rpcs, tag) == 0;
    assert First([b, c], rpcs, tag) == 1;
  }

  /** One reads, two sleep. */
  lemma TwoBehind() returns (s: State)
    ensures Reached(s) && s.queue == [4, 3, 5] && s.rip == Some(5)
    ensures s.rpcs == map[3 := Call(3, Parked), 4 := Call(4, Parked), 5 := Call(5, Reading)]
  {
    hide Reached;
    s := ThreeRpcs();
    s := ToGate(s, 5);
    s := Grow(s, DoGate(5));
    s := ToSleep(s, 3);
    s := ToSleep(s, 4);
  }

  /** The reader has its own reply. */
  lemma ReaderServed() returns (s: State)
    ensures Reached(s) && s.queue == [4, 3] && s.rip == Some(5) && s.rpcs.Keys == {3, 4, 5}
    ensures s.rpcs[3] == Call(3, Parked) && s.rpcs[4] == Call(4, Parked)
    ensures s.rpcs[5].pc == Reading && s.rpcs[5].done
  {
    hide Reached;
    s := TwoBehind();
    s := Grow(s, DoReceive(5, Msg(5, 0)));
    ThirdMatches(s.rpcs, 4, 3, 5, 5);
    hide First;
    s := Grow(s, DoRoute(5));
  }

  /** The reader leaves, and looks for one to wake. */
  lemma TwoAsleep() returns (s: State)
    ensures Reached(s) && s.queue == [4, 3] && s.rip == None && s.rpcs.Keys == {3, 4, 5}
    ensures s.rpcs[3] == Call(3, Parked) && s.rpcs[4] == Call(4, Parked) && s.rpcs[5].pc == GateWaking(4)
  {
    hide Reached;
    s := ReaderServed();
    s := Grow(s, DoOpen(5));
    s := Grow(s, DoLook(5, [4, 3]));
  }

  /**
   * A run of three callers: the gate chooses one of two sleepers, which is interrupted before it is woken
   * and cannot write its flush; the other is left asleep, nobody reads, and nobody will wake it.
   */
  lemma FailedFlushStrands() returns (s: State, s': State)
    ensures Reached(s) && Strands(s, 4) && Enabled(s, DoFlushFail(4, false)) && s' == Apply(s, DoFlushFail(4, false))
    ensures Stuck(s', 3) && !Awake(s')
  {
    hide Reached, Strands, Awake;
    s := GivesUp();
    OnlyFour(s);
    FlushFailExact(s, 4);
    s' := FlushFail(s, 4, false);
  }

  /** The one chosen is interrupted, and about to write its flush. */
  lemma GivesUp() returns (s: State)
    ensures Reached(s) && s.rip == None && s.rpcs.Keys == {3, 4, 5}
    ensures s.rpcs[3] == Call(3, Parked) && s.rpcs[4].pc == FlushWrite(false) && s.rpcs[5].pc == Out
  {
    hide Reached;
    s := TwoAsleep();
    s := Grow(s, DoInterrupt(4));
    s := Grow(s, DoGateWake(5, 4));
    s := Grow(s, DoTakeTag(4, false));
  }

  lemma OnlyFour(s: State)
    requires s.rip == None && s.rpcs.Keys == {3, 4, 5}
    requires s.rpcs[3] == Call(3, Parked) && s.rpcs[4].pc == FlushWrite(false) && s.rpcs[5].pc == Out
    ensures Strands(s, 4) && Stuck(s, 3)
  {
    assert Stuck(s, 3);
  }

  /** The other harm: a reply on its way to a call whose flush fails will be delivered to a call that is over. */
  lemma DeliveredTooLate() returns (s: State, s': State)
    ensures Reached(s) && Picked(s, 4) && Enabled(s, DoFlushFail(4, false)) && s' == Apply(s, DoFlushFail(4, false))
    ensures At(s', 4, Out) && At(s', 5, Delivering(4))
  {
    hide Reached, First;
    s := LateReply();
    FirstMatches(s.queue, s.rpcs, 4);
    s := Grow(s, DoRoute(5));
    s' := FlushFail(s, 4, false);
  }

  /** A reply has been read for a caller that is about to write its flush. */
  lemma LateReply() returns (s: State)
    ensures Reached(s) && s.queue == [4, 3, 5] && s.rip == Some(5) && s.rpcs.Keys == {3, 4, 5}
    ensures s.rpcs[3] == Call(3, Parked) && s.rpcs[4].pc == FlushWrite(false) && s.rpcs[4].tag == 4
    ensures s.rpcs[5].pc == Muxing && s.rpcs[5].reply.tag == 4
  {
    hide Reached;
    s := TwoBehind();
    s := Grow(s, DoInterrupt(4));
    s := Grow(s, DoTakeTag(4, false));
    s := Grow(s, DoReceive(5, Msg(4, 0)));
  }

  lemma FirstMatches(q: seq<nat>, rpcs: map<nat, Rpc>, tag: nat)
    requires q != [] && q[0] in rpcs && Matches(rpcs[q[0]], tag)
    ensures First(q, rpcs, tag) == 0
  {}
}
