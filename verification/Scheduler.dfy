// The token of the Dis interpreter, as the critical sections of emu/dis.c pass it on: acquire, release,
// releasex, iyield, startup and the Sleep of vmachine, interleaved in any order.

module Scheduler {
  import opened Lists

  /** Where a process is. Rendezvous pairs a process in Handing(p) with p itself. */
  datatype Pc =
    | Fresh                            // a new interpreter, before startup
    | Away                             // does without the token
    | Holding                          // has the token
    | Asleep                           // has the token, and sleeps on irend
    | Waiting(pending: bool)           // in acquire; pending if it still has to wake the sleeper
    | Parked                           // an interpreter in its last rendezvous of startup or iyield
    | Handing(to: nat, park: bool)     // giving the token away, and then parked or away

  datatype State = State(idle: bool, asked: int, vmq: seq<nat>, procs: map<nat, Pc>)

  // --- the steps ---

  /** A process nobody knew, outside the interpreter. */
  function Enter(s: State, p: nat): State { s.(procs := s.procs[p := Away]) }

  /** acquire, up to its rendezvous. */
  function Acquire(s: State, p: nat): State {
    if s.idle then s.(idle := false, procs := s.procs[p := Holding])
    else s.(asked := s.asked + 1, vmq := [p] + s.vmq, procs := s.procs[p := Waiting(s.asked == 0)])
  }

  /** acquire's Wakeup of irend. */
  function Wake(s: State, p: nat, q: nat): State {
    var woken := if q in s.procs && s.procs[q] == Asleep then s.procs[q := Holding] else s.procs;
    s.(procs := woken[p := Waiting(false)])
  }

  /** release and releasex, up to their rendezvous; f is the interpreter kproc starts. */
  function Release(s: State, p: nat, f: nat): State {
    if s.vmq == [] then s.(idle := true, procs := s.procs[p := Away][f := Fresh])
    else s.(vmq := s.vmq[1..], procs := s.procs[p := Handing(s.vmq[0], false)])
  }

  /** iyield, up to its first rendezvous. */
  function Yield(s: State, p: nat): State {
    if s.vmq == [] then s.(asked := s.asked - 1)
    else s.(asked := s.asked - 1, vmq := s.vmq[1..] + [p], procs := s.procs[p := Handing(s.vmq[0], true)])
  }

  /** startup, up to its rendezvous. */
  function Startup(s: State, p: nat): State {
    if s.idle then s.(idle := false, procs := s.procs[p := Holding])
    else s.(vmq := s.vmq + [p], procs := s.procs[p := Parked])
  }

  /** The rendezvous of a process that hands the token on with the one it hands it to. */
  function Meet(s: State, p: nat, q: nat, park: bool): State {
    s.(procs := s.procs[q := Holding][p := if park then Parked else Away])
  }

  function Sleep(s: State, p: nat): State { s.(procs := s.procs[p := Asleep]) }

  ghost predicate At(s: State, p: nat, pc: Pc) { p in s.procs && s.procs[p] == pc }

  /** One step of some process. */
  ghost predicate Next(s: State, s': State) {
    || (exists p :: p !in s.procs && s' == Enter(s, p))
    || (exists p :: At(s, p, Away) && s' == Acquire(s, p))
    || (exists p, q :: At(s, p, Waiting(true)) && (At(s, q, Asleep) || NoSleeper(s)) && s' == Wake(s, p, q))
    || (exists p, f :: At(s, p, Holding) && f !in s.procs && s' == Release(s, p, f))
    || (exists p :: At(s, p, Holding) && s.asked != 0 && s' == Yield(s, p))
    || (exists p :: At(s, p, Fresh) && s' == Startup(s, p))
    || (exists p, q, park ::
          At(s, p, Handing(q, park)) && (At(s, q, Waiting(false)) || At(s, q, Parked)) && s' == Meet(s, p, q, park))
    || (exists p :: At(s, p, Holding) && s.asked == 0 && s' == Sleep(s, p))
    || (exists p :: At(s, p, Asleep) && s' == s.(procs := s.procs[p := Holding]))
  }

  ghost predicate NoSleeper(s: State) {
    forall q | q in s.procs :: s.procs[q] != Asleep
  }

  /** disinit: one interpreter is about to start, and nobody holds the token. */
  ghost predicate Init(s: State) {
    s.idle && s.asked == 0 && s.vmq == [] && forall p | p in s.procs :: s.procs[p] == Fresh || s.procs[p] == Away
  }

  // --- the invariant ---

  /** The processes that have the token or are giving it away. */
  ghost function Carriers(s: State): set<nat> {
    set p | p in s.procs && (s.procs[p] == Holding || s.procs[p] == Asleep || s.procs[p].Handing?)
  }

  /** The token is in one place: with nobody, or with one process. */
  ghost predicate OneToken(s: State) {
    if s.idle then Carriers(s) == {} && s.vmq == [] else exists c :: Carriers(s) == {c}
  }

  ghost predicate Queues(pc: Pc) {
    pc.Waiting? || pc.Parked?
  }

  /** h is handing the token to p. */
  ghost predicate Gives(s: State, h: nat, p: nat) {
    h in s.procs && s.procs[h].Handing? && s.procs[h].to == p
  }

  /** p is being handed the token. */
  ghost predicate Chosen(s: State, p: nat) {
    exists h :: Gives(s, h, p)
  }

  lemma ChosenSame(s: State, s': State)
    requires forall h, p :: Gives(s', h, p) <==> Gives(s, h, p)
    ensures forall p :: Chosen(s', p) <==> Chosen(s, p)
  {
    forall p ensures Chosen(s', p) <==> Chosen(s, p) {
      if Chosen(s', p) { var h :| Gives(s', h, p); assert Gives(s, h, p); }
      if Chosen(s, p) { var h :| Gives(s, h, p); assert Gives(s', h, p); }
    }
  }

  /** Who is on vmq: the waiting and the parked that are not being handed the token, and who is about to park. */
  ghost predicate QueueIs(s: State) {
    && NoDup(s.vmq)
    && (forall p | p in s.vmq :: p in s.procs)
    && (forall p | p in s.procs ::
        p in s.vmq <==> (Queues(s.procs[p]) && !Chosen(s, p)) || (s.procs[p].Handing? && s.procs[p].park))
    && (forall h | h in s.procs && s.procs[h].Handing? ::
        s.procs[h].to in s.procs && Queues(s.procs[s.procs[h].to]) && s.procs[h].to != h)
  }

  /** vmq is k processes blocked in acquire, then parked interpreters. */
  ghost predicate Shaped(s: State, k: nat) {
    && k <= |s.vmq|
    && (forall i | 0 <= i < k :: s.vmq[i] in s.procs && s.procs[s.vmq[i]].Waiting?)
    && (forall i | k <= i < |s.vmq| :: s.vmq[i] in s.procs && !s.procs[s.vmq[i]].Waiting?)
  }

  /** yield is at least the number of processes blocked in acquire. */
  ghost predicate YieldCounts(s: State) {
    exists k: nat :: Shaped(s, k) && k <= s.asked
  }

  /** A sleeping interpreter has been asked for nothing, or someone is about to wake it. */
  ghost predicate WillWake(s: State) {
    (exists p :: At(s, p, Asleep)) ==> s.asked == 0 || exists q :: At(s, q, Waiting(true))
  }

  ghost predicate Inv(s: State) {
    OneToken(s) && QueueIs(s) && YieldCounts(s) && WillWake(s)
  }

  lemma InitInv(s: State)
    requires Init(s)
    ensures Inv(s)
  {
    assert Shaped(s, 0);
  }

  // --- every step keeps it ---

  lemma CarrierIs(s: State, p: nat)
    requires OneToken(s) && p in s.procs && (s.procs[p] == Holding || s.procs[p] == Asleep || s.procs[p].Handing?)
    ensures !s.idle && Carriers(s) == {p}
    ensures forall q | q in s.procs && q != p :: s.procs[q] != Holding && s.procs[q] != Asleep && !s.procs[q].Handing?
  {
    assert p in Carriers(s);
    if !s.idle {
      var c :| Carriers(s) == {c};
      assert c == p;
      forall q | q in s.procs && q != p ensures s.procs[q] != Holding && s.procs[q] != Asleep && !s.procs[q].Handing? {
        assert q !in Carriers(s);
      }
    }
  }

  lemma NobodyCarries(s: State)
    requires OneToken(s) && s.idle
    ensures s.vmq == [] && forall q | q in s.procs ::
        s.procs[q] != Holding && s.procs[q] != Asleep && !s.procs[q].Handing?
  {
    forall q | q in s.procs ensures s.procs[q] != Holding && s.procs[q] != Asleep && !s.procs[q].Handing? {
      assert q !in Carriers(s);
    }
  }

  lemma EnterInv(s: State, p: nat)
    requires Inv(s) && p !in s.procs
    ensures Inv(Enter(s, p))
  {
    var s' := Enter(s, p);
    assert Carriers(s') == Carriers(s);
    var k: nat :| Shaped(s, k) && k <= s.asked;
    assert Shaped(s', k);
    ChosenSame(s, s');
    if exists q :: At(s', q, Asleep) {
      var q :| At(s', q, Asleep);
      assert At(s, q, Asleep);
      if s.asked != 0 { var r :| At(s, r, Waiting(true)); assert At(s', r, Waiting(true)); }
    }
  }

  lemma AcquireInv(s: State, p: nat)
    requires Inv(s) && At(s, p, Away)
    ensures Inv(Acquire(s, p))
  {
    if s.idle { AcquireIdle(s, p); } else { AcquireBusy(s, p); }
  }

  lemma AcquireIdle(s: State, p: nat)
    requires Inv(s) && At(s, p, Away) && s.idle
    ensures Inv(Acquire(s, p))
  {
    var s' := Acquire(s, p);
    NobodyCarries(s);
    assert Carriers(s') == {p};
    assert Shaped(s', 0);
    ChosenSame(s, s');
  }

  lemma AcquireBusy(s: State, p: nat)
    requires Inv(s) && At(s, p, Away) && !s.idle
    ensures Inv(Acquire(s, p))
  {
    var s' := Acquire(s, p);
    var k: nat :| Shaped(s, k) && k <= s.asked;
    assert Carriers(s') == Carriers(s);
    assert p !in s.vmq;
    assert Shaped(s', k + 1);
    if exists q :: At(s', q, Asleep) {
      var q :| At(s', q, Asleep);
      assert At(s, q, Asleep);
      if s.asked != 0 { var r :| At(s, r, Waiting(true)); assert At(s', r, Waiting(true)); }
      else { assert At(s', p, Waiting(true)); }
    }
    ChosenSame(s, s');
  }

  lemma WakeInv(s: State, p: nat, q: nat)
    requires Inv(s) && At(s, p, Waiting(true)) && (At(s, q, Asleep) || NoSleeper(s))
    ensures Inv(Wake(s, p, q))
  {
    var s' := Wake(s, p, q);
    var k: nat :| Shaped(s, k) && k <= s.asked;
    assert Shaped(s', k);
    assert Carriers(s') == Carriers(s);
    ChosenSame(s, s');
    if At(s, q, Asleep) { CarrierIs(s, q); }
    WakeQueue(s, p, q);
    hide QueueIs, Chosen, Gives;
    assert forall r | r in s'.procs :: s'.procs[r] != Asleep;
  }

  lemma WakeQueue(s: State, p: nat, q: nat)
    requires QueueIs(s) && At(s, p, Waiting(true)) && (At(s, q, Asleep) || NoSleeper(s))
    ensures QueueIs(Wake(s, p, q))
  {
    ChosenSame(s, Wake(s, p, q));
  }

  lemma ReleaseInv(s: State, p: nat, f: nat)
    requires Inv(s) && At(s, p, Holding) && f !in s.procs
    ensures Inv(Release(s, p, f))
  {
    CarrierIs(s, p);
    forall r | r in s.procs ensures !Chosen(s, r) {}
    if s.vmq == [] { ReleaseIdleInv(s, p, f); } else { ReleaseHandInv(s, p, f); }
  }

  lemma ReleaseIdleInv(s: State, p: nat, f: nat)
    requires Inv(s) && At(s, p, Holding) && f !in s.procs && s.vmq == [] && Carriers(s) == {p}
    requires forall r | r in s.procs :: !Chosen(s, r)
    requires forall q | q in s.procs && q != p :: s.procs[q] != Holding && s.procs[q] != Asleep && !s.procs[q].Handing?
    ensures Inv(Release(s, p, f))
  {
    var s' := Release(s, p, f);
    assert Carriers(s') == {};
    assert Shaped(s', 0);
    assert forall h, r :: !Gives(s', h, r);
  }

  lemma ReleaseHandInv(s: State, p: nat, f: nat)
    requires Inv(s) && At(s, p, Holding) && s.vmq != [] && Carriers(s) == {p}
    requires forall r | r in s.procs :: !Chosen(s, r)
    requires forall q | q in s.procs && q != p :: s.procs[q] != Holding && s.procs[q] != Asleep && !s.procs[q].Handing?
    ensures Inv(Release(s, p, f))
  {
    var s' := Release(s, p, f);
    var k: nat :| Shaped(s, k) && k <= s.asked;
    var h := s.vmq[0];
    assert h in s.vmq;
    assert Carriers(s') == {p};
    assert Shaped(s', if k > 0 then k - 1 else 0);
    TailOf(s.vmq);
    forall r | r in s'.procs ensures Chosen(s', r) <==> r == h { if r == h { assert Gives(s', p, h); } }
  }

  lemma TailOf(q: seq<nat>)
    requires NoDup(q) && q != []
    ensures NoDup(q[1..]) && q[0] !in q[1..] && forall x | x in q && x != q[0] :: x in q[1..]
  {
    forall x | x in q && x != q[0] ensures x in q[1..] {
      var i :| 0 <= i < |q| && q[i] == x;
      assert q[1..][i - 1] == x;
    }
  }

  lemma YieldInv(s: State, p: nat)
    requires Inv(s) && At(s, p, Holding) && s.asked != 0
    ensures Inv(Yield(s, p))
  {
    var s' := Yield(s, p);
    var k: nat :| Shaped(s, k) && k <= s.asked;
    CarrierIs(s, p);
    forall r | r in s.procs ensures !Chosen(s, r) {}
    if s.vmq == [] {
      assert Carriers(s') == {p};
      assert Shaped(s', 0);
      assert forall r | r in s'.procs :: s'.procs[r] != Asleep;
    } else {
      var h := s.vmq[0];
      assert h in s.vmq;
      assert p !in s.vmq;
      assert Carriers(s') == {p};
      TailOf(s.vmq);
      assert Shaped(s', if k > 0 then k - 1 else 0);
      forall r | r in s'.procs ensures Chosen(s', r) <==> r == h { if r == h { assert Gives(s', p, h); } }
    }
  }

  lemma StartupInv(s: State, p: nat)
    requires Inv(s) && At(s, p, Fresh)
    ensures Inv(Startup(s, p))
  {
    if s.idle { StartupIdle(s, p); } else { StartupBusy(s, p); }
  }

  lemma StartupIdle(s: State, p: nat)
    requires Inv(s) && At(s, p, Fresh) && s.idle
    ensures Inv(Startup(s, p))
  {
    var s' := Startup(s, p);
    var k: nat :| Shaped(s, k) && k <= s.asked;
    ChosenSame(s, s');
    NobodyCarries(s);
    assert Carriers(s') == {p};
    assert Shaped(s', 0);
  }

  lemma StartupBusy(s: State, p: nat)
    requires Inv(s) && At(s, p, Fresh) && !s.idle
    ensures Inv(Startup(s, p))
  {
    var s' := Startup(s, p);
    var k: nat :| Shaped(s, k) && k <= s.asked;
    ChosenSame(s, s');
    assert Carriers(s') == Carriers(s);
    assert p !in s.vmq;
    assert Shaped(s', k);
    if exists q :: At(s', q, Asleep) {
      var q :| At(s', q, Asleep);
      assert At(s, q, Asleep);
      if s.asked != 0 { var r :| At(s, r, Waiting(true)); assert At(s', r, Waiting(true)); }
    }
  }

  lemma MeetInv(s: State, p: nat, q: nat, park: bool)
    requires Inv(s) && At(s, p, Handing(q, park)) && (At(s, q, Waiting(false)) || At(s, q, Parked))
    ensures Inv(Meet(s, p, q, park))
  {
    var s' := Meet(s, p, q, park);
    var k: nat :| Shaped(s, k) && k <= s.asked;
    CarrierIs(s, p);
    assert Gives(s, p, q);
    assert Chosen(s, q);
    assert q !in s.vmq;
    assert Shaped(s', k);
    assert Carriers(s') == {q};
    forall r | r in s.procs ensures Chosen(s, r) <==> r == q {}
    forall r | r in s'.procs ensures !Chosen(s', r) {}
  }

  lemma SleepInv(s: State, p: nat)
    requires Inv(s) && At(s, p, Holding) && s.asked == 0
    ensures Inv(Sleep(s, p))
  {
    var s' := Sleep(s, p);
    var k: nat :| Shaped(s, k) && k <= s.asked;
    CarrierIs(s, p);
    assert Shaped(s', k);
    assert Carriers(s') == {p};
    ChosenSame(s, s');
  }

  lemma RiseInv(s: State, p: nat)
    requires Inv(s) && At(s, p, Asleep)
    ensures Inv(s.(procs := s.procs[p := Holding]))
  {
    var s' := s.(procs := s.procs[p := Holding]);
    var k: nat :| Shaped(s, k) && k <= s.asked;
    CarrierIs(s, p);
    assert Shaped(s', k);
    assert Carriers(s') == {p};
    ChosenSame(s, s');
  }

  lemma StepInv(s: State, s': State)
    requires Inv(s) && Next(s, s')
    ensures Inv(s')
  {
    hide Inv, Enter, Acquire, Wake, Release, Yield, Startup, Meet, Sleep;
    if p :| p !in s.procs && s' == Enter(s, p) { EnterInv(s, p); }
    else if p :| At(s, p, Away) && s' == Acquire(s, p) { AcquireInv(s, p); }
    else if p, q :| At(s, p, Waiting(true)) && (At(s, q, Asleep) || NoSleeper(s)) && s' == Wake(s, p, q) {
      WakeInv(s, p, q);
    }
    else if p, f :| At(s, p, Holding) && f !in s.procs && s' == Release(s, p, f) { ReleaseInv(s, p, f); }
    else if p :| At(s, p, Holding) && s.asked != 0 && s' == Yield(s, p) { YieldInv(s, p); }
    else if p :| At(s, p, Fresh) && s' == Startup(s, p) { StartupInv(s, p); }
    else if p, q, park :|
        At(s, p, Handing(q, park)) && (At(s, q, Waiting(false)) || At(s, q, Parked)) && s' == Meet(s, p, q, park) {
      MeetInv(s, p, q, park);
    }
    else if p :| At(s, p, Holding) && s.asked == 0 && s' == Sleep(s, p) { SleepInv(s, p); }
    else { var p :| At(s, p, Asleep) && s' == s.(procs := s.procs[p := Holding]); RiseInv(s, p); }
  }

  // --- runs ---

  ghost predicate Run(t: seq<State>) {
    && |t| > 0 && Init(t[0])
    && forall i | 0 <= i < |t| - 1 :: Next(t[i], t[i + 1])
  }

  lemma {:induction false} RunInv(t: seq<State>, i: nat)
    requires Run(t) && i < |t|
    ensures Inv(t[i])
  {
    hide Inv, Next, Init;
    if i == 0 { InitInv(t[0]); }
    else {
      RunInv(t, i - 1);
      assert Next(t[i - 1], t[i - 1 + 1]);
      StepInv(t[i - 1], t[i]);
    }
  }

  /**
   * In every run the token is never held twice, and an interpreter whose yield check passes leaves nobody
   * blocked in acquire on vmq.
   */
  lemma RunSafe(t: seq<State>, i: nat, p: nat)
    requires Run(t) && i < |t| && At(t[i], p, Holding)
    ensures forall q | q in t[i].procs && q != p ::
        t[i].procs[q] != Holding && t[i].procs[q] != Asleep && !t[i].procs[q].Handing?
    ensures t[i].asked == 0 ==> forall q | q in t[i].vmq :: q in t[i].procs && !t[i].procs[q].Waiting?
  {
    RunInv(t, i);
    CarrierIs(t[i], p);
    var k: nat :| Shaped(t[i], k) && k <= t[i].asked;
  }

  /**
   * Nobody who waits is forgotten: the token is with a process, and unless that one can go on, the rendezvous
   * or the wakeup can.
   */
  lemma RunProgress(t: seq<State>, i: nat, p: nat)
    requires Run(t) && i < |t| && p in t[i].procs && Queues(t[i].procs[p])
    ensures var s := t[i];
            exists c :: c in s.procs && match s.procs[c] {
              case Holding => true
              case Asleep => s.asked == 0 || exists q :: At(s, q, Waiting(true))
              case Handing(q, _) => At(s, q, Waiting(true)) || At(s, q, Waiting(false)) || At(s, q, Parked)
              case _ => false
            }
  {
    var s := t[i];
    RunInv(t, i);
    if s.idle {
      NobodyCarries(s);
    }
    var c :| Carriers(s) == {c};
    assert c in Carriers(s);
    CarrierIs(s, c);
    if s.procs[c] == Asleep { assert At(s, c, Asleep); }
    if s.procs[c].Handing? {
      var q := s.procs[c].to;
      assert s.procs[q].Waiting? ==> s.procs[q] == Waiting(true) || s.procs[q] == Waiting(false);
    }
  }

  /**
   * In every run vmq is the processes blocked in acquire, no more of them than yield says, and then parked
   * interpreters.
   */
  lemma RunQueue(t: seq<State>, i: nat)
    requires Run(t) && i < |t|
    ensures exists k: nat :: Shaped(t[i], k) && k <= t[i].asked
    ensures t[i].idle ==> t[i].vmq == []
    ensures forall p | p in t[i].procs && Queues(t[i].procs[p]) :: p in t[i].vmq || Chosen(t[i], p)
  {
    RunInv(t, i);
  }

  /** Somebody is about to be an interpreter. */
  ghost predicate Starting(s: State) { exists q :: At(s, q, Fresh) }

  /** An idle token is about to be taken up by an interpreter. */
  lemma StepStarts(s: State, s': State)
    requires Inv(s) && Next(s, s') && (s.idle ==> Starting(s)) && s'.idle
    ensures Starting(s')
  {
    if s.idle {
      NobodyCarries(s);
      var q :| At(s, q, Fresh);
      if p :| p !in s.procs && s' == Enter(s, p) { assert At(s', q, Fresh); }
      else if p, r :| At(s, p, Waiting(true)) && (At(s, r, Asleep) || NoSleeper(s)) && s' == Wake(s, p, r) {
        assert At(s', q, Fresh);
      }
    } else {
      NowIdle(s, s');
      var p, f :| At(s, p, Holding) && f !in s.procs && s' == Release(s, p, f);
      assert At(s', f, Fresh);
    }
  }

  /** Only a release leaves the token idle. */
  lemma NowIdle(s: State, s': State)
    requires Next(s, s') && !s.idle && s'.idle
    ensures exists p, f :: At(s, p, Holding) && f !in s.procs && s' == Release(s, p, f)
  {}

  /** From a start with an interpreter about to start: whenever nobody has the token, an interpreter is about to start. */
  lemma {:induction false} RunStarts(t: seq<State>, i: nat)
    requires Run(t) && i < |t| && Starting(t[0])
    ensures t[i].idle ==> Starting(t[i])
  {
    if i > 0 {
      RunStarts(t, i - 1);
      RunInv(t, i - 1);
      hide Inv, Init;
      assert Next(t[i - 1], t[i - 1 + 1]);
      hide Next, Starting;
      if t[i].idle { StepStarts(t[i - 1], t[i]); }
    }
  }
}
