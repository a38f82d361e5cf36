// The byte queue of emu/qio.c as its critical sections, flags and sleeps interleave: qbwrite under
// wlock, qbread under rlock, and qproduce at interrupt level, on an open queue without message boundaries.

module Flow {
  import opened Lists

  /** A process in qbwrite, with its block. */
  datatype Writer =
    | NoWriter
    | Checking(b: seq<Byte>)    // before the test of the while loop
    | Full(b: seq<Byte>)        // found the queue full
    | Flowing(b: seq<Byte>)     // has set Qflow, before the test of Sleep
    | Asleep(b: seq<Byte>)
    | Passed(b: seq<Byte>)      // before the critical section
    | Telling                   // after it, before the Wakeup of the reader

  /** A process in qbread, with the length it asked for. */
  datatype Reader =
    | NoReader
    | Wants(n: nat)                          // before the critical section
    | Starving(n: nat)                       // has set Qstarve, before the test of Sleep
    | Dozing(n: nat)
    | Splitting(tail: seq<Byte>, tell: bool) // between its two critical sections
    | Done(tell: bool)                       // before the Wakeup of the writer, if any

  /** The queue, the two processes, and all the bytes ever accepted and returned. */
  datatype State = State(
    blocks: seq<seq<Byte>>, len: int, limit: nat, flow: bool, starve: bool, noblock: bool,
    writer: Writer, reader: Reader, accepted: seq<Byte>, returned: seq<Byte>)

  datatype Step =
    | Write(b: seq<Byte>) | Check | SetFlow | SleepFull | Append | TellReader
    | Produce(p: seq<Byte>)
    | Read(n: nat) | Take | PutBack | TellWriter | SleepEmpty

  // --- the critical sections ---

  /** A block at the end of the queue. */
  function Added(s: State, b: seq<Byte>): State {
    s.(blocks := s.blocks + [b], len := s.len + |b|, accepted := s.accepted + b, starve := false)
  }

  /** The first critical section of qbread on a queue that is not empty. */
  function Taken(s: State, n: nat): State
    requires s.blocks != []
  {
    var b := s.blocks[0];
    var len := s.len - |b|;
    var tell := s.flow && len < s.limit / 2;
    var kept := if |b| > n then b[..n] else b;
    s.(blocks := s.blocks[1..], len := len, flow := s.flow && !tell, returned := s.returned + kept,
       reader := if |b| > n then Splitting(b[n..], tell) else Done(tell))
  }

  /** The second critical section of qbread: the rest of a split block goes back to the front. */
  function Restored(s: State, tail: seq<Byte>): State {
    s.(blocks := [tail] + s.blocks, len := s.len + |tail|)
  }

  /** Wakeup of the reading process. */
  function ReaderWoken(r: Reader): Reader {
    if r.Dozing? then Wants(r.n) else r
  }

  /** Wakeup of the writing process. */
  function WriterWoken(w: Writer): Writer {
    if w.Asleep? then Checking(w.b) else w
  }

  predicate Enabled(s: State, t: Step) {
    match t
    case Write(_) => s.writer == NoWriter
    case Check => s.writer.Checking?
    case SetFlow => s.writer.Full?
    case SleepFull => s.writer.Flowing?
    case Append => s.writer.Passed?
    case TellReader => s.writer == Telling
    case Produce(_) => true
    case Read(_) => s.reader == NoReader
    case Take => s.reader.Wants?
    case PutBack => s.reader.Splitting?
    case TellWriter => s.reader.Done?
    case SleepEmpty => s.reader.Starving?
  }

  function Apply(s: State, t: Step): State
    requires Enabled(s, t)
  {
    match t
    case Write(b) => s.(writer := Checking(b))
    case Check =>
      if s.len < s.limit then s.(writer := Passed(s.writer.b))
      else if s.noblock then s.(writer := NoWriter)
      else s.(writer := Full(s.writer.b))
    case SetFlow => s.(flow := true, writer := Flowing(s.writer.b))
    case SleepFull => if s.len < s.limit then s.(writer := Checking(s.writer.b)) else s.(writer := Asleep(s.writer.b))
    case Append => Added(s, s.writer.b).(writer := if s.starve then Telling else NoWriter)
    case TellReader => s.(reader := ReaderWoken(s.reader), writer := NoWriter)
    case Produce(b) =>
      if s.len >= s.limit then s.(flow := true)
      else Added(s, b).(reader := if s.starve then ReaderWoken(s.reader) else s.reader)
    case Read(n) => s.(reader := Wants(n))
    case Take => if s.blocks == [] then s.(starve := true, reader := Starving(s.reader.n)) else Taken(s, s.reader.n)
    case PutBack => Restored(s, s.reader.tail).(reader := Done(s.reader.tell))
    case TellWriter => s.(writer := if s.reader.tell then WriterWoken(s.writer) else s.writer, reader := NoReader)
    case SleepEmpty => if s.blocks != [] then s.(reader := Wants(s.reader.n)) else s.(reader := Dozing(s.reader.n))
  }

  /** qopen */
  predicate Init(s: State) {
    && s.blocks == [] && s.len == 0 && !s.flow && s.starve
    && s.writer == NoWriter && s.reader == NoReader && s.accepted == [] && s.returned == []
  }

  /** The states a sequence of steps goes through, each of them possible. */
  ghost predicate Run(states: seq<State>, steps: seq<Step>) {
    && |states| == |steps| + 1 && Init(states[0])
    && forall i | 0 <= i < |steps| :: Enabled(states[i], steps[i]) && states[i + 1] == Apply(states[i], steps[i])
  }

  // --- first in, first out ---

  ghost function Flat(blocks: seq<seq<Byte>>): seq<Byte> {
    if blocks == [] then [] else blocks[0] + Flat(blocks[1..])
  }

  lemma {:induction false} FlatAppend(x: seq<seq<Byte>>, b: seq<Byte>)
    ensures Flat(x + [b]) == Flat(x) + b
  {
    if x == [] {
      assert (x + [b])[1..] == [];
    } else {
      FlatAppend(x[1..], b);
      assert (x + [b])[1..] == x[1..] + [b];
    }
  }

  /** The part of a split block that qbread has not put back yet. */
  function Held(r: Reader): seq<Byte> {
    if r.Splitting? then r.tail else []
  }

  /** Returned, held and queued are together what was accepted; len counts the queue. */
  ghost predicate Fifo(s: State) {
    && s.returned + Held(s.reader) + Flat(s.blocks) == s.accepted
    && s.len == |Flat(s.blocks)|
  }

  lemma AddedFifo(s: State, b: seq<Byte>)
    requires Fifo(s)
    ensures Fifo(Added(s, b))
  {
    FlatAppend(s.blocks, b);
    hide Flat;
    assert s.returned + Held(s.reader) + (Flat(s.blocks) + b) == s.accepted + b;
  }

  lemma TakeSplits(a: seq<Byte>, b: seq<Byte>, c: seq<Byte>, n: nat)
    requires n <= |b|
    ensures (a + b[..n]) + b[n..] + c == a + (b + c)
  {}

  lemma TakenFifo(s: State, n: nat)
    requires Fifo(s) && s.reader == Wants(n) && s.blocks != []
    ensures Fifo(Taken(s, n))
  {
    var b, rest := s.blocks[0], Flat(s.blocks[1..]);
    assert Flat(s.blocks) == b + rest;
    hide Flat;
    assert s.accepted == s.returned + (b + rest);
    if |b| > n {
      TakeSplits(s.returned, b, rest, n);
    } else {
      assert s.returned + b + [] + rest == s.returned + (b + rest);
    }
  }

  lemma RestoredFifo(s: State, t: bool)
    requires Fifo(s) && s.reader.Splitting?
    ensures Fifo(Restored(s, s.reader.tail).(reader := Done(t)))
  {
    var tail := s.reader.tail;
    assert ([tail] + s.blocks)[1..] == s.blocks;
    assert Flat([tail] + s.blocks) == tail + Flat(s.blocks);
    hide Flat;
    assert s.returned + tail + Flat(s.blocks) == s.returned + [] + (tail + Flat(s.blocks));
  }

  lemma StepFifo(s: State, t: Step)
    requires Fifo(s) && Enabled(s, t)
    ensures Fifo(Apply(s, t))
  {
    hide Flat;
    match t
    case Append => AddedFifo(s, s.writer.b);
    case Produce(b) => AddedFifo(s, b);
    case Take => if s.blocks != [] { TakenFifo(s, s.reader.n); }
    case PutBack => RestoredFifo(s, s.reader.tell);
    case _ =>
  }

  /** In every run the bytes come out in the order they went in, none lost, none twice. */
  lemma {:induction false} RunFifo(states: seq<State>, steps: seq<Step>, i: nat)
    requires Run(states, steps) && i < |states|
    ensures Fifo(states[i]) && states[i].returned <= states[i].accepted
  {
    if i > 0 {
      RunFifo(states, steps, i - 1);
      StepFifo(states[i - 1], steps[i - 1]);
    }
  }

  // --- how much goes in and comes out ---

  function Least(a: nat, b: nat): nat {
    if a < b then a else b
  }

  /** The bytes a step puts into the queue for good: a block past its check, and at interrupt level what finds room. */
  function Put(s: State, t: Step): seq<Byte>
    requires Enabled(s, t)
  {
    match t
    case Append => s.writer.b
    case Produce(b) => if s.len < s.limit then b else []
    case _ => []
  }

  /** How many bytes a step hands to the reader: what it asked for, or the whole first block if that is less. */
  function Got(s: State, t: Step): nat
    requires Enabled(s, t)
  {
    if t.Take? && s.blocks != [] then Least(s.reader.n, |s.blocks[0]|) else 0
  }

  /** In every run each step takes in exactly its bytes and hands out exactly the next ones not yet returned. */
  lemma StepMoves(states: seq<State>, steps: seq<Step>, i: nat)
    requires Run(states, steps) && i < |steps|
    ensures var s, t, s' := states[i], steps[i], states[i + 1];
      && s'.accepted == s.accepted + Put(s, t)
      && |s.returned| + Got(s, t) <= |s'.accepted|
      && s'.returned == s.returned + s'.accepted[|s.returned|..|s.returned| + Got(s, t)]
  {
    RunFifo(states, steps, i);
    RunFifo(states, steps, i + 1);
    StepOf(states, steps, i);
    hide Run, Fifo, Enabled, Apply;
    Counted(states[i], steps[i]);
    NextPart(states[i].returned, states[i + 1].returned, states[i + 1].accepted);
  }

  lemma StepOf(states: seq<State>, steps: seq<Step>, i: nat)
    requires Run(states, steps) && i < |steps|
    ensures Enabled(states[i], steps[i]) && states[i + 1] == Apply(states[i], steps[i])
  {}

  lemma Counted(s: State, t: Step)
    requires Enabled(s, t)
    ensures var s' := Apply(s, t);
      s'.accepted == s.accepted + Put(s, t) && s.returned <= s'.returned && |s'.returned| == |s.returned| + Got(s, t)
  {}

  lemma NextPart(a: seq<Byte>, b: seq<Byte>, all: seq<Byte>)
    requires a <= b <= all
    ensures b == a + all[|a|..|b|]
  {}

  /** The step brings in no block longer than this. */
  predicate Within(t: Step, most: nat) {
    (t.Write? ==> |t.b| <= most) && (t.Produce? ==> |t.p| <= most)
  }

  /** The block a writer may still add without another look at the queue. */
  function Coming(w: Writer): seq<Byte> {
    if w.Passed? then w.b else []
  }

  predicate Small(w: Writer, most: nat) {
    w.NoWriter? || w.Telling? || |w.b| <= most
  }

  predicate Short(blocks: seq<seq<Byte>>, most: nat) {
    forall i | 0 <= i < |blocks| :: |blocks[i]| <= most
  }

  ghost predicate Bounded(s: State, most: nat) {
    && Short(s.blocks, most) && Small(s.writer, most) && |Held(s.reader)| <= most
    && s.len + |Coming(s.writer)| + |Held(s.reader)| < s.limit + 3 * most
  }

  lemma StepBounded(s: State, t: Step, most: nat)
    requires Enabled(s, t) && Within(t, most) && s.len >= 0 && Bounded(s, most)
    ensures Bounded(Apply(s, t), most)
  {
    StepShort(s, t, most);
    assert s.blocks != [] ==> |s.blocks[0]| <= most;
    hide Short;
  }

  lemma StepShort(s: State, t: Step, most: nat)
    requires Enabled(s, t) && Within(t, most) && Bounded(s, most)
    ensures Short(Apply(s, t).blocks, most)
  {}

  /** With no block longer than that, the queue never holds three of them or more beyond its limit. */
  lemma {:induction false} RunBounded(states: seq<State>, steps: seq<Step>, most: nat, i: nat)
    requires Run(states, steps) && i < |states| && (forall k | 0 <= k < i :: Within(steps[k], most))
    requires most > 0
    ensures Bounded(states[i], most)
    ensures states[i].len < states[i].limit + 3 * most
  {
    RunFifo(states, steps, i);
    if i > 0 {
      RunBounded(states, steps, most, i - 1);
      RunFifo(states, steps, i - 1);
      StepBounded(states[i - 1], steps[i - 1], most);
    }
  }

  // --- who is asleep ---

  /** A reader asleep on a queue with data has a writer about to wake it. */
  ghost predicate ReaderServed(s: State) {
    && (s.reader.Starving? ==> s.starve || s.blocks != [])
    && (s.reader.Dozing? ==> (s.blocks == [] && s.starve) || s.writer == Telling)
  }

  lemma StepReaderServed(s: State, t: Step)
    requires Enabled(s, t) && ReaderServed(s)
    ensures ReaderServed(Apply(s, t))
  {}

  /** In every run: a sleeping reader's queue is empty, unless its wakeup is on the way. */
  lemma {:induction false} RunReaderServed(states: seq<State>, steps: seq<Step>, i: nat)
    requires Run(states, steps) && i < |states|
    ensures states[i].reader.Dozing? && states[i].blocks != [] ==> states[i].writer == Telling
    ensures ReaderServed(states[i])
  {
    if i > 0 {
      RunReaderServed(states, steps, i - 1);
      StepReaderServed(states[i - 1], steps[i - 1]);
    }
  }

  /** A step after which a flag cannot be out of date: no block is split, and nothing comes in at interrupt level. */
  predicate Plain(s: State, t: Step) {
    && !t.Produce?
    && (t.Take? && s.reader.Wants? && s.blocks != [] ==> |s.blocks[0]| <= s.reader.n)
  }

  /** A writer asleep on a queue it should fill has the flag set, or a reader about to wake it. */
  ghost predicate WriterServed(s: State) {
    && !s.reader.Splitting?
    && (s.writer.Flowing? ==> s.flow || s.len < s.limit / 2)
    && (s.writer.Asleep? ==> (s.flow && s.len >= s.limit / 2) || s.reader == Done(true))
  }

  lemma StepWriterServed(s: State, t: Step)
    requires Enabled(s, t) && Plain(s, t) && WriterServed(s)
    ensures WriterServed(Apply(s, t))
  {}

  lemma {:induction false} RunWriterServed(states: seq<State>, steps: seq<Step>, i: nat)
    requires Run(states, steps) && i < |states|
    requires forall k | 0 <= k < i :: Plain(states[k], steps[k])
    ensures WriterServed(states[i]) && states[i].limit == states[0].limit
  {
    if i > 0 {
      RunWriterServed(states, steps, i - 1);
      StepWriterServed(states[i - 1], steps[i - 1]);
    }
  }

  /** Reader and writer wait for each other, and neither will be woken by the other. */
  predicate Stuck(s: State) {
    s.writer.Asleep? && s.reader.Dozing?
  }

  /** With a limit of two or more, reads as long as every block and no interrupt-level writes, nobody gets stuck. */
  lemma NeverStuck(states: seq<State>, steps: seq<Step>, i: nat)
    requires Run(states, steps) && i < |states| && states[0].limit >= 2
    requires forall k | 0 <= k < i :: Plain(states[k], steps[k])
    ensures !Stuck(states[i])
  {
    RunFifo(states, steps, i);
    RunReaderServed(states, steps, i);
    RunWriterServed(states, steps, i);
  }

  // --- each condition is needed ---

  /** The state can be reached, and nothing came in at interrupt level if quiet. */
  ghost predicate Reached(s: State, quiet: bool, whole: bool) {
    exists states: seq<State>, steps: seq<Step> ::
        Run(states, steps) && states[|steps|] == s && Kept(states, steps, quiet, whole)
  }

  ghost predicate Kept(states: seq<State>, steps: seq<Step>, quiet: bool, whole: bool)
    requires Run(states, steps)
  {
    && (quiet ==> forall i | 0 <= i < |steps| :: !steps[i].Produce?)
    && (whole ==> forall i | 0 <= i < |states| :: !states[i].reader.Splitting?)
  }

  lemma Grow(s: State, t: Step, quiet: bool, whole: bool) returns (s': State)
    requires Reached(s, quiet, whole) && Enabled(s, t)
    requires (quiet ==> !t.Produce?) && (whole ==> !Apply(s, t).reader.Splitting?)
    ensures s' == Apply(s, t) && Reached(s', quiet, whole)
  {
    hide Enabled, Apply, Init;
    s' := Apply(s, t);
    var states: seq<State>, steps: seq<Step> :|
      Run(states, steps) && states[|steps|] == s && Kept(states, steps, quiet, whole);
    var states', steps' := states + [s'], steps + [t];
    assert Run(states', steps') && states'[|steps'|] == s';
    assert Kept(states', steps', quiet, whole);
  }

  /** A queue just opened. */
  function Opened(limit: nat): State {
    State([], 0, limit, false, true, false, NoWriter, NoReader, [], [])
  }

  lemma Opening(limit: nat, quiet: bool, whole: bool)
    ensures Reached(Opened(limit), quiet, whole)
  {
    var states, steps: seq<Step> := [Opened(limit)], [];
    assert Run(states, steps) && Kept(states, steps, quiet, whole);
  }

  /** A first block written, and nobody waiting. */
  lemma Filled(limit: nat, b: seq<Byte>, quiet: bool, whole: bool) returns (s: State)
    requires limit > 0
    ensures Reached(s, quiet, whole)
    ensures s == Opened(limit).(blocks := [b], len := |b|, starve := false, accepted := b)
  {
    hide Reached;
    Opening(limit, quiet, whole);
    s := Grow(Opened(limit), Write(b), quiet, whole);
    s := Grow(s, Check, quiet, whole);
    s := Grow(s, Append, quiet, whole);
    s := Grow(s, TellReader, quiet, whole);
  }

  /** A second writer finds the queue full and sets the flag. */
  lemma Blocked(s: State, c: seq<Byte>, quiet: bool, whole: bool) returns (s': State)
    requires Reached(s, quiet, whole) && s.writer == NoWriter && s.reader == NoReader && s.len >= s.limit && !s.noblock
    ensures Reached(s', quiet, whole) && s' == s.(flow := true, writer := Flowing(c))
  {
    hide Reached;
    s' := Grow(s, Write(c), quiet, whole);
    s' := Grow(s', Check, quiet, whole);
    s' := Grow(s', SetFlow, quiet, whole);
  }

  /** The reader takes the last block with the flag clear, comes back, and goes to sleep. */
  lemma Drained(s: State, n: nat, quiet: bool, whole: bool) returns (s': State)
    requires Reached(s, quiet, whole) && s.reader == NoReader && |s.blocks| == 1 && s.len == |s.blocks[0]| <= n
    requires s.writer.Asleep? && (!s.flow || s.limit / 2 == 0)
    ensures Reached(s', quiet, whole) && Stuck(s') && s'.limit == s.limit
  {
    hide Reached;
    s' := Grow(s, Read(n), quiet, whole);
    s' := Grow(s', Take, quiet, whole);
    s' := Grow(s', TellWriter, quiet, whole);
    s' := Grow(s', Read(n), quiet, whole);
    s' := Grow(s', Take, quiet, whole);
    s' := Grow(s', SleepEmpty, quiet, whole);
  }

  /**
   * Whatever the limit, splitting alone can strand both: the read clears the flag for a block it
   * then puts most of back, before the writer that set it has gone to sleep.
   */
  lemma SplittingStrands(limit: nat) returns (s: State)
    requires limit >= 2
    ensures Reached(s, true, false) && Stuck(s) && s.limit == limit
  {
    hide Reached;
    s := Filled(limit, Zeros(limit + 1), true, false);
    s := Blocked(s, Zeros(1), true, false);
    s := Grow(s, Read(1), true, false);
    s := Grow(s, Take, true, false);
    s := Grow(s, PutBack, true, false);
    s := Grow(s, TellWriter, true, false);
    s := Grow(s, SleepFull, true, false);
    s := Drained(s, limit, true, false);
  }

  /** So can a write at interrupt level that fills the queue between the flag and the sleep. */
  lemma ProducingStrands(limit: nat) returns (s: State)
    requires limit >= 2
    ensures Reached(s, false, true) && Stuck(s) && s.limit == limit
  {
    hide Reached;
    s := Filled(limit, Zeros(limit), false, true);
    s := Blocked(s, Zeros(1), false, true);
    s := Grow(s, Read(limit), false, true);
    s := Grow(s, Take, false, true);
    s := Grow(s, TellWriter, false, true);
    s := Grow(s, Produce(Zeros(limit)), false, true);
    s := Grow(s, SleepFull, false, true);
    s := Drained(s, limit, false, true);
  }

  /** And with a limit of one no read ever wakes the writer. */
  lemma LimitOfOneStrands() returns (s: State)
    ensures Reached(s, true, true) && Stuck(s) && s.limit == 1
  {
    hide Reached;
    s := Filled(1, Zeros(1), true, true);
    s := Blocked(s, Zeros(1), true, true);
    s := Grow(s, SleepFull, true, true);
    s := Drained(s, 1, true, true);
  }

  /** A limit of zero lets nothing in. */
  lemma LimitOfZeroStrands() returns (s: State)
    ensures Reached(s, true, true) && Stuck(s) && s.limit == 0
  {
    hide Reached;
    Opening(0, true, true);
    s := Blocked(Opened(0), Zeros(1), true, true);
    s := Grow(s, SleepFull, true, true);
    s := Grow(s, Read(1), true, true);
    s := Grow(s, Take, true, true);
    s := Grow(s, SleepEmpty, true, true);
  }

  lemma Weaken(s: State, quiet: bool, whole: bool, quiet': bool, whole': bool)
    requires Reached(s, quiet, whole) && (quiet' ==> quiet) && (whole' ==> whole)
    ensures Reached(s, quiet', whole')
  {
    hide Enabled, Apply, Init;
    var states: seq<State>, steps: seq<Step> :|
      Run(states, steps) && states[|steps|] == s && Kept(states, steps, quiet, whole);
    assert Kept(states, steps, quiet', whole');
  }

  /** Where no block is ever split and nothing comes in at interrupt level, every step is plain. */
  lemma KeptIsPlain(states: seq<State>, steps: seq<Step>, k: nat)
    requires Run(states, steps) && Kept(states, steps, true, true) && k < |steps|
    ensures Plain(states[k], steps[k])
  {
    assert Enabled(states[k], steps[k]) && states[k + 1] == Apply(states[k], steps[k]);
    assert !states[k + 1].reader.Splitting? && !steps[k].Produce?;
  }

  lemma PlainNeverStuck(s: State)
    requires Reached(s, true, true) && s.limit >= 2
    ensures !Stuck(s)
  {
    var states: seq<State>, steps: seq<Step> :|
      Run(states, steps) && states[|steps|] == s && Kept(states, steps, true, true);
    forall k | 0 <= k < |steps| ensures Plain(states[k], steps[k]) { KeptIsPlain(states, steps, k); }
    hide Plain, Kept, Reached;
    RunWriterServed(states, steps, |steps|);
    NeverStuck(states, steps, |steps|);
  }

  /** Some run strands both, with this limit. */
  ghost predicate CanStick(limit: nat, quiet: bool, whole: bool) {
    exists s :: Reached(s, quiet, whole) && Stuck(s) && s.limit == limit
  }

  /**
   * When a reader and a writer can end up waiting for each other: unless the limit is two or more, nothing
   * comes in at interrupt level, and no read is shorter than the block it finds.
   */
  lemma StuckExactly(limit: nat, quiet: bool, whole: bool)
    ensures CanStick(limit, quiet, whole) <==> !(limit >= 2 && quiet && whole)
  {
    hide Reached, Stuck;
    if limit >= 2 && quiet && whole {
      forall s | Reached(s, quiet, whole) && s.limit == limit ensures !Stuck(s) { PlainNeverStuck(s); }
    } else {
      var s;
      if limit == 0 {
        s := LimitOfZeroStrands();
        Weaken(s, true, true, quiet, whole);
      } else if limit == 1 {
        s := LimitOfOneStrands();
        Weaken(s, true, true, quiet, whole);
      } else if !whole {
        s := SplittingStrands(limit);
        Weaken(s, true, false, quiet, whole);
      } else {
        s := ProducingStrands(limit);
        Weaken(s, false, true, quiet, whole);
      }
      assert Reached(s, quiet, whole) && Stuck(s) && s.limit == limit;
    }
  }
}
