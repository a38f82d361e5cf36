// mntrpcread of emu/devmnt.c: messages cut out of a byte stream that arrives in pieces of any size.

module Stream {
  import opened Lists
  import opened Styx

  const MAXRPC := MAXFDATA + MAXMSG

  /** How mntrpcread ends: with a message, or by the error or panic it raises. */
  datatype Outcome = Message | Hungup | BadType | NegativeSize

  ghost function Bytes(pieces: seq<seq<Byte>>): seq<Byte> {
    if pieces == [] then [] else pieces[0] + Bytes(pieces[1..])
  }

  method PutPiece(buf: array<Byte>, at: nat, piece: seq<Byte>, n: nat)
    requires n <= |piece| && at + n <= buf.Length
    modifies buf
    ensures buf[..at] == old(buf[..at]) && buf[at..at + n] == piece[..n]
  {
    for i := 0 to n
      invariant buf[..at] == old(buf[..at]) && buf[at..at + i] == piece[..i]
    {
      buf[at + i] := piece[i];
    }
  }

  /** The channel to the server: the pieces still to come, none of them empty. */
  class Channel {
    var arriving: seq<seq<Byte>>

    ghost predicate Valid()
      reads this
    {
      forall i | 0 <= i < |arriving| :: arriving[i] != []
    }

    /** The device's read: at most len bytes, no more than one piece, nothing at the end of the stream. */
    method Read(buf: array<Byte>, at: nat, len: nat) returns (n: nat)
      requires Valid() && at + len <= buf.Length
      modifies this, buf
      ensures Valid() && n <= len && buf[..at] == old(buf[..at])
      ensures buf[at..at + n] + Bytes(arriving) == old(Bytes(arriving))
      ensures n == 0 ==> arriving == old(arriving) && (len == 0 || arriving == [])
      ensures n > 0 ==> old(arriving) != [] && n <= |old(arriving)[0]|
      ensures n > 0 ==> arriving == (if n == |old(arriving)[0]| then [] else [old(arriving)[0][n..]]) + old(arriving)[1..]
      ensures n > 0 && n < |old(arriving)[0]| ==> n == len
    {
      if len == 0 || arriving == [] {
        return 0;
      }
      var piece, rest := arriving[0], arriving[1..];
      n := if |piece| <= len then |piece| else len;
      PutPiece(buf, at, piece, n);
      if n == |piece| {
        arriving := rest;
        assert arriving == [] + rest;
      } else {
        arriving := [piece[n..]] + rest;
        assert arriving[0] == piece[n..] && arriving[1..] == rest;
      }
      assert piece[..n] + piece[n..] == piece;
      assert buf[at..at + n] + Bytes(arriving) == old(Bytes(arriving));
    }
  }

  /** The fields of Mnt that mntrpcread uses: what the last read left over. */
  class Mnt {
    var part: array<Byte>
    var npart: nat
    var c: Channel

    ghost predicate Valid()
      reads this, c
    {
      c.Valid() && part.Length == MAXRPC && npart <= MAXRPC
    }

    constructor (chan: Channel)
      requires chan.Valid()
      ensures Valid() && Unread() == Bytes(chan.arriving) && c == chan
    {
      part := new Byte[MAXRPC](_ => 0);
      npart := 0;
      c := chan;
    }

    /** The bytes not yet handed out. */
    ghost function Unread(): seq<Byte>
      requires Valid()
      reads this, part, c
    {
      part[..npart] + Bytes(c.arriving)
    }
  }

  /** A running total of the bytes held falls inside an attach message, past its first two bytes. */
  ghost predicate CutInside(b: seq<Byte>, held: nat, pieces: seq<seq<Byte>>)
    decreases |pieces|
  {
    held < |b| && ((held >= 3 && Attach(b[0])) || (pieces != [] && CutInside(b, held + |pieces[0]|, pieces[1..])))
  }

  lemma {:induction false} OnlyAttachIsCut(b: seq<Byte>, held: nat, pieces: seq<seq<Byte>>)
    requires |b| > 0 && !Attach(b[0])
    ensures !CutInside(b, held, pieces)
    decreases |pieces|
  {
    if pieces != [] {
      OnlyAttachIsCut(b, held + |pieces[0]|, pieces[1..]);
    }
  }

  /** An attach reply of thirteen bytes that arrives as three and ten. */
  lemma AttachCanBeCut(b: seq<Byte>)
    requires Frame(b) && b[0] == Rattach
    ensures |b| == 13 && CutInside(b, 0, [b[..3], b[3..]])
  {
    HeaderIs(b[0]);
    assert CutInside(b, 3, [b[..3], b[3..]][1..]);
  }

  /** What one call must answer, given the message the stream begins with and how it will arrive. */
  ghost function Answer(b: seq<Byte>, held: nat, pieces: seq<seq<Byte>>): Outcome {
    if CutInside(b, held, pieces) then NegativeSize else if |b| <= MAXRPC then Message else Hungup
  }

  /** The stream begins with the message b. */
  ghost predicate Begins(stream: seq<Byte>, b: seq<Byte>) {
    Frame(b) && b <= stream
  }

  lemma AttachIsShort(b: seq<Byte>)
    requires Frame(b) && Attach(b[0])
    ensures |b| <= MAXRPC
  {
    HeaderIs(b[0]);
  }

  lemma FrameLong(b: seq<Byte>)
    requires Frame(b)
    ensures |b| >= 3
  {}

  lemma BeginsLong(stream: seq<Byte>, b: seq<Byte>)
    requires Begins(stream, b)
    ensures |b| >= 3 && b <= stream
  {}

  lemma NoBytes()
    ensures Bytes([]) == []
  {}

  /** convM2S on what is held so far. */
  lemma Checked(s: seq<Byte>, n: nat, tail: seq<Byte>, b: seq<Byte>, stream: seq<Byte>)
    requires |s| == MAXRPC && n <= |s| && s[..n] + tail == stream && Begins(stream, b)
    ensures n >= |b| ==> Result(s, n) == |b| && s[..|b|] == b
    ensures n < |b| ==> Result(s, n) == if n >= 3 && Attach(b[0]) then |b| else 0
  {
    assert b == stream[..|b|];
    if n >= |b| {
      assert s[..|b|] == stream[..|b|];
      WholeMessage(s, n, b);
    } else {
      assert s[..n] == b[..n];
      PartMessage(s, n, b);
    }
  }

  /** The bytes held, and those to come, after a read of a whole or a part of the next piece. */
  lemma PieceRead(b: seq<Byte>, held: nat, pieces: seq<seq<Byte>>, got: nat, rest: seq<seq<Byte>>, stream: seq<Byte>)
    requires Begins(stream, b) && held < |b| && !(held >= 3 && Attach(b[0])) && pieces != [] && got <= |pieces[0]|
    requires rest == (if got == |pieces[0]| then [] else [pieces[0][got..]]) + pieces[1..]
    requires got < |pieces[0]| ==> held + got == MAXRPC
    ensures Answer(b, held + got, rest) == Answer(b, held, pieces)
  {
    hide Frame;
    if got == |pieces[0]| {
      assert rest == pieces[1..];
    } else if |b| > MAXRPC {
      if Attach(b[0]) { AttachIsShort(b); }
      OnlyAttachIsCut(b, held, pieces);
      OnlyAttachIsCut(b, held + got, rest);
    } else {
      assert !CutInside(b, held + |pieces[0]|, pieces[1..]);
      assert !CutInside(b, held + got, rest);
    }
  }

  /** A read of nothing before the message is complete: the buffer is full. */
  lemma NothingRead(s: seq<Byte>, n: nat, pieces: seq<seq<Byte>>, b: seq<Byte>, stream: seq<Byte>)
    requires |s| == MAXRPC && n <= MAXRPC && s[..n] + Bytes(pieces) == stream && Begins(stream, b) && n < |b|
    requires MAXRPC - n == 0 || pieces == []
    ensures Answer(b, n, pieces) == Hungup
  {
    hide Frame;
    assert pieces == [] ==> |stream| == n;
    if Attach(b[0]) { AttachIsShort(b); }
    OnlyAttachIsCut(b, n, pieces);
  }

  /** What the check of the bytes held means for the answer. */
  lemma CheckAnswers(b: seq<Byte>, n: nat, pieces: seq<seq<Byte>>)
    requires Frame(b) && n <= MAXRPC
    ensures n >= |b| ==> Answer(b, n, pieces) == Message
    ensures n < |b| && n >= 3 && Attach(b[0]) ==> Answer(b, n, pieces) == NegativeSize
  {
    hide Frame;
  }

  /**
   * mntrpcread without its interruptions. For any message b the unread bytes begin with, the
   * outcome is the one Answer gives; a message read is in the buffer, converted, and exactly
   * its bytes are used up.
   */
  method MntRpcRead(m: Mnt, rpc: array<Byte>, reply: Fcall, ghost b: seq<Byte>) returns (res: Outcome, ghost used: nat)
    requires m.Valid() && rpc.Length == MAXRPC && rpc != m.part && reply.Valid()
    modifies m`npart, m.part, m.c, rpc, reply
    ensures m.Valid() && reply.Valid()
    ensures res == Message ==>
        used <= MAXRPC && rpc[..used] + m.Unread() == old(m.Unread()) && Decoded(rpc[..], reply, used)
    ensures Begins(old(m.Unread()), b) ==> res == Answer(b, old(m.npart), old(m.c.arriving))
    ensures Begins(old(m.Unread()), b) && res == Message ==> used == |b|
  {
    hide Bytes, Result, Decoded, Frame, CutInside, Answer, Begins, Attach;
    ghost var begins := Begins(m.Unread(), b);
    ghost var answer := Answer(b, m.npart, m.c.arriving);
    ghost var stream := m.Unread();
    var n: nat := m.npart;
    var eof := false;
    if begins { BeginsLong(stream, b); }
    used := 0;
    var checking := n > 0;
    if checking {
      CopyBytes(m.part, 0, rpc, n);
      m.npart := 0;
    }
    while true
      invariant m.Valid() && reply.Valid() && n <= MAXRPC && m.npart == 0
      invariant rpc[..n] + Bytes(m.c.arriving) == stream
      invariant begins ==> Answer(b, n, m.c.arriving) == answer
      invariant begins && !checking ==> n < |b| && !(n >= 3 && Attach(b[0]))
      decreases |Bytes(m.c.arriving)|, if eof then 0 else 1, if checking then 1 else 0
    {
      if !checking {
        ghost var pieces := m.c.arriving;
        var got := m.c.Read(rpc, n, MAXRPC - n);
        if got == 0 {
          if begins { NothingRead(rpc[..], n, m.c.arriving, b, stream); }
          if eof {
            return Hungup, 0;
          }
          eof := true;
          continue;
        }
        eof := false;
        assert rpc[..n + got] == rpc[..n] + rpc[n..n + got];
        assert |Bytes(m.c.arriving)| == |Bytes(pieces)| - got;
        if begins { PieceRead(b, n, pieces, got, m.c.arriving, stream); }
        n := n + got;
      }
      checking := false;
      var done;
      done, res, used := Check(m, rpc, reply, n, b, stream);
      if done {
        return;
      }
    }
  }

  /** The statements from the label chk on: convert what is held, and keep what is left over. */
  method Check(m: Mnt, rpc: array<Byte>, reply: Fcall, n: nat, ghost b: seq<Byte>, ghost stream: seq<Byte>)
      returns (done: bool, res: Outcome, ghost used: nat)
    requires m.Valid() && rpc.Length == MAXRPC && rpc != m.part && reply.Valid() && n <= MAXRPC && m.npart == 0
    requires rpc[..n] + Bytes(m.c.arriving) == stream
    modifies m`npart, m.part, reply
    ensures m.Valid() && reply.Valid()
    ensures !done ==> m.npart == 0
    ensures done && res == Message ==>
        used <= MAXRPC && rpc[..used] + m.Unread() == stream && Decoded(rpc[..], reply, used)
    ensures Begins(stream, b) ==> (done <==> n >= |b| || (n >= 3 && Attach(b[0])))
    ensures Begins(stream, b) && done ==> res == Answer(b, n, m.c.arriving)
    ensures Begins(stream, b) && done && res == Message ==> used == |b|
  {
    hide Bytes, Result, Decoded, Frame, CutInside, Answer;
    var cn := ConvM2S(rpc, reply, n);
    if Begins(stream, b) {
      FrameLong(b);
      assert rpc[..][..n] == rpc[..n];
      Checked(rpc[..], n, Bytes(m.c.arriving), b, stream);
      CheckAnswers(b, n, m.c.arriving);
    }
    done, res, used := true, BadType, 0;
    if cn > 0 {
      if n < cn {
        res := NegativeSize;
      } else {
        m.npart := n - cn;
        CopyBytes(rpc, cn, m.part, n - cn);
        assert rpc[..n] == rpc[..cn] + rpc[cn..n];
        res, used := Message, cn;
      }
    } else {
      done := cn < 0;
    }
  }

  method CopyBytes(from: array<Byte>, at: nat, to: array<Byte>, n: nat)
    requires from != to && at + n <= from.Length && n <= to.Length
    modifies to
    ensures to[..n] == from[at..at + n]
  {
    for i := 0 to n
      invariant to[..i] == from[at..at + i]
    {
      to[i] := from[at + i];
    }
  }

  /** Messages mntrpcread can take whole, however they arrive. */
  ghost predicate Plain(b: seq<Byte>) {
    Frame(b) && !Attach(b[0]) && |b| <= MAXRPC
  }

  lemma PlainAnswer(b: seq<Byte>, held: nat, pieces: seq<seq<Byte>>)
    requires Plain(b)
    ensures Answer(b, held, pieces) == Message
  {
    hide Frame;
    FrameLong(b);
    OnlyAttachIsCut(b, held, pieces);
  }

  lemma FirstOf(ms: seq<seq<Byte>>, i: nat, rest: seq<Byte>)
    requires i < |ms| && Plain(ms[i])
    ensures Begins(Bytes(ms[i..]) + rest, ms[i])
    ensures (Bytes(ms[i..]) + rest)[|ms[i]|..] == Bytes(ms[i + 1..]) + rest
  {
    hide Frame;
    assert ms[i..][0] == ms[i] && ms[i..][1..] == ms[i + 1..];
    assert Bytes(ms[i..]) + rest == ms[i] + (Bytes(ms[i + 1..]) + rest);
  }

  /** mountio's reads, one after another: the messages sent, in order, however the transport cut them up. */
  method ReadMessages(m: Mnt, rpc: array<Byte>, reply: Fcall, count: nat, ghost ms: seq<seq<Byte>>,
      ghost rest: seq<Byte>)
      returns (ok: bool, ghost got: seq<seq<Byte>>)
    requires m.Valid() && rpc.Length == MAXRPC && rpc != m.part && reply.Valid()
    requires m.Unread() == Bytes(ms) + rest && |ms| == count && forall i | 0 <= i < |ms| :: Plain(ms[i])
    modifies m`npart, m.part, m.c, rpc, reply
    ensures ok && got == ms && m.Valid() && m.Unread() == rest
  {
    hide Bytes, Frame, Decoded, Answer, Plain, Begins;
    got := [];
    assert ms[0..] == ms;
    for i := 0 to count
      invariant m.Valid() && reply.Valid() && got == ms[..i] && m.Unread() == Bytes(ms[i..]) + rest
    {
      FirstOf(ms, i, rest);
      PlainAnswer(ms[i], m.npart, m.c.arriving);
      ghost var stream := m.Unread();
      ghost var used: nat;
      var res: Outcome;
      res, used := MntRpcRead(m, rpc, reply, ms[i]);
      if res != Message {
        return false, got;
      }
      got := got + [rpc[..used]];
      BeginsLong(stream, ms[i]);
      assert rpc[..used] == stream[..used] == ms[i];
      assert m.Unread() == stream[used..];
    }
    NoBytes();
    assert ms[count..] == [];
    ok := true;
  }
}
