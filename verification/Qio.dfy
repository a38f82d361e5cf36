// The structures Block and Queue of emu/qio.c and the critical sections of qbwrite, qproduce and qbread.

module Qio {
  import opened Lists
  import opened Flow

  class Block {
    var next: Block?
    var rp: nat
    var wp: nat
    const base: array<Byte>

    /** allocb */
    constructor (size: nat)
      ensures next == null && rp == wp == 0 && base.Length == size && fresh(base)
    {
      base := new Byte[size](_ => 0);
      next := null;
      rp, wp := 0, 0;
    }

    ghost predicate Valid()
      reads `rp, `wp
    {
      rp <= wp <= base.Length
    }

    /** The bytes from rp up to wp. */
    ghost function Bytes(): seq<Byte>
      requires Valid()
      reads `rp, `wp, base
    {
      base[rp..wp]
    }

    /** The memmove that fills a new block. */
    method Fill(src: array<Byte>, at: nat, n: nat)
      requires wp == rp == 0 && n == base.Length && at + n <= src.Length && src != base
      modifies this`wp, base
      ensures Valid() && rp == 0 && Bytes() == old(src[at..at + n])
    {
      for i := 0 to n
        invariant base[..i] == src[at..at + i] && src[..] == old(src[..])
        modifies base
      {
        base[i] := src[at + i];
      }
      wp := n;
      assert base[0..n] == base[..n];
    }
  }

  /** allocb and memmove: a block of its own with a copy of the bytes. */
  method NewBlock(src: array<Byte>, at: nat, n: nat) returns (b: Block)
    requires at + n <= src.Length
    ensures fresh(b) && fresh(b.base) && b.Valid() && b.next == null && b.Bytes() == src[at..at + n]
  {
    b := new Block(n);
    b.Fill(src, at, n);
  }

  /** The block behind the i-th, if any. */
  ghost function Behind(q: seq<Block>, i: nat): Block? { if i + 1 < |q| then q[i + 1] else null }

  /** The blocks are linked in this order, and end it. */
  ghost predicate Linked(q: seq<Block>)
    reads q`next
  {
    && (forall i, j | 0 <= i < j < |q| :: q[i] != q[j])
    && (forall i | 0 <= i < |q| :: q[i].next == Behind(q, i))
  }

  /** The blocks hold these bytes. */
  ghost predicate Loaded(q: seq<Block>, data: seq<seq<Byte>>)
    reads q`rp, q`wp, set b | b in q :: b.base
  {
    |q| == |data| && forall i | 0 <= i < |q| :: q[i].Valid() && q[i].Bytes() == data[i]
  }

  lemma LoadedMore(q: seq<Block>, data: seq<seq<Byte>>, b: Block)
    requires Loaded(q, data) && b.Valid()
    ensures Loaded(q + [b], data + [b.Bytes()]) && Loaded([b] + q, [b.Bytes()] + data)
    ensures |b.Bytes()| == b.wp - b.rp
  {}

  class Queue {
    var bfirst: Block?
    var blast: Block?
    var len: int
    var limit: nat
    var flow: bool
    var starve: bool
    var noblock: bool
    ghost var list: seq<Block>
    ghost var blocks: seq<seq<Byte>>
    ghost var writer: Writer
    ghost var reader: Reader
    ghost var accepted: seq<Byte>
    ghost var returned: seq<Byte>

    /** The abstract state the fields stand for. */
    ghost function View(): State
      reads this
    {
      State(blocks, len, limit, flow, starve, noblock, writer, reader, accepted, returned)
    }

    /** The list from bfirst to blast holds the blocks of the abstract queue. */
    ghost predicate Valid()
      reads `bfirst, `blast, `list, `blocks, list, set b | b in list :: b.base
    {
      && Linked(list) && Loaded(list, blocks)
      && bfirst == (if list == [] then null else list[0])
      && (list != [] ==> blast == list[|list| - 1])
    }

    /** The pointers that put a block at the end. */
    method Chain(b: Block)
      requires Valid() && b !in list && b.next == null
      modifies this`bfirst, this`blast, list`next
      ensures bfirst == (list + [b])[0] && blast == b && Linked(list + [b])
    {
      hide Loaded;
      if bfirst != null {
        blast.next := b;
      } else {
        bfirst := b;
      }
      blast := b;
    }

    /** The assignments that put a block at the end. */
    method Link(b: Block)
      requires Valid() && b !in list && b.Valid() && b.next == null
      modifies this`bfirst, this`blast, this`len, this`list, this`blocks, list`next
      ensures Valid() && list == old(list) + [b] && blocks == old(blocks) + [b.Bytes()]
      ensures len == old(len) + |b.Bytes()|
    {
      hide Loaded, Linked;
      Chain(b);
      LoadedMore(list, blocks, b);
      len := len + (b.wp - b.rp);
      list, blocks := list + [b], blocks + [b.Bytes()];
    }

    /** A block at the end of the queue; the result says whether a reader has to be woken. */
    method Accept(b: Block) returns (dowakeup: bool)
      requires Valid() && b !in list && b.Valid() && b.next == null
      modifies this, list`next
      ensures Valid() && View() == Added(old(View()), b.Bytes()) && dowakeup == old(starve)
    {
      hide Valid, Block.Bytes;
      Link(b);
      dowakeup := starve;
      starve := false;
      accepted := accepted + b.Bytes();
    }

    /** qbwrite's critical section. */
    method AppendStep(b: Block) returns (dowakeup: bool)
      requires Valid() && b !in list && b.Valid() && b.next == null && writer == Passed(b.Bytes())
      modifies this, list`next
      ensures Valid() && View() == Apply(old(View()), Append) && dowakeup == writer.Telling?
    {
      hide Valid, Block.Bytes;
      dowakeup := Accept(b);
      writer := if dowakeup then Telling else NoWriter;
    }

    /** qproduce, with the Wakeup it ends with. */
    method Produce(p: array<Byte>, n: nat) returns (r: int)
      requires Valid() && n <= p.Length
      modifies this, list`next
      ensures Valid() && View() == Apply(old(View()), Step.Produce(p[..n]))
      ensures r == if old(len) >= limit then -1 else n
      ensures r == -1 ==> View() == old(View()).(flow := true) && list == old(list)
      ensures r >= 0 ==> blocks == old(blocks) + [p[..n]] && accepted == old(accepted) + p[..n] && len == old(len) + n
    {
      hide Valid;
      if len >= limit {
        flow := true;
        return -1;
      }
      var b := NewBlock(p, 0, n);
      assert b.Bytes() == p[..n];
      hide Block.Bytes, Added;
      var dowakeup := Accept(b);
      reader := if dowakeup then ReaderWoken(reader) else reader;
      r := n;
    }

    /** The block ends after its first n bytes. */
    method Shorten(nb: Block, n: nat)
      requires nb.Valid() && n <= |nb.Bytes()|
      modifies nb`wp
      ensures nb.Valid() && nb.Bytes() == old(nb.Bytes())[..n]
    {
      assert nb.Bytes()[..n] == nb.base[nb.rp..nb.rp + n];
      nb.wp := nb.rp + n;
    }

    /** The assignment that takes the first block off. */
    method Unlink() returns (nb: Block)
      requires Valid() && bfirst != null
      modifies this`bfirst, this`list, this`blocks
      ensures Valid() && nb == old(bfirst) && nb !in list && nb.Valid()
      ensures old(blocks) != [] && nb.Bytes() == old(blocks)[0] && blocks == old(blocks)[1..]
    {
      nb := bfirst;
      bfirst := nb.next;
      list, blocks := list[1..], blocks[1..];
    }

    /** The pointers that put a block in front. */
    method ChainFront(b: Block)
      requires Valid() && b !in list
      modifies this`bfirst, this`blast, b`next
      ensures bfirst == b && blast == ([b] + list)[|list|] && Linked([b] + list)
    {
      hide Loaded;
      b.next := bfirst;
      if bfirst == null {
        blast := b;
      }
      bfirst := b;
    }

    /** The assignments that put a block in front. */
    method LinkFront(b: Block)
      requires Valid() && b !in list && b.Valid()
      modifies this`bfirst, this`blast, this`list, this`blocks, b`next
      ensures Valid() && blocks == [b.Bytes()] + old(blocks) && b.Valid() && b.Bytes() == old(b.Bytes())
      ensures list == [b] + old(list)
    {
      hide Loaded, Linked;
      ChainFront(b);
      LoadedMore(list, blocks, b);
      list, blocks := [b] + list, [b.Bytes()] + blocks;
    }

    lemma Empty()
      requires Valid()
      ensures bfirst == null <==> blocks == []
    {}

    /** The first critical section of qbread: the first block comes off the list, however long. */
    method TakeStep(n: nat) returns (nb: Block?)
      requires Valid() && reader == Wants(n)
      modifies this
      ensures Valid() && View() == Apply(old(View()), Take)
      ensures nb == old(bfirst)
      ensures nb != null ==> |returned| == |old(returned)| + Least(n, |old(blocks)[0]|)
      ensures nb != null ==> nb !in list && nb.Valid() && nb.Bytes() == old(blocks)[0]
    {
      hide Valid;
      Empty();
      ghost var s := View();
      if bfirst == null {
        starve := true;
        reader := Starving(n);
        return null;
      }
      nb := Unlink();
      len := len - (nb.wp - nb.rp);
      var dowakeup := false;
      if flow && len < limit / 2 {
        flow := false;
        dowakeup := true;
      }
      returned := Taken(s, n).returned;
      reader := Taken(s, n).reader;
    }

    /**
     * The second critical section, for a block that was too long: what the caller did not ask for goes back in
     * front.
     */
    method PutBackStep(nb: Block, n: nat)
      requires Valid() && nb !in list && nb.Valid() && n <= |nb.Bytes()|
      requires reader.Splitting? && reader.tail == nb.Bytes()[n..]
      modifies this, nb`wp
      ensures Valid() && View() == Apply(old(View()), PutBack)
      ensures nb.Valid() && nb.Bytes() == old(nb.Bytes())[..n]
    {
      hide Valid, Block.Bytes;
      CopyFront(nb, n);
      Shorten(nb, n);
      reader := Done(reader.tell);
    }

    /** A block with the rest of nb goes to the front. */
    method CopyFront(nb: Block, n: nat)
      requires Valid() && nb !in list && nb.Valid() && n <= |nb.Bytes()|
      modifies this`bfirst, this`blast, this`list, this`blocks, this`len
      ensures Valid() && nb !in list && blocks == [nb.Bytes()[n..]] + old(blocks)
      ensures len == old(len) + |nb.Bytes()[n..]|
    {
      hide Valid;
      var b := NewBlock(nb.base, nb.rp + n, nb.wp - nb.rp - n);
      assert nb.base[nb.rp + n..nb.wp] == nb.Bytes()[n..];
      LinkFront(b);
      len := len + (b.wp - b.rp);
    }
  }
}
