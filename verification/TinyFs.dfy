// The operations of the tiny file system of emu/devtinyfs.c.

module TinyFs {
  import opened Lists
  import opened TinyFsBlocks
  import opened TinyFsState

  /** checksum */
  method ComputeChecksum(p: seq<Byte>) returns (s: Byte)
    ensures s == Checksum(p)
  {
    s := 0;
    assert p[..0] == [];
    for i := 0 to |p|
      invariant s == Checksum(p[..i])
    {
      assert p[..i + 1][..i] == p[..i];
      s := (s + p[i]) % 256;
    }
    assert p[..|p|] == p;
  }

  class Tfs {
    var medium: seq<Block>
    var used: array<bool>
    var files: seq<Tfile>
    var nf: nat
    ghost var chains: map<nat, seq<nat>>
    /** Every state the medium has been in, the present one last. */
    ghost var history: seq<seq<Block>>

    ghost predicate Valid()
      reads this, used
    {
      && Consistent(medium, used[..], files, chains) && FreeOk(files, nf)
      && |history| > 0 && history[|history| - 1] == medium
    }

    /** devtab[].write of one block: the one thing that changes the medium. */
    method DevWrite(bno: nat, blk: Block)
      requires bno < |medium|
      modifies this`medium, this`history
      ensures medium == old(medium)[bno := blk] && history == old(history) + [medium]
    {
      medium := medium[bno := blk];
      history := history + [medium];
    }

    /** mapalloc: the first clear bit, byte by byte. */
    method MapAlloc() returns (bno: nat)
      requires MapOk(used[..], |medium|)
      modifies used
      ensures bno == NOTABNO ==> used[..] == old(used[..]) && forall b | 0 <= b < |medium| :: used[b]
      ensures bno != NOTABNO ==> bno < |medium| && Taken(old(used[..]), used[..], [bno])
    {
      var lim := (|medium| + 8 - 1) / 8;
      for i := 0 to lim
        invariant used[..] == old(used[..])
        invariant forall b | 0 <= b < 8 * i :: used[b]
      {
        for j := 0 to 8
          invariant used[..] == old(used[..])
          invariant forall b | 0 <= b < 8 * i + j :: used[b]
        {
          if !used[i * 8 + j] {
            bno := i * 8 + j;
            used[bno] := true;
            return;
          }
        }
      }
      bno := NOTABNO;
    }

    /** writedata */
    method WriteData(bno: nat, next: nat, buf: seq<Byte>, last: bool)
      requires bno < |medium| && next < 0x10000 && |buf| <= DLEN
      modifies this`medium, this`history
      ensures medium == old(medium)[bno := if last then DataImage(TAGEND, |buf|, buf) else DataImage(TAGDATA, next, buf)]
      ensures history == old(history) + [medium]
    {
      var tag: Byte := if last then TAGEND else TAGDATA;
      var word := if last then |buf| else next;
      var md: seq<Byte> := [tag, word % 256, word / 256] + buf + Zeros(DLEN - |buf|);
      ZeroSum(md);
      var sum: int := ComputeChecksum(md + [0]);
      DevWrite(bno, md + [(256 - sum) % 256]);
    }

    /** writedir */
    method WriteDir(f: Tfile)
      requires f.bno < |medium| && f.bno != NOTABNO && f.dbno < 0x10000 && f.pin < 0x10000
      modifies this`medium, this`history
      ensures medium == old(medium)[f.bno := DirImage(f.dbno, f.pin, f.name)]
      ensures history == old(history) + [medium]
    {
      var name := Kept(f.name);
      var md: seq<Byte> := [TAGDIR, f.dbno % 256, f.dbno / 256, f.pin % 256, f.pin / 256] + name + Zeros(42 - |name|);
      ZeroSum(md);
      var sum: int := ComputeChecksum(md + [0]);
      DevWrite(f.bno, md + [(256 - sum) % 256]);
    }

    /** readdata */
    method ReadData(bno: nat) returns (md: Option<Link>)
      ensures md == if bno < |medium| then ParseData(medium[bno], |medium|) else None
    {
      if bno >= |medium| {
        return None;
      }
      var p := medium[bno];
      var sum := ComputeChecksum(p);
      if sum != 0 {
        return None;
      }
      var x := Gets(p, 1);
      if p[0] == TAGDATA {
        md := if x >= |medium| then None else Some(Data(x, p[3..47]));
      } else if p[0] == TAGEND {
        md := if x > DLEN then None else Some(End(p[3..3 + x]));
      } else {
        md := None;
      }
    }

    /** freeblocks: clear the bits of the blocks the walk visits. */
    method FreeBlocks(bno: nat, bend: nat, ghost bs: seq<nat>)
      requires |medium| <= used.Length && Walks(medium, bno, bend, bs)
      requires forall b | b in bs :: Marked(used[..], b)
      modifies used
      ensures forall b | 0 <= b < used.Length :: used[b] == (old(used[b]) && b !in bs)
    {
      hide ParseData, ParseDir;
      var b := bno;
      ghost var k := 0;
      ghost var u: seq<bool> := used[..];
      while b != bend && b != NOTABNO
        invariant 0 <= k <= |bs| && Walks(medium, b, bend, bs[k..])
        invariant forall c | 0 <= c < used.Length :: used[c] == (u[c] && c !in bs[..k])
        decreases |bs| - k
      {
        assert bs[k..][0] == bs[k] == b && bs[k] in bs;
        assert bs[..k + 1] == bs[..k] + [b];
        used[b] := false;
        k := k + 1;
        var md := ReadData(b);
        if md == None || md.value.End? {
          assert |bs[k - 1..]| == 1;
          assert bs[..k] == bs;
          break;
        }
        assert bs[k - 1..][1..] == bs[k..];
        b := md.value.next;
      }
      assert bs[..k] == bs;
    }

    /** One pass of it: a free block, filled and put in front of the new chain. */
    method TailBlock(bytes: seq<Byte>, last: bool, dbno: nat, ghost m0: seq<Block>, ghost u0: seq<bool>,
        ghost nb: seq<nat>)
        returns (bno: nat)
      requires Grown(m0, u0, medium, used[..], chains, nb, dbno)
      requires |history| > 0 && history[|history| - 1] == medium
      requires (last <==> nb == []) && if last then 0 < |bytes| <= DLEN else |bytes| == DLEN
      modifies this`medium, this`history, used
      ensures bno == NOTABNO ==> medium == old(medium) && history == old(history) && used[..] == old(used[..])
      ensures bno == NOTABNO ==> |medium| <= used.Length && forall b | 0 <= b < |medium| :: used[b]
      ensures bno != NOTABNO ==>
        && Grown(m0, u0, medium, used[..], chains, [bno] + nb, bno)
        && Content(medium, [bno] + nb) == bytes + old(Content(medium, nb))
        && history == old(history) + [medium] && Recoverable(medium) && Files(medium) == Files(m0)
        && (Neat(m0, chains) ==> Clean(medium))
    {
      hide Grown, Files, Content, Recoverable, Neat, Clean;
      ghost var u, m := used[..], medium;
      GrownMap(m0, u0, m, u, chains, nb, dbno);
      bno := MapAlloc();
      if bno != NOTABNO {
        GrowStep(m0, u0, m, u, chains, nb, dbno, bno, used[..], bytes);
        WriteData(bno, dbno, bytes, last);
        GrownFiles(m0, u0, medium, used[..], chains, [bno] + nb, bno);
      }
    }

    /**
     * The first loop of tinyfswrite: the new blocks, last one first. Without space for all of
     * them it stops with the part it has written.
     */
    method WriteTail(data: seq<Byte>, offset: nat) returns (ok: bool, last: nat, dbno: nat, ghost nb: seq<nat>)
      requires Valid() && |data| > 0
      modifies this`medium, this`history, used
      ensures Grown(old(medium), old(used[..]), medium, used[..], chains, nb, dbno)
      ensures old(history) <= history && history[|history| - 1] == medium
      ensures Calm(history, |old(history)|, old(Files(medium)))
      ensures old(Neat(medium, chains)) ==> StaysClean(history, |old(history)|)
      ensures ok ==> Splits(offset, |data|, last) && Content(medium, nb) == data[last - offset..]
      ensures ok ==> (nb == [] <==> last == offset + |data|)
      ensures !ok ==> DLEN * |Free(old(used[..]))| < |data|
    {
      hide Grown, Files, Content, Recoverable, Sound, Apart, Placed, TableOk, Neat, Clean;
      var n := |data|;
      last, dbno, nb := offset + n, NOTABNO, [];
      ghost var m0, u0 := medium, used[..];
      GrownStart(m0, u0, files, chains);
      NoContent(medium);
      var next := ((last - 1) / DLEN) * DLEN;
      while next >= offset
        invariant next % DLEN == 0 && offset <= last <= offset + n
        invariant if nb == [] then last == offset + n && next == ((last - 1) / DLEN) * DLEN else last == next + DLEN < offset + n
        invariant Grown(m0, u0, medium, used[..], chains, nb, dbno)
        invariant old(history) <= history && history[|history| - 1] == medium
        invariant Calm(history, |old(history)|, Files(m0))
        invariant Neat(m0, chains) ==> StaysClean(history, |old(history)|)
        invariant Content(medium, nb) == data[last - offset..]
        invariant DLEN * |nb| < offset + n - last + DLEN
        decreases next
      {
        assert data[next - offset..] == data[next - offset..last - offset] + data[last - offset..];
        var bno := TailBlock(data[next - offset..last - offset], last == n + offset, dbno, m0, u0, nb);
        if bno == NOTABNO {
          GrownTaken(m0, u0, medium, used[..], chains, nb, dbno);
          AllTaken(u0, used[..], |medium|, nb);
          return false, last, dbno, nb;
        }
        dbno, nb := bno, [bno] + nb;
        last := next;
        next := next - DLEN;
      }
      SplitPoint(offset, n, last, next);
      ok := true;
    }

    /** The walk to the last link; offset is the length of what the links hold. */
    method FindEnd(dbno: nat, offset: nat, ghost bs: seq<nat>) returns (bno: nat, bytes: seq<Byte>)
      requires |medium| <= NOTABNO
      requires if dbno == NOTABNO then bs == [] else ChainOf(medium, dbno, bs) && |Content(medium, bs)| == offset
      ensures bs != [] ==> bno == bs[|bs| - 1] && bno < |medium| && bytes == Bytes(medium, bno)
    {
      hide ParseData, Content;
      var next := 0;
      bno, bytes := dbno, [];
      ghost var k := 0;
      if bs != [] { ChainHead(medium, dbno, bs); }
      while bno != NOTABNO
        invariant bs == [] ==> bno == NOTABNO
        invariant bs != [] ==> k < |bs| && bno == bs[k] && next == DLEN * k && bno < |medium|
        decreases |bs| - k
      {
        ChainShape(medium, dbno, bs, k);
        var md := ReadData(bno);
        bytes := md.value.bytes;
        BytesOf(medium, bno);
        if md.value.End? {
          if next + DLEN < offset {
            LastLength(medium, bs, k);
            assert false;
          }
          break;
        }
        next := next + DLEN;
        if next > offset {
          assert false;
        }
        bno := md.value.next;
        k := k + 1;
        ChainShape(medium, dbno, bs, k);
      }
    }

    /** The bytes of file i. */
    ghost function FileBytes(i: nat): seq<Byte>
      requires i < |files|
      reads this
    {
      BytesIn(files[i], medium, chains)
    }

    /** The bytes of its last block. */
    ghost function EndBytes(i: nat): seq<Byte>
      requires i < |files|
      reads this
    {
      EndIn(files[i], medium, chains)
    }

    /** The file a write of data leaves at file i's directory block. */
    ghost function Appended(i: nat, data: seq<Byte>): File
      requires i < |files|
      reads this
    {
      AppendedTo(files[i], medium, chains, data)
    }

    /** The committing write of a file's first bytes: its directory block. */
    method LinkFirst(i: nat, data: seq<Byte>, dbno: nat, ghost nb: seq<nat>, ghost m0: seq<Block>,
        ghost u0: seq<bool>, ghost f0: Tfile, ghost cs: map<nat, seq<nat>>)
      requires i < |files| && files[i] == f0 && chains == cs
      requires Consistent(m0, u0, files, chains) && Grown(m0, u0, medium, used[..], chains, nb, dbno) && nb != []
      requires FreeOk(files, nf) && |history| > 0 && f0.name != [] && f0.length == 0 && Content(medium, nb) == data
      modifies this
      ensures used == old(used) && history == old(history) + [medium] && Valid() && Recoverable(medium)
      ensures files == old(files)[i := After(f0, dbno, f0.length + |data|)]
      ensures Files(medium) == Files(m0)[f0.bno := AppendedTo(f0, m0, cs, data)]
      ensures chains == cs[f0.bno := nb]
      ensures Neat(m0, cs) ==> Neat(medium, chains) && Clean(medium)
    {
      hide ParseData, ParseDir, ChainOf, Content, Files, DirImage, Kept, Sound, Apart, Placed, TableOk, MapOk,
          Recoverable, Neat, Clean, Grown, AppendedTo;
      CommitFirst(m0, u0, medium, used[..], files, chains, i, nb, dbno);
      AppendedFirst(f0, m0, cs, data);
      if Neat(m0, cs) { NeatFirst(m0, u0, medium, used[..], files, chains, i, nb, dbno); }
      EntryDir(m0, u0, files, chains, i);
      GrownTaken(m0, u0, medium, used[..], chains, nb, dbno);
      GrownMap(m0, u0, medium, used[..], chains, nb, dbno);
      var f := files[i];
      files := files[i := f.(dbno := dbno)];
      WriteDir(files[i]);
      files := files[i := files[i].(length := |data|)];
      chains := chains[f.bno := nb];
      assert files == old(files)[i := f.(dbno := dbno, length := |data|)];
      assert Consistent(medium, used[..], files, chains);
      RecoverableFrom(medium, chains);
      if Neat(m0, cs) { CleanFrom(medium, chains); }
    }

    /** The committing write of a later append: the last block again, filled up. */
    method LinkAppend(i: nat, data: seq<Byte>, last: nat, bno: nat, bytes: seq<Byte>, dbno: nat, ghost nb: seq<nat>,
        ghost m0: seq<Block>, ghost u0: seq<bool>, ghost f0: Tfile, ghost cs: map<nat, seq<nat>>)
      requires i < |files| && files[i] == f0 && chains == cs
      requires Consistent(m0, u0, files, chains) && Grown(m0, u0, medium, used[..], chains, nb, dbno)
      requires FreeOk(files, nf) && |history| > 0 && f0.name != [] && f0.length > 0 && |data| > 0
      requires Splits(f0.length, |data|, last) && (nb == [] <==> last == f0.length + |data|)
      requires Content(medium, nb) == data[last - f0.length..]
      requires f0.bno in cs && cs[f0.bno] != []
      requires bno == cs[f0.bno][|cs[f0.bno]| - 1] && bytes == Bytes(medium, bno)
      modifies this
      ensures used == old(used) && history == old(history) + [medium] && Recoverable(medium)
      ensures files == old(files)[i := After(f0, f0.dbno, f0.length + |data|)]
      ensures Files(medium) == Files(m0)[f0.bno := AppendedTo(f0, m0, cs, data)]
      ensures chains == cs[f0.bno := cs[f0.bno] + nb]
      ensures Gap(EndIn(f0, m0, cs), f0.length) == [] ==> Valid()
      ensures Neat(m0, cs) ==> Valid() && Neat(medium, chains) && Clean(medium)
    {
      hide ParseData, ParseDir, ChainOf, Content, Files, DataImage, Recoverable, Splits, Neat, Clean, Grown,
          AppendedTo, EndIn, Consistent, Gap, Bytes;
      var f := files[i];
      SplitBounds(f.length, |data|, last);
      var md := bytes;
      var fill := last - f.length;
      if fill > 0 {
        md := md + data[..fill];
      }
      assert md == bytes + data[..fill];
      AppendCommitted(m0, u0, medium, used[..], files, chains, i, nb, dbno, data, last, bno, md);
      WriteData(bno, dbno, md, last == |data| + f.length);
      files := files[i := f.(length := f.length + |data|)];
      chains := chains[f.bno := chains[f.bno] + nb];
    }

    /** Give back a new chain that is not wanted: everything is as it was, but for stale free blocks. */
    method Abandon(dbno: nat, ghost nb: seq<nat>, ghost m0: seq<Block>, ghost u0: seq<bool>)
      requires Consistent(m0, u0, files, chains) && Grown(m0, u0, medium, used[..], chains, nb, dbno)
      requires FreeOk(files, nf) && |history| > 0 && history[|history| - 1] == medium
      modifies used
      ensures used[..] == u0 && Valid()
    {
      hide ParseData, ParseDir, ChainOf, Content, Files;
      EntryKept(m0, u0, medium, used[..], files, chains, nb, dbno);
      if nb != [] { ChainWalks(medium, dbno, nb); }
      FreeBlocks(dbno, NOTABNO, nb);
      assert used[..] == u0;
    }

    /** What an append leaves of a neat file. */
    lemma NeatAppended(i: nat, data: seq<Byte>)
      requires Valid() && i < |files| && files[i].name != [] && Neat(medium, chains)
      ensures Appended(i, data).bytes == FileBytes(i) + data
    {
      hide ParseData, ParseDir, Content, Gap, Bytes, Neat;
      var f := files[i];
      LengthIs(medium, used[..], files, chains, i);
      EntryDir(medium, used[..], files, chains, i);
      if f.length > 0 {
        NeatGap(medium, used[..], files, chains, i);
        assert FileBytes(i) + [] == FileBytes(i);
      }
    }

    /** tinyfswrite once its arguments are checked; the new first block comes back for the table's sake. */
    method Append(i: nat, data: seq<Byte>, ghost m0: seq<Block>, ghost u0: seq<bool>, ghost f0: Tfile,
        ghost cs: map<nat, seq<nat>>) returns (ok: bool, ghost d: nat)
      requires Valid() && i < |files| && files[i] == f0 && f0.name != [] && |data| > 0
      requires medium == m0 && used[..] == u0 && chains == cs
      modifies this, used
      ensures used == old(used) && old(history) <= history && history[|history| - 1] == medium
      ensures ok ==>
        && files == old(files)[i := After(f0, d, f0.length + |data|)]
        && Atomic(history, |old(history)|, Files(m0), Files(m0)[f0.bno := AppendedTo(f0, m0, cs, data)])
      ensures ok ==> Lengthened(u0, used[..], cs, chains, f0)
      ensures ok && Gap(EndIn(f0, m0, cs), f0.length) == [] ==> Valid()
      ensures !ok ==>
        && Valid() && files == old(files) && chains == cs && used[..] == u0
        && Files(medium) == Files(m0) && Calm(history, |old(history)|, Files(m0)) && DLEN * |Free(u0)| < |data|
      ensures Neat(m0, cs) ==> Valid() && Neat(medium, chains) && StaysClean(history, |old(history)|)
    {
      hide ParseData, ParseDir, ChainOf, Content, Files, Sound, Apart, Placed, TableOk, MapOk, Recoverable, Grown,
          Splits, Taken, Free, Kept, Gap, Neat, Clean, AppendedTo, EndIn, BytesIn, Calm, StaysClean, Atomic, Bytes,
          Consistent, FreeOk, After, Lengthened;
      var f := files[i];
      d := 0;
      var last, dbno;
      ghost var nb: seq<nat>;
      ok, last, dbno, nb := WriteTail(data, f.length);
      GrownFiles(m0, u0, medium, used[..], cs, nb, dbno);
      GrownNeat(m0, u0, medium, used[..], cs, nb, dbno);
      if !ok {
        Abandon(dbno, nb, m0, u0);
        return;
      }
      OldChain(m0, u0, medium, used[..], files, cs, nb, dbno, i);
      GrownTaken(m0, u0, medium, used[..], cs, nb, dbno);
      LongerBy(u0, used[..], cs, f, nb);
      SplitBounds(f.length, |data|, last);
      ghost var h, bs := history, if f.dbno == NOTABNO then [] else cs[f.bno];
      var bno, bytes := FindEnd(f.dbno, f.length, bs);
      if f.length == 0 {
        FirstSplit(|data|, last);
        AppendedFirst(f, m0, cs, data);
        assert Base(cs, f) + nb == nb;
        LinkFirst(i, data, dbno, nb, m0, u0, f, cs);
        d := dbno;
      } else {
        LinkAppend(i, data, last, bno, bytes, dbno, nb, m0, u0, f, cs);
        d := f.dbno;
      }
      LastWrite(old(history), h, |old(history)|, medium, Files(m0), Files(medium));
    }

    /**
     * tinyfswrite: an append. At every state the medium goes through, the files are the old ones,
     * until the last block write, after which the written file holds the new bytes too. Where the
     * files are neat they stay so at every one of these states, and the new bytes follow the old.
     */
    method Write(i: nat, data: seq<Byte>, offset: nat) returns (r: WriteResult)
      requires Valid() && i < |files| && files[i].name != []
      modifies this, used
      ensures used == old(used) && |files| == |old(files)| && old(history) <= history &&
          history[|history| - 1] == medium
      ensures r == if |data| == 0 then Wrote(0) else if offset != old(files[i].length) then AppendOnly
                   else if r.Wrote? then Wrote(|data|) else OutOfSpace
      ensures r == OutOfSpace ==> DLEN * |Free(old(used[..]))| < |data|
      ensures r.Wrote? && |data| > 0 ==>
        && Atomic(history, |old(history)|, old(Files(medium)),
            old(Files(medium))[old(files[i].bno) := old(Appended(i, data))])
        && files == old(files)[i := old(files[i]).(dbno := files[i].dbno, length := offset + |data|)]
        && (old(Gap(EndBytes(i), files[i].length)) == [] ==> Valid())
        && Lengthened(old(used[..]), used[..], old(chains), chains, old(files[i]))
      ensures !(r.Wrote? && |data| > 0) ==>
        && Valid() && files == old(files) && chains == old(chains) && used[..] == old(used[..])
        && Files(medium) == old(Files(medium)) && Calm(history, |old(history)|, old(Files(medium)))
      ensures old(Neat(medium, chains)) ==>
        && Valid() && Neat(medium, chains) && StaysClean(history, |old(history)|)
        && (r.Wrote? && |data| > 0 ==> old(Appended(i, data)).bytes == old(FileBytes(i)) + data)
    {
      hide ParseData, ParseDir, ChainOf, Content, Files, Sound, Apart, Placed, TableOk, MapOk, Recoverable, Grown,
          Splits, Taken, Free, Kept, Gap, Neat, Clean, AppendedTo, EndIn, BytesIn, Calm, StaysClean, Atomic, Bytes,
          Consistent, FreeOk, Lengthened;
      NothingWritten(history, Files(medium));
      if |data| == 0 {
        return Wrote(0);
      }
      var f := files[i];
      if offset != f.length {
        return AppendOnly;
      }
      if Neat(medium, chains) { NeatAppended(i, data); }
      ghost var d;
      var ok;
      ok, d := Append(i, data, medium, used[..], f, chains);
      r := if ok then Wrote(|data|) else OutOfSpace;
    }

    /** freefile: unmark the walk's blocks and the directory block, scrub that block, forget the entry. */
    method FreeFile(i: nat, bend: nat, ghost bs: seq<nat>)
      requires i < |files| && |medium| <= used.Length && |medium| <= NOTABNO
      requires Walks(medium, files[i].dbno, bend, bs) && forall b | b in bs :: Marked(used[..], b)
      requires files[i].bno != NOTABNO ==> files[i].bno < |medium|
      modifies this`medium, this`history, this`files, used
      ensures files == old(files)[i := BLANK]
      ensures var d := old(files[i].bno);
        && medium == (if d == NOTABNO then old(medium) else old(medium)[d := Scrubbed()])
        && history == (if d == NOTABNO then old(history) else old(history) + [medium])
        && forall b | 0 <= b < used.Length :: used[b] == (old(used[b]) && b !in bs && (d == NOTABNO || b != d))
    {
      hide Walks;
      FreeBlocks(files[i].dbno, bend, bs);
      var d := files[i].bno;
      if d != NOTABNO {
        DevWrite(d, Scrubbed());
        used[d] := false;
      }
      files := files[i := BLANK];
    }

    /** tinyfsremove: one block write takes the file, and no other, off the medium. */
    method Remove(i: nat)
      requires Valid() && i < |files| && files[i].name != []
      modifies this`medium, this`history, this`files, this`chains, used
      ensures Valid() && files == old(files)[i := BLANK] && old(history) + [medium] == history
      ensures Files(medium) == old(Files(medium)) - {old(files[i].bno)} && Recoverable(medium)
      ensures old(Neat(medium, chains)) ==> Neat(medium, chains) && Clean(medium)
      ensures var d := old(files[i].bno);
        && chains == old(chains) - {d}
        && forall b | 0 <= b < used.Length ::
             used[b] == (old(used[b]) && b != d && (d in old(chains) ==> b !in old(chains)[d]))
    {
      hide ParseData, ParseDir, ChainOf, Content, Files, Recoverable, Walks, Neat, Clean;
      var f := files[i];
      ghost var bs := if f.dbno == NOTABNO then [] else chains[f.bno];
      ghost var m, u, fs, cs := medium, used[..], files, chains;
      EntryDir(m, u, files, chains, i);
      RemovalWalk(m, u, files, chains, i, bs);
      ghost var neat := Neat(medium, chains);
      if neat { NeatRemoved(m, u, files, chains, i); }
      FreeFile(i, NOTABNO, bs);
      chains := chains - {f.bno};
      Removed(m, u, fs, cs, i, bs, used[..]);
      RecoverableFrom(medium, chains);
      if neat { CleanFrom(medium, chains); }
    }

    /** newfile's search for a free entry; the table grows by eight when there is none. */
    method FreeSlot() returns (i: nat)
      requires Valid()
      modifies this`files, this`nf
      ensures Valid() && i < |files| && files[i] == BLANK && i < nf
      ensures forall j | 0 <= j < |files| :: files[j] == if j < |old(files)| then old(files)[j] else BLANK
      ensures |old(files)| <= |files|
    {
      hide ParseData, ParseDir, Content, EntryOk;
      i := 0;
      while i < |files| && files[i].name != []
        invariant 0 <= i <= |files|
      {
        i := i + 1;
      }
      if i == |files| {
        files := files + seq(8, _ => BLANK);
      }
      if i >= nf {
        nf := i + 1;
      }
    }

    /** newfile: a free entry, a directory block for it, and no first block yet. */
    method NewFile(name: seq<Byte>, pin: nat) returns (ok: bool, i: nat)
      requires Valid() && name != [] && pin < 0x10000 && forall k | 0 <= k < |name| :: name[k] != 0
      modifies this`medium, this`history, this`files, this`nf, used
      ensures Valid() && Files(medium) == old(Files(medium)) && old(history) <= history
      ensures Calm(history, |old(history)|, old(Files(medium)))
      ensures i < |files| && (i < |old(files)| ==> old(files)[i] == BLANK)
      ensures forall j | 0 <= j < |files| && j != i :: files[j] == if j < |old(files)| then old(files)[j] else BLANK
      ensures ok ==> files[i] == Tfile(1, Kept(name), files[i].bno, NOTABNO, pin, true, 0)
                     && Taken(old(used[..]), used[..], [files[i].bno])
      ensures !ok ==>
          old(Free(used[..])) == {} && used[..] == old(used[..]) && medium == old(medium) && files[i] == BLANK
      ensures old(Neat(medium, chains)) ==> Neat(medium, chains) && StaysClean(history, |old(history)|)
    {
      hide ParseData, ParseDir, ChainOf, Content, Files, Recoverable, Kept, Consistent, Neat, Clean;
      i := FreeSlot();
      ghost var m0, u0, fs := medium, used[..], files;
      KeptName(name);
      ConsistentMap(m0, u0, fs, chains);
      files := files[i := Tfile(1, Kept(name), 0, NOTABNO, pin, true, 0)];
      var bno := MapAlloc();
      files := files[i := files[i].(bno := bno)];
      if bno == NOTABNO {
        FreeFile(i, NOTABNO, []);
        assert files == fs && used[..] == u0;
        NoneFree(u0, |medium|);
        return false, i;
      }
      assert files == fs[i := files[i]];
      NewEntry(medium, u0, used[..], fs, chains, i, files[i]);
      ghost var neat := Neat(medium, chains);
      if neat { NeatNew(medium, u0, chains, bno, DirImage(NOTABNO, pin, Kept(name))); }
      WriteDir(files[i]);
      if neat { NewIsClean(medium, used[..], files, chains); }
      ok := true;
    }

    /** tinyfsread's first loop: to the block the offset is in. */
    method Walk(dbno: nat, offset: nat, ghost bs: seq<nat>) returns (bno: nat, ghost k: nat)
      requires ChainOf(medium, dbno, bs) && offset < |Content(medium, bs)|
      ensures k < |bs| && bno == bs[k] && DLEN * k <= offset < DLEN * (k + 1)
    {
      hide ParseData, ParseDir, Content, ChainOf;
      ChainHead(medium, dbno, bs);
      k := 0;
      bno := dbno;
      var sofar := 0;
      while sofar + DLEN <= offset
        invariant sofar == DLEN * k && k < |bs| && bno == bs[k] && sofar <= offset
        decreases offset - sofar
      {
        ChainShape(medium, dbno, bs, k);
        ShortLast(medium, dbno, bs, k);
        var md := ReadData(bno);
        bno := md.value.next;
        sofar := sofar + DLEN;
        k := k + 1;
      }
    }

    /** tinyfsread: the slice of the file's bytes that the request asks for, as far as the file goes. */
    method Read(i: nat, n0: nat, offset0: nat) returns (a: seq<Byte>)
      requires Valid() && i < |files| && files[i].name != []
      ensures a == if offset0 >= |FileBytes(i)| then []
                   else if offset0 + n0 >= |FileBytes(i)| then FileBytes(i)[offset0..]
                   else FileBytes(i)[offset0..offset0 + n0]
    {
      hide ParseData, ParseDir, Content, Files, Sound, Apart, Placed, MapOk, EntryOk;
      var f := files[i];
      LengthIs(medium, used[..], files, chains, i);
      if offset0 >= f.length {
        return [];
      }
      var n, offset := n0, offset0;
      if n + offset >= f.length {
        n := f.length - offset;
      }
      ghost var bs := chains[f.bno];
      ghost var all := Content(medium, bs);
      var bno: nat;
      ghost var k: nat;
      bno, k := Walk(f.dbno, offset, bs);
      var off := offset % DLEN;
      a := [];
      var sofar: nat := 0;
      while sofar < n
        invariant 0 <= sofar <= n && offset0 + n <= |all| && |a| == sofar && a == all[offset0..offset0 + sofar]
        invariant sofar < n ==> k < |bs| && bno == bs[k] && offset0 + sofar == DLEN * k + off && 0 <= off < DLEN
      {
        ShortLast(medium, f.dbno, bs, k);
        var md := ReadData(bno);
        var bytes := md.value.bytes;
        BytesOf(medium, bno);
        var len := |bytes| - off;
        if len > n - sofar {
          len := n - sofar;
        }
        ReadOn(medium, f.dbno, bs, k, off, len, a, offset0);
        a := a + bytes[off..off + len];
        sofar := sofar + len;
        if sofar < n {
          bno := md.value.next;
          off := 0;
          k := k + 1;
        }
      }
    }
  }
}
