// The state of the tiny file system of emu/devtinyfs.c: its file table, its bitmap and the medium agree.

module TinyFsState {
  import opened Lists
  import opened TinyFsBlocks

  /** An entry of the file table; a name of no bytes marks a free entry. */
  datatype Tfile = Tfile(r: int, name: seq<Byte>, bno: nat, dbno: nat, pin: nat, creating: bool, length: nat)

  /** An entry after memset. */
  const BLANK: Tfile := Tfile(0, [], 0, 0, 0, false, 0)

  datatype WriteResult = Wrote(count: nat) | AppendOnly | OutOfSpace

  ghost predicate Marked(u: seq<bool>, b: nat) {
    b < |u| && u[b]
  }

  /** The bitmap of a medium of n blocks: whole bytes, with the bits past the end set. */
  ghost predicate MapOk(u: seq<bool>, n: nat) {
    && 3 <= n <= NOTABNO && n <= |u| < n + 8 && |u| % 8 == 0
    && forall b | n <= b < |u| :: u[b]
  }

  /** Every block of a file is marked in use. */
  ghost predicate Placed(u: seq<bool>, chains: map<nat, seq<nat>>) {
    forall d | d in chains :: Marked(u, d) && forall b | b in chains[d] :: Marked(u, b)
  }

  ghost predicate ProperName(name: seq<Byte>) {
    |name| <= NLEN && forall i | 0 <= i < |name| :: name[i] != 0
  }

  /** What the table says of one entry in use agrees with the medium. */
  ghost predicate EntryOk(f: Tfile, m: seq<Block>, u: seq<bool>, chains: map<nat, seq<nat>>) {
    && f.bno < |m| && Marked(u, f.bno) && f.pin < 0x10000 && ProperName(f.name)
    && (forall d | d in chains :: f.bno !in chains[d])
    && if f.dbno == NOTABNO then f.bno !in chains && f.length == 0
       else f.bno in chains && ParseDir(m[f.bno], |m|).Some? && ParseDir(m[f.bno], |m|).value.first == f.dbno
            && f.length == |Content(m, chains[f.bno])|
  }

  ghost predicate TableOk(files: seq<Tfile>, m: seq<Block>, u: seq<bool>, chains: map<nat, seq<nat>>) {
    && (forall i | 0 <= i < |files| && files[i].name != [] :: EntryOk(files[i], m, u, chains))
    && (forall i, j | 0 <= i < j < |files| && files[i].name != [] && files[j].name != [] ::
        files[i].bno != files[j].bno)
  }

  /** Entries with no name are blank, and there are none in use from nf on. */
  ghost predicate FreeOk(files: seq<Tfile>, nf: nat) {
    && nf <= |files|
    && (forall i | 0 <= i < |files| && files[i].name == [] :: files[i] == BLANK)
    && (forall i | nf <= i < |files| :: files[i].name == [])
  }

  ghost predicate Consistent(m: seq<Block>, u: seq<bool>, files: seq<Tfile>, chains: map<nat, seq<nat>>) {
    && MapOk(u, |m|) && Sound(m, chains) && Apart(chains) && Placed(u, chains) && TableOk(files, m, u, chains)
  }

  /** The bitmap with the blocks bs set. */
  ghost predicate Taken(u: seq<bool>, u': seq<bool>, bs: seq<nat>) {
    && |u'| == |u|
    && (forall b | b in bs :: b < |u| && !u[b] && u'[b])
    && (forall b | 0 <= b < |u| && b !in bs :: u'[b] == u[b])
  }

  /** What a write keeps of the chain of a file: nothing if the file is empty, even where it has an empty block. */
  ghost function Base(chains: map<nat, seq<nat>>, f: Tfile): seq<nat> {
    if f.length > 0 && f.bno in chains then chains[f.bno] else []
  }

  /** The file's chain is what was kept of it and blocks that were free; the bitmap gained these and no more. */
  ghost predicate Lengthened(u: seq<bool>, u': seq<bool>, chains: map<nat, seq<nat>>, chains': map<nat, seq<nat>>,
      f: Tfile) {
    var d, was := f.bno, Base(chains, f);
    && d in chains' && was <= chains'[d] && Taken(u, u', chains'[d][|was|..])
    && chains' == chains[d := chains'[d]]
  }

  lemma LongerBy(u: seq<bool>, u': seq<bool>, chains: map<nat, seq<nat>>, f: Tfile, nb: seq<nat>)
    requires Taken(u, u', nb)
    ensures Lengthened(u, u', chains, chains[f.bno := Base(chains, f) + nb], f)
  {
    hide Taken, Base;
    var was := Base(chains, f);
    assert (was + nb)[|was|..] == nb;
  }

  /** After the write an old block of the file stays marked, and is still on a chain exactly if the file was not empty. */
  lemma EmptyBlockLost(u: seq<bool>, u': seq<bool>, chains: map<nat, seq<nat>>, chains': map<nat, seq<nat>>, f: Tfile,
      b: nat)
    requires Apart(chains) && Placed(u, chains) && Lengthened(u, u', chains, chains', f)
    requires f.bno in chains && b in chains[f.bno]
    ensures Marked(u', b) && ((exists d | d in chains' :: b in chains'[d]) <==> f.length > 0)
  {
    var d, was := f.bno, Base(chains, f);
    var nb := chains'[d][|was|..];
    assert chains'[d] == was + nb;
    assert u[b] && b !in nb;
    if f.length > 0 {
      assert b in chains'[d];
    } else {
      forall c | c in chains' ensures b !in chains'[c] {
        if c != d { assert chains'[c] == chains[c]; }
      }
    }
  }

  /** Every medium state from index k on holds the same files and can be mounted. */
  ghost predicate Calm(history: seq<seq<Block>>, k: nat, files: map<nat, File>) {
    forall i | k <= i < |history| :: Recoverable(history[i]) && Files(history[i]) == files
  }

  /** Every medium state from index k on is clean. */
  ghost predicate StaysClean(history: seq<seq<Block>>, k: nat) {
    forall i | k <= i < |history| :: Clean(history[i])
  }

  // --- chains written back to front ---

  /** The blocks freeblocks visits from b on: to bend, to an end, to a bad block or to no block at all. */
  ghost predicate Walks(m: seq<Block>, b: nat, bend: nat, bs: seq<nat>)
    decreases |bs|
  {
    if bs == [] then b == bend || b == NOTABNO
    else
      && bs[0] == b && b != bend && b != NOTABNO && b < |m|
      && match ParseData(m[b], |m|) {
           case None => |bs| == 1
           case Some(End(_)) => |bs| == 1
           case Some(Data(next, _)) => Walks(m, next, bend, bs[1..])
         }
  }

  lemma {:induction false} ChainWalks(m: seq<Block>, b: nat, bs: seq<nat>)
    requires ChainOf(m, b, bs) && |m| <= NOTABNO
    ensures Walks(m, b, NOTABNO, bs)
    decreases |bs|
  {
    hide ParseData;
    if |bs| > 1 { ChainWalks(m, bs[1], bs[1..]); }
  }

  /** A new chain nb, of blocks the bitmap had free, beside files that are as they were. */
  ghost predicate Grown(m0: seq<Block>, u0: seq<bool>, m: seq<Block>, u: seq<bool>, chains: map<nat, seq<nat>>,
                        nb: seq<nat>, dbno: nat) {
    && |m| == |m0| && MapOk(u, |m|) && Taken(u0, u, nb) && NoDup(nb)
    && (nb == [] ==> dbno == NOTABNO) && (nb != [] ==> ChainOf(m, dbno, nb) && dbno < |m|)
    && Sound(m, chains) && Apart(chains) && Placed(u0, chains) && Files(m) == Files(m0)
    && (forall b: nat | b < |m| && Marked(u0, b) :: m[b] == m0[b])
    && (nb != [] ==> Bytes(m, nb[|nb| - 1]) != []) && (Neat(m0, chains) ==> Neat(m, chains))
  }

  lemma UnmarkedIsLoose(u: seq<bool>, chains: map<nat, seq<nat>>, b: nat)
    requires Placed(u, chains) && b < |u| && !u[b]
    ensures Loose(chains, b)
  {}

  /** One more block in front of the new chain. */
  lemma GrowStep(m0: seq<Block>, u0: seq<bool>, m: seq<Block>, u: seq<bool>, chains: map<nat, seq<nat>>,
                 nb: seq<nat>, dbno: nat, b: nat, u': seq<bool>, bytes: seq<Byte>)
    requires Grown(m0, u0, m, u, chains, nb, dbno) && Taken(u, u', [b]) && b < |m| <= NOTABNO
    requires if nb == [] then 0 < |bytes| <= DLEN else |bytes| == DLEN
    ensures var blk := if nb == [] then DataImage(TAGEND, |bytes|, bytes) else DataImage(TAGDATA, dbno, bytes);
            var m' := m[b := blk];
            && Grown(m0, u0, m', u', chains, [b] + nb, b)
            && Content(m', [b] + nb) == bytes + Content(m, nb)
            && Recoverable(m') && (Neat(m0, chains) ==> Clean(m'))
  {
    hide ParseData, ParseDir, ChainOf, Content, Files, DataImage, Neat;
    var blk := if nb == [] then DataImage(TAGEND, |bytes|, bytes) else DataImage(TAGDATA, dbno, bytes);
    var m' := m[b := blk];
    assert b in [b];
    assert b !in nb;
    DataRoundTrip(|bytes|, bytes, |m|);
    if nb != [] { DataRoundTrip(dbno, bytes, |m|); }
    assert bytes + Zeros(0) == bytes;
    UnmarkedIsLoose(u0, chains, b);
    LooseWrite(m, chains, b, blk);
    if nb != [] { ChainHead(m, dbno, nb); ChainFrame(m, m', dbno, nb); }
    else { NoContent(m); NoContent(m'); }
    Prepend(m, m', b, nb, bytes);
    assert forall c | c in [b] + nb :: c == b || c in nb;
    if Neat(m, chains) { NeatBeside(m, chains, chains, b, blk); }
    BytesOf(m', b);
    if nb != [] { assert nb[|nb| - 1] in nb; }
  }

  lemma Prepend(m: seq<Block>, m': seq<Block>, b: nat, nb: seq<nat>, bytes: seq<Byte>)
    requires b < |m'| && ParseData(m'[b], |m'|).Some?
    requires if nb == [] then ParseData(m'[b], |m'|) == Some(End(bytes))
             else ChainOf(m', nb[0], nb) && ParseData(m'[b], |m'|) == Some(Data(nb[0], bytes))
                  && Content(m', nb) == Content(m, nb)
    ensures ChainOf(m', b, [b] + nb) && Content(m', [b] + nb) == bytes + Content(m, nb)
  {
    hide ParseData;
    assert ([b] + nb)[1..] == nb;
  }

  lemma ChainHead(m: seq<Block>, b: nat, bs: seq<nat>)
    requires ChainOf(m, b, bs)
    ensures bs != [] && bs[0] == b
  {}

  /** The first block boundary at or after x. */
  function RoundUp(x: nat): nat { (x + 43) / 44 * 44 }

  /** Where the blocks of an append of n bytes at offset begin to be new ones. */
  ghost predicate Splits(offset: nat, n: nat, last: nat) {
    && offset <= last <= offset + n && last <= RoundUp(offset)
    && (last == RoundUp(offset) || last == offset + n)
  }

  /** The blocks the bitmap has free. */
  ghost function Free(u: seq<bool>): set<nat> {
    set b: nat | b < |u| && !u[b]
  }

  lemma {:induction false} DistinctCount(s: seq<nat>)
    requires NoDup(s)
    ensures |Elements(s)| == |s|
  {
    if s != [] {
      DistinctCount(s[1..]);
      assert Elements(s) == {s[0]} + Elements(s[1..]);
    }
  }

  /** Once every block is in use, the new chain is all there was. */
  lemma AllTaken(u: seq<bool>, u': seq<bool>, n: nat, nb: seq<nat>)
    requires MapOk(u', n) && Taken(u, u', nb) && NoDup(nb) && forall b | 0 <= b < n :: u'[b]
    ensures |Free(u)| == |nb|
  {
    DistinctCount(nb);
    assert Free(u) == Elements(nb);
  }

  lemma SplitPoint(offset: nat, n: nat, last: nat, next: int)
    requires n > 0 && offset <= last <= offset + n && next % DLEN == 0 && next < offset
    requires (last == offset + n && next == ((last - 1) / DLEN) * DLEN) || last == next + DLEN
    ensures Splits(offset, n, last)
  {}

  lemma GrownStart(m: seq<Block>, u: seq<bool>, files: seq<Tfile>, chains: map<nat, seq<nat>>)
    requires Consistent(m, u, files, chains)
    ensures Grown(m, u, m, u, chains, [], NOTABNO)
  {}

  lemma CleanFrom(m: seq<Block>, chains: map<nat, seq<nat>>)
    requires Sound(m, chains) && Apart(chains) && Neat(m, chains)
    ensures Clean(m)
  {}

  lemma RecoverableFrom(m: seq<Block>, chains: map<nat, seq<nat>>)
    requires Sound(m, chains) && Apart(chains)
    ensures Recoverable(m)
  {}

  // --- the committing write ---

  /** The chains once d's is bs + nb. */
  lemma GrownApart(u: seq<bool>, u': seq<bool>, chains: map<nat, seq<nat>>, d: nat, bs: seq<nat>, nb: seq<nat>)
    requires Apart(chains) && Placed(u, chains) && Taken(u, u', nb) && NoDup(nb) && Marked(u, d)
    requires bs == [] || (d in chains && bs == chains[d])
    ensures Apart(chains[d := bs + nb]) && Placed(u', chains[d := bs + nb])
  {
    var chains' := chains[d := bs + nb];
    forall e, b | e in chains && b in chains[e] ensures b !in nb && Marked(u', b) {}
    forall e | e in chains' ensures NoDup(chains'[e]) {
      if e == d {
        forall i, j | 0 <= i < j < |bs + nb| ensures (bs + nb)[i] != (bs + nb)[j] {
          if i < |bs| { assert (bs + nb)[i] in bs; }
          if j >= |bs| { assert (bs + nb)[j] in nb; }
        }
      }
    }
  }

  /** An entry other than the one written: still as the medium says. */
  lemma OtherEntry(f: Tfile, m: seq<Block>, m': seq<Block>, u: seq<bool>, u': seq<bool>, chains: map<nat, seq<nat>>,
                   d: nat, w: nat, bs: seq<nat>, nb: seq<nat>)
    requires EntryOk(f, m, u, chains) && f.bno != d && f.bno != w && |m'| == |m| && Taken(u, u', nb)
    requires Sound(m, chains) && (forall e | e in chains && e != d :: w !in chains[e])
    requires w < |m| && m' == m[w := m'[w]]
    requires bs == [] || (d in chains && bs == chains[d])
    ensures EntryOk(f, m', u', chains[d := bs + nb])
  {
    hide ParseData, ParseDir, Content;
    if f.bno in chains {
      ChainFrame(m, m', ParseDir(m[f.bno], |m|).value.first, chains[f.bno]);
    }
  }

  /** The first write of a file commits with its directory block. */
  lemma CommitFirst(m0: seq<Block>, u0: seq<bool>, m: seq<Block>, u: seq<bool>, files: seq<Tfile>,
      chains: map<nat, seq<nat>>, i: nat, nb: seq<nat>, dbno: nat)
    requires Consistent(m0, u0, files, chains) && Grown(m0, u0, m, u, chains, nb, dbno) && nb != []
    requires i < |files| && files[i].name != [] && files[i].length == 0
    ensures var f := files[i];
            var f' := f.(dbno := dbno, length := |Content(m, nb)|);
            var m' := m[f.bno := DirImage(dbno, f.pin, f.name)];
            && Consistent(m', u, files[i := f'], chains[f.bno := nb])
            && Files(m') == Files(m0)[f.bno := File(Kept(f.name), f.pin, Content(m, nb))]
  {
    hide ParseData, ParseDir, ChainOf, Content, Files, DirImage, Kept;
    var f := files[i];
    var d := f.bno;
    var blk := DirImage(dbno, f.pin, f.name);
    var m' := m[d := blk];
    var files' := files[i := f.(dbno := dbno, length := |Content(m, nb)|)];
    EntryKept(m0, u0, m, u, files, chains, nb, dbno);
    DirRoundTrip(dbno, f.pin, f.name, |m|);
    assert d !in nb;
    DirectoryWrite(m, chains, d, blk, nb);
    GrownApart(u0, u, chains, d, [], nb);
    assert [] + nb == nb;
    forall j | 0 <= j < |files'| && files'[j].name != [] ensures EntryOk(files'[j], m', u, chains[d := nb]) {
      if j != i { OtherEntry(files[j], m, m', u0, u, chains, d, d, [], nb); }
    }
  }

  /** A first write leaves the files neat. */
  lemma NeatFirst(m0: seq<Block>, u0: seq<bool>, m: seq<Block>, u: seq<bool>, files: seq<Tfile>,
      chains: map<nat, seq<nat>>, i: nat, nb: seq<nat>, dbno: nat)
    requires Consistent(m0, u0, files, chains) && Grown(m0, u0, m, u, chains, nb, dbno) && nb != []
    requires i < |files| && files[i].name != [] && Neat(m0, chains)
    ensures Neat(m[files[i].bno := DirImage(dbno, files[i].pin, files[i].name)], chains[files[i].bno := nb])
  {
    hide ParseData, ParseDir, ChainOf, Content, Files, DirImage, Kept, Bytes;
    var f := files[i];
    var blk := DirImage(dbno, f.pin, f.name);
    var m' := m[f.bno := blk];
    DirRoundTrip(dbno, f.pin, f.name, |m|);
    KeptName(f.name);
    assert f.bno !in nb;
    ChainFrame(m, m', dbno, nb);
    SameEnd(m, m', nb);
    NeatBeside(m, chains, chains - {f.bno}, f.bno, blk);
    assert NeatFile(m', f.bno, nb);
    forall d | d in chains && d != f.bno ensures NeatFile(m', d, chains[d]) { assert d in chains - {f.bno}; }
  }

  lemma SameEnd(m: seq<Block>, m': seq<Block>, bs: seq<nat>)
    requires bs != [] && |m'| == |m| && (forall b | b in bs && b < |m| :: m'[b] == m[b])
    ensures Bytes(m', bs[|bs| - 1]) == Bytes(m, bs[|bs| - 1])
  {
    assert bs[|bs| - 1] in bs;
  }

  /** The table still agrees with the medium once the new blocks are written. */
  lemma EntryKept(m0: seq<Block>, u0: seq<bool>, m: seq<Block>, u: seq<bool>, files: seq<Tfile>,
      chains: map<nat, seq<nat>>, nb: seq<nat>, dbno: nat)
    requires Consistent(m0, u0, files, chains) && Grown(m0, u0, m, u, chains, nb, dbno)
    ensures TableOk(files, m, u0, chains)
  {
    hide ParseData, ParseDir, Content, Files;
    forall j | 0 <= j < |files| && files[j].name != [] ensures EntryOk(files[j], m, u0, chains) {
      var d := files[j].bno;
      if d in chains { ChainFrame(m0, m, ParseDir(m0[d], |m0|).value.first, chains[d]); }
    }
  }

  /** Zeros that become part of a file when an append extends an end block of no bytes. */
  function Gap(lastBytes: seq<Byte>, offset: nat): seq<Byte> {
    if offset > 0 && lastBytes == [] then Zeros(DLEN) else []
  }

  /** The bytes of the file of entry f. */
  ghost function BytesIn(f: Tfile, m: seq<Block>, chains: map<nat, seq<nat>>): seq<Byte> {
    if f.dbno != NOTABNO && f.bno in chains then Content(m, chains[f.bno]) else []
  }

  /** The bytes of its last block. */
  ghost function EndIn(f: Tfile, m: seq<Block>, chains: map<nat, seq<nat>>): seq<Byte> {
    if f.dbno != NOTABNO && f.bno in chains && chains[f.bno] != []
    then Bytes(m, chains[f.bno][|chains[f.bno]| - 1])
    else []
  }

  /** The file an append of data leaves at f's directory block. */
  ghost function AppendedTo(f: Tfile, m: seq<Block>, chains: map<nat, seq<nat>>, data: seq<Byte>): File {
    if f.length > 0 && f.bno < |m| && ParseDir(m[f.bno], |m|).Some? then
      var dir := ParseDir(m[f.bno], |m|).value;
      File(dir.name, dir.pin, BytesIn(f, m, chains) + Gap(EndIn(f, m, chains), f.length) + data)
    else
      File(Kept(f.name), f.pin, data)
  }

  lemma AppendedFirst(f: Tfile, m: seq<Block>, chains: map<nat, seq<nat>>, data: seq<Byte>)
    requires f.length == 0
    ensures AppendedTo(f, m, chains, data) == File(Kept(f.name), f.pin, data)
    ensures Gap(EndIn(f, m, chains), f.length) == []
  {}

  /** The entry after a write: its first block and its length. */
  function After(f: Tfile, dbno: nat, length: nat): Tfile { f.(dbno := dbno, length := length) }

  lemma AppendedLater(f: Tfile, m: seq<Block>, chains: map<nat, seq<nat>>, data: seq<Byte>)
    requires f.length > 0 && f.dbno != NOTABNO && f.bno in chains && chains[f.bno] != []
    requires f.bno < |m| && ParseDir(m[f.bno], |m|).Some?
    ensures var dir, bs := ParseDir(m[f.bno], |m|).value, chains[f.bno];
      && EndIn(f, m, chains) == Bytes(m, bs[|bs| - 1])
      && AppendedTo(f, m, chains, data) ==
          File(dir.name, dir.pin, Content(m, bs) + Gap(Bytes(m, bs[|bs| - 1]), f.length) + data)
  {
    hide ParseDir, Content, Bytes, Gap;
  }

  /** An append adds exactly its bytes unless it extends an end block that has none. */
  lemma GapExactly(before: seq<Byte>, lastBytes: seq<Byte>, offset: nat, data: seq<Byte>)
    ensures before + Gap(lastBytes, offset) + data == before + data <==> offset == 0 || lastBytes != []
  {
    if offset > 0 && lastBytes == [] {
      assert |before + Gap(lastBytes, offset) + data| == |before + data| + DLEN;
    } else {
      assert before + [] == before;
    }
  }

  /** A file of one full block and an end block without bytes. */
  function EmptyEnd(): seq<Block> {
    [DirImage(1, 0, [0x66]), DataImage(TAGDATA, 2, Zeros(DLEN)), DataImage(TAGEND, 0, []), Scrubbed()]
  }

  /** Such a medium is consistent with its file table, and an append to the file puts a gap in it. */
  lemma GapHappens(u: seq<bool>)
    requires u == [true, true, true, false, true, true, true, true]
    ensures Consistent(EmptyEnd(), u, [Tfile(0, [0x66], 0, 1, 0, false, DLEN)], map[0 := [1, 2]])
    ensures Gap(Bytes(EmptyEnd(), 2), DLEN) == Zeros(DLEN)
  {
    var m := EmptyEnd();
    DirRoundTrip(1, 0, [0x66], 4);
    DataRoundTrip(2, Zeros(DLEN), 4);
    DataRoundTrip(0, [], 4);
    ScrubbedIsNothing(4);
    NotBothKinds(m[0], 4);
    assert Zeros(DLEN) + Zeros(0) == Zeros(DLEN);
    hide ParseData, ParseDir, DirImage, DataImage, Scrubbed, Consistent;
    EmptyEndChain(m);
    EmptyEndConsistent(m, u);
  }

  lemma EmptyEndConsistent(m: seq<Block>, u: seq<bool>)
    requires |m| == 4 && u == [true, true, true, false, true, true, true, true]
    requires ParseDir(m[0], 4) == Some(Dir(1, 0, [0x66])) && ParseDir(m[1], 4) == None && ParseDir(m[2], 4) == None &&
        ParseDir(m[3], 4) == None
    requires ChainOf(m, 1, [1, 2]) && Content(m, [1, 2]) == Zeros(DLEN)
    ensures Consistent(m, u, [Tfile(0, [0x66], 0, 1, 0, false, DLEN)], map[0 := [1, 2]])
  {
    hide ParseData, ParseDir, ChainOf, Content;
    var chains, files := map[0 := [1, 2]], [Tfile(0, [0x66], 0, 1, 0, false, DLEN)];
    forall d: nat | d < |m| ensures ParseDir(m[d], |m|).Some? <==> d in chains {
      if d != 0 && d != 1 && d != 2 { assert d == 3; }
    }
    assert EntryOk(files[0], m, u, chains);
  }

  lemma EmptyEndChain(m: seq<Block>)
    requires |m| == 4 && ParseData(m[1], 4) == Some(Data(2, Zeros(DLEN))) && ParseData(m[2], 4) == Some(End([]))
    ensures ChainOf(m, 1, [1, 2]) && Content(m, [1, 2]) == Zeros(DLEN) && Bytes(m, 2) == []
  {
    hide ParseData;
    assert [1, 2][1..] == [2] && [2][1..] == [];
    assert ChainOf(m, 2, [2]);
    assert Content(m, [2]) == [];
  }

  /** Later writes commit by rewriting the last block, filled up, to end or to lead on. */
  lemma CommitAppend(m0: seq<Block>, u0: seq<bool>, m: seq<Block>, u: seq<bool>, files: seq<Tfile>,
      chains: map<nat, seq<nat>>, i: nat, nb: seq<nat>, dbno: nat, data: seq<Byte>, last: nat)
    requires Consistent(m0, u0, files, chains) && Grown(m0, u0, m, u, chains, nb, dbno)
    requires i < |files| && files[i].name != [] && files[i].length > 0 && |data| > 0
    requires Splits(files[i].length, |data|, last) && (nb == [] <==> last == files[i].length + |data|)
    requires Content(m, nb) == data[last - files[i].length..]
    ensures var f := files[i];
            f.bno in chains && chains[f.bno] != [] &&
            var bs := chains[f.bno];
            var l := bs[|bs| - 1];
            var bytes := Bytes(m, l) + data[..last - f.length];
            && |bytes| <= DLEN && l < |m|
            && var m' := m[l := if nb == [] then DataImage(TAGEND, |bytes|, bytes) else DataImage(TAGDATA, dbno, bytes)];
               var dir := ParseDir(m0[f.bno], |m0|).value;
               && Sound(m', chains[f.bno := bs + nb]) && Apart(chains[f.bno := bs + nb])
               && Files(m') == Files(m0)[f.bno := File(dir.name, dir.pin,
                   Content(m0, bs) + Gap(Bytes(m0, l), f.length) + data)]
               && (Gap(Bytes(m0, l), f.length) == []
                   ==> Consistent(m', u, files[i := f.(length := f.length + |data|)], chains[f.bno := bs + nb]))
  {
    hide ParseData, ParseDir, ChainOf, Files, DataImage, Content, RoundUp, EntryOk, Neat;
    var f := files[i];
    OldChain(m0, u0, m, u, files, chains, nb, dbno, i);
    var d, bs := f.bno, chains[f.bno];
    EntryKept(m0, u0, m, u, files, chains, nb, dbno);
    var k := |bs| - 1;
    var l := bs[k];
    ChainShape(m, f.dbno, bs, k);
    LastLength(m, bs, k);
    BytesOf(m, l);
    var fill := data[..last - f.length];
    var bytes := Bytes(m, l) + fill;
    LastFills(k, |Bytes(m, l)|, f.length, |data|, last);
    var blk := if nb == [] then DataImage(TAGEND, |bytes|, bytes) else DataImage(TAGDATA, dbno, bytes);
    var m' := m[l := blk];
    DataRoundTrip(|bytes|, bytes, |m|);
    if nb != [] { DataRoundTrip(dbno, bytes, |m|); }
    assert l in bs;
    assert m0[d] == m[d] && m0[l] == m[l];
    ChainFrame(m, m0, f.dbno, bs);
    LastLinkWrite(m, chains, d, blk, nb);
    GrownApart(u0, u, chains, d, bs, nb);
    NewContent(Content(m, bs[..k]), Bytes(m, l), fill, data, last - f.length, Gap(Bytes(m, l), f.length), |bytes|,
        nb == []);
    if Gap(Bytes(m0, l), f.length) == [] { AppendTable(m, m', u0, u, files, chains, i, l, nb, |data|); }
  }

  /** The table agrees with the medium again when the file's length has grown by what its chain has. */
  lemma AppendTable(m: seq<Block>, m': seq<Block>, u0: seq<bool>, u: seq<bool>, files: seq<Tfile>,
      chains: map<nat, seq<nat>>, i: nat, l: nat, nb: seq<nat>, n: nat)
    requires TableOk(files, m, u0, chains) && Sound(m, chains) && Apart(chains) && Taken(u0, u, nb)
    requires i < |files| && files[i].name != [] && files[i].dbno != NOTABNO && files[i].bno in chains
    requires l in chains[files[i].bno] && l < |m| && |m'| == |m| && m' == m[l := m'[l]]
    requires |Content(m', chains[files[i].bno] + nb)| == files[i].length + n
    ensures TableOk(files[i := files[i].(length := files[i].length + n)], m', u,
        chains[files[i].bno := chains[files[i].bno] + nb])
  {
    hide ParseData, ParseDir, Content, ChainOf;
    var f := files[i];
    var files' := files[i := f.(length := f.length + n)];
    var chains' := chains[f.bno := chains[f.bno] + nb];
    forall j | 0 <= j < |files'| && files'[j].name != [] ensures EntryOk(files'[j], m', u, chains') {
      if j != i { OtherEntry(files[j], m, m', u0, u, chains, f.bno, l, chains[f.bno], nb); }
    }
  }

  /** A later write leaves the files neat, and puts nothing between the old bytes and the new. */
  lemma NeatAppend(m0: seq<Block>, u0: seq<bool>, m: seq<Block>, u: seq<bool>, files: seq<Tfile>,
      chains: map<nat, seq<nat>>, i: nat, nb: seq<nat>, dbno: nat, data: seq<Byte>, last: nat)
    requires Consistent(m0, u0, files, chains) && Grown(m0, u0, m, u, chains, nb, dbno) && Neat(m0, chains)
    requires i < |files| && files[i].name != [] && files[i].length > 0 && |data| > 0
    requires Splits(files[i].length, |data|, last) && (nb == [] <==> last == files[i].length + |data|)
    ensures var d := files[i].bno;
            d in chains && chains[d] != [] &&
            var bs := chains[d];
            var l := bs[|bs| - 1];
            var bytes := Bytes(m, l) + data[..last - files[i].length];
            && |bytes| <= DLEN && l < |m| && Bytes(m0, l) != []
            && var m' := m[l := if nb == [] then DataImage(TAGEND, |bytes|, bytes) else DataImage(TAGDATA, dbno, bytes)];
               Neat(m', chains[d := bs + nb])
  {
    hide ParseData, ParseDir, ChainOf, Files, DataImage, Content, RoundUp, Bytes;
    var f := files[i];
    var d, bs := f.bno, chains[f.bno];
    OldChain(m0, u0, m, u, files, chains, nb, dbno, i);
    var k := |bs| - 1;
    var l := bs[k];
    ChainShape(m, f.dbno, bs, k);
    LastLength(m, bs, k);
    var bytes := Bytes(m, l) + data[..last - f.length];
    LastFills(k, |Bytes(m, l)|, f.length, |data|, last);
    assert l in bs && NeatFile(m0, d, bs) && NeatFile(m, d, bs);
    var blk := if nb == [] then DataImage(TAGEND, |bytes|, bytes) else DataImage(TAGDATA, dbno, bytes);
    var m' := m[l := blk];
    DataRoundTrip(|bytes|, bytes, |m|);
    if nb == [] { BytesOf(m', l); } else { assert l !in nb; SameEnd(m, m', nb); }
    NotBothKinds(m[l], |m|);
    assert Loose(chains - {d}, l);
    NeatBeside(m, chains, chains - {d}, l, blk);
    assert (bs + nb)[|bs + nb| - 1] == if nb == [] then l else nb[|nb| - 1];
    NotBothKinds(m[d], |m|);
    assert NeatFile(m', d, bs + nb);
    forall e | e in chains && e != d ensures NeatFile(m', e, chains[e]) { assert e in chains - {d}; }
  }

  /** The last block has room for what comes before the first new block, and is full if there is one. */
  lemma LastFills(k: nat, used: nat, offset: nat, n: nat, last: nat)
    requires offset == DLEN * k + used && used <= DLEN && n > 0 && Splits(offset, n, last)
    ensures used + (last - offset) <= DLEN
    ensures last != offset + n && used > 0 ==> used + (last - offset) == DLEN
    ensures used == 0 ==> last == offset && last != offset + n
  {}

  lemma NewContent(pre: seq<Byte>, bytes: seq<Byte>, fill: seq<Byte>, data: seq<Byte>, cut: nat, gap: seq<Byte>,
      len: nat, ends: bool)
    requires cut <= |data| && fill == data[..cut] && len == |bytes| + |fill| <= DLEN
    requires ends ==> gap == [] && cut == |data|
    requires !ends ==> if gap == [] then len == DLEN else gap == Zeros(DLEN) && bytes == [] && fill == []
    ensures pre + (if ends then bytes + fill else bytes + fill + Zeros(DLEN - len)) + data[cut..] == pre + bytes + gap + data
  {
    assert data == data[..cut] + data[cut..];
  }

  lemma ZeroSum(body: seq<Byte>)
    requires |body| == 47
    ensures Checksum(body + [0]) == Checksum(body)
  {
    assert (body + [0])[..47] == body;
  }

  /** From index k on the medium goes through states that hold `before`, and a last one that holds `after`. */
  ghost predicate Atomic(history: seq<seq<Block>>, k: nat, before: map<nat, File>, after: map<nat, File>) {
    && k < |history| && Calm(history[..|history| - 1], k, before)
    && Recoverable(history[|history| - 1]) && Files(history[|history| - 1]) == after
  }

  lemma NothingWritten(history: seq<seq<Block>>, files: map<nat, File>)
    ensures Calm(history, |history|, files) && StaysClean(history, |history|)
  {}

  /** One more write makes a calm history an atomic change. */
  lemma LastWrite(start: seq<seq<Block>>, history: seq<seq<Block>>, k: nat, m: seq<Block>, before: map<nat, File>,
      after: map<nat, File>)
    requires start <= history && k == |start| && Calm(history, k, before) && Recoverable(m) && Files(m) == after
    ensures Atomic(history + [m], k, before, after) && start <= history + [m]
    ensures StaysClean(history, k) && Clean(m) ==> StaysClean(history + [m], k)
  {
    hide Files, Recoverable, Clean;
    assert (history + [m])[..|history|] == history;
  }

  /** What the committing write of a later append leaves, l being the file's last block. */
  lemma AppendCommitted(m0: seq<Block>, u0: seq<bool>, m: seq<Block>, u: seq<bool>, files: seq<Tfile>,
      chains: map<nat, seq<nat>>, i: nat, nb: seq<nat>, dbno: nat, data: seq<Byte>, last: nat, l: nat,
      bytes: seq<Byte>)
    requires Consistent(m0, u0, files, chains) && Grown(m0, u0, m, u, chains, nb, dbno)
    requires i < |files| && files[i].name != [] && files[i].length > 0 && |data| > 0
    requires Splits(files[i].length, |data|, last) && (nb == [] <==> last == files[i].length + |data|)
    requires Content(m, nb) == data[last - files[i].length..]
    requires files[i].bno in chains && chains[files[i].bno] != []
    requires l == chains[files[i].bno][|chains[files[i].bno]| - 1]
    requires bytes == Bytes(m, l) + data[..last - files[i].length]
    ensures |bytes| <= DLEN && l < |m| && dbno < 0x10000
    ensures var f := files[i];
            var m' := m[l := if nb == [] then DataImage(TAGEND, |bytes|, bytes) else DataImage(TAGDATA, dbno, bytes)];
            var files' := files[i := After(f, f.dbno, f.length + |data|)];
            var chains' := chains[f.bno := chains[f.bno] + nb];
            && Recoverable(m') && Files(m') == Files(m0)[f.bno := AppendedTo(f, m0, chains, data)]
            && (Gap(EndIn(f, m0, chains), f.length) == [] ==> Consistent(m', u, files', chains'))
            && (Neat(m0, chains) ==> Consistent(m', u, files', chains') && Neat(m', chains') && Clean(m'))
  {
    hide ParseData, ParseDir, ChainOf, Content, Files, DataImage, Sound, Apart, Placed, TableOk, MapOk, Recoverable,
        Splits, Neat, Clean, Grown, AppendedTo, EndIn, Bytes;
    var f := files[i];
    CommitAppend(m0, u0, m, u, files, chains, i, nb, dbno, data, last);
    EntryDir(m0, u0, files, chains, i);
    LengthIs(m0, u0, files, chains, i);
    AppendedLater(f, m0, chains, data);
    GrownTaken(m0, u0, m, u, chains, nb, dbno);
    GrownMap(m0, u0, m, u, chains, nb, dbno);
    OldChain(m0, u0, m, u, files, chains, nb, dbno, i);
    var m' := m[l := if nb == [] then DataImage(TAGEND, |bytes|, bytes) else DataImage(TAGDATA, dbno, bytes)];
    var chains' := chains[f.bno := chains[f.bno] + nb];
    RecoverableFrom(m', chains');
    if Neat(m0, chains) {
      NeatAppend(m0, u0, m, u, files, chains, i, nb, dbno, data, last);
      NeatGap(m0, u0, files, chains, i);
      CleanFrom(m', chains');
    }
  }

  lemma FirstSplit(n: nat, last: nat)
    requires n > 0 && Splits(0, n, last)
    ensures last == 0
  {}

  /** What FindEnd walks: file i's chain, as it was before the new blocks were written. */
  lemma OldChain(m0: seq<Block>, u0: seq<bool>, m: seq<Block>, u: seq<bool>, files: seq<Tfile>,
      chains: map<nat, seq<nat>>, nb: seq<nat>, dbno: nat, i: nat)
    requires Consistent(m0, u0, files, chains) && Grown(m0, u0, m, u, chains, nb, dbno)
    requires i < |files| && files[i].name != []
    ensures |m| <= NOTABNO
    ensures var f := files[i];
            if f.dbno == NOTABNO then f.length == 0
            else f.bno in chains && chains[f.bno] != [] && ChainOf(m, f.dbno, chains[f.bno])
                 && |Content(m, chains[f.bno])| == f.length
                 && Content(m, chains[f.bno]) == Content(m0, chains[f.bno]) && f.bno < |m0|
                 && Bytes(m, chains[f.bno][|chains[f.bno]| - 1]) == Bytes(m0, chains[f.bno][|chains[f.bno]| - 1])
                 && ParseDir(m0[f.bno], |m0|).Some?
  {
    hide ParseData, ParseDir, Files;
    var f := files[i];
    EntryKept(m0, u0, m, u, files, chains, nb, dbno);
    if f.dbno != NOTABNO {
      var bs := chains[f.bno];
      ChainHead(m0, f.dbno, bs);
      ChainBounds(m0, f.dbno, bs);
      ChainFrame(m0, m, f.dbno, bs);
      assert bs[|bs| - 1] in bs;
    }
  }

  lemma SplitBounds(offset: nat, n: nat, last: nat)
    requires Splits(offset, n, last)
    ensures offset <= last <= offset + n
  {}

  lemma EntryDir(m: seq<Block>, u: seq<bool>, files: seq<Tfile>, chains: map<nat, seq<nat>>, i: nat)
    requires Consistent(m, u, files, chains) && i < |files| && files[i].name != []
    ensures files[i].bno < |m| <= NOTABNO && files[i].pin < 0x10000
    ensures files[i].length > 0 ==> ParseDir(m[files[i].bno], |m|).Some?
  {
    hide ParseDir, ParseData, ChainOf, Content;
  }

  lemma GrownMap(m0: seq<Block>, u0: seq<bool>, m: seq<Block>, u: seq<bool>, chains: map<nat, seq<nat>>,
      nb: seq<nat>, dbno: nat)
    requires Grown(m0, u0, m, u, chains, nb, dbno)
    ensures MapOk(u, |m|) && (nb == [] ==> dbno == NOTABNO) && (nb != [] ==> dbno < |m|) && |m| <= NOTABNO
  {}

  lemma GrownTaken(m0: seq<Block>, u0: seq<bool>, m: seq<Block>, u: seq<bool>, chains: map<nat, seq<nat>>,
      nb: seq<nat>, dbno: nat)
    requires Grown(m0, u0, m, u, chains, nb, dbno)
    ensures Taken(u0, u, nb) && NoDup(nb) && |m| == |m0| && |m| <= |u0|
  {}

  lemma GrownFiles(m0: seq<Block>, u0: seq<bool>, m: seq<Block>, u: seq<bool>, chains: map<nat, seq<nat>>,
      nb: seq<nat>, dbno: nat)
    requires Grown(m0, u0, m, u, chains, nb, dbno)
    ensures Files(m) == Files(m0)
  {}

  lemma GrownNeat(m0: seq<Block>, u0: seq<bool>, m: seq<Block>, u: seq<bool>, chains: map<nat, seq<nat>>,
      nb: seq<nat>, dbno: nat)
    requires Grown(m0, u0, m, u, chains, nb, dbno)
    ensures Neat(m0, chains) ==> Neat(m, chains)
  {}

  /** Nothing comes between the old bytes of a neat file and the new ones. */
  lemma NeatGap(m: seq<Block>, u: seq<bool>, files: seq<Tfile>, chains: map<nat, seq<nat>>, i: nat)
    requires Consistent(m, u, files, chains) && i < |files| && files[i].name != [] && Neat(m, chains)
    requires files[i].length > 0
    ensures var bs := chains[files[i].bno]; bs != [] && Gap(Bytes(m, bs[|bs| - 1]), files[i].length) == []
  {
    hide ParseData, ParseDir, Content, Bytes;
    assert NeatFile(m, files[i].bno, chains[files[i].bno]);
  }

  lemma LastLength(m: seq<Block>, bs: seq<nat>, k: nat)
    requires |bs| > 0 && k == |bs| - 1 && |Content(m, bs[..k])| == DLEN * k
    ensures |Content(m, bs)| == DLEN * k + |Bytes(m, bs[k])| && |Bytes(m, bs[k])| <= DLEN
    ensures Content(m, bs) == Content(m, bs[..k]) + Bytes(m, bs[k])
  {
    hide ParseData;
    assert bs == bs[..k] + [bs[k]];
    ContentConcat(m, bs[..k], [bs[k]]);
    assert Content(m, [bs[k]]) == Bytes(m, bs[k]) + Content(m, []);
  }
  /** The blocks of a file to be removed. */
  lemma RemovalWalk(m: seq<Block>, u: seq<bool>, files: seq<Tfile>, chains: map<nat, seq<nat>>, i: nat, bs: seq<nat>)
    requires Consistent(m, u, files, chains) && i < |files| && files[i].name != []
    requires files[i].dbno != NOTABNO ==> files[i].bno in chains
    requires bs == if files[i].dbno == NOTABNO then [] else chains[files[i].bno]
    ensures Walks(m, files[i].dbno, NOTABNO, bs) && forall b | b in bs :: Marked(u, b)
  {
    hide ParseData, ParseDir, Content;
    if bs != [] { ChainWalks(m, files[i].dbno, bs); }
    else if files[i].dbno != NOTABNO { ChainHead(m, files[i].dbno, bs); }
  }

  lemma Removed(m: seq<Block>, u: seq<bool>, files: seq<Tfile>, chains: map<nat, seq<nat>>, i: nat, bs: seq<nat>,
      u': seq<bool>)
    requires Consistent(m, u, files, chains) && i < |files| && files[i].name != []
    requires files[i].dbno != NOTABNO ==> files[i].bno in chains
    requires bs == if files[i].dbno == NOTABNO then [] else chains[files[i].bno]
    requires |u'| == |u| && forall b | 0 <= b < |u| :: u'[b] == (u[b] && b !in bs && b != files[i].bno)
    ensures var d := files[i].bno;
            d < |m| && Consistent(m[d := Scrubbed()], u', files[i := BLANK], chains - {d})
            && Files(m[d := Scrubbed()]) == Files(m) - {d}
  {
    hide ParseData, ParseDir, ChainOf, Content, Files, Scrubbed;
    var d := files[i].bno;
    var m' := m[d := Scrubbed()];
    var chains' := chains - {d};
    ScrubbedIsNothing(|m|);
    DirectoryScrub(m, chains, d, Scrubbed());
    if bs != [] { ChainBounds(m, files[i].dbno, bs); }
    assert d in chains ==> chains[d] == bs;
    assert Apart(chains');
    assert Placed(u', chains') by {
      forall e | e in chains' ensures Marked(u', e) && forall b | b in chains'[e] :: Marked(u', b) {
        assert e != d && e in chains;
        assert Marked(u, e);
        if e in bs { assert d in chains; ChainBounds(m, files[i].dbno, bs); NotBothKinds(m[e], |m|); }
      }
    }
    forall j | 0 <= j < |files| && j != i && files[j].name != [] ensures EntryOk(files[j], m', u', chains') {
      assert files[j].bno != d;
      if files[j].bno in chains { ChainFrame(m, m', ParseDir(m[files[j].bno], |m|).value.first, chains[files[j].bno]); }
    }
  }

  /** A removal leaves the other files neat. */
  lemma NeatRemoved(m: seq<Block>, u: seq<bool>, files: seq<Tfile>, chains: map<nat, seq<nat>>, i: nat)
    requires Consistent(m, u, files, chains) && i < |files| && files[i].name != [] && Neat(m, chains)
    ensures files[i].bno < |m| && Neat(m[files[i].bno := Scrubbed()], chains - {files[i].bno})
  {
    hide ParseData, ParseDir, ChainOf, Content, Scrubbed, NeatFile;
    NeatBeside(m, chains, chains - {files[i].bno}, files[i].bno, Scrubbed());
  }

  lemma KeptName(name: seq<Byte>)
    requires name != [] && forall k | 0 <= k < |name| :: name[k] != 0
    ensures ProperName(Kept(name)) && Kept(name) != []
  {}

  lemma ConsistentMap(m: seq<Block>, u: seq<bool>, files: seq<Tfile>, chains: map<nat, seq<nat>>)
    requires Consistent(m, u, files, chains)
    ensures MapOk(u, |m|) && Sound(m, chains) && Apart(chains) && Placed(u, chains) && TableOk(files, m, u, chains)
  {}

  lemma NoneFree(u: seq<bool>, n: nat)
    requires MapOk(u, n) && forall b | 0 <= b < n :: u[b]
    ensures Free(u) == {}
  {}

  /** A new file: a block that was free becomes a directory block that leads nowhere yet. */
  lemma NewEntry(m: seq<Block>, u: seq<bool>, u': seq<bool>, files: seq<Tfile>, chains: map<nat, seq<nat>>, i: nat,
      f: Tfile)
    requires MapOk(u, |m|) && Sound(m, chains) && Apart(chains) && Placed(u, chains) && TableOk(files, m, u, chains)
    requires i < |files| && files[i].name == [] && f.bno < |m| && Taken(u, u', [f.bno])
    requires f.dbno == NOTABNO && f.length == 0 && f.pin < 0x10000 && ProperName(f.name)
    ensures var m' := m[f.bno := DirImage(f.dbno, f.pin, f.name)];
            && Consistent(m', u', files[i := f], chains) && Files(m') == Files(m) && Recoverable(m')
  {
    hide ParseData, ParseDir, ChainOf, Content, Files, DirImage;
    var m' := m[f.bno := DirImage(f.dbno, f.pin, f.name)];
    assert f.bno in [f.bno];
    UnmarkedIsLoose(u, chains, f.bno);
    DirRoundTrip(f.dbno, f.pin, f.name, |m|);
    LooseWrite(m, chains, f.bno, DirImage(f.dbno, f.pin, f.name));
    forall j | 0 <= j < |files| && j != i && files[j].name != [] ensures EntryOk(files[j], m', u', chains) {
      if files[j].bno in chains { ChainFrame(m, m', ParseDir(m[files[j].bno], |m|).value.first, chains[files[j].bno]); }
    }
  }

  /** A new entry leaves the files neat. */
  lemma NeatNew(m: seq<Block>, u: seq<bool>, chains: map<nat, seq<nat>>, b: nat, blk: Block)
    requires Sound(m, chains) && Placed(u, chains) && b < |m| && b < |u| && !u[b] && Neat(m, chains)
    ensures Neat(m[b := blk], chains)
  {
    UnmarkedIsLoose(u, chains, b);
    NeatBeside(m, chains, chains, b, blk);
  }

  lemma NewIsClean(m: seq<Block>, u: seq<bool>, files: seq<Tfile>, chains: map<nat, seq<nat>>)
    requires Consistent(m, u, files, chains) && Neat(m, chains)
    ensures Clean(m)
  {}

  // --- reading ---

  lemma LengthIs(m: seq<Block>, u: seq<bool>, files: seq<Tfile>, chains: map<nat, seq<nat>>, i: nat)
    requires Consistent(m, u, files, chains) && i < |files| && files[i].name != []
    ensures var f := files[i];
            if f.dbno == NOTABNO then f.length == 0
            else f.bno in chains && ChainOf(m, f.dbno, chains[f.bno]) && chains[f.bno] != [] && chains[f.bno][0] == f.dbno
                 && f.length == |Content(m, chains[f.bno])|
  {
    hide ParseData, ParseDir, Content;
    var f := files[i];
    if f.dbno != NOTABNO { ChainHead(m, f.dbno, chains[f.bno]); }
  }

  /** The k-th block either leads on or ends the content. */
  lemma ShortLast(m: seq<Block>, b: nat, bs: seq<nat>, k: nat)
    requires ChainOf(m, b, bs) && k < |bs|
    ensures bs[k] < |m| && ParseData(m[bs[k]], |m|).Some?
    ensures ParseData(m[bs[k]], |m|).value.Data? ==>
        |Bytes(m, bs[k])| == DLEN && k + 1 < |bs| && ParseData(m[bs[k]], |m|).value.next == bs[k + 1]
    ensures ParseData(m[bs[k]], |m|).value.End? ==>
        |Content(m, bs)| == DLEN * k + |Bytes(m, bs[k])| && |Bytes(m, bs[k])| <= DLEN
  {
    ChainShape(m, b, bs, k);
    hide ParseData;
    if k == |bs| - 1 { LastLength(m, bs, k); }
    LinkLength(m, bs[k]);
  }

  lemma LinkLength(m: seq<Block>, b: nat)
    requires b < |m| && ParseData(m[b], |m|).Some?
    ensures ParseData(m[b], |m|).value.Data? ==> |Bytes(m, b)| == DLEN
  {}

  /** Part of a block is part of the file, at the block's place. */
  lemma Piece(m: seq<Block>, b: nat, bs: seq<nat>, k: nat, off: nat, len: nat)
    requires ChainOf(m, b, bs) && k < |bs| && off + len <= |Bytes(m, bs[k])|
    ensures DLEN * k + off + len <= |Content(m, bs)|
    ensures Content(m, bs)[DLEN * k + off..DLEN * k + off + len] == Bytes(m, bs[k])[off..off + len]
  {
    ChainShape(m, b, bs, k);
    hide Content, Bytes, ChainOf, ParseData;
    Slice(Content(m, bs), Content(m, bs[..k]), Bytes(m, bs[k]), Content(m, bs[k + 1..]), DLEN * k + off, off, len);
  }

  /** The bytes read so far and a piece of the next block are a longer slice of the file. */
  lemma ReadOn(m: seq<Block>, b: nat, bs: seq<nat>, k: nat, off: nat, len: nat, a: seq<Byte>, start: nat)
    requires ChainOf(m, b, bs) && k < |bs| && off + len <= |Bytes(m, bs[k])| && start + |a| == DLEN * k + off
    requires start + |a| <= |Content(m, bs)| && a == Content(m, bs)[start..start + |a|]
    ensures start + |a| + len <= |Content(m, bs)|
    ensures a + Bytes(m, bs[k])[off..off + len] == Content(m, bs)[start..start + |a| + len]
  {
    hide ParseData, ParseDir, ChainOf, Content, Bytes;
    Piece(m, b, bs, k, off, len);
    JoinSlices(Content(m, bs), start, start + |a|, start + |a| + len);
  }

  lemma JoinSlices(all: seq<Byte>, a: nat, b: nat, c: nat)
    requires a <= b <= c <= |all|
    ensures all[a..b] + all[b..c] == all[a..c]
  {}

  lemma Slice(all: seq<Byte>, pre: seq<Byte>, bytes: seq<Byte>, post: seq<Byte>, at: nat, off: nat, len: nat)
    requires all == pre + bytes + post && at == |pre| + off && off + len <= |bytes|
    ensures at + len <= |all| && all[at..at + len] == bytes[off..off + len]
  {}
}
