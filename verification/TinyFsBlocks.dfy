// The blocks of emu/devtinyfs.c on the medium, the chains they form, and the files a medium holds.

module TinyFsBlocks {
  import opened Lists

  const DLEN: nat := 44
  const NLEN: nat := 28

  const TAGDIR: Byte := 0x64
  const TAGDATA: Byte := 0x44
  const TAGEND: Byte := 0x65

  const NOTABNO: nat := 0xffff

  type Block = s: seq<Byte> | |s| == 48 witness seq(48, _ => 0)

  // --- blocks ---

  /** The sum of the bytes in one unsigned char. */
  function Checksum(s: seq<Byte>): Byte {
    if s == [] then 0 else (Checksum(s[..|s| - 1]) + s[|s| - 1]) % 256
  }

  function Gets(p: Block, i: nat): nat
    requires i < 47
  {
    var lo: int, hi: int := p[i], p[i + 1];
    lo + 256 * hi
  }

  /** 47 bytes and the sum that makes the block's checksum zero. */
  function Seal(body: seq<Byte>): (b: Block)
    requires |body| == 47
  {
    body + [(256 - Checksum(body)) % 256]
  }

  lemma Sealed(body: seq<Byte>)
    requires |body| == 47
    ensures Checksum(Seal(body)) == 0 && Seal(body)[..47] == body
  {
    var b := Seal(body);
    assert b[..|b| - 1] == body;
  }

  /** A link of a file: 44 bytes and the next block, or the end with up to 44 bytes. */
  datatype Link = Data(next: nat, bytes: seq<Byte>) | End(bytes: seq<Byte>)

  /** validdata, for a medium of n blocks. */
  function ParseData(p: Block, n: nat): (r: Option<Link>)
    ensures r.Some? ==> |r.value.bytes| <= DLEN && (r.value.Data? ==> |r.value.bytes| == DLEN && r.value.next < n)
  {
    var x := Gets(p, 1);
    if Checksum(p) != 0 then None
    else if p[0] == TAGDATA then
      if x >= n then None else Some(Data(x, p[3..47]))
    else if p[0] == TAGEND then
      if x > DLEN then None else Some(End(p[3..3 + x]))
    else None
  }

  /** The block writedata builds. */
  function DataImage(tag: Byte, word: nat, bytes: seq<Byte>): Block
    requires |bytes| <= DLEN && word < 0x10000
  {
    Seal([tag, word % 256, word / 256] + bytes + Zeros(DLEN - |bytes|))
  }

  lemma DataRoundTrip(word: nat, bytes: seq<Byte>, n: nat)
    requires |bytes| <= DLEN && word < 0x10000
    ensures word < n ==>
        ParseData(DataImage(TAGDATA, word, bytes), n) == Some(Data(word, bytes + Zeros(DLEN - |bytes|)))
    ensures word == |bytes| ==> ParseData(DataImage(TAGEND, word, bytes), n) == Some(End(bytes))
    ensures ParseDir(DataImage(TAGDATA, word, bytes), n) == None && ParseDir(DataImage(TAGEND, word, bytes), n) == None
  {
    var padded := bytes + Zeros(DLEN - |bytes|);
    forall tag: Byte ensures var p := DataImage(tag, word, bytes);
                             Checksum(p) == 0 && p[0] == tag && Gets(p, 1) == word && p[3..47] == padded &&
                                 p[3..3 + |bytes|] == bytes {
      var body := [tag, word % 256, word / 256] + bytes + Zeros(DLEN - |bytes|);
      Sealed(body);
      var p := DataImage(tag, word, bytes);
      assert p[3..47] == body[3..47];
      assert body == [tag, word % 256, word / 256] + padded;
    }
  }

  /** A directory block: the first block of a file, its pin and its name. */
  datatype Dir = Dir(first: nat, pin: nat, name: seq<Byte>)

  /** The bytes before the first zero. */
  function CString(s: seq<Byte>): (r: seq<Byte>)
    ensures |r| <= |s| && forall i | 0 <= i < |r| :: r[i] != 0
  {
    if s == [] || s[0] == 0 then [] else [s[0]] + CString(s[1..])
  }

  lemma {:induction false} CStringPadded(name: seq<Byte>, k: nat)
    requires forall i | 0 <= i < |name| :: name[i] != 0
    requires k > 0
    ensures CString(name + Zeros(k)) == name
  {
    var s := name + Zeros(k);
    if name == [] {
      assert s[0] == 0;
    } else {
      CStringPadded(name[1..], k);
      assert s[1..] == name[1..] + Zeros(k);
    }
  }

  /** validdir, for a medium of n blocks, with the fields tfsinit copies. */
  function ParseDir(p: Block, n: nat): (r: Option<Dir>)
    ensures r.Some? ==> r.value.first < n && r.value.pin < 0x10000
  {
    if Checksum(p) != 0 || p[0] != TAGDIR || Gets(p, 1) >= n then None
    else Some(Dir(Gets(p, 1), Gets(p, 3), CString(p[5..33])))
  }

  /** strncpy with one byte less than the field: what writedir keeps of a name. */
  function Kept(name: seq<Byte>): (r: seq<Byte>)
    ensures r <= name && |r| < NLEN && (|r| == NLEN - 1 || r == name)
  {
    if |name| < NLEN then name else name[..NLEN - 1]
  }

  /** The block writedir builds. */
  function DirImage(first: nat, pin: nat, name: seq<Byte>): Block
    requires first < 0x10000 && pin < 0x10000
  {
    Seal([TAGDIR, first % 256, first / 256, pin % 256, pin / 256] + Kept(name) + Zeros(42 - |Kept(name)|))
  }

  lemma DirRoundTrip(first: nat, pin: nat, name: seq<Byte>, n: nat)
    requires first < 0x10000 && pin < 0x10000 && forall i | 0 <= i < |name| :: name[i] != 0
    ensures ParseDir(DirImage(first, pin, name), n) == if first < n then Some(Dir(first, pin, Kept(name))) else None
  {
    var head := [TAGDIR, first % 256, first / 256, pin % 256, pin / 256];
    var k := Kept(name);
    var body := head + k + Zeros(42 - |k|);
    Sealed(body);
    var p := DirImage(first, pin, name);
    assert p[5..33] == k + Zeros(28 - |k|);
    CStringPadded(k, 28 - |k|);
  }

  /** What freefile leaves in a directory block. */
  function Scrubbed(): Block { seq(48, _ => 0x55) }

  lemma {:induction false} ChecksumOfRepeat(x: Byte, n: nat)
    ensures Checksum(seq(n, _ => x)) == (n * x) % 256
  {
    if n > 0 {
      var s := seq(n, _ => x);
      assert s[..n - 1] == seq(n - 1, _ => x);
      ChecksumOfRepeat(x, n - 1);
      ModAdd((n - 1) * x, x);
      assert (n - 1) * x + x == n * x;
    }
  }

  lemma ModAdd(a: nat, x: nat)
    ensures (a % 256 + x) % 256 == (a + x) % 256
  {}

  /** A scrubbed block is neither a directory nor a link. */
  lemma ScrubbedIsNothing(n: nat)
    ensures ParseDir(Scrubbed(), n) == None && ParseData(Scrubbed(), n) == None
  {
    ChecksumOfRepeat(0x55, 48);
  }

  /** A block is not both a directory and a link. */
  lemma NotBothKinds(p: Block, n: nat)
    ensures ParseDir(p, n) == None || ParseData(p, n) == None
  {}

  // --- chains ---

  /** bs is the whole chain of links that starts at bno. */
  ghost predicate ChainOf(m: seq<Block>, bno: nat, bs: seq<nat>)
    decreases |bs|
  {
    && |bs| > 0 && bs[0] == bno && bno < |m|
    && match ParseData(m[bno], |m|) {
         case None => false
         case Some(End(_)) => |bs| == 1
         case Some(Data(next, _)) => ChainOf(m, next, bs[1..])
       }
  }

  ghost function Bytes(m: seq<Block>, b: nat): seq<Byte> {
    if b < |m| && ParseData(m[b], |m|).Some? then ParseData(m[b], |m|).value.bytes else []
  }

  ghost function Content(m: seq<Block>, bs: seq<nat>): seq<Byte> {
    if bs == [] then [] else Bytes(m, bs[0]) + Content(m, bs[1..])
  }

  lemma {:induction false} ChainUnique(m: seq<Block>, bno: nat, bs: seq<nat>, cs: seq<nat>)
    requires ChainOf(m, bno, bs) && ChainOf(m, bno, cs)
    ensures bs == cs
    decreases |bs|
  {
    hide ParseData, ParseDir;
    if |bs| > 1 {
      ChainUnique(m, bs[1], bs[1..], cs[1..]);
      assert bs == [bno] + bs[1..] && cs == [bno] + cs[1..];
    }
  }

  /** Chains depend only on their own blocks. */
  lemma {:induction false} ChainFrame(m: seq<Block>, m': seq<Block>, bno: nat, bs: seq<nat>)
    requires |m| == |m'| && ChainOf(m, bno, bs) && forall b | b in bs && b < |m| :: m[b] == m'[b]
    ensures ChainOf(m', bno, bs) && Content(m', bs) == Content(m, bs)
    decreases |bs|
  {
    hide ParseData, ParseDir;
    assert bs[0] in bs;
    if |bs| > 1 {
      ChainFrame(m, m', bs[1], bs[1..]);
    } else {
      assert bs[1..] == [];
    }
  }

  lemma {:induction false} ChainBounds(m: seq<Block>, bno: nat, bs: seq<nat>)
    requires ChainOf(m, bno, bs)
    ensures forall b | b in bs :: b < |m| && ParseData(m[b], |m|).Some?
    decreases |bs|
  {
    hide ParseData, ParseDir;
    if |bs| > 1 { ChainBounds(m, bs[1], bs[1..]); }
    assert bs == [bs[0]] + bs[1..];
  }

  lemma {:induction false} ContentConcat(m: seq<Block>, a: seq<nat>, b: seq<nat>)
    ensures Content(m, a + b) == Content(m, a) + Content(m, b)
  {
    hide Bytes;
    if a == [] {
      assert a + b == b;
    } else {
      ContentConcat(m, a[1..], b);
      assert (a + b)[1..] == a[1..] + b;
    }
  }

  /** The shape of a chain: full blocks, each leading to the one after it, then an end. */
  lemma {:induction false} ChainShape(m: seq<Block>, bno: nat, bs: seq<nat>, k: nat)
    requires ChainOf(m, bno, bs) && k < |bs|
    ensures bs[k] < |m| && ParseData(m[bs[k]], |m|).Some?
    ensures k == |bs| - 1 <==> ParseData(m[bs[k]], |m|).value.End?
    ensures k < |bs| - 1 ==> ParseData(m[bs[k]], |m|).value.next == bs[k + 1]
    ensures |Content(m, bs[..k])| == DLEN * k
    ensures Content(m, bs) == Content(m, bs[..k]) + Bytes(m, bs[k]) + Content(m, bs[k + 1..])
    decreases |bs|
  {
    hide ParseData, ParseDir;
    if k > 0 {
      ChainShape(m, bs[1], bs[1..], k - 1);
      assert bs[..k][1..] == bs[1..][..k - 1];
      assert bs[k + 1..] == bs[1..][k..];
    } else {
      assert bs[..0] == [];
    }
  }

  // --- files ---

  datatype File = File(name: seq<Byte>, pin: nat, bytes: seq<Byte>)

  ghost predicate HasFile(m: seq<Block>, d: nat) {
    d < |m| && ParseDir(m[d], |m|).Some? && exists bs :: ChainOf(m, ParseDir(m[d], |m|).value.first, bs)
  }

  ghost function FileAt(m: seq<Block>, d: nat): File
    requires HasFile(m, d)
  {
    var dir := ParseDir(m[d], |m|).value;
    var bs :| ChainOf(m, dir.first, bs);
    File(dir.name, dir.pin, Content(m, bs))
  }

  /** The files a medium holds, by directory block: what following directory blocks and chains yields. */
  ghost function Files(m: seq<Block>): map<nat, File> {
    map d: nat | d < |m| && HasFile(m, d) :: FileAt(m, d)
  }

  /** Every directory block of m leads to a whole chain, the one chains records. */
  ghost predicate Sound(m: seq<Block>, chains: map<nat, seq<nat>>) {
    && (forall d: nat | d < |m| :: ParseDir(m[d], |m|).Some? <==> d in chains)
    && (forall d | d in chains :: d < |m| && ChainOf(m, ParseDir(m[d], |m|).value.first, chains[d]))
  }

  /** No block is in two chains, or twice in one. */
  ghost predicate Apart(chains: map<nat, seq<nat>>) {
    && (forall d | d in chains :: NoDup(chains[d]))
    && (forall d, e | d in chains && e in chains && d != e :: forall b | b in chains[d] :: b !in chains[e])
  }

  ghost predicate Recoverable(m: seq<Block>) {
    exists chains :: Sound(m, chains) && Apart(chains)
  }

  lemma FileOf(m: seq<Block>, chains: map<nat, seq<nat>>, d: nat)
    requires Sound(m, chains) && d in chains
    ensures HasFile(m, d)
    ensures var dir := ParseDir(m[d], |m|).value; FileAt(m, d) == File(dir.name, dir.pin, Content(m, chains[d]))
  {
    hide ChainOf, Content, ParseDir, ParseData;
    var dir := ParseDir(m[d], |m|).value;
    assert ChainOf(m, dir.first, chains[d]);
    forall bs | ChainOf(m, dir.first, bs) ensures bs == chains[d] { ChainUnique(m, dir.first, bs, chains[d]); }
  }

  lemma FilesDomain(m: seq<Block>, chains: map<nat, seq<nat>>)
    requires Sound(m, chains)
    ensures Files(m).Keys == chains.Keys
  {
    hide ChainOf, Content, ParseDir, ParseData;
    forall d | d in chains ensures HasFile(m, d) { FileOf(m, chains, d); }
  }

  /** A file with a name, whose last block has bytes if any block has. */
  ghost predicate NeatFile(m: seq<Block>, d: nat, bs: seq<nat>) {
    && d < |m| && ParseDir(m[d], |m|).Some? && ParseDir(m[d], |m|).value.name != []
    && (Content(m, bs) != [] ==> bs != [] && Bytes(m, bs[|bs| - 1]) != [])
  }

  ghost predicate Neat(m: seq<Block>, chains: map<nat, seq<nat>>) {
    forall d | d in chains :: NeatFile(m, d, chains[d])
  }

  /** A medium of whole, separate files, all of them neat: what the operations leave behind. */
  ghost predicate Clean(m: seq<Block>) {
    exists chains :: Sound(m, chains) && Apart(chains) && Neat(m, chains)
  }

  /** Neatness depends only on the file's own blocks. */
  lemma NeatFrame(m: seq<Block>, m': seq<Block>, d: nat, bno: nat, bs: seq<nat>)
    requires |m'| == |m| && NeatFile(m, d, bs) && ChainOf(m, bno, bs) && m'[d] == m[d]
    requires forall b | b in bs && b < |m| :: m'[b] == m[b]
    ensures NeatFile(m', d, bs)
  {
    hide ParseData, ParseDir, Content, ChainOf;
    ChainFrame(m, m', bno, bs);
    if bs != [] { assert bs[|bs| - 1] in bs; }
  }

  /** A write to a block of none of the files listed leaves them neat. */
  lemma NeatBeside(m: seq<Block>, chains: map<nat, seq<nat>>, kept: map<nat, seq<nat>>, b: nat, blk: Block)
    requires Sound(m, chains) && Neat(m, chains) && b < |m| && Loose(kept, b)
    requires forall d | d in kept :: d in chains && kept[d] == chains[d]
    ensures Neat(m[b := blk], kept)
  {
    hide ParseData, ParseDir, Content, ChainOf, NeatFile;
    forall d | d in kept ensures NeatFile(m[b := blk], d, kept[d]) {
      NeatFrame(m, m[b := blk], d, ParseDir(m[d], |m|).value.first, chains[d]);
    }
  }

  /** On a clean medium every way to list the files finds them neat. */
  lemma CleanIs(m: seq<Block>, chains: map<nat, seq<nat>>)
    requires Clean(m) && Sound(m, chains)
    ensures Neat(m, chains)
  {
    hide ParseData, ParseDir, Content, ChainOf, NeatFile;
    var cs :| Sound(m, cs) && Apart(cs) && Neat(m, cs);
    forall d | d in chains ensures NeatFile(m, d, chains[d]) {
      ChainUnique(m, ParseDir(m[d], |m|).value.first, cs[d], chains[d]);
      assert d in cs;
    }
  }

  /** A medium without directory blocks is clean. */
  lemma BlankIsClean(m: seq<Block>)
    requires forall d: nat | d < |m| :: ParseDir(m[d], |m|) == None
    ensures Clean(m)
  {
    var none: map<nat, seq<nat>> := map[];
    assert Sound(m, none) && Apart(none) && Neat(m, none);
  }

  // --- the three kinds of block write ---

  /** b belongs to no file. */
  ghost predicate Loose(chains: map<nat, seq<nat>>, b: nat) {
    b !in chains && forall d | d in chains :: b !in chains[d]
  }

  /** A write outside every file, of something that is not a directory, changes no file. */
  lemma LooseWrite(m: seq<Block>, chains: map<nat, seq<nat>>, b: nat, blk: Block)
    requires Sound(m, chains) && b < |m| && Loose(chains, b) && ParseDir(blk, |m|) == None
    ensures Sound(m[b := blk], chains) && Files(m[b := blk]) == Files(m)
  {
    hide ChainOf, Content, ParseDir, ParseData, Files, HasFile, FileAt;
    var m' := m[b := blk];
    forall d | d in chains
      ensures ChainOf(m', ParseDir(m'[d], |m|).value.first, chains[d])
      ensures Content(m', chains[d]) == Content(m, chains[d])
    {
      ChainFrame(m, m', ParseDir(m[d], |m|).value.first, chains[d]);
    }
    SameFiles(m, m', chains);
  }

  lemma SameFiles(m: seq<Block>, m': seq<Block>, chains: map<nat, seq<nat>>)
    requires |m| == |m'| && Sound(m, chains) && Sound(m', chains)
    requires forall d | d in chains ::
        ParseDir(m'[d], |m|) == ParseDir(m[d], |m|) && Content(m', chains[d]) == Content(m, chains[d])
    ensures Files(m') == Files(m)
  {
    hide ChainOf, Content, ParseDir, ParseData, HasFile, FileAt;
    FilesDomain(m, chains);
    FilesDomain(m', chains);
    forall d | d in chains ensures Files(m')[d] == Files(m)[d] {
      FileOf(m, chains, d);
      FileOf(m', chains, d);
    }
  }

  /** Files(m') is Files(m) with d's file set to f. */
  lemma OneFile(m: seq<Block>, m': seq<Block>, chains: map<nat, seq<nat>>, d: nat, bs: seq<nat>, f: File)
    requires |m| == |m'| && d < |m| && Sound(m, chains) && Sound(m', chains[d := bs])
    requires forall e | e in chains && e != d ::
        ParseDir(m'[e], |m|) == ParseDir(m[e], |m|) && Content(m', chains[e]) == Content(m, chains[e])
    requires f == File(ParseDir(m'[d], |m|).value.name, ParseDir(m'[d], |m|).value.pin, Content(m', bs))
    ensures Files(m') == Files(m)[d := f]
  {
    hide ChainOf, Content, ParseDir, ParseData, HasFile, FileAt;
    var chains' := chains[d := bs];
    FilesDomain(m, chains);
    FilesDomain(m', chains');
    forall e | e in chains' ensures Files(m')[e] == Files(m)[d := f][e] {
      FileOf(m', chains', e);
      if e != d { FileOf(m, chains, e); }
    }
  }

  /** Writing a directory block that points at a finished chain adds or replaces that one file. */
  lemma DirectoryWrite(m: seq<Block>, chains: map<nat, seq<nat>>, d: nat, blk: Block, bs: seq<nat>)
    requires Sound(m, chains) && d < |m| && (forall e | e in chains :: d !in chains[e]) && d !in bs
    requires ParseDir(blk, |m|).Some? && ChainOf(m, ParseDir(blk, |m|).value.first, bs)
    ensures Sound(m[d := blk], chains[d := bs])
    ensures var dir := ParseDir(blk, |m|).value;
            Files(m[d := blk]) == Files(m)[d := File(dir.name, dir.pin, Content(m, bs))]
    ensures Content(m[d := blk], bs) == Content(m, bs)
  {
    hide ChainOf, Content, ParseDir, ParseData, Files, HasFile, FileAt;
    var m' := m[d := blk];
    ChainFrame(m, m', ParseDir(blk, |m|).value.first, bs);
    forall e | e in chains && e != d
      ensures ChainOf(m', ParseDir(m'[e], |m|).value.first, chains[e])
      ensures Content(m', chains[e]) == Content(m, chains[e])
    {
      ChainFrame(m, m', ParseDir(m[e], |m|).value.first, chains[e]);
    }
    var dir := ParseDir(blk, |m|).value;
    OneFile(m, m', chains, d, bs, File(dir.name, dir.pin, Content(m, bs)));
  }

  /** Overwriting a directory block with something else removes that one file. */
  lemma DirectoryScrub(m: seq<Block>, chains: map<nat, seq<nat>>, d: nat, blk: Block)
    requires Sound(m, chains) && d < |m| && (forall e | e in chains :: d !in chains[e])
    requires ParseDir(blk, |m|) == None
    ensures Sound(m[d := blk], chains - {d})
    ensures Files(m[d := blk]) == Files(m) - {d}
  {
    hide ChainOf, Content, ParseDir, ParseData, HasFile, FileAt;
    var m', chains' := m[d := blk], chains - {d};
    forall e | e in chains'
      ensures ChainOf(m', ParseDir(m'[e], |m|).value.first, chains[e])
      ensures Content(m', chains[e]) == Content(m, chains[e])
    {
      ChainFrame(m, m', ParseDir(m[e], |m|).value.first, chains[e]);
    }
    FilesDomain(m, chains);
    FilesDomain(m', chains');
    forall e | e in chains' ensures Files(m')[e] == Files(m)[e] {
      FileOf(m, chains, e);
      FileOf(m', chains', e);
    }
  }

  lemma Regroup(a: seq<Byte>, b: seq<Byte>, c: seq<Byte>, d: seq<Byte>)
    ensures a + (b + c + d) == (a + b) + c + d
  {}

  /** All but the last of a list, head and tail. */
  lemma FrontOf(bs: seq<nat>, m: seq<Block>, m': seq<Block>)
    requires |bs| > 1 && |m'| == |m| && forall b | b in bs[..|bs| - 1] && b < |m| :: m'[b] == m[b]
    ensures bs[..|bs| - 1] == [bs[0]] + bs[1..][..|bs| - 2] && bs[..|bs| - 1][1..] == bs[1..][..|bs| - 2]
    ensures bs[0] < |m| ==> m'[bs[0]] == m[bs[0]]
    ensures forall b | b in bs[1..][..|bs| - 2] && b < |m| :: m'[b] == m[b]
  {
    var front := bs[..|bs| - 1];
    assert front[0] == bs[0] && front == [bs[0]] + bs[1..][..|bs| - 2];
  }

  lemma ContentStep(m: seq<Block>, b: nat, bs: seq<nat>)
    ensures Content(m, [b] + bs) == Bytes(m, b) + Content(m, bs)
  {
    assert ([b] + bs)[1..] == bs;
  }

  lemma ChainStep(m: seq<Block>, b: nat, bs: seq<nat>)
    requires b < |m| && ParseData(m[b], |m|).Some? && ParseData(m[b], |m|).value.Data? &&
        ChainOf(m, ParseData(m[b], |m|).value.next, bs)
    ensures ChainOf(m, b, [b] + bs)
  {
    assert ([b] + bs)[1..] == bs;
  }

  /** A chain whose last link is rewritten to lead on. */
  lemma {:induction false} ChainExtend(m: seq<Block>, m': seq<Block>, bno: nat, bs: seq<nat>, more: seq<nat>)
    requires |m'| == |m| && ChainOf(m, bno, bs)
    requires forall b | b in bs[..|bs| - 1] && b < |m| :: m'[b] == m[b]
    requires var l := bs[|bs| - 1];
             l < |m| && ParseData(m'[l], |m|).Some? && match ParseData(m'[l], |m|).value {
               case End(_) => more == []
               case Data(next, _) => ChainOf(m', next, more)
             }
    ensures ChainOf(m', bno, bs + more)
    ensures Content(m', bs + more) == Content(m, bs[..|bs| - 1]) + Bytes(m', bs[|bs| - 1]) + Content(m', more)
    decreases |bs|
  {
    hide ParseData, ParseDir;
    if |bs| == 1 {
      assert bs + more == [bno] + more && (bs + more)[1..] == more;
      assert bs[..0] == [];
    } else {
      FrontOf(bs, m, m');
      hide Content, Bytes;
      ChainExtend(m, m', bs[1], bs[1..], more);
      assert bs + more == [bno] + (bs[1..] + more);
      ChainStep(m', bno, bs[1..] + more);
      ContentStep(m', bno, bs[1..] + more);
      ContentStep(m, bno, bs[1..][..|bs| - 2]);
      SameBytes(m, m', bno);
      Regroup(Bytes(m, bno), Content(m, bs[1..][..|bs| - 2]), Bytes(m', bs[|bs| - 1]), Content(m', more));
    }
  }

  lemma SameBytes(m: seq<Block>, m': seq<Block>, b: nat)
    requires b < |m| == |m'| && m'[b] == m[b]
    ensures Bytes(m', b) == Bytes(m, b)
  {}

  /** Rewriting the last link of a file's chain changes that one file. */
  lemma LastLinkWrite(m: seq<Block>, chains: map<nat, seq<nat>>, d: nat, blk: Block, more: seq<nat>)
    requires Sound(m, chains) && Apart(chains) && d in chains && |chains[d]| > 0
    requires ParseDir(blk, |m|) == None && ParseData(blk, |m|).Some?
    requires var l := chains[d][|chains[d]| - 1]; l < |m| && l !in more && match ParseData(blk, |m|).value {
               case End(_) => more == []
               case Data(next, _) => ChainOf(m, next, more)
             }
    ensures var bs := chains[d]; var l := bs[|bs| - 1]; var dir := ParseDir(m[d], |m|).value;
            && Sound(m[l := blk], chains[d := bs + more])
            && Files(m[l := blk]) == Files(m)[d := File(dir.name, dir.pin,
                                                       Content(m, bs[..|bs| - 1]) + ParseData(blk,
                                                           |m|).value.bytes + Content(m, more))]
            && Content(m[l := blk], bs + more) == Content(m, bs[..|bs| - 1]) + ParseData(blk,
                |m|).value.bytes + Content(m, more)
  {
    hide Content, ParseDir, ParseData, Files, HasFile, FileAt;
    var bs := chains[d];
    var l := bs[|bs| - 1];
    var m' := m[l := blk];
    ChainBounds(m, ParseDir(m[d], |m|).value.first, bs);
    NotBothKinds(m[l], |m|);
    if more != [] { ChainFrame(m, m', more[0], more); } else { NoContent(m); NoContent(m'); }
    ChainExtend(m, m', ParseDir(m[d], |m|).value.first, bs, more);
    forall e | e in chains && e != d
      ensures ChainOf(m', ParseDir(m'[e], |m|).value.first, chains[e]) &&
          Content(m', chains[e]) == Content(m, chains[e])
    {
      assert l in bs;
      ChainFrame(m, m', ParseDir(m[e], |m|).value.first, chains[e]);
    }
    var dir := ParseDir(m[d], |m|).value;
    BytesOf(m', l);
    OneFile(m, m', chains, d, bs + more, File(dir.name, dir.pin, Content(m', bs + more)));
  }

  lemma NoContent(m: seq<Block>)
    ensures Content(m, []) == []
  {}

  lemma BytesOf(m: seq<Block>, b: nat)
    requires b < |m| && ParseData(m[b], |m|).Some?
    ensures Bytes(m, b) == ParseData(m[b], |m|).value.bytes
  {}
}
