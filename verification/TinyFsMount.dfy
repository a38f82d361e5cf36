// Mounting: tfsinit of emu/devtinyfs.c, on any medium whatever.

module TinyFsMount {
  import opened Lists
  import opened TinyFsBlocks
  import opened TinyFsOrbit
  import opened TinyFsState
  import opened TinyFs

  // --- walking one file ---

  /** ws are the blocks passed, each leading on, on the way from b0 to b. */
  ghost predicate Path(m: seq<Block>, b0: nat, ws: seq<nat>, b: nat)
    decreases |ws|
  {
    if ws == [] then b0 == b
    else
      && ws[0] == b0 && b0 < |m| && ParseData(m[b0], |m|).Some? && ParseData(m[b0], |m|).value.Data?
      && Path(m, ParseData(m[b0], |m|).value.next, ws[1..], b)
  }

  lemma {:induction false} PathStep(m: seq<Block>, b0: nat, ws: seq<nat>, b: nat)
    requires Path(m, b0, ws, b) && b < |m| && ParseData(m[b], |m|).Some? && ParseData(m[b], |m|).value.Data?
    ensures Path(m, b0, ws + [b], ParseData(m[b], |m|).value.next)
    decreases |ws|
  {
    hide ParseData;
    if ws == [] {
      assert [b][1..] == [];
      assert ws + [b] == [b];
    } else {
      PathStep(m, ParseData(m[b0], |m|).value.next, ws[1..], b);
      assert (ws + [b])[1..] == ws[1..] + [b];
    }
  }

  lemma {:induction false} PathChain(m: seq<Block>, b0: nat, ws: seq<nat>, b: nat)
    requires Path(m, b0, ws, b) && b < |m| && ParseData(m[b], |m|).Some? && ParseData(m[b], |m|).value.End?
    ensures ChainOf(m, b0, ws + [b])
    ensures |Content(m, ws + [b])| == DLEN * |ws| + |ParseData(m[b], |m|).value.bytes|
    decreases |ws|
  {
    if ws == [] {
      hide ParseData;
      assert ws + [b] == [b];
      assert Content(m, [b]) == Bytes(m, b) + Content(m, []);
    } else {
      PathChain(m, ParseData(m[b0], |m|).value.next, ws[1..], b);
      PathLink(m, b0);
      hide ParseData;
      assert (ws + [b])[1..] == ws[1..] + [b];
    }
  }

  lemma PathLink(m: seq<Block>, b: nat)
    requires b < |m| && ParseData(m[b], |m|).Some? && ParseData(m[b], |m|).value.Data?
    ensures |Bytes(m, b)| == DLEN
  {}

  /** What freeblocks visits when told to stop at b: the path, up to b's first place on it. */
  lemma {:induction false} PathWalks(m: seq<Block>, b0: nat, ws: seq<nat>, b: nat) returns (p: seq<nat>)
    requires Path(m, b0, ws, b) && |m| <= NOTABNO
    ensures Walks(m, b0, b, p) && p <= ws && b !in p && (|p| < |ws| ==> ws[|p|] == b)
    decreases |ws|
  {
    hide ParseData;
    if ws == [] || b0 == b {
      p := [];
    } else {
      var rest := PathWalks(m, ParseData(m[b0], |m|).value.next, ws[1..], b);
      p := [b0] + rest;
      assert p[1..] == rest;
    }
  }

  lemma {:induction false} PathBounds(m: seq<Block>, b0: nat, ws: seq<nat>, b: nat)
    requires Path(m, b0, ws, b)
    ensures forall w | w in ws :: w < |m| && ParseData(m[w], |m|).Some?
    decreases |ws|
  {
    hide ParseData;
    if ws != [] { PathBounds(m, ParseData(m[b0], |m|).value.next, ws[1..], b); }
  }

  /** Distinct numbers below n are at most n. */
  lemma Pigeonhole(ws: seq<nat>, n: nat)
    requires NoDup(ws) && forall w | w in ws :: w < n
    ensures |ws| <= n
  {
    DistinctCount(ws);
    BelowCount(Elements(ws), n);
  }

  lemma {:induction false} BelowCount(s: set<nat>, n: nat)
    requires forall x | x in s :: x < n
    ensures |s| <= n
  {
    if n > 0 { BelowCount(s - {n - 1}, n - 1); }
    else { assert s == {}; }
  }

  // --- the state between files ---

  function Entry(d: nat, dir: Dir, length: nat): Tfile {
    Tfile(0, dir.name, d, dir.first, dir.pin, false, length)
  }

  /** The table entry of the k-th directory block found, when the first j have been followed. */
  ghost predicate Row(m: seq<Block>, f: Tfile, d: nat, followed: bool, chains: map<nat, seq<nat>>) {
    if !followed then d < |m| && ParseDir(m[d], |m|).Some? && f == Entry(d, ParseDir(m[d], |m|).value, 0)
    else if d in chains then
      d < |m| && ParseDir(m[d], |m|).Some? && f == Entry(d, ParseDir(m[d], |m|).value, |Content(m, chains[d])|)
    else f == BLANK
  }

  /** dirs are the directory blocks found, and the first j of them have been followed. */
  ghost predicate Scanned(m0: seq<Block>, m: seq<Block>, u: seq<bool>, dirs: seq<nat>, j: nat, files: seq<Tfile>,
      chains: map<nat, seq<nat>>) {
    && |m| == |m0| && MapOk(u, |m|) && j <= |dirs| <= |files| && NoDup(dirs)
    && (forall d: nat | d < |m| :: ParseDir(m[d], |m|).Some? <==> d in chains || d in dirs[j..])
    && (forall d | d in chains :: d in dirs[..j] && d < |m| && ChainOf(m, ParseDir(m[d], |m|).value.first, chains[d]))
    && Apart(chains) && Placed(u, chains) && (forall d | d in dirs :: d < |m|)
    && (forall d | d in dirs[j..] :: Marked(u, d))
    && (forall k | 0 <= k < |dirs| :: Row(m, files[k], dirs[k], k < j, chains))
    && (forall k | |dirs| <= k < |files| :: files[k] == BLANK)
    && (forall b: nat | b < |m| :: m[b] == m0[b] || m[b] == Scrubbed())
  }

  /** A file whose walk meets a taken or bad block is purged. */
  lemma Purged(m0: seq<Block>, m: seq<Block>, u: seq<bool>, dirs: seq<nat>, j: nat, files: seq<Tfile>,
      chains: map<nat, seq<nat>>,
               ws: seq<nat>, u': seq<bool>, p: seq<nat>, u'': seq<bool>)
    requires Scanned(m0, m, u, dirs, j, files, chains) && j < |dirs|
    requires Taken(u, u', ws) && p <= ws && (forall b | b in ws :: b < |m|)
    requires |u''| == |u| && forall b | 0 <= b < |u| :: u''[b] == (u'[b] && b !in p && b != dirs[j])
    ensures Scanned(m0, m[dirs[j] := Scrubbed()], u'', dirs, j + 1, files[j := BLANK], chains)
  {
    hide ParseData, ParseDir, ChainOf, Content, Scrubbed;
    var d := dirs[j];
    var m' := m[d := Scrubbed()];
    ScrubbedIsNothing(|m|);
    assert dirs[j..] == [d] + dirs[j + 1..];
    assert dirs[..j + 1] == dirs[..j] + [d];
    assert d !in chains by { assert d !in dirs[..j]; }
    ChainsAvoidDirs(m, chains, d);
    forall e | e in chains
      ensures m'[e] == m[e] && ChainOf(m', ParseDir(m'[e], |m|).value.first, chains[e])
      ensures Content(m', chains[e]) == Content(m, chains[e])
    {
      ChainFrame(m, m', ParseDir(m[e], |m|).value.first, chains[e]);
    }
    assert d !in dirs[j + 1..];
    forall b | b in ws && b in p ensures !u[b] {}
    forall k | 0 <= k < |dirs| ensures Row(m', files[j := BLANK][k], dirs[k], k < j + 1, chains) {
      assert dirs[k] in dirs;
      assert Row(m, files[k], dirs[k], k < j, chains);
    }
  }

  lemma ChainsAvoidDirs(m: seq<Block>, chains: map<nat, seq<nat>>, d: nat)
    requires forall e | e in chains ::
        e < |m| && ParseDir(m[e], |m|).Some? && ChainOf(m, ParseDir(m[e], |m|).value.first, chains[e])
    requires d < |m| && ParseDir(m[d], |m|).Some?
    ensures forall e | e in chains :: d !in chains[e]
  {
    hide ParseData, ParseDir;
    forall e | e in chains ensures d !in chains[e] {
      ChainBounds(m, ParseDir(m[e], |m|).value.first, chains[e]);
      NotBothKinds(m[d], |m|);
    }
  }

  /** A file whose walk reaches an end is kept, with its chain. */
  lemma Survived(m0: seq<Block>, m: seq<Block>, u: seq<bool>, dirs: seq<nat>, j: nat, files: seq<Tfile>,
      chains: map<nat, seq<nat>>,
                 bs: seq<nat>, u': seq<bool>, f: Tfile)
    requires Scanned(m0, m, u, dirs, j, files, chains) && j < |dirs|
    requires Taken(u, u', bs) && NoDup(bs) && ChainOf(m, files[j].dbno, bs)
    requires f == files[j].(length := |Content(m, bs)|)
    ensures Scanned(m0, m, u', dirs, j + 1, files[j := f], chains[dirs[j] := bs])
  {
    hide ParseData, ParseDir, ChainOf, Content, Scrubbed;
    var d := dirs[j];
    var chains' := chains[d := bs];
    assert dirs[j..] == [d] + dirs[j + 1..];
    assert dirs[..j + 1] == dirs[..j] + [d];
    assert d !in chains by { assert d !in dirs[..j]; }
    assert d !in dirs[j + 1..];
    assert Row(m, files[j], d, false, chains);
    forall b | b in bs ensures b < |u| && !u[b] {}
    forall e, b | e in chains && b in chains[e] ensures b !in bs { assert Marked(u, b); }
    assert Marked(u, d);
    forall k | 0 <= k < |dirs| ensures Row(m, files[j := f][k], dirs[k], k < j + 1, chains') {
      assert Row(m, files[k], dirs[k], k < j, chains);
      if k != j { assert dirs[k] != d; }
    }
  }

  /** When every directory block has been followed, table, bitmap and medium agree. */
  lemma AllFollowed(m0: seq<Block>, m: seq<Block>, u: seq<bool>, dirs: seq<nat>, files: seq<Tfile>,
      chains: map<nat, seq<nat>>)
    requires Scanned(m0, m, u, dirs, |dirs|, files, chains)
    ensures Consistent(m, u, files, chains)
  {
    hide ParseData, ChainOf, Content, Scrubbed;
    assert dirs[..|dirs|] == dirs && dirs[|dirs|..] == [];
    forall i | 0 <= i < |files| && files[i].name != []
      ensures i < |dirs| && dirs[i] in chains && files[i].bno == dirs[i] && EntryOk(files[i], m, u, chains)
    {
      if i < |dirs| {
        var d := dirs[i];
        assert Row(m, files[i], d, true, chains);
        assert d in chains;
        ChainsAvoidDirs(m, chains, d);
        NameProper(m[d], |m|);
      }
    }
  }

  lemma NameProper(p: Block, n: nat)
    requires ParseDir(p, n).Some? && n <= NOTABNO
    ensures ProperName(ParseDir(p, n).value.name) && ParseDir(p, n).value.first != NOTABNO
  {}

  // --- what exactly is kept, and what is marked ---

  lemma {:induction false} PathOrbit(m: seq<Block>, b0: nat, ws: seq<nat>, b: nat, i: nat)
    requires Path(m, b0, ws, b) && i <= |ws|
    ensures Orbit(m, b0, i) == Some(if i < |ws| then ws[i] else b)
    decreases |ws|
  {
    hide ParseData;
    if i > 0 {
      var next := ParseData(m[b0], |m|).value.next;
      PathOrbit(m, next, ws[1..], b, i - 1);
      assert Orbit(m, b0, 0) == Some(b0);
      assert Orbit(m, b0, 1) == Some(next);
      hide Orbit;
      OrbitAdd(m, b0, next, 1, i - 1);
    }
  }

  /** dirs are the directory blocks of m0, in order. */
  ghost predicate DirsAre(m0: seq<Block>, dirs: seq<nat>) {
    && (forall i, k | 0 <= i < k < |dirs| :: dirs[i] < dirs[k])
    && (forall d: nat | d < |m0| && ParseDir(m0[d], |m0|).Some? :: d in dirs)
    && (forall k | 0 <= k < |dirs| :: dirs[k] < |m0| && ParseDir(m0[dirs[k]], |m0|).Some?)
  }

  /** Of the first j directory blocks those not kept are scrubbed, and nothing else has changed. */
  ghost predicate Scrubs(m0: seq<Block>, m: seq<Block>, dirs: seq<nat>, j: nat, chains: map<nat, seq<nat>>)
    requires j <= |dirs|
  {
    |m| == |m0| && forall b: nat | b < |m| :: m[b] == if b in dirs[..j] && b !in chains then Scrubbed() else m0[b]
  }

  ghost predicate LastIn(cs: seq<nat>, chains: map<nat, seq<nat>>) {
    cs != [] && exists e :: e in chains && cs[|cs| - 1] in chains[e]
  }

  /** Of the first j directory blocks those that keep their files are kept; every whole chain's end is in use. */
  ghost predicate KeptAre(m0: seq<Block>, dirs: seq<nat>, j: nat, chains: map<nat, seq<nat>>)
    requires j <= |dirs|
  {
    && (forall d | d in chains :: d in dirs[..j] && Whole(m0, d, chains[d]))
    && (forall k | 0 <= k < j :: dirs[k] in chains <==> Keeps(m0, dirs[k]))
    && (forall k, cs | 0 <= k < j && Whole(m0, dirs[k], cs) :: LastIn(cs, chains))
  }

  /** b is a directory block or a link of a file. */
  ghost predicate InUse(chains: map<nat, seq<nat>>, b: nat) {
    b in chains || exists d :: d in chains && b in chains[d]
  }

  /** b is on a cycle one of the directory blocks ds leads to. */
  ghost predicate Round(m0: seq<Block>, ds: seq<nat>, b: nat) {
    exists d :: d in ds && Circles(m0, d, b)
  }

  /** What is marked: directory blocks to come, the files kept, and the cycles met. */
  ghost predicate MarksAre(m0: seq<Block>, u: seq<bool>, dirs: seq<nat>, j: nat, chains: map<nat, seq<nat>>)
    requires j <= |dirs|
  {
    && |m0| <= |u|
    && forall b: nat | b < |m0| :: u[b] <==> b in dirs[j..] || InUse(chains, b) || Round(m0, dirs[..j], b)
  }

  ghost predicate Exact(m0: seq<Block>, m: seq<Block>, u: seq<bool>, dirs: seq<nat>, j: nat,
      chains: map<nat, seq<nat>>) {
    j <= |dirs| && DirsAre(m0, dirs) && Scrubs(m0, m, dirs, j, chains) && KeptAre(m0, dirs, j, chains)
      && MarksAre(m0, u, dirs, j, chains)
  }

  /** Scrubbing directory blocks changes no link. */
  lemma ScrubLinks(m0: seq<Block>, m: seq<Block>, dirs: seq<nat>, j: nat, chains: map<nat, seq<nat>>)
    requires j <= |dirs| && DirsAre(m0, dirs) && Scrubs(m0, m, dirs, j, chains)
    ensures SameLinks(m0, m) && SameLinks(m, m0)
  {
    hide ParseData, ParseDir, Scrubbed;
    ScrubbedIsNothing(|m0|);
    forall b | 0 <= b < |m0| ensures ParseData(m[b], |m0|) == ParseData(m0[b], |m0|) {
      if b in dirs[..j] {
        assert b in dirs;
        NotBothKinds(m0[b], |m0|);
      }
    }
  }

  /** A walk on the medium as it is now, seen on the medium as it was. */
  lemma WalkOrbit(m0: seq<Block>, m: seq<Block>, x: nat, ws: seq<nat>, b: nat)
    requires SameLinks(m, m0) && Path(m, x, ws, b)
    ensures forall k | 0 <= k < |ws| :: Orbit(m0, x, k) == Some(ws[k])
    ensures Orbit(m0, x, |ws|) == Some(b)
  {
    hide Orbit, Path, SameLinks;
    forall k | 0 <= k <= |ws| ensures Orbit(m0, x, k) == Some(if k < |ws| then ws[k] else b) {
      PathOrbit(m, x, ws, b, k);
      SameOrbit(m, m0, x, k);
    }
  }

  /** Where the first directory block of the rest comes from, and what it is. */
  lemma NextDir(m0: seq<Block>, dirs: seq<nat>, j: nat, chains: map<nat, seq<nat>>)
    requires j < |dirs| && DirsAre(m0, dirs) && KeptAre(m0, dirs, j, chains)
    ensures var d := dirs[j]; d < |m0| && ParseDir(m0[d], |m0|).Some? && ParseData(m0[d], |m0|) == None
    ensures dirs[j] !in chains && dirs[j] !in dirs[..j] && dirs[j] !in dirs[j + 1..]
    ensures dirs[..j + 1] == dirs[..j] + [dirs[j]] && dirs[j..] == [dirs[j]] + dirs[j + 1..]
    ensures forall e | e in chains :: e < dirs[j]
  {
    hide ParseData, ParseDir, Whole, Keeps, LastIn;
    NotBothKinds(m0[dirs[j]], |m0|);
    var before, rest := dirs[..j], dirs[j + 1..];
    forall e | e in before ensures e < dirs[j] {}
    forall e | e in rest ensures e > dirs[j] {}
  }

  /** A block in use that links on or ends is on the chain of a file. */
  lemma LinkInUse(m0: seq<Block>, u: seq<bool>, dirs: seq<nat>, j: nat, chains: map<nat, seq<nat>>, b: nat)
    requires j <= |dirs| && DirsAre(m0, dirs) && KeptAre(m0, dirs, j, chains) && MarksAre(m0, u, dirs, j, chains)
    requires b < |m0| && u[b] && ParseData(m0[b], |m0|).Some?
    ensures (exists e :: e in chains && b in chains[e]) || Round(m0, dirs[..j], b)
  {
    hide ParseData, ParseDir, Keeps, LastIn, Round;
    NotBothKinds(m0[b], |m0|);
    assert b !in dirs;
  }

  /** A walk that meets a marked or bad block is not that of a file to keep; a whole chain's end is in use. */
  lemma BadWalk(m0: seq<Block>, u: seq<bool>, u': seq<bool>, dirs: seq<nat>, j: nat, chains: map<nat, seq<nat>>,
      ws: seq<nat>, b: nat, cs: seq<nat>)
    requires j < |dirs| && DirsAre(m0, dirs) && KeptAre(m0, dirs, j, chains) && MarksAre(m0, u, dirs, j, chains)
    requires Whole(m0, dirs[j], cs) && Taken(u, u', ws) && b < |m0| && (u'[b] || ParseData(m0[b], |m0|) == None)
    requires var x := ParseDir(m0[dirs[j]], |m0|).value.first;
      (forall k | 0 <= k < |ws| :: Orbit(m0, x, k) == Some(ws[k])) && Orbit(m0, x, |ws|) == Some(b)
    ensures LastIn(cs, chains) && !Keeps(m0, dirs[j])
  {
    var d := dirs[j];
    var x := ParseDir(m0[d], |m0|).value.first;
    hide ParseData, ParseDir, Orbit, ChainOf;
    NextDir(m0, dirs, j, chains);
    assert Reaches(m0, x, b);
    ChainNoCycle(m0, x, cs, b);
    ChainBounds(m0, x, cs);
    if b in ws {
      var i :| 0 <= i < |ws| && ws[i] == b;
      WalkCycles(m0, x, ws, i, i);
      assert false;
    }
    LinkInUse(m0, u, dirs, j, chains, b);
    if e :| e in chains && b in chains[e] {
      SharedEnd(m0, x, cs, ParseDir(m0[e], |m0|).value.first, chains[e], b);
      ChainHead(m0, x, cs);
      MeetsEarlier(m0, d, cs, e, chains[e], b);
    }
  }

  /** A whole walk over free blocks is that of a file to keep. */
  lemma GoodWalk(m0: seq<Block>, u: seq<bool>, dirs: seq<nat>, j: nat, chains: map<nat, seq<nat>>, bs: seq<nat>)
    requires j < |dirs| && DirsAre(m0, dirs) && KeptAre(m0, dirs, j, chains) && MarksAre(m0, u, dirs, j, chains)
    requires Whole(m0, dirs[j], bs) && forall b | b in bs :: b < |u| && !u[b]
    ensures Keeps(m0, dirs[j])
  {
    var d := dirs[j];
    hide ParseData, ParseDir, ChainOf, Keeps, Round;
    NextDir(m0, dirs, j, chains);
    forall e: nat, cs | e < d && Whole(m0, e, cs) ensures Disjoint(bs, cs) {
      assert e in dirs;
      var k :| 0 <= k < |dirs| && dirs[k] == e;
      assert k < j;
      assert LastIn(cs, chains);
      if b :| b in bs && b in cs {
        SharedEnd(m0, ParseDir(m0[d], |m0|).value.first, bs, ParseDir(m0[e], |m0|).value.first, cs, b);
        var l := bs[|bs| - 1];
        assert l in bs;
        var f :| f in chains && l in chains[f];
        ChainBounds(m0, ParseDir(m0[d], |m0|).value.first, bs);
        assert false;
      }
    }
    KeepsBy(m0, d, bs);
  }

  lemma KeepsBy(m: seq<Block>, d: nat, bs: seq<nat>)
    requires Whole(m, d, bs) && forall e: nat, cs | e < d && Whole(m, e, cs) :: Disjoint(bs, cs)
    ensures Keeps(m, d)
  {}

  /** One more file kept. */
  lemma ExactKept(m0: seq<Block>, m: seq<Block>, u: seq<bool>, dirs: seq<nat>, j: nat, chains: map<nat, seq<nat>>,
      bs: seq<nat>, u': seq<bool>)
    requires Exact(m0, m, u, dirs, j, chains) && j < |dirs| && Taken(u, u', bs)
    requires ChainOf(m, ParseDir(m0[dirs[j]], |m0|).value.first, bs)
    ensures Exact(m0, m, u', dirs, j + 1, chains[dirs[j] := bs])
  {
    hide ParseData, ParseDir, ChainOf, Keeps, LastIn;
    var d := dirs[j];
    var chains' := chains[d := bs];
    NextDir(m0, dirs, j, chains);
    ScrubLinks(m0, m, dirs, j, chains);
    SameChain(m, m0, ParseDir(m0[d], |m0|).value.first, bs);
    assert Whole(m0, d, bs);
    GoodWalk(m0, u, dirs, j, chains, bs);
    KeptMore(m0, dirs, j, chains, bs);
    MarksMore(m0, u, dirs, j, chains, bs, u');
    assert Scrubs(m0, m, dirs, j + 1, chains');
  }

  lemma KeptMore(m0: seq<Block>, dirs: seq<nat>, j: nat, chains: map<nat, seq<nat>>, bs: seq<nat>)
    requires j < |dirs| && DirsAre(m0, dirs) && KeptAre(m0, dirs, j, chains)
    requires Whole(m0, dirs[j], bs) && Keeps(m0, dirs[j])
    ensures KeptAre(m0, dirs, j + 1, chains[dirs[j] := bs])
  {
    hide ParseDir, Keeps;
    var d := dirs[j];
    var chains' := chains[d := bs];
    NextDir(m0, dirs, j, chains);
    forall k, cs | 0 <= k < j + 1 && Whole(m0, dirs[k], cs) ensures LastIn(cs, chains') {
      if k == j {
        WholeUnique(m0, d, cs, bs);
        ChainHead(m0, ParseDir(m0[d], |m0|).value.first, bs);
        assert bs[|bs| - 1] in chains'[d];
      } else {
        assert LastIn(cs, chains);
        var e :| e in chains && cs[|cs| - 1] in chains[e];
        assert cs[|cs| - 1] in chains'[e];
      }
    }
    forall k | 0 <= k < j ensures dirs[k] != d { assert dirs[k] in dirs[..j]; }
  }

  lemma MarksMore(m0: seq<Block>, u: seq<bool>, dirs: seq<nat>, j: nat, chains: map<nat, seq<nat>>, bs: seq<nat>,
      u': seq<bool>)
    requires j < |dirs| && DirsAre(m0, dirs) && KeptAre(m0, dirs, j, chains) && MarksAre(m0, u, dirs, j, chains)
    requires Whole(m0, dirs[j], bs) && Taken(u, u', bs)
    ensures MarksAre(m0, u', dirs, j + 1, chains[dirs[j] := bs])
  {
    hide ParseDir, ParseData, ChainOf, Keeps, LastIn, OnCycle, Reaches;
    var d := dirs[j];
    var chains' := chains[d := bs];
    NextDir(m0, dirs, j, chains);
    forall b: nat | b < |m0|
      ensures u'[b] <==> b in dirs[j + 1..] || InUse(chains', b) || Round(m0, dirs[..j + 1], b)
    {
      if Circles(m0, d, b) { ChainNoCycle(m0, ParseDir(m0[d], |m0|).value.first, bs, b); }
      assert Round(m0, dirs[..j + 1], b) <==> Round(m0, dirs[..j], b);
      UseMore(chains, d, bs, b);
    }
  }

  lemma UseMore(chains: map<nat, seq<nat>>, d: nat, bs: seq<nat>, b: nat)
    requires d !in chains
    ensures InUse(chains[d := bs], b) <==> InUse(chains, b) || b == d || b in bs
  {
    var chains' := chains[d := bs];
    if b in bs { assert b in chains'[d]; }
    if e :| e in chains && b in chains[e] { assert b in chains'[e]; }
  }

  /** One more file purged. */
  lemma ExactPurged(m0: seq<Block>, m: seq<Block>, u: seq<bool>, dirs: seq<nat>, j: nat, chains: map<nat, seq<nat>>,
      ws: seq<nat>, b: nat, u': seq<bool>, p: seq<nat>, u'': seq<bool>)
    requires Exact(m0, m, u, dirs, j, chains) && j < |dirs| && Taken(u, u', ws) && NoDup(ws)
    requires Path(m, ParseDir(m0[dirs[j]], |m0|).value.first, ws, b)
    requires b < |m| && (u'[b] || ParseData(m[b], |m|) == None)
    requires p <= ws && b !in p && (|p| < |ws| ==> ws[|p|] == b)
    requires |u''| == |u| && forall x | 0 <= x < |u| :: u''[x] == (u'[x] && x !in p && x != dirs[j])
    ensures Exact(m0, m[dirs[j] := Scrubbed()], u'', dirs, j + 1, chains)
  {
    hide ParseData, ParseDir, ChainOf, Keeps, LastIn, Orbit, Path, Scrubbed;
    var d := dirs[j];
    NextDir(m0, dirs, j, chains);
    ScrubLinks(m0, m, dirs, j, chains);
    WalkOrbit(m0, m, ParseDir(m0[d], |m0|).value.first, ws, b);
    forall cs | Whole(m0, d, cs) ensures LastIn(cs, chains) && !Keeps(m0, d) {
      BadWalk(m0, u, u', dirs, j, chains, ws, b, cs);
    }
    NotKept(m0, d);
    KeptLess(m0, dirs, j, chains);
    MarksLess(m0, u, dirs, j, chains, ws, b, u', p, u'');
    assert Scrubs(m0, m[d := Scrubbed()], dirs, j + 1, chains) by { ScrubMore(m0, m, dirs, j, chains); }
  }

  lemma NotKept(m: seq<Block>, d: nat)
    requires (exists bs :: Whole(m, d, bs)) ==> !Keeps(m, d)
    ensures !Keeps(m, d)
  {}

  lemma ScrubMore(m0: seq<Block>, m: seq<Block>, dirs: seq<nat>, j: nat, chains: map<nat, seq<nat>>)
    requires j < |dirs| && DirsAre(m0, dirs) && KeptAre(m0, dirs, j, chains) && Scrubs(m0, m, dirs, j, chains)
    ensures dirs[j] < |m| && Scrubs(m0, m[dirs[j] := Scrubbed()], dirs, j + 1, chains)
  {
    hide ParseData, ParseDir, Keeps, LastIn, Scrubbed;
    NextDir(m0, dirs, j, chains);
  }

  lemma KeptLess(m0: seq<Block>, dirs: seq<nat>, j: nat, chains: map<nat, seq<nat>>)
    requires j < |dirs| && DirsAre(m0, dirs) && KeptAre(m0, dirs, j, chains) && !Keeps(m0, dirs[j])
    requires forall cs | Whole(m0, dirs[j], cs) :: LastIn(cs, chains)
    ensures KeptAre(m0, dirs, j + 1, chains)
  {
    hide ParseDir, Keeps, LastIn, Whole;
    NextDir(m0, dirs, j, chains);
  }

  lemma MarksLess(m0: seq<Block>, u: seq<bool>, dirs: seq<nat>, j: nat, chains: map<nat, seq<nat>>, ws: seq<nat>,
      b: nat, u': seq<bool>, p: seq<nat>, u'': seq<bool>)
    requires j < |dirs| && DirsAre(m0, dirs) && KeptAre(m0, dirs, j, chains) && MarksAre(m0, u, dirs, j, chains)
    requires Taken(u, u', ws) && NoDup(ws) && b < |m0| && (u'[b] || ParseData(m0[b], |m0|) == None)
    requires var x := ParseDir(m0[dirs[j]], |m0|).value.first;
      (forall k | 0 <= k < |ws| :: Orbit(m0, x, k) == Some(ws[k])) && Orbit(m0, x, |ws|) == Some(b)
    requires p <= ws && b !in p && (|p| < |ws| ==> ws[|p|] == b)
    requires |u''| == |u| && forall x | 0 <= x < |u| :: u''[x] == (u'[x] && x !in p && x != dirs[j])
    ensures MarksAre(m0, u'', dirs, j + 1, chains)
  {
    hide ParseDir, ParseData, Keeps, LastIn, Orbit, Circles;
    var d := dirs[j];
    NextDir(m0, dirs, j, chains);
    forall y: nat | y < |m0|
      ensures u''[y] <==> y in dirs[j + 1..] || InUse(chains, y) || Round(m0, dirs[..j + 1], y)
    {
      RoundMore(m0, dirs, j, y);
      CircleLeft(m0, u, dirs, j, chains, ws, b, u', p, y);
      if InUse(chains, y) || Round(m0, dirs[..j + 1], y) { UsedIsNot(m0, dirs, j, chains, y); }
    }
  }

  lemma RoundMore(m0: seq<Block>, dirs: seq<nat>, j: nat, y: nat)
    requires j < |dirs|
    ensures Round(m0, dirs[..j + 1], y) <==> Round(m0, dirs[..j], y) || Circles(m0, dirs[j], y)
  {
    hide Circles;
    assert dirs[..j + 1] == dirs[..j] + [dirs[j]];
    if e :| e in dirs[..j] && Circles(m0, e, y) { assert e in dirs[..j + 1]; }
    assert dirs[j] in dirs[..j + 1];
  }

  /** Blocks of kept files and of cycles are not the directory block that comes next. */
  lemma UsedIsNot(m0: seq<Block>, dirs: seq<nat>, j: nat, chains: map<nat, seq<nat>>, y: nat)
    requires j < |dirs| && DirsAre(m0, dirs) && KeptAre(m0, dirs, j, chains)
    requires InUse(chains, y) || Round(m0, dirs[..j + 1], y)
    ensures y != dirs[j]
  {
    hide ParseDir, ParseData, Keeps, LastIn, ChainOf;
    NextDir(m0, dirs, j, chains);
    if e :| e in chains && y in chains[e] { ChainBounds(m0, ParseDir(m0[e], |m0|).value.first, chains[e]); }
    if e :| e in dirs[..j + 1] && Circles(m0, e, y) { OnCycleLinks(m0, y); }
  }

  lemma OnCycleLinks(m: seq<Block>, y: nat)
    requires OnCycle(m, y)
    ensures y < |m| && ParseData(m[y], |m|).Some?
  {
    hide ParseData;
    assert Orbit(m, y, 0) == Some(y);
    CycleLinks(m, y, y);
  }

  /** Of a walk given up, just the blocks on the cycle it leads to are marked then. */
  lemma CircleLeft(m0: seq<Block>, u: seq<bool>, dirs: seq<nat>, j: nat, chains: map<nat, seq<nat>>, ws: seq<nat>,
      b: nat, u': seq<bool>, p: seq<nat>, y: nat)
    requires j < |dirs| && DirsAre(m0, dirs) && KeptAre(m0, dirs, j, chains) && MarksAre(m0, u, dirs, j, chains)
    requires Taken(u, u', ws) && NoDup(ws) && b < |m0| && (u'[b] || ParseData(m0[b], |m0|) == None)
    requires var x := ParseDir(m0[dirs[j]], |m0|).value.first;
      (forall k | 0 <= k < |ws| :: Orbit(m0, x, k) == Some(ws[k])) && Orbit(m0, x, |ws|) == Some(b)
    requires p <= ws && b !in p && (|p| < |ws| ==> ws[|p|] == b)
    ensures y in ws && y !in p ==> Circles(m0, dirs[j], y)
    ensures Circles(m0, dirs[j], y) ==> (y in ws && y !in p) || Round(m0, dirs[..j], y)
  {
    hide ParseDir, ParseData, Keeps, LastIn, Orbit, OnCycle, Reaches;
    var x := ParseDir(m0[dirs[j]], |m0|).value.first;
    NextDir(m0, dirs, j, chains);
    if y in ws && y !in p {
      var h :| 0 <= h < |ws| && ws[h] == y;
      assert h >= |p|;
      WalkCycles(m0, x, ws, |p|, h);
    }
    if Circles(m0, dirs[j], y) {
      if b in ws {
        var i :| 0 <= i < |ws| && ws[i] == b;
        assert i >= |p|;
        var h := CycleInWalk(m0, x, ws, |p|, y);
        assert forall k | 0 <= k < |p| :: p[k] == ws[k];
      } else {
        CircleBefore(m0, u, dirs, j, chains, x, b, y, |ws|) by {
          CutLinks(m0, x, b, y, |ws|);
        }
      }
    }
  }

  lemma CutLinks(m0: seq<Block>, x: nat, b: nat, y: nat, n: nat)
    requires Orbit(m0, x, n) == Some(b) && Reaches(m0, x, y) && OnCycle(m0, y)
    ensures Reaches(m0, b, y) && b < |m0| && ParseData(m0[b], |m0|).Some?
  {
    hide ParseData, Orbit, OnCycle;
    assert Reaches(m0, x, b);
    BackToCycle(m0, x, b, y);
    CycleLinks(m0, b, y);
  }

  /** A walk cut at a marked block leads to a cycle only if an earlier one did. */
  lemma CircleBefore(m0: seq<Block>, u: seq<bool>, dirs: seq<nat>, j: nat, chains: map<nat, seq<nat>>, x: nat,
      b: nat, y: nat, n: nat)
    requires j <= |dirs| && DirsAre(m0, dirs) && KeptAre(m0, dirs, j, chains) && MarksAre(m0, u, dirs, j, chains)
    requires b < |m0| && u[b] && ParseData(m0[b], |m0|).Some? && Reaches(m0, b, y) && OnCycle(m0, y)
    ensures Round(m0, dirs[..j], y)
  {
    hide ParseDir, ParseData, Keeps, LastIn, Orbit, OnCycle, Reaches, ChainOf;
    LinkInUse(m0, u, dirs, j, chains, b);
    if e :| e in chains && b in chains[e] {
      var i :| 0 <= i < |chains[e]| && chains[e][i] == b;
      ChainRest(m0, ParseDir(m0[e], |m0|).value.first, chains[e], i);
      ChainNoCycle(m0, b, chains[e][i..], y);
      assert false;
    } else {
      var e :| e in dirs[..j] && Circles(m0, e, b);
      ReachesOn(m0, ParseDir(m0[e], |m0|).value.first, b, y);
      assert Circles(m0, e, y);
    }
  }

  // --- what a mount comes to ---

  /**
   * m0 mounted: the files kept are those with a whole chain that no earlier directory block's whole chain meets;
   * the other directory blocks are scrubbed; and marked are the blocks of the files and of all cycles that
   * directory blocks led to.
   */
  ghost predicate Mounted(m0: seq<Block>, m: seq<Block>, u: seq<bool>, chains: map<nat, seq<nat>>) {
    && |m| == |m0| <= |u|
    && (forall d: nat :: d in chains <==> Keeps(m0, d))
    && (forall d | d in chains :: Whole(m0, d, chains[d]))
    && (forall b: nat | b < |m0| ::
          m[b] == if ParseDir(m0[b], |m0|).Some? && !Keeps(m0, b) then Scrubbed() else m0[b])
    && (forall b: nat | b < |m0| :: u[b] <==> InUse(chains, b) || Circled(m0, b))
  }

  lemma AllExact(m0: seq<Block>, m: seq<Block>, u: seq<bool>, dirs: seq<nat>, chains: map<nat, seq<nat>>)
    requires Exact(m0, m, u, dirs, |dirs|, chains)
    ensures Mounted(m0, m, u, chains)
  {
    hide ParseDir, LastIn, Scrubbed, OnCycle, Reaches, ChainOf;
    assert dirs[..|dirs|] == dirs && dirs[|dirs|..] == [];
    forall d: nat ensures d in chains <==> Keeps(m0, d) {
      if d in dirs { var k :| 0 <= k < |dirs| && dirs[k] == d; }
    }
    hide Keeps;
    forall b: nat | b < |m0| ensures Round(m0, dirs, b) <==> Circled(m0, b) {
      if d: nat :| Circles(m0, d, b) { assert d in dirs; }
    }
  }

  /** On a medium of whole, separate files just their blocks are marked. */
  lemma MountedWhole(m0: seq<Block>, m: seq<Block>, u: seq<bool>, chains: map<nat, seq<nat>>)
    requires Mounted(m0, m, u, chains) && Recoverable(m0)
    ensures m == m0 && |m0| <= |u| && forall b: nat | b < |m0| :: u[b] <==> InUse(chains, b)
  {
    hide ParseDir, Whole, Keeps, OnCycle, Reaches, Scrubbed, Recoverable;
    forall b: nat | b < |m0| ensures m[b] == m0[b] {
      if ParseDir(m0[b], |m0|).Some? { RecoverableKeeps(m0, b); }
    }
    forall b: nat | b < |m0| ensures !Circled(m0, b) {
      if d: nat :| Circles(m0, d, b) { RecoverableKeeps(m0, d); }
    }
  }

  // --- tfsinit ---

  /** The first pass: every directory block gets an entry and a mark. */
  method FindDirs(fs: Tfs) returns (ghost dirs: seq<nat>)
    requires 3 <= |fs.medium| <= NOTABNO && MapOk(fs.used[..], |fs.medium|)
    requires forall b | 0 <= b < |fs.medium| :: !fs.used[b]
    requires fs.files == [] && fs.nf == 0
    modifies fs`files, fs`nf, fs.used
    ensures Scanned(fs.medium, fs.medium, fs.used[..], dirs, 0, fs.files, map[]) && fs.nf == |dirs|
    ensures Exact(fs.medium, fs.medium, fs.used[..], dirs, 0, map[])
  {
    hide ParseData, ParseDir, Content, ChainOf;
    var n := |fs.medium|;
    dirs := [];
    for bno := 0 to n
      invariant fs.nf == |dirs| <= |fs.files| && MapOk(fs.used[..], n)
      invariant forall k | 0 <= k < |dirs| :: dirs[k] < bno
      invariant forall d | 0 <= d < n :: fs.used[d] <==> d < bno && ParseDir(fs.medium[d], n).Some?
      invariant forall d: nat | d < n :: d in dirs <==> d < bno && ParseDir(fs.medium[d], n).Some?
      invariant forall i, k | 0 <= i < k < |dirs| :: dirs[i] < dirs[k]
      invariant forall k | 0 <= k < |dirs| :: Row(fs.medium, fs.files[k], dirs[k], false, map[])
      invariant forall k | |dirs| <= k < |fs.files| :: fs.files[k] == BLANK
    {
      var mdir := ParseDir(fs.medium[bno], n);
      if mdir.Some? {
        if fs.nf >= |fs.files| {
          fs.files := fs.files + seq(8, _ => BLANK);
        }
        fs.files := fs.files[fs.nf := Entry(bno, mdir.value, 0)];
        fs.nf := fs.nf + 1;
        fs.used[bno] := true;
        dirs := dirs + [bno];
      }
    }
    assert dirs[0..] == dirs;
    StartExact(fs.medium, fs.used[..], dirs);
  }

  lemma StartExact(m: seq<Block>, u: seq<bool>, dirs: seq<nat>)
    requires DirsAre(m, dirs) && |m| <= |u| && forall b | 0 <= b < |m| :: u[b] <==> b in dirs
    ensures Exact(m, m, u, dirs, 0, map[])
  {
    hide ParseDir, Keeps, Circles;
    assert dirs[0..] == dirs && dirs[..0] == [];
  }

  /** The failure exits of the walk: the file goes, and no block of another file is given up. */
  method Purge(fs: Tfs, j: nat, bend: nat, ghost first: nat, ghost m0: seq<Block>, ghost u0: seq<bool>,
      ghost files0: seq<Tfile>,
               ghost dirs: seq<nat>, ghost chains: map<nat, seq<nat>>, ghost ws: seq<nat>)
    requires j < |dirs| && |fs.history| > 0
    requires Scanned(m0, fs.medium, u0, dirs, j, files0, chains) && Taken(u0, fs.used[..], ws) && NoDup(ws)
    requires j < |files0| && fs.files == files0[j := files0[j].(length := DLEN * |ws|)] && first == files0[j].dbno
    requires Path(fs.medium, first, ws, bend) && bend < |fs.medium|
    requires bend < fs.used.Length && (fs.used[bend] || ParseData(fs.medium[bend], |fs.medium|) == None)
    requires Exact(m0, fs.medium, u0, dirs, j, chains) && dirs[j] < |m0| && ParseDir(m0[dirs[j]], |m0|).Some?
    requires first == ParseDir(m0[dirs[j]], |m0|).value.first
    modifies fs`medium, fs`history, fs`files, fs.used
    ensures Scanned(m0, fs.medium, fs.used[..], dirs, j + 1, fs.files, chains)
    ensures Exact(m0, fs.medium, fs.used[..], dirs, j + 1, chains)
    ensures old(fs.history) <= fs.history && fs.history[|fs.history| - 1] == fs.medium && |fs.files| == |files0|
  {
    hide ParseData, ParseDir, ChainOf, Content, Scrubbed, Scanned, Walks, Exact, Path;
    ScannedEntry(m0, fs.medium, u0, dirs, j, files0, chains);
    PathBounds(fs.medium, first, ws, bend);
    ghost var p := PathWalks(fs.medium, first, ws, bend);
    ghost var u', m := fs.used[..], fs.medium;
    assert forall b | b in p :: b in ws;
    fs.FreeFile(j, bend, p);
    Purged(m0, m, u0, dirs, j, files0, chains, ws, u', p, fs.used[..]);
    ExactPurged(m0, m, u0, dirs, j, chains, ws, bend, u', p, fs.used[..]);
    assert fs.files == files0[j := BLANK];
  }

  lemma ScannedEntry(m0: seq<Block>, m: seq<Block>, u: seq<bool>, dirs: seq<nat>, j: nat, files: seq<Tfile>,
      chains: map<nat, seq<nat>>)
    requires Scanned(m0, m, u, dirs, j, files, chains) && j < |dirs|
    ensures |m| == |m0| && MapOk(u, |m|) && |m| <= |u| && |m| <= NOTABNO && j < |files| && dirs[j] < |m|
    ensures files[j].bno == dirs[j] && files[j].dbno < |m| && files[j].length == 0
  {
    hide ParseData, ChainOf, Content;
    assert Row(m, files[j], dirs[j], false, chains);
  }

  lemma FirstIs(m0: seq<Block>, m: seq<Block>, u: seq<bool>, dirs: seq<nat>, j: nat, files: seq<Tfile>,
      chains: map<nat, seq<nat>>)
    requires Scanned(m0, m, u, dirs, j, files, chains) && Exact(m0, m, u, dirs, j, chains) && j < |dirs|
    ensures dirs[j] < |m0| && ParseDir(m0[dirs[j]], |m0|).Some? && j < |files|
    ensures files[j].dbno == ParseDir(m0[dirs[j]], |m0|).value.first
  {
    hide ParseData, ParseDir, ChainOf, Content, Keeps, LastIn, Scrubbed;
    NextDir(m0, dirs, j, chains);
    assert Row(m, files[j], dirs[j], false, chains);
  }

  /** Following one file: kept with a whole chain of blocks nobody else has, or purged. */
  method FollowFile(fs: Tfs, j: nat, ghost m0: seq<Block>, ghost dirs: seq<nat>, ghost chains: map<nat, seq<nat>>)
      returns (ghost chains': map<nat, seq<nat>>)
    requires j < |dirs| && |fs.history| > 0 && fs.history[|fs.history| - 1] == fs.medium
    requires Scanned(m0, fs.medium, fs.used[..], dirs, j, fs.files, chains)
    requires Exact(m0, fs.medium, fs.used[..], dirs, j, chains) && dirs[j] !in chains
    modifies fs`medium, fs`history, fs`files, fs.used
    ensures Scanned(m0, fs.medium, fs.used[..], dirs, j + 1, fs.files, chains') && |fs.files| == |old(fs.files)|
    ensures old(fs.history) <= fs.history && fs.history[|fs.history| - 1] == fs.medium
    ensures Exact(m0, fs.medium, fs.used[..], dirs, j + 1, chains')
    ensures dirs[j] in chains' ==> fs.history == old(fs.history)
    ensures forall d | d in chains' :: d in chains || d == dirs[j]
  {
    hide ParseData, ParseDir, ChainOf, Content, Scrubbed, Scanned, Walks, Exact, Path, MapOk;
    ghost var u0, files0, ws: seq<nat>, m := fs.used[..], fs.files, [], fs.medium;
    ScannedEntry(m0, m, u0, dirs, j, files0, chains);
    FirstIs(m0, m, u0, dirs, j, files0, chains);
    var first := fs.files[j].dbno;
    var bno: nat := first;
    PathStart(m, first);
    while true
      invariant fs.medium == m && fs.history == old(fs.history)
      invariant fs.files == files0[j := files0[j].(length := DLEN * |ws|)]
      invariant Taken(u0, fs.used[..], ws) && NoDup(ws) && Path(m, first, ws, bno) && bno < |m|
      decreases |m| - |ws|
    {
      if fs.used[bno] {
        Purge(fs, j, bno, first, m0, u0, files0, dirs, chains, ws);
        return chains;
      }
      var mdata := fs.ReadData(bno);
      if mdata == None {
        Purge(fs, j, bno, first, m0, u0, files0, dirs, chains, ws);
        return chains;
      }
      fs.used[bno] := true;
      ghost var ws' := ws + [bno];
      PathBounds(m, first, ws, bno);
      assert bno !in ws;
      Pigeonhole(ws', |m|);
      LinkBytes(m, bno);
      fs.files := fs.files[j := fs.files[j].(length := fs.files[j].length + |mdata.value.bytes|)];
      if mdata.value.End? {
        PathChain(m, first, ws, bno);
        Survived(m0, m, u0, dirs, j, files0, chains, ws', fs.used[..], fs.files[j]);
        assert fs.files == files0[j := fs.files[j]];
        ExactKept(m0, m, u0, dirs, j, chains, ws', fs.used[..]);
        return chains[dirs[j] := ws'];
      }
      PathStep(m, first, ws, bno);
      bno := mdata.value.next;
      ws := ws';
    }
  }

  lemma PathStart(m: seq<Block>, b: nat)
    ensures Path(m, b, [], b)
  {}

  lemma LinkBytes(m: seq<Block>, b: nat)
    requires b < |m| && ParseData(m[b], |m|).Some?
    ensures ParseData(m[b], |m|).value.Data? ==>
        |ParseData(m[b], |m|).value.bytes| == DLEN && ParseData(m[b], |m|).value.next < |m|
  {}

  /** What a mount leaves: nothing but files the medium held, as it held them. */
  lemma NoneInvented(m0: seq<Block>, m: seq<Block>, u: seq<bool>, dirs: seq<nat>, files: seq<Tfile>,
      chains: map<nat, seq<nat>>)
    requires Scanned(m0, m, u, dirs, |dirs|, files, chains)
    ensures Files(m).Keys == chains.Keys
    ensures forall d | d in Files(m) :: d in Files(m0) && Files(m0)[d] == Files(m)[d]
  {
    hide ParseData, ParseDir, ChainOf, Content, Scrubbed, HasFile, FileAt;
    assert dirs[|dirs|..] == [];
    ScrubbedIsNothing(|m|);
    FilesDomain(m, chains);
    forall d | d in chains ensures d in Files(m0) && Files(m0)[d] == Files(m)[d] {
      FileOf(m, chains, d);
      var dir := ParseDir(m[d], |m|).value;
      assert m[d] == m0[d];
      ChainBounds(m, dir.first, chains[d]);
      forall b | b in chains[d] && b < |m| ensures m[b] == m0[b] {}
      ChainFrame(m, m0, dir.first, chains[d]);
      SameFile(m0, d, dir.first, chains[d]);
    }
  }

  lemma SameFile(m: seq<Block>, d: nat, first: nat, bs: seq<nat>)
    requires d < |m| && ParseDir(m[d], |m|).Some? && ParseDir(m[d], |m|).value.first == first && ChainOf(m, first, bs)
    ensures HasFile(m, d)
    ensures FileAt(m, d) == File(ParseDir(m[d], |m|).value.name, ParseDir(m[d], |m|).value.pin, Content(m, bs))
  {
    hide ParseData, ParseDir, Content, ChainOf;
    forall cs | ChainOf(m, first, cs) ensures cs == bs { ChainUnique(m, first, cs, bs); }
  }

  /** Every file kept has its entry. */
  ghost predicate Listed(m: seq<Block>, files: seq<Tfile>, chains: map<nat, seq<nat>>) {
    forall d | d in chains :: d < |m| && ParseDir(m[d], |m|).Some?
      && exists i :: 0 <= i < |files| && files[i] == Entry(d, ParseDir(m[d], |m|).value, |Content(m, chains[d])|)
  }

  lemma AllListed(m0: seq<Block>, m: seq<Block>, u: seq<bool>, dirs: seq<nat>, files: seq<Tfile>,
      chains: map<nat, seq<nat>>)
    requires Scanned(m0, m, u, dirs, |dirs|, files, chains)
    ensures Listed(m, files, chains)
    ensures (forall d | d in chains :: ParseDir(m[d], |m|).value.name != []) ==> FreeOk(files, |dirs|)
  {
    hide ParseData, ParseDir, ChainOf, Content, Scrubbed;
    forall d | d in chains
      ensures d < |m| && ParseDir(m[d], |m|).Some?
      ensures exists i :: 0 <= i < |files| && files[i] == Entry(d, ParseDir(m[d], |m|).value, |Content(m, chains[d])|)
    {
      assert d in dirs[..|dirs|];
      var k :| 0 <= k < |dirs| && dirs[k] == d;
      assert Row(m, files[k], d, true, chains);
    }
    if forall d | d in chains :: ParseDir(m[d], |m|).value.name != [] {
      forall i | 0 <= i < |files| && files[i].name == [] ensures files[i] == BLANK {
        if i < |dirs| { assert Row(m, files[i], dirs[i], true, chains); }
      }
    }
  }

  /**
   * tfsinit. It ends on every medium; what it keeps is consistent, with chains apart and marked, and
   * was on the medium before; and of a medium that holds whole, separate files it keeps them all.
   */
  method TfsInit(fs: Tfs) returns (ok: bool)
    requires |fs.medium| <= NOTABNO && |fs.history| > 0 && fs.history[|fs.history| - 1] == fs.medium
    modifies fs
    ensures ok <==> |old(fs.medium)| >= 3
    ensures ok ==> fresh(fs.used) && Consistent(fs.medium, fs.used[..], fs.files, fs.chains)
    ensures ok ==> Listed(fs.medium, fs.files, fs.chains)
    ensures ok ==> old(fs.history) <= fs.history && fs.history[|fs.history| - 1] == fs.medium
    ensures ok ==> Mounted(old(fs.medium), fs.medium, fs.used[..], fs.chains)
    ensures ok ==> forall d: nat :: d in Files(fs.medium) <==> Keeps(old(fs.medium), d)
    ensures ok ==> forall d | d in Files(fs.medium) ::
        d in Files(old(fs.medium)) && Files(old(fs.medium))[d] == Files(fs.medium)[d]
    ensures ok && (forall d | d in Files(fs.medium) :: Files(fs.medium)[d].name != []) ==> fs.Valid()
    ensures ok && Recoverable(old(fs.medium)) ==> fs.medium == old(fs.medium) && fs.history == old(fs.history)
    ensures ok && Recoverable(old(fs.medium)) ==>
        forall b: nat | b < |fs.medium| :: fs.used[b] <==> InUse(fs.chains, b)
    ensures ok && Clean(old(fs.medium)) ==> fs.Valid() && Neat(fs.medium, fs.chains)
  {
    hide ParseData, ParseDir, ChainOf, Content, Scrubbed, Scanned, Exact, Listed, Consistent, FreeOk, Files, Sound,
        Apart, MapOk, Clean, Neat, Keeps, Mounted, Recoverable;
    var n := |fs.medium|;
    if n < 3 {
      return false;
    }
    ghost var m0 := fs.medium;
    fs.files, fs.nf := [], 0;
    FreshMap(fs);
    ghost var dirs := FindDirs(fs);
    ghost var cs: map<nat, seq<nat>> := map[];
    for j := 0 to fs.nf
      invariant fs.nf == |dirs| && fresh(fs.used)
      invariant Scanned(m0, fs.medium, fs.used[..], dirs, j, fs.files, cs)
      invariant old(fs.history) <= fs.history && fs.history[|fs.history| - 1] == fs.medium
      invariant Exact(m0, fs.medium, fs.used[..], dirs, j, cs)
      invariant (forall k | 0 <= k < j :: dirs[k] in cs) ==> fs.history == old(fs.history)
    {
      NewDir(m0, fs.medium, fs.used[..], dirs, j, cs);
      cs := FollowFile(fs, j, m0, dirs, cs);
    }
    fs.chains := cs;
    AllFollowed(m0, fs.medium, fs.used[..], dirs, fs.files, cs);
    NoneInvented(m0, fs.medium, fs.used[..], dirs, fs.files, cs);
    AllListed(m0, fs.medium, fs.used[..], dirs, fs.files, cs);
    if Recoverable(m0) { AllKept(m0, fs.medium, fs.used[..], dirs, cs); }
    AllExact(m0, fs.medium, fs.used[..], dirs, cs);
    ghost var u := fs.used[..];
    if Recoverable(m0) { MountedWhole(m0, fs.medium, u, cs); }
    assert forall b | 0 <= b < |u| :: u[b] == fs.used[b];
    MountedFiles(m0, fs.medium, fs.used[..], fs.files, cs);
    NamesMatch(fs.medium, fs.used[..], fs.files, cs);
    if Clean(m0) { CleanMount(m0, fs.medium, fs.used[..], fs.files, cs); }
    ok := true;
  }

  /** A clean medium is mounted as it is, and its files are neat. */
  lemma CleanMount(m0: seq<Block>, m: seq<Block>, u: seq<bool>, files: seq<Tfile>, chains: map<nat, seq<nat>>)
    requires Clean(m0) && Consistent(m, u, files, chains) && (Recoverable(m0) ==> m == m0)
    ensures Recoverable(m0) && Neat(m, chains)
    ensures forall d | d in chains :: ParseDir(m[d], |m|).value.name != []
  {
    hide ParseData, ParseDir, ChainOf, Content, MapOk, TableOk, Placed;
    assert Recoverable(m0) by { hide Neat; }
    CleanIs(m, chains);
    forall d | d in chains ensures ParseDir(m[d], |m|).value.name != [] { assert NeatFile(m, d, chains[d]); }
  }

  lemma NamesMatch(m: seq<Block>, u: seq<bool>, files: seq<Tfile>, chains: map<nat, seq<nat>>)
    requires Consistent(m, u, files, chains)
    ensures Files(m).Keys == chains.Keys
    ensures forall d | d in chains ::
        d < |m| && ParseDir(m[d], |m|).Some? && Files(m)[d].name == ParseDir(m[d], |m|).value.name
  {
    hide ParseData, ParseDir, ChainOf, Content, HasFile, FileAt;
    FilesDomain(m, chains);
    forall d | d in chains ensures Files(m)[d].name == ParseDir(m[d], |m|).value.name { FileOf(m, chains, d); }
  }

  lemma NewDir(m0: seq<Block>, m: seq<Block>, u: seq<bool>, dirs: seq<nat>, j: nat, chains: map<nat, seq<nat>>)
    requires Exact(m0, m, u, dirs, j, chains) && j < |dirs|
    ensures dirs[j] !in chains && forall k | 0 <= k < j :: dirs[k] != dirs[j]
  {
    hide ParseDir, ParseData, Keeps, LastIn;
    NextDir(m0, dirs, j, chains);
  }

  lemma AllKept(m0: seq<Block>, m: seq<Block>, u: seq<bool>, dirs: seq<nat>, chains: map<nat, seq<nat>>)
    requires Exact(m0, m, u, dirs, |dirs|, chains) && Recoverable(m0)
    ensures forall k | 0 <= k < |dirs| :: dirs[k] in chains
  {
    hide ParseDir, Keeps, LastIn, Recoverable, Circles;
    forall k | 0 <= k < |dirs| ensures dirs[k] in chains { RecoverableKeeps(m0, dirs[k]); }
  }

  lemma MountedFiles(m0: seq<Block>, m: seq<Block>, u: seq<bool>, files: seq<Tfile>, chains: map<nat, seq<nat>>)
    requires Mounted(m0, m, u, chains) && Consistent(m, u, files, chains)
    ensures forall d: nat :: d in Files(m) <==> Keeps(m0, d)
  {
    hide ParseDir, ParseData, Keeps, Circles;
    FilesDomain(m, chains);
  }

  /** The bitmap: clear, but for the bits past the end of the medium. */
  method FreshMap(fs: Tfs)
    requires 3 <= |fs.medium| <= NOTABNO
    modifies fs`used
    ensures fresh(fs.used) && MapOk(fs.used[..], |fs.medium|) && forall b | 0 <= b < |fs.medium| :: !fs.used[b]
  {
    var n := |fs.medium|;
    var x := (n + 8 - 1) / 8;
    var bits := new bool[x * 8](_ => false);
    for bno := n to x * 8
      invariant forall b | n <= b < bno :: bits[b]
      invariant forall b | 0 <= b < n :: !bits[b]
    {
      bits[bno] := true;
    }
    fs.used := bits;
  }
}
