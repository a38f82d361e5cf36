// The marshaller of emu/styx.c: convS2M, convM2S and the table of message lengths.

module Styx {
  import opened Lists
  import opened Words

  const NAMELEN := 28
  const ERRLEN := 64
  const DIRLEN := 116
  const MAXMSG := 128
  const MAXFDATA := 8192

  const Tnop := 0
  const Rnop := 1
  const Terror := 2
  const Rerror := 3
  const Tflush := 4
  const Rflush := 5
  const Tclone := 6
  const Rclone := 7
  const Twalk := 8
  const Rwalk := 9
  const Topen := 10
  const Ropen := 11
  const Tcreate := 12
  const Rcreate := 13
  const Tread := 14
  const Rread := 15
  const Twrite := 16
  const Rwrite := 17
  const Tclunk := 18
  const Rclunk := 19
  const Tremove := 20
  const Rremove := 21
  const Tstat := 22
  const Rstat := 23
  const Twstat := 24
  const Rwstat := 25
  const Tattach := 28
  const Rattach := 29

  /** The fields of a message after its type and tag, and the byte skipped before data. */
  datatype Slot =
    | Oldtag | Fid | Newfid | Uname | Aname | Ename | Name | Mode | Perm
    | Offset | Count | QPath | QVers | Stat | Pad

  /** The bytes a field takes on the wire. */
  function Width(x: Slot): nat {
    match x
    case Mode | Pad => 1
    case Oldtag | Fid | Newfid | Count => 2
    case Perm | QPath | QVers => 4
    case Offset => 8
    case Uname | Aname | Name => NAMELEN
    case Ename => ERRLEN
    case Stat => DIRLEN
  }

  /** The bytes of a number that carry its value: an offset's upper four are written as zero and never read. */
  function Digits(x: Slot): nat {
    match x
    case Mode => 1
    case Oldtag | Fid | Newfid | Count => 2
    case Perm | QPath | QVers | Offset => 4
    case _ => 0
  }

  predicate Numeric(x: Slot) {
    Digits(x) > 0
  }

  predicate Text(x: Slot) {
    !Numeric(x) && x != Pad
  }

  /** The C type of the field is signed and no wider than its digits. */
  predicate Signed(x: Slot) {
    x in {Fid, Newfid, Mode, Perm, Offset}
  }

  function Range(k: nat): nat
    ensures Range(k) > 0
  {
    if k == 0 then 1 else 256 * Range(k - 1)
  }

  /** The value a field takes from its digits. */
  function Wrap(x: Slot, raw: int): int {
    if Signed(x) && raw >= Range(Digits(x)) / 2 then raw - Range(Digits(x)) else raw
  }

  /** What is left of a value that has been through the wire. */
  function Clip(x: Slot, v: int): int {
    Wrap(x, v % Range(Digits(x)))
  }

  /** A value the wire carries whole. */
  predicate Fits(x: Slot, v: int) {
    if Signed(x) then -(Range(Digits(x)) / 2) <= v < Range(Digits(x)) / 2 else 0 <= v < Range(Digits(x))
  }

  lemma FitsUnclipped(x: Slot, v: int)
    requires Numeric(x)
    ensures Fits(x, v) <==> Clip(x, v) == v
  {
    Ranges();
    var m := Range(Digits(x));
    if 0 <= v < m { SmallMod(v, m); }
    if -m <= v < 0 { SmallMod(v + m, m); ModPlus(v, m); }
  }

  lemma Ranges()
    ensures Range(1) == 256 && Range(2) == 65536 && Range(4) == 4294967296
  {
    assert Range(0) == 1 && Range(3) == 16777216;
  }

  lemma SmallMod(v: int, m: int)
    requires 0 <= v < m
    ensures v % m == v
  {}

  lemma ModPlus(v: int, m: int)
    requires m > 0
    ensures (v + m) % m == v % m
  {
    assert v == m * (v / m) + v % m;
    assert m * (v / m + 1) == m * (v / m) + m;
    UniqueDivision(v + m, m, v / m + 1, v % m);
  }

  /** A little-endian number in the buffer. */
  function LE(s: seq<Byte>, off: nat, k: nat): (r: nat)
    requires off + k <= |s|
    ensures r < Range(k)
    decreases k
  {
    if k == 0 then 0 else s[off] + 256 * LE(s, off + 1, k - 1)
  }

  lemma {:induction false} SameLE(s: seq<Byte>, t: seq<Byte>, off: nat, k: nat)
    requires off + k <= |s| && off + k <= |t| && s[off..off + k] == t[off..off + k]
    ensures LE(s, off, k) == LE(t, off, k)
    decreases k
  {
    if k > 0 {
      assert s[off] == s[off..off + k][0] && t[off] == t[off..off + k][0];
      assert s[off + 1..off + k] == s[off..off + k][1..] && t[off + 1..off + k] == t[off..off + k][1..];
      SameLE(s, t, off + 1, k - 1);
    }
  }

  // --- the layout of the messages ---

  /** The types both directions know. */
  predicate Known(kind: int) {
    (0 <= kind <= Rwstat && kind != Terror) || kind == Tattach || kind == Rattach
  }

  predicate HasData(kind: int) {
    kind == Twrite || kind == Rread
  }

  /** The fields each type carries, in order. */
  function Slots(kind: int): seq<Slot> {
    if kind == Tflush then [Oldtag]
    else if kind == Tattach then [Fid, Uname, Aname]
    else if kind == Tclone then [Fid, Newfid]
    else if kind == Twalk then [Fid, Name]
    else if kind == Topen then [Fid, Mode]
    else if kind == Tcreate then [Fid, Name, Perm, Mode]
    else if kind == Tread then [Fid, Offset, Count]
    else if kind == Twrite then [Fid, Offset, Count, Pad]
    else if kind == Rerror then [Ename]
    else if kind == Rread then [Fid, Count, Pad]
    else if kind == Rwrite then [Fid, Count]
    else if kind == Twstat || kind == Rstat then [Fid, Stat]
    else if kind in {Rwalk, Ropen, Rcreate, Rattach} then [Fid, QPath, QVers]
    else if kind in {Tclunk, Rclunk, Tremove, Rremove, Tstat, Rwstat, Rclone} then [Fid]
    else []
  }

  /** Where field k starts. */
  function At(kind: int, k: nat): (r: nat)
    requires k <= |Slots(kind)|
    ensures r >= 3
  {
    if k == 0 then 3 else At(kind, k - 1) + Width(Slots(kind)[k - 1])
  }

  /** The bytes before the data. */
  function Header(kind: int): nat {
    At(kind, |Slots(kind)|)
  }

  /** Where the count is. */
  function CountAt(kind: int): nat {
    if kind == Twrite then 13 else 5
  }

  /** The array msglen: its last two lines stand at 26 and 27, two places below the attach types. */
  function MsgLen(kind: int): nat {
    if kind in {Tnop, Rnop, Rflush} then 3
    else if kind == Rerror then 67
    else if kind in {Tflush, Rclone, Tclunk, Rclunk, Tremove, Rremove, Tstat, Rwstat} then 5
    else if kind in {Tclone, Rwrite} then 7
    else if kind == Twalk then 33
    else if kind in {Rwalk, Ropen, Rcreate} then 13
    else if kind == Topen then 6
    else if kind == Tcreate then 38
    else if kind == Tread then 15
    else if kind == Rread then 8
    else if kind == Twrite then 16
    else if kind in {Rstat, Twstat} then 121
    else if kind == 26 then 5 + 2 * NAMELEN
    else if kind == 27 then 13
    else 0
  }

  // --- where each field lies ---

  /** The two bytes at off, low byte first, as a C short or unsigned short. */
  ghost predicate Short(s: seq<Byte>, off: nat, num: map<Slot, int>, x: Slot, signed: bool) {
    off + 2 <= |s| && x in num && num[x] == Fold(TwoAt(s, off), 0x1_0000, signed)
  }

  /** The four bytes at off, low byte first, as a C long or unsigned long. */
  ghost predicate Long(s: seq<Byte>, off: nat, num: map<Slot, int>, x: Slot, signed: bool) {
    off + 4 <= |s| && x in num && num[x] == Fold(TwoAt(s, off) + 0x1_0000 * TwoAt(s, off + 2), 0x1_0000_0000, signed)
  }

  /** The byte at off as a C char. */
  ghost predicate Char(s: seq<Byte>, off: nat, num: map<Slot, int>, x: Slot) {
    off < |s| && x in num && num[x] == Fold(s[off], 0x100, true)
  }

  /** The n bytes at off. */
  ghost predicate String(s: seq<Byte>, off: nat, n: nat, str: map<Slot, seq<Byte>>, x: Slot) {
    off + n <= |s| && x in str && s[off..off + n] == str[x]
  }

  function TwoAt(s: seq<Byte>, off: nat): int
    requires off + 2 <= |s|
  {
    var lo: int, hi: int := s[off], s[off + 1];
    lo + 256 * hi
  }

  /** A number of so many values, its upper half negative if signed. */
  function Fold(raw: int, values: int, signed: bool): int {
    if signed && raw >= values / 2 then raw - values else raw
  }

  /** Byte by byte, what a message of each type looks like after type and tag (convS2M in emu/styx.c:250-370). */
  ghost predicate OnWire(s: seq<Byte>, kind: int, num: map<Slot, int>, str: map<Slot, seq<Byte>>, data: seq<Byte>) {
    && (kind !in {Tnop, Rnop, Rflush, Tflush, Rerror} ==> Short(s, 3, num, Fid, true))
    && (kind == Tflush ==> Short(s, 3, num, Oldtag, false))
    && (kind == Rerror ==> String(s, 3, 64, str, Ename))
    && (kind == Tattach ==> String(s, 5, 28, str, Uname) && String(s, 33, 28, str, Aname))
    && (kind == Tclone ==> Short(s, 5, num, Newfid, true))
    && (kind == Twalk ==> String(s, 5, 28, str, Name))
    && (kind == Topen ==> Char(s, 5, num, Mode))
    && (kind == Tcreate ==> String(s, 5, 28, str, Name) && Long(s, 33, num, Perm, true) && Char(s, 37, num, Mode))
    && (kind == Tread || kind == Twrite ==> Long(s, 5, num, Slot.Offset, true) && Short(s, 13, num, Count, false))
    && (kind == Rread || kind == Rwrite ==> Short(s, 5, num, Count, false))
    && (kind == Twstat || kind == Rstat ==> String(s, 5, 116, str, Stat))
    && (kind in {Rwalk, Ropen, Rcreate, Rattach} ==> Long(s, 5, num, QPath, false) && Long(s, 9, num, QVers, false))
    && (kind == Twrite ==> 16 + |data| <= |s| && s[16..16 + |data|] == data)
    && (kind == Rread ==> 8 + |data| <= |s| && s[8..8 + |data|] == data)
  }

  /** A message in the buffer is there byte by byte. */
  lemma CarriedOnWire(s: seq<Byte>, kind: Byte, tag: int, num: map<Slot, int>, str: map<Slot, seq<Byte>>,
      data: seq<Byte>)
    requires Known(kind) && Carries(s, kind, tag, num, str, data)
    ensures s[0] == kind && TwoAt(s, 1) == tag && OnWire(s, kind, num, str, data)
  {
    TwoBytes(s, 1);
    hide LE, One, Wrap, TwoAt, OnWire, At, Header, Slots, Placed;
    HeaderIs(kind);
    var xs := Slots(kind);
    forall i | 0 <= i < |xs| ensures Placed(s, At(kind, i), xs[i], num, str) {
      assert One(s, At(kind, i), xs[i], num, str);
      FieldOnWire(s, At(kind, i), xs[i], num, str);
    }
    PlacedOnWire(s, kind, num, str, data);
  }

  /** The places of the fields, in bytes. */
  lemma PlacedOnWire(s: seq<Byte>, kind: Byte, num: map<Slot, int>, str: map<Slot, seq<Byte>>, data: seq<Byte>)
    requires Known(kind)
    requires forall i | 0 <= i < |Slots(kind)| :: Placed(s, At(kind, i), Slots(kind)[i], num, str)
    requires kind == Twrite ==> 16 + |data| <= |s| && s[16..16 + |data|] == data
    requires kind == Rread ==> 8 + |data| <= |s| && s[8..8 + |data|] == data
    ensures OnWire(s, kind, num, str, data)
  {
    hide Short, Long, Char, String;
    Places(kind);
    var xs := Slots(kind);
    if |xs| > 0 { assert Placed(s, At(kind, 0), xs[0], num, str); }
    if |xs| > 1 { assert Placed(s, At(kind, 1), xs[1], num, str); }
    if |xs| > 2 { assert Placed(s, At(kind, 2), xs[2], num, str); }
    if |xs| > 3 { assert Placed(s, At(kind, 3), xs[3], num, str); }
  }

  ghost predicate Placed(s: seq<Byte>, off: nat, x: Slot, num: map<Slot, int>, str: map<Slot, seq<Byte>>) {
    && (Digits(x) == 1 ==> Char(s, off, num, x))
    && (Digits(x) == 2 ==> Short(s, off, num, x, Signed(x)))
    && (Digits(x) == 4 ==> Long(s, off, num, x, Signed(x)))
    && (Text(x) ==> String(s, off, Width(x), str, x))
  }

  /** A field carried is there byte by byte. */
  lemma FieldOnWire(s: seq<Byte>, off: nat, x: Slot, num: map<Slot, int>, str: map<Slot, seq<Byte>>)
    requires One(s, off, x, num, str)
    ensures Placed(s, off, x, num, str)
  {
    Ranges();
    if Digits(x) == 1 { assert LE(s, off + 1, 0) == 0 && LE(s, off, 1) == s[off]; }
    if Digits(x) == 2 { TwoBytes(s, off); }
    if Digits(x) == 4 { FourBytes(s, off); }
  }

  lemma TwoBytes(s: seq<Byte>, off: nat)
    requires off + 2 <= |s|
    ensures LE(s, off, 2) == TwoAt(s, off)
  {
    assert LE(s, off + 2, 0) == 0 && LE(s, off + 1, 1) == s[off + 1];
  }

  lemma FourBytes(s: seq<Byte>, off: nat)
    requires off + 4 <= |s|
    ensures LE(s, off, 4) == TwoAt(s, off) + 0x1_0000 * TwoAt(s, off + 2)
  {
    TwoBytes(s, off + 2);
    assert LE(s, off + 1, 3) == s[off + 1] + 256 * LE(s, off + 2, 2);
  }

  lemma Places(kind: int)
    requires Known(kind)
    ensures At(kind, 0) == 3
    ensures var xs := Slots(kind);
      && (|xs| > 1 ==> At(kind, 1) == 3 + Width(xs[0]))
      && (|xs| > 2 ==> At(kind, 2) == 3 + Width(xs[0]) + Width(xs[1]))
      && (|xs| > 3 ==> At(kind, 3) == 3 + Width(xs[0]) + Width(xs[1]) + Width(xs[2]))
  {
    hide Width;
    var xs := Slots(kind);
    if |xs| > 1 { assert At(kind, 1) == At(kind, 0) + Width(xs[0]); }
    if |xs| > 2 { assert At(kind, 2) == At(kind, 1) + Width(xs[1]); }
    if |xs| > 3 { assert At(kind, 3) == At(kind, 2) + Width(xs[2]); }
  }

  /** The table gives the header's length for every type but the two attach types, where it gives zero. */
  lemma TableIsHeader(kind: int)
    requires Known(kind)
    ensures MsgLen(kind) == Header(kind) <==> kind != Tattach && kind != Rattach
    ensures kind == Tattach || kind == Rattach ==> MsgLen(kind) == 0
    ensures Header(kind) <= MAXMSG
  {
    HeaderIs(kind);
  }

  lemma HeaderIs(kind: int)
    requires Known(kind)
    ensures Header(kind) == if kind == Tattach then 61 else if kind == Rattach then 13 else MsgLen(kind)
  {
    var xs := Slots(kind);
    if |xs| >= 1 {
      assert At(kind, 1) == 3 + Width(xs[0]);
      if |xs| >= 2 {
        assert At(kind, 2) == At(kind, 1) + Width(xs[1]);
        if |xs| >= 3 {
          assert At(kind, 3) == At(kind, 2) + Width(xs[2]);
        }
      }
    }
  }

  // --- messages ---

  /** The structure Fcall. Its data pointer is modelled by the bytes it points at. */
  class Fcall {
    var kind: Byte
    var tag: int
    var num: map<Slot, int>
    var str: map<Slot, seq<Byte>>
    var data: seq<Byte>

    ghost predicate Valid()
      reads this
    {
      && (forall x: Slot :: Numeric(x) ==> x in num)
      && (forall x: Slot :: Text(x) ==> x in str && |str[x]| == Width(x))
    }
  }

  /** Field x, at off, carries what the maps say. */
  ghost predicate One(s: seq<Byte>, off: nat, x: Slot, num: map<Slot, int>, str: map<Slot, seq<Byte>>) {
    && off + Width(x) <= |s|
    && (Numeric(x) ==> x in num && Wrap(x, LE(s, off, Digits(x))) == num[x])
    && (Text(x) ==> x in str && s[off..off + Width(x)] == str[x])
  }

  /** The first k fields of a message are in the buffer. */
  ghost predicate Fields(s: seq<Byte>, kind: int, k: nat, num: map<Slot, int>, str: map<Slot, seq<Byte>>)
    requires k <= |Slots(kind)|
  {
    forall i | 0 <= i < k :: One(s, At(kind, i), Slots(kind)[i], num, str)
  }

  /** The whole message is in the buffer. */
  ghost predicate Carries(s: seq<Byte>, kind: Byte, tag: int, num: map<Slot, int>, str: map<Slot, seq<Byte>>,
      data: seq<Byte>) {
    && |s| >= Header(kind) && s[0] == kind && LE(s, 1, 2) == tag
    && Fields(s, kind, |Slots(kind)|, num, str)
    && (HasData(kind) ==> |s| >= Header(kind) + |data| && s[Header(kind)..Header(kind) + |data|] == data)
  }

  /** The values as they come out at the other end. */
  ghost function Clipped(num: map<Slot, int>): map<Slot, int> {
    map x | x in num :: Clip(x, num[x])
  }

  /** What the same bytes carry is the same. */
  lemma CarriedOnce(s: seq<Byte>, kind: Byte, tag: int, num: map<Slot, int>, str: map<Slot, seq<Byte>>, data: seq<Byte>,
                    tag': int, num': map<Slot, int>, str': map<Slot, seq<Byte>>, data': seq<Byte>, i: nat)
    requires Carries(s, kind, tag, num, str, data) && Carries(s, kind, tag', num', str', data')
    requires i < |Slots(kind)|
    ensures tag == tag' && (HasData(kind) && |data| == |data'| ==> data == data')
    ensures Numeric(Slots(kind)[i]) ==> num[Slots(kind)[i]] == num'[Slots(kind)[i]]
    ensures Text(Slots(kind)[i]) ==> str[Slots(kind)[i]] == str'[Slots(kind)[i]]
  {
    hide LE, Slots, At;
    assert One(s, At(kind, i), Slots(kind)[i], num, str);
    assert One(s, At(kind, i), Slots(kind)[i], num', str');
  }

  lemma {:induction false} AtMonotone(kind: int, i: nat, k: nat)
    requires i <= k <= |Slots(kind)|
    ensures At(kind, i) <= At(kind, k)
    ensures i < k ==> At(kind, i) + Width(Slots(kind)[i]) <= At(kind, k)
    decreases k - i
  {
    if i < k {
      AtMonotone(kind, i + 1, k);
    }
  }

  lemma SameOne(s: seq<Byte>, t: seq<Byte>, off: nat, x: Slot, num: map<Slot, int>, str: map<Slot, seq<Byte>>)
    requires One(s, off, x, num, str) && off + Width(x) <= |t| && s[off..off + Width(x)] == t[off..off + Width(x)]
    ensures One(t, off, x, num, str)
  {
    hide LE;
    if Numeric(x) {
      assert s[off..off + Digits(x)] == s[off..off + Width(x)][..Digits(x)];
      assert t[off..off + Digits(x)] == t[off..off + Width(x)][..Digits(x)];
      SameLE(s, t, off, Digits(x));
    }
  }

  lemma SliceOfTake(s: seq<Byte>, k: nat, lo: nat, hi: nat)
    requires lo <= hi <= k <= |s|
    ensures s[..k][lo..hi] == s[lo..hi]
  {}

  /** The fields only depend on the bytes below the cursor. */
  lemma SameFields(s: seq<Byte>, t: seq<Byte>, kind: int, k: nat, num: map<Slot, int>, str: map<Slot, seq<Byte>>)
    requires k <= |Slots(kind)| && Fields(s, kind, k, num, str)
    requires At(kind, k) <= |s| && At(kind, k) <= |t| && s[..At(kind, k)] == t[..At(kind, k)]
    ensures Fields(t, kind, k, num, str)
  {
    hide One, Slots, At;
    forall i | 0 <= i < k ensures One(t, At(kind, i), Slots(kind)[i], num, str) {
      AtMonotone(kind, i, k);
      var lo, hi := At(kind, i), At(kind, i) + Width(Slots(kind)[i]);
      SliceOfTake(s, At(kind, k), lo, hi);
      SliceOfTake(t, At(kind, k), lo, hi);
      assert One(s, lo, Slots(kind)[i], num, str);
      SameOne(s, t, lo, Slots(kind)[i], num, str);
    }
  }

  // --- convS2M ---

  /** The macros PCHAR, PSHORT, PLONG and PVLONG: the low digits of v, least first, then zeros. */
  method PutNumber(ap: array<Byte>, p: nat, v: int, digits: nat, width: nat)
    requires digits <= width && p + width <= ap.Length
    modifies ap
    ensures LE(ap[..], p, digits) == v % Range(digits)
    ensures ap[..p] == old(ap[..p]) && Behind(ap[..], old(ap[..]), p + width)
    ensures ZerosIn(ap[..], p + digits, p + width)
  {
    hide LE, Behind;
    ghost var s0: seq<Byte> := ap[..];
    PutDigits(ap, p, v, digits);
    ghost var s: seq<Byte> := ap[..];
    PutZeros(ap, p + digits, p + width);
    assert ap[..p] == ap[..p + digits][..p] && s[..p] == s[..p + digits][..p];
    assert ap[..][p..p + digits] == ap[..p + digits][p..] && s[p..p + digits] == s[..p + digits][p..];
    SameLE(s, ap[..], p, digits);
    BehindOn(ap[..], s, s0, p + width, p + digits);
  }

  method PutZeros(ap: array<Byte>, p: nat, q: nat)
    requires p <= q <= ap.Length
    modifies ap
    ensures ap[..p] == old(ap[..p]) && Behind(ap[..], old(ap[..]), q) && ZerosIn(ap[..], p, q)
  {
    for i := p to q
      invariant ap[..p] == old(ap[..p]) && Behind(ap[..], old(ap[..]), q) && ZerosIn(ap[..], p, i)
    {
      ap[i] := 0;
    }
  }

  method PutDigits(ap: array<Byte>, p: nat, v: int, digits: nat)
    requires p + digits <= ap.Length
    modifies ap
    ensures LE(ap[..], p, digits) == v % Range(digits)
    ensures ap[..p] == old(ap[..p]) && Behind(ap[..], old(ap[..]), p + digits)
  {
    var i, rest := 0, v;
    ghost var place := 1;
    while i < digits
      invariant 0 <= i <= digits && place == Range(i) && rest == v / place
      invariant LE(ap[..], p, i) == v % place
      invariant ap[..p] == old(ap[..p]) && Behind(ap[..], old(ap[..]), p + digits)
    {
      ghost var s: seq<Byte> := ap[..];
      ap[p + i] := rest % 256;
      assert s[p..p + i] == ap[..][p..p + i];
      LEAppend(s, ap[..], p, i);
      NextDigit(v, place);
      rest := rest / 256;
      place := 256 * place;
      i := i + 1;
    }
  }

  lemma {:induction false} LEAppend(s: seq<Byte>, t: seq<Byte>, off: nat, k: nat)
    requires off + k < |s| && off + k < |t| && s[off..off + k] == t[off..off + k]
    ensures LE(t, off, k + 1) == LE(s, off, k) + Range(k) * t[off + k]
    decreases k
  {
    if k == 0 {
      assert LE(t, off + 1, 0) == 0;
    } else {
      assert s[off] == s[off..off + k][0] && t[off] == t[off..off + k][0];
      assert s[off + 1..off + k] == s[off..off + k][1..] && t[off + 1..off + k] == t[off..off + k][1..];
      LEAppend(s, t, off + 1, k - 1);
      ShiftDigit(LE(s, off + 1, k - 1), Range(k - 1), t[off + k]);
    }
  }

  lemma ShiftDigit(a: int, r: int, b: int)
    ensures 256 * (a + r * b) == 256 * a + (256 * r) * b
  {}

  lemma NextDigit(v: int, place: int)
    requires place > 0
    ensures v % (256 * place) == v % place + place * ((v / place) % 256)
    ensures v / (256 * place) == (v / place) / 256
  {
    var q, r := v / place, v % place;
    var q', d := q / 256, q % 256;
    assert v == place * q + r;
    SplitPlace(place, q', d, r);
    UniqueDivision(v, 256 * place, q', place * d + r);
  }

  lemma SplitPlace(place: int, q: int, d: int, r: int)
    requires 0 <= d < 256 && 0 <= r < place
    ensures place * (256 * q + d) + r == (256 * place) * q + (place * d + r)
    ensures 0 <= place * d + r < 256 * place
  {
    MulDist(place, 256 * q, d);
    MulAssoc(place, 256, q);
    MulComm(place, 256);
    MulMono(place, place, d, 255);
  }

  lemma UniqueDivision(v: int, m: int, q: int, r: int)
    requires 0 <= r < m && v == m * q + r
    ensures v / m == q && v % m == r
  {
    var e := v / m - q;
    assert m * e == r - v % m by { assert v == m * (v / m) + v % m; }
    MultipleGap(m, e);
  }

  lemma MultipleGap(m: int, e: int)
    requires m > 0
    ensures e >= 1 ==> m * e >= m
    ensures e <= -1 ==> m * e <= -m
  {}

  /** The macro PSTRING. */
  method PutBytes(ap: array<Byte>, p: nat, bytes: seq<Byte>)
    requires p + |bytes| <= ap.Length
    modifies ap
    ensures ap[p..p + |bytes|] == bytes
    ensures ap[..p] == old(ap[..p]) && Behind(ap[..], old(ap[..]), p + |bytes|)
  {
    for i := 0 to |bytes|
      invariant ap[p..p + i] == bytes[..i]
      invariant ap[..p] == old(ap[..p]) && Behind(ap[..], old(ap[..]), p + |bytes|)
    {
      ap[p + i] := bytes[i];
    }
  }

  /** From n on nothing has changed. */
  ghost predicate Behind(s: seq<Byte>, s0: seq<Byte>, n: nat) {
    |s| == |s0| && forall i | n <= i < |s| :: s[i] == s0[i]
  }

  lemma BehindOn(s: seq<Byte>, s1: seq<Byte>, s0: seq<Byte>, n: nat, m: nat)
    requires Behind(s, s1, n) && Behind(s1, s0, m) && m <= n
    ensures Behind(s, s0, n)
  {}

  /** Zeros from n up to m. */
  ghost predicate ZerosIn(s: seq<Byte>, n: nat, m: nat) {
    m <= |s| && forall i | n <= i < m :: s[i] == 0
  }

  lemma ZerosKept(s: seq<Byte>, s0: seq<Byte>, n: nat, m: nat, p: nat)
    requires ZerosIn(s0, n, m) && m <= p <= |s| && p <= |s0| && s[..p] == s0[..p]
    ensures ZerosIn(s, n, m)
  {
    assert forall i | n <= i < m :: s[i] == s[..p][i] && s0[i] == s0[..p][i];
  }

  /** One field; a pad byte is left as it is. */
  method PutValue(f: Fcall, x: Slot, ap: array<Byte>, p: nat)
    requires f.Valid() && p + Width(x) <= ap.Length
    modifies ap
    ensures One(ap[..], p, x, Clipped(f.num), f.str) && ap[..p] == old(ap[..p])
    ensures Behind(ap[..], old(ap[..]), p + Width(x)) && (x == Offset ==> ZerosIn(ap[..], p + 4, p + 8))
  {
    hide LE;
    if Numeric(x) {
      assert Text(x) == false && Digits(x) <= Width(x);
      PutNumber(ap, p, f.num[x], Digits(x), Width(x));
    } else if x != Pad {
      PutBytes(ap, p, f.str[x]);
    }
  }

  lemma FieldsNext(s: seq<Byte>, kind: int, k: nat, num: map<Slot, int>, str: map<Slot, seq<Byte>>)
    requires k < |Slots(kind)| && Fields(s, kind, k, num, str) && One(s, At(kind, k), Slots(kind)[k], num, str)
    ensures Fields(s, kind, k + 1, num, str)
    ensures At(kind, k + 1) == At(kind, k) + Width(Slots(kind)[k])
  {
    hide One, Slots;
  }

  /** Every field of every message lies in the first 121 bytes. */
  lemma FieldInHeader(kind: int, k: nat)
    requires Known(kind) && k < |Slots(kind)|
    ensures At(kind, k) + Width(Slots(kind)[k]) <= Header(kind) <= 121
  {
    HeaderIs(kind);
    AtMonotone(kind, k, |Slots(kind)|);
  }

  /** One field, at the cursor. */
  method Put(f: Fcall, x: Slot, ap: array<Byte>, p: nat, ghost k: nat) returns (next: nat)
    requires f.Valid() && Known(f.kind) && ap.Length >= MAXMSG
    requires k < |Slots(f.kind)| && Slots(f.kind)[k] == x && p == At(f.kind, k)
    requires Fields(ap[..], f.kind, k, Clipped(f.num), f.str)
    modifies ap
    ensures next == At(f.kind, k + 1) && Fields(ap[..], f.kind, k + 1, Clipped(f.num), f.str)
    ensures ap[..3] == old(ap[..3]) && ap[..p] == old(ap[..p]) && Behind(ap[..], old(ap[..]), next) && p <= next
    ensures x == Offset ==> ZerosIn(ap[..], p + 4, p + 8)
  {
    hide LE, Slots, One, Clipped, Width, At, Fields, Header, Behind, ZerosIn;
    FieldInHeader(f.kind, k);
    ghost var s: seq<Byte> := ap[..];
    PutValue(f, x, ap, p);
    next := p + Width(x);
    assert ap[..p] == s[..p];
    SameFields(s, ap[..], f.kind, k, Clipped(f.num), f.str);
    FieldsNext(ap[..], f.kind, k, Clipped(f.num), f.str);
    assert ap[..3] == ap[..p][..3] && s[..3] == s[..p][..3];
  }

  /** The type byte and the tag. */
  method PutHead(f: Fcall, ap: array<Byte>)
    requires ap.Length >= 3
    modifies ap
    ensures ap[0] == f.kind && LE(ap[..], 1, 2) == f.tag % 65536 && Behind(ap[..], old(ap[..]), 3)
  {
    ap[0] := f.kind;
    PutNumber(ap, 1, f.tag, 2, 2);
    Ranges();
    assert ap[..1][0] == f.kind;
  }

  /** The data after the pad byte. */
  method PutData(f: Fcall, ap: array<Byte>, p: nat) returns (next: nat)
    requires f.Valid() && HasData(f.kind) && p == Header(f.kind)
    requires 0 <= f.num[Count] <= |f.data| && p + f.num[Count] <= ap.Length
    requires Fields(ap[..], f.kind, |Slots(f.kind)|, Clipped(f.num), f.str)
    modifies ap
    ensures next == p + f.num[Count] && ap[p..next] == f.data[..f.num[Count]]
    ensures Fields(ap[..], f.kind, |Slots(f.kind)|, Clipped(f.num), f.str)
    ensures ap[..3] == old(ap[..3]) && ap[..p] == old(ap[..p]) && Behind(ap[..], old(ap[..]), next)
  {
    hide LE, Slots, One, Clipped, Width;
    ghost var s: seq<Byte> := ap[..];
    var n := f.num[Count];
    PutBytes(ap, p, f.data[..n]);
    next := p + n;
    assert ap[..p] == s[..p];
    SameFields(s, ap[..], f.kind, |Slots(f.kind)|, Clipped(f.num), f.str);
    assert ap[..3] == ap[..p][..3] && s[..3] == s[..p][..3];
  }

  /** The length of a message with this type and count. */
  function Size(kind: int, count: int): int {
    Header(kind) + if HasData(kind) then count else 0
  }

  lemma LongPlaces(kind: int)
    requires kind == Tread || kind == Twrite
    ensures At(kind, 1) == 5 && At(kind, 2) == 13 && At(kind, 3) == 15 && Header(kind) >= 15
  {
    Places(kind);
    HeaderIs(kind);
    assert At(kind, 3) == At(kind, 2) + Width(Slots(kind)[2]);
  }

  /** The fields of the three longest requests. */
  method PutLong(f: Fcall, ap: array<Byte>) returns (p: nat)
    requires f.Valid() && (f.kind == Tcreate || f.kind == Tread || f.kind == Twrite) && ap.Length >= MAXMSG
    modifies ap
    ensures p == Header(f.kind) && Fields(ap[..], f.kind, |Slots(f.kind)|, Clipped(f.num), f.str)
    ensures ap[..3] == old(ap[..3])
    ensures Behind(ap[..], old(ap[..]), p)
    ensures f.kind == Tread || f.kind == Twrite ==> ZerosIn(ap[..], 9, 13)
  {
    hide Fields, Clipped, Width, At;
    if f.kind != Tcreate { LongPlaces(f.kind); }
    p := 3;
    NoFields(ap[..], f.kind, Clipped(f.num), f.str);
    if f.kind == Tcreate {
      p := Put(f, Fid, ap, p, 0);
      p := Put(f, Name, ap, p, 1);
      p := Put(f, Perm, ap, p, 2);
      p := Put(f, Mode, ap, p, 3);
    } else if f.kind == Tread {
      p := Put(f, Fid, ap, p, 0);
      p := Put(f, Offset, ap, p, 1);
      ghost var s: seq<Byte> := ap[..];
      p := Put(f, Count, ap, p, 2);
      ZerosKept(ap[..], s, 9, 13, 13);
    } else {
      p := Put(f, Fid, ap, p, 0);
      p := Put(f, Offset, ap, p, 1);
      ghost var s: seq<Byte> := ap[..];
      p := Put(f, Count, ap, p, 2);
      ZerosKept(ap[..], s, 9, 13, 13);
      ghost var s1: seq<Byte> := ap[..];
      p := Put(f, Pad, ap, p, 3);
      ZerosKept(ap[..], s1, 9, 13, 15);
    }
  }

  /** The fields of the requests. */
  method PutRequest(f: Fcall, ap: array<Byte>) returns (p: nat)
    requires f.Valid() && Known(f.kind) && f.kind % 2 == 0 && f.kind != Tnop && ap.Length >= MAXMSG
    modifies ap
    ensures p == Header(f.kind) && Fields(ap[..], f.kind, |Slots(f.kind)|, Clipped(f.num), f.str)
    ensures ap[..3] == old(ap[..3])
    ensures Behind(ap[..], old(ap[..]), p)
    ensures f.kind == Tread || f.kind == Twrite ==> ZerosIn(ap[..], 9, 13)
  {
    hide Fields, Clipped, Width, At;
    p := 3;
    NoFields(ap[..], f.kind, Clipped(f.num), f.str);
    if f.kind == Tflush {
      p := Put(f, Oldtag, ap, p, 0);
    } else if f.kind == Tattach {
      p := Put(f, Fid, ap, p, 0);
      p := Put(f, Uname, ap, p, 1);
      p := Put(f, Aname, ap, p, 2);
    } else if f.kind == Tclone {
      p := Put(f, Fid, ap, p, 0);
      p := Put(f, Newfid, ap, p, 1);
    } else if f.kind == Twalk {
      p := Put(f, Fid, ap, p, 0);
      p := Put(f, Name, ap, p, 1);
    } else if f.kind == Topen {
      p := Put(f, Fid, ap, p, 0);
      p := Put(f, Mode, ap, p, 1);
    } else if f.kind == Tcreate || f.kind == Tread || f.kind == Twrite {
      p := PutLong(f, ap);
    } else if f.kind == Twstat {
      p := Put(f, Fid, ap, p, 0);
      p := Put(f, Stat, ap, p, 1);
    } else {
      p := Put(f, Fid, ap, p, 0);
    }
  }

  /** The fields of the replies. */
  method PutReply(f: Fcall, ap: array<Byte>) returns (p: nat)
    requires f.Valid() && Known(f.kind) && (f.kind % 2 == 1 || f.kind == Tnop) && ap.Length >= MAXMSG
    modifies ap
    ensures p == Header(f.kind) && Fields(ap[..], f.kind, |Slots(f.kind)|, Clipped(f.num), f.str)
    ensures ap[..3] == old(ap[..3])
    ensures Behind(ap[..], old(ap[..]), p)
  {
    hide Fields, Clipped, Width, At;
    p := 3;
    NoFields(ap[..], f.kind, Clipped(f.num), f.str);
    if f.kind == Tnop || f.kind == Rnop || f.kind == Rflush {
    } else if f.kind == Rerror {
      p := Put(f, Ename, ap, p, 0);
    } else if f.kind == Rattach || f.kind == Rwalk || f.kind == Ropen || f.kind == Rcreate {
      p := Put(f, Fid, ap, p, 0);
      p := Put(f, QPath, ap, p, 1);
      p := Put(f, QVers, ap, p, 2);
    } else if f.kind == Rread {
      p := Put(f, Fid, ap, p, 0);
      p := Put(f, Count, ap, p, 1);
      p := Put(f, Pad, ap, p, 2);
    } else if f.kind == Rwrite {
      p := Put(f, Fid, ap, p, 0);
      p := Put(f, Count, ap, p, 1);
    } else if f.kind == Rstat {
      p := Put(f, Fid, ap, p, 0);
      p := Put(f, Stat, ap, p, 1);
    } else {
      p := Put(f, Fid, ap, p, 0);
    }
  }

  /** convS2M, into a buffer with room for the message. */
  method ConvS2M(f: Fcall, ap: array<Byte>) returns (r: int)
    requires f.Valid() && ap.Length >= MAXMSG
    requires HasData(f.kind) ==> 0 <= f.num[Count] <= |f.data| && Header(f.kind) + f.num[Count] <= ap.Length
    modifies ap
    ensures !Known(f.kind) ==> r == -1
    ensures Known(f.kind) ==> r == Size(f.kind, f.num[Count]) && 0 <= r <= ap.Length
    ensures Known(f.kind) ==> Carries(ap[..r], f.kind, f.tag % 65536, Clipped(f.num), f.str,
                                      if HasData(f.kind) then f.data[..f.num[Count]] else [])
    ensures f.kind == Tread || f.kind == Twrite ==> ZerosIn(ap[..], 9, 13)
    ensures Behind(ap[..], old(ap[..]), if Known(f.kind) then r else 3)
  {
    hide Fields, Clipped, Width, At, LE, Slots, Behind, ZerosIn;
    ghost var s0: seq<Byte> := ap[..];
    PutHead(f, ap);
    if !Known(f.kind) {
      return -1;
    }
    ghost var s: seq<Byte> := ap[..];
    var p: nat;
    if f.kind % 2 == 0 && f.kind != Tnop {
      p := PutRequest(f, ap);
    } else {
      p := PutReply(f, ap);
    }
    BehindOn(ap[..], s, s0, p, 3);
    HeaderIs(f.kind);
    if HasData(f.kind) {
      ghost var s1: seq<Byte>, q: nat := ap[..], p;
      p := PutData(f, ap, p);
      BehindOn(ap[..], s1, s0, p, q);
      if f.kind == Twrite { ZerosKept(ap[..], s1, 9, 13, q); }
    }
    r := p;
    Whole(s, ap[..], f.kind, f.tag % 65536, p, Clipped(f.num), f.str, if HasData(f.kind) then f.data[..f.num[Count]] else []);
  }

  lemma Whole(s: seq<Byte>, t: seq<Byte>, kind: Byte, tag: int, p: nat, num: map<Slot, int>, str: map<Slot,
      seq<Byte>>, data: seq<Byte>)
    requires |s| >= 3 && s[0] == kind && LE(s, 1, 2) == tag && Header(kind) <= p <= |t| && s[..3] == t[..3]
    requires Fields(t, kind, |Slots(kind)|, num, str)
    requires HasData(kind) ==> p == Header(kind) + |data| && t[Header(kind)..p] == data
    ensures Carries(t[..p], kind, tag, num, str, data)
  {
    hide Fields, LE, At, Slots;
    assert s[..3][0] == t[..3][0] && t[..p][0] == t[0];
    assert s[..3][1..3] == s[1..3] && t[..3][1..3] == t[1..3] == t[..p][1..3];
    SameLE(s, t[..p], 1, 2);
    assert t[..p][..Header(kind)] == t[..Header(kind)];
    SameFields(t, t[..p], kind, |Slots(kind)|, num, str);
  }

  lemma NoFields(s: seq<Byte>, kind: int, num: map<Slot, int>, str: map<Slot, seq<Byte>>)
    ensures Fields(s, kind, 0, num, str) && At(kind, 0) == 3
  {}

  // --- convM2S ---

  /** One field, into the structure; nothing else there changes. */
  method GetValue(ap: array<Byte>, x: Slot, f: Fcall, p: nat)
    requires f.Valid() && p + Width(x) <= ap.Length
    modifies f`num, f`str
    ensures f.Valid() && One(ap[..], p, x, f.num, f.str)
    ensures forall y | y in old(f.num) && y != x :: y in f.num && f.num[y] == old(f.num)[y]
    ensures forall y | y in old(f.str) && y != x :: y in f.str && f.str[y] == old(f.str)[y]
  {
    hide LE;
    if Numeric(x) {
      assert !Text(x) && Digits(x) <= Width(x);
      var raw := GetNumber(ap, p, Digits(x));
      f.num := f.num[x := Wrap(x, raw)];
    } else if x != Pad {
      f.str := f.str[x := ap[p..p + Width(x)]];
      assert ap[..][p..p + Width(x)] == ap[p..p + Width(x)];
    }
  }

  /** One field, at the cursor, into the structure. */
  method Get(ap: array<Byte>, x: Slot, f: Fcall, p: nat, ghost kind: Byte, ghost k: nat) returns (next: nat)
    requires f.Valid() && Known(kind) && ap.Length >= MAXMSG
    requires k < |Slots(kind)| && Slots(kind)[k] == x && p == At(kind, k)
    requires Fields(ap[..], kind, k, f.num, f.str)
    modifies f`num, f`str
    ensures f.Valid() && next == At(kind, k + 1) && Fields(ap[..], kind, k + 1, f.num, f.str)
  {
    hide LE, Slots, At, Fields, Header, One, Width;
    FieldInHeader(kind, k);
    ghost var num, str := f.num, f.str;
    GetValue(ap, x, f, p);
    next := p + Width(x);
    OtherFields(ap[..], kind, k, num, str, f.num, f.str);
    FieldsNext(ap[..], kind, k, f.num, f.str);
  }

  /** The fields of one layout are distinct, so setting the next leaves the earlier ones. */
  lemma OtherFields(s: seq<Byte>, kind: Byte, k: nat, num: map<Slot, int>, str: map<Slot, seq<Byte>>,
                    num': map<Slot, int>, str': map<Slot, seq<Byte>>)
    requires k < |Slots(kind)| && Fields(s, kind, k, num, str)
    requires forall y | y in num && y != Slots(kind)[k] :: y in num' && num'[y] == num[y]
    requires forall y | y in str && y != Slots(kind)[k] :: y in str' && str'[y] == str[y]
    ensures Fields(s, kind, k, num', str')
  {
    hide LE, At;
    assert forall i | 0 <= i < k :: Slots(kind)[i] != Slots(kind)[k];
  }

  /** The macros GCHAR, GSHORT, GLONG and GVLONG. */
  method GetNumber(ap: array<Byte>, p: nat, digits: nat) returns (raw: nat)
    requires p + digits <= ap.Length
    ensures raw == LE(ap[..], p, digits)
  {
    raw := 0;
    for i := digits downto 0
      invariant raw == LE(ap[..], p + i, digits - i)
    {
      raw := ap[p + i] + 256 * raw;
    }
  }

  /** The fields of the requests without data. */
  method GetRequest(ap: array<Byte>, f: Fcall) returns (p: nat)
    requires f.Valid() && Known(f.kind) && f.kind % 2 == 0 && f.kind != Tnop && f.kind != Twrite && ap.Length >= MAXMSG
    modifies f`num, f`str
    ensures f.Valid() && p == Header(f.kind) && Fields(ap[..], f.kind, |Slots(f.kind)|, f.num, f.str)
  {
    hide Fields, Width, At;
    p := 3;
    NoFields(ap[..], f.kind, f.num, f.str);
    if f.kind == Tflush {
      p := Get(ap, Oldtag, f, p, f.kind, 0);
    } else if f.kind == Tattach {
      p := Get(ap, Fid, f, p, f.kind, 0);
      p := Get(ap, Uname, f, p, f.kind, 1);
      p := Get(ap, Aname, f, p, f.kind, 2);
    } else if f.kind == Tclone {
      p := Get(ap, Fid, f, p, f.kind, 0);
      p := Get(ap, Newfid, f, p, f.kind, 1);
    } else if f.kind == Twalk {
      p := Get(ap, Fid, f, p, f.kind, 0);
      p := Get(ap, Name, f, p, f.kind, 1);
    } else if f.kind == Topen {
      p := Get(ap, Fid, f, p, f.kind, 0);
      p := Get(ap, Mode, f, p, f.kind, 1);
    } else if f.kind == Tcreate {
      p := Get(ap, Fid, f, p, f.kind, 0);
      p := Get(ap, Name, f, p, f.kind, 1);
      p := Get(ap, Perm, f, p, f.kind, 2);
      p := Get(ap, Mode, f, p, f.kind, 3);
    } else if f.kind == Tread {
      p := Get(ap, Fid, f, p, f.kind, 0);
      p := Get(ap, Offset, f, p, f.kind, 1);
      p := Get(ap, Count, f, p, f.kind, 2);
    } else if f.kind == Twstat {
      p := Get(ap, Fid, f, p, f.kind, 0);
      p := Get(ap, Stat, f, p, f.kind, 1);
    } else {
      p := Get(ap, Fid, f, p, f.kind, 0);
    }
  }

  /** The fields of the replies without data. */
  method GetReply(ap: array<Byte>, f: Fcall) returns (p: nat)
    requires f.Valid() && Known(f.kind) && (f.kind % 2 == 1 || f.kind == Tnop) && f.kind != Rread && ap.Length >= MAXMSG
    modifies f`num, f`str
    ensures f.Valid() && p == Header(f.kind) && Fields(ap[..], f.kind, |Slots(f.kind)|, f.num, f.str)
  {
    hide Fields, Width, At;
    p := 3;
    NoFields(ap[..], f.kind, f.num, f.str);
    if f.kind == Tnop || f.kind == Rnop || f.kind == Rflush {
    } else if f.kind == Rerror {
      p := Get(ap, Ename, f, p, f.kind, 0);
    } else if f.kind == Rattach || f.kind == Rwalk || f.kind == Ropen || f.kind == Rcreate {
      p := Get(ap, Fid, f, p, f.kind, 0);
      p := Get(ap, QPath, f, p, f.kind, 1);
      p := Get(ap, QVers, f, p, f.kind, 2);
    } else if f.kind == Rwrite {
      p := Get(ap, Fid, f, p, f.kind, 0);
      p := Get(ap, Count, f, p, f.kind, 1);
    } else if f.kind == Rstat {
      p := Get(ap, Fid, f, p, f.kind, 0);
      p := Get(ap, Stat, f, p, f.kind, 1);
    } else {
      p := Get(ap, Fid, f, p, f.kind, 0);
    }
  }

  /** The branches of Twrite and Rread up to their counts. */
  method GetToCount(ap: array<Byte>, f: Fcall) returns (p: nat)
    requires f.Valid() && HasData(f.kind) && ap.Length >= MAXMSG
    modifies f`num, f`str
    ensures f.Valid() && p == At(f.kind, |Slots(f.kind)| - 1) &&
        Fields(ap[..], f.kind, |Slots(f.kind)| - 1, f.num, f.str)
  {
    hide Fields, Width, LE, At;
    p := 3;
    NoFields(ap[..], f.kind, f.num, f.str);
    if f.kind == Twrite {
      p := Get(ap, Fid, f, p, f.kind, 0);
      p := Get(ap, Offset, f, p, f.kind, 1);
      p := Get(ap, Count, f, p, f.kind, 2);
    } else {
      p := Get(ap, Fid, f, p, f.kind, 0);
      p := Get(ap, Count, f, p, f.kind, 1);
    }
  }

  /** The rest of these branches: zero when the data is not all there yet. */
  method GetCounted(ap: array<Byte>, f: Fcall, n: nat) returns (r: int)
    requires f.Valid() && HasData(f.kind) && ap.Length >= MAXMSG && n <= ap.Length
    modifies f`num, f`str, f`data
    ensures f.Valid() && CountAt(f.kind) + 2 <= ap.Length
    ensures r == if n < MsgLen(f.kind) + LE(ap[..], CountAt(f.kind), 2) then 0 else Size(f.kind, LE(ap[..], CountAt(f.kind), 2))
    ensures r > 0 ==> Fields(ap[..], f.kind, |Slots(f.kind)|, f.num, f.str) && f.num[Count] == |f.data|
    ensures r > 0 ==> r <= n && f.data == ap[Header(f.kind)..r]
  {
    hide Fields, Width, LE, At;
    var p := GetToCount(ap, f);
    HeaderIs(f.kind);
    CountIs(ap[..], f.kind, |Slots(f.kind)| - 1, f.num, f.str);
    if n < MsgLen(f.kind) + f.num[Count] {
      return 0;
    }
    p := Get(ap, Pad, f, p, f.kind, |Slots(f.kind)| - 1);
    CountIs(ap[..], f.kind, |Slots(f.kind)|, f.num, f.str);
    f.data := ap[p..p + f.num[Count]];
    r := p + f.num[Count];
  }

  lemma CountIs(s: seq<Byte>, kind: int, k: nat, num: map<Slot, int>, str: map<Slot, seq<Byte>>)
    requires HasData(kind) && |Slots(kind)| - 1 <= k <= |Slots(kind)| && Fields(s, kind, k, num, str)
    ensures CountAt(kind) + 2 <= |s| && Count in num && num[Count] == LE(s, CountAt(kind), 2)
  {
    hide LE;
    var i := |Slots(kind)| - 2;
    assert Slots(kind)[i] == Count;
    assert One(s, At(kind, i), Slots(kind)[i], num, str);
    assert At(kind, 1) == 5;
    if kind == Twrite { assert At(kind, 2) == 13; }
  }

  /** What convM2S answers to the first n bytes: a length, zero for not yet, minus one for never. */
  function Result(s: seq<Byte>, n: nat): int
    requires |s| >= MAXMSG
  {
    if n < 3 || n < MsgLen(s[0]) then 0
    else if !Known(s[0]) then -1
    else if HasData(s[0]) then
      var count := LE(s, CountAt(s[0]), 2);
      if n < MsgLen(s[0]) + count then 0 else Size(s[0], count)
    else Header(s[0])
  }

  /** The structure holds the message of r bytes at the front of the buffer. */
  ghost predicate Decoded(s: seq<Byte>, f: Fcall, r: int)
    reads f
  {
    && Carries(s, f.kind, f.tag, f.num, f.str, if HasData(f.kind) then f.data else [])
    && r == Size(f.kind, |f.data|)
    && (HasData(f.kind) ==> Count in f.num && f.num[Count] == |f.data|)
  }

  /** convM2S on the first n bytes of a buffer; when a prefix is too short it may look past them. */
  method ConvM2S(ap: array<Byte>, f: Fcall, n: nat) returns (r: int)
    requires f.Valid() && ap.Length >= MAXMSG && n <= ap.Length
    modifies f
    ensures f.Valid() && r == Result(ap[..], n)
    ensures r > 0 ==> Decoded(ap[..], f, r)
  {
    hide Fields, Width, At, LE, Slots;
    if n < 3 {
      return 0;
    }
    f.kind := ap[0];
    f.tag := GetNumber(ap, 1, 2);
    if n < MsgLen(f.kind) {
      return 0;
    }
    if !Known(f.kind) {
      return -1;
    }
    HeaderIs(f.kind);
    if HasData(f.kind) {
      r := GetCounted(ap, f, n);
    } else if f.kind % 2 == 0 && f.kind != Tnop {
      r := GetRequest(ap, f);
    } else {
      r := GetReply(ap, f);
    }
  }

  // --- what a message is, as bytes ---

  predicate Attach(kind: int) {
    kind == Tattach || kind == Rattach
  }

  /** The bytes of exactly one message. */
  ghost predicate Frame(b: seq<Byte>) {
    && |b| >= 3 && Known(b[0]) && |b| >= Header(b[0])
    && |b| == Size(b[0], FrameCount(b))
  }

  ghost function FrameCount(b: seq<Byte>): nat
    requires |b| >= 3 && Known(b[0]) && |b| >= Header(b[0])
  {
    HeaderIs(b[0]);
    if HasData(b[0]) then LE(b, CountAt(b[0]), 2) else 0
  }

  /** What convS2M writes is one message, unless the count was too large for its two bytes. */
  lemma EncodedIsFrame(b: seq<Byte>, kind: Byte, tag: int, num: map<Slot, int>, str: map<Slot, seq<Byte>>,
      data: seq<Byte>)
    requires Known(kind) && Carries(b, kind, tag, Clipped(num), str, data) && |b| == Size(kind, |data|)
    requires HasData(kind) ==> Count in num && num[Count] == |data|
    ensures Frame(b) <==> (HasData(kind) ==> |data| < 65536)
  {
    hide LE, Slots, At;
    HeaderIs(kind);
    if HasData(kind) {
      CountIs(b, kind, |Slots(kind)|, Clipped(num), str);
      Ranges();
      FitsUnclipped(Count, num[Count]);
    }
  }

  /** convM2S on a whole message gives its length, whatever follows it. */
  lemma WholeMessage(s: seq<Byte>, n: nat, b: seq<Byte>)
    requires |s| >= MAXMSG && Frame(b) && |b| <= n && |b| <= |s| && s[..|b|] == b
    ensures Result(s, n) == |b|
  {
    hide LE, At, Slots;
    HeaderIs(b[0]);
    assert s[0] == s[..|b|][0];
    if HasData(b[0]) {
      var at := CountAt(b[0]);
      SliceOfTake(s, |b|, at, at + 2);
      SameLE(s, b, at, 2);
    }
  }

  /**
   * convM2S on less than a message says not yet, except that three bytes of an attach
   * message are taken for all of it.
   */
  lemma PartMessage(s: seq<Byte>, n: nat, b: seq<Byte>)
    requires |s| >= MAXMSG && Frame(b) && n < |b| && n <= |s| && s[..n] == b[..n]
    ensures Result(s, n) == if n >= 3 && Attach(b[0]) then |b| else 0
  {
    hide LE, At, Slots;
    HeaderIs(b[0]);
    if n >= 3 {
      assert s[0] == s[..n][0] && b[0] == b[..n][0];
      if HasData(b[0]) && n >= MsgLen(b[0]) {
        var at := CountAt(b[0]);
        SliceOfTake(s, n, at, at + 2);
        SliceOfTake(b, n, at, at + 2);
        SameLE(s, b, at, 2);
      }
    }
  }

  /** convM2S after convS2M: every field comes back clipped to its digits, and whole exactly when it fits them. */
  lemma RoundTrip(b: seq<Byte>, s: seq<Byte>, kind: Byte, tag: int, num: map<Slot, int>, str: map<Slot, seq<Byte>>,
      data: seq<Byte>,
                  tag': int, num': map<Slot, int>, str': map<Slot, seq<Byte>>, data': seq<Byte>, i: nat)
    requires Known(kind) && Carries(b, kind, tag % 65536, Clipped(num), str, data) && b <= s
    requires Carries(s, kind, tag', num', str', data') && i < |Slots(kind)|
    requires HasData(kind) ==> |data'| == |data|
    ensures tag' == tag % 65536 && (HasData(kind) ==> data' == data)
    ensures Numeric(Slots(kind)[i]) ==>
        Slots(kind)[i] in num && num'[Slots(kind)[i]] == Clip(Slots(kind)[i], num[Slots(kind)[i]])
    ensures Numeric(Slots(kind)[i]) ==>
        (num'[Slots(kind)[i]] == num[Slots(kind)[i]] <==> Fits(Slots(kind)[i], num[Slots(kind)[i]]))
    ensures Text(Slots(kind)[i]) ==> str'[Slots(kind)[i]] == str[Slots(kind)[i]]
  {
    hide LE, Slots, At, Clip, Fits;
    var x := Slots(kind)[i];
    Longer(b, s, kind, tag % 65536, Clipped(num), str, data);
    CarriedOnce(s, kind, tag % 65536, Clipped(num), str, data, tag', num', str', data', i);
    assert One(s, At(kind, i), x, Clipped(num), str);
    if Numeric(x) { FitsUnclipped(x, num[x]); }
  }

  /** Bytes after a message do not disturb it. */
  lemma Longer(b: seq<Byte>, s: seq<Byte>, kind: Byte, tag: int, num: map<Slot, int>, str: map<Slot, seq<Byte>>,
      data: seq<Byte>)
    requires Carries(b, kind, tag, num, str, data) && b <= s && Known(kind)
    ensures Carries(s, kind, tag, num, str, data)
  {
    hide LE, Slots, At, Fields;
    var h := Header(kind);
    HeaderIs(kind);
    assert b == s[..|b|];
    assert s[..h] == b[..h];
    SliceOfTake(s, |b|, 1, 3);
    SameLE(b, s, 1, 2);
    SameFields(b, s, kind, |Slots(kind)|, num, str);
    if HasData(kind) { SliceOfTake(s, |b|, h, h + |data|); }
  }
}
