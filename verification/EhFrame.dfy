/** The exception frame section: records are laid out one behind the other, each frame description
    pointing back at its common information entry, in a form the linker's own reader takes apart again. */
module EhFrame {
  import opened Wrappers
  import opened Words
  import opened Buffers

  // ---- reading --------------------------------------------------------------------------------

  datatype Extent = Extent(offset: nat, size: nat)

  /** The size of the record at off, which starts with the number of bytes behind its first word. */
  function RecordSize(data: seq<byte>, off: nat): (r: Option<nat>)
    requires off <= |data|
    ensures r.Some? ==> 4 <= r.value <= |data| - off
  {
    if |data| - off < 4 then None
    else if WordAt(data, off) == 0xFFFF_FFFF || WordAt(data, off) + 4 > |data| - off then None
    else Some(WordAt(data, off) + 4)
  }

  function Prefixed(xs: seq<Extent>, rest: Option<seq<Extent>>): Option<seq<Extent>> {
    if rest.None? then None else Some(xs + rest.value)
  }

  lemma PrefixedTwice(xs: seq<Extent>, x: Extent, rest: Option<seq<Extent>>)
    ensures Prefixed(xs, Prefixed([x], rest)) == Prefixed(xs + [x], rest)
  {
    assert rest.Some? ==> xs + ([x] + rest.value) == xs + [x] + rest.value;
  }

  /** The records from off on; an empty record ends the section early. */
  function Records(data: seq<byte>, off: nat): Option<seq<Extent>>
    requires off <= |data|
    decreases |data| - off
  {
    if off == |data| then Some([]) else
      var size := RecordSize(data, off);
      if size.None? then None
      else if size.value == 4 then Some([Extent(off, 4)])
      else
        Prefixed([Extent(off, size.value)], Records(data, off + size.value))
  }

  method Split(data: seq<byte>) returns (r: Option<seq<Extent>>)
    ensures r == Records(data, 0)
  {
    var pieces: seq<Extent>, off: nat := [], 0;
    assert forall xs: seq<Extent> :: [] + xs == xs;
    while off != |data|
      invariant off <= |data|
      invariant Records(data, 0) == Prefixed(pieces, Records(data, off))
      decreases |data| - off
    {
      var size := RecordSize(data, off);
      if size.None? {
        return None;
      }
      if size.value != 4 {
        PrefixedTwice(pieces, Extent(off, size.value), Records(data, off + size.value));
      }
      pieces := pieces + [Extent(off, size.value)];
      if size.value == 4 {
        return Some(pieces);
      }
      off := off + size.value;
    }
    assert pieces + [] == pieces;
    return Some(pieces);
  }

  function Shift(xs: seq<Extent>, base: nat): (r: seq<Extent>)
    ensures |r| == |xs|
    ensures forall i | 0 <= i < |xs| :: r[i] == Extent(xs[i].offset + base, xs[i].size)
  {
    seq(|xs|, i requires 0 <= i < |xs| => Extent(xs[i].offset + base, xs[i].size))
  }

  ghost predicate NoEnd(xs: seq<Extent>) {
    forall x | x in xs :: x.size != 4
  }

  lemma SizeAppended(a: seq<byte>, b: seq<byte>, off: nat)
    requires off < |a| && RecordSize(a, off).Some?
    ensures RecordSize(a + b, off) == RecordSize(a, off)
  {
    assert (a + b)[off..off + 4] == a[off..off + 4];
  }

  lemma SizeBehind(a: seq<byte>, b: seq<byte>, off: nat)
    requires off <= |b|
    ensures RecordSize(a + b, |a| + off) == RecordSize(b, off)
  {
    if |b| - off >= 4 {
      assert (a + b)[|a| + off..|a| + off + 4] == b[off..off + 4];
    }
  }

  lemma {:induction false} RecordsBehind(a: seq<byte>, b: seq<byte>, off: nat)
    requires off <= |b| && Records(b, off).Some?
    ensures Records(a + b, |a| + off) == Some(Shift(Records(b, off).value, |a|))
    decreases |b| - off
  {
    if off < |b| {
      SizeBehind(a, b, off);
      var size := RecordSize(b, off).value;
      if size != 4 {
        RecordsBehind(a, b, off + size);
        ShiftPrefixed(Extent(off, size), Records(b, off + size).value, |a|);
      } else {
        assert Shift([Extent(off, 4)], |a|) == [Extent(off + |a|, 4)];
      }
    }
  }

  lemma ShiftPrefixed(x: Extent, rest: seq<Extent>, base: nat)
    ensures Shift([x] + rest, base) == [Extent(x.offset + base, x.size)] + Shift(rest, base)
  {
  }

  lemma Reassociate(x: Extent, xs: seq<Extent>, ys: seq<Extent>)
    ensures [x] + xs + ys == [x] + (xs + ys)
  {
  }

  lemma HeadAndRest(a: seq<byte>, off: nat)
    requires off < |a| && Records(a, off).Some? && NoEnd(Records(a, off).value)
    ensures
      var size := RecordSize(a, off);
      && size.Some? && size.value != 4
      && Records(a, off + size.value).Some? && NoEnd(Records(a, off + size.value).value)
      && Records(a, off).value == [Extent(off, size.value)] + Records(a, off + size.value).value
  {
    assert Records(a, off).value[0] in Records(a, off).value;
    var size := RecordSize(a, off).value;
    var rest := Records(a, off + size).value;
    forall x | x in rest ensures x.size != 4 {
      assert x in Records(a, off).value;
    }
  }

  /** Records of one stretch behind another are read one list behind the other. */
  lemma {:induction false} RecordsAppend(a: seq<byte>, b: seq<byte>, off: nat)
    requires off <= |a| && Records(a, off).Some? && NoEnd(Records(a, off).value) && Records(b, 0).Some?
    ensures Records(a + b, off) == Some(Records(a, off).value + Shift(Records(b, 0).value, |a|))
    decreases |a| - off
  {
    if off == |a| {
      RecordsBehind(a, b, 0);
      assert [] + Shift(Records(b, 0).value, |a|) == Shift(Records(b, 0).value, |a|);
    } else {
      SizeAppended(a, b, off);
      var size := RecordSize(a, off).value;
      HeadAndRest(a, off);
      RecordsAppend(a, b, off + size);
      Reassociate(Extent(off, size), Records(a, off + size).value, Shift(Records(b, 0).value, |a|));
    }
  }

  /** An empty record behind whole ones ends the section, whatever comes behind it. */
  lemma EndMarkerReads(a: seq<byte>, b: seq<byte>, xs: seq<Extent>)
    requires Records(a, 0) == Some(xs) && NoEnd(xs)
    ensures Records(a + [0, 0, 0, 0] + b, 0) == Some(xs + [Extent(|a|, 4)])
  {
    var tail := [0, 0, 0, 0] + b;
    assert a + [0, 0, 0, 0] + b == a + tail;
    assert tail[0..4] == [0, 0, 0, 0];
    FourBytes(0, 0, 0, 0);
    assert Records(tail, 0) == Some([Extent(0, 4)]);
    RecordsAppend(a, tail, 0);
    assert Shift([Extent(0, 4)], |a|) == [Extent(|a|, 4)];
  }

  /** Stepping from length word to length word over records that are not empty comes to p. */
  ghost predicate WalksTo(data: seq<byte>, from: nat, p: nat)
    requires from <= |data|
    decreases |data| - from
  {
    || p == from
    || (from + 4 <= |data| && WordAt(data, from) > 0 && WordAt(data, from) != 0xFFFF_FFFF &&
        from + 4 + WordAt(data, from) <= |data| && WalksTo(data, from + 4 + WordAt(data, from), p))
  }

  /** No record can be at p: too few bytes for a length, an extended one, or one beyond the end. */
  predicate Stuck(data: seq<byte>, p: nat) {
    p < |data| && (p + 4 > |data| || WordAt(data, p) == 0xFFFF_FFFF || p + 4 + WordAt(data, p) > |data|)
  }

  /** Reading fails exactly if the walk comes to where no record can be. */
  lemma {:induction false} FailsIff(data: seq<byte>, off: nat)
    requires off <= |data|
    ensures Records(data, off).None? <==> exists p: nat :: WalksTo(data, off, p) && Stuck(data, p)
    decreases |data| - off
  {
    if off < |data| && RecordSize(data, off).Some? && WordAt(data, off) > 0 {
      var next := off + 4 + WordAt(data, off);
      FailsIff(data, next);
      forall p: nat ensures WalksTo(data, off, p) && Stuck(data, p) <==> WalksTo(data, next, p) && Stuck(data, p) {
      }
    } else if off < |data| && RecordSize(data, off).None? {
      assert WalksTo(data, off, off) && Stuck(data, off);
    } else {
      assert forall p: nat :: WalksTo(data, off, p) ==> p == off;
    }
  }

  /** Each record is as long as its length word says, not counting that word; the last one ends the data or is
      empty, and no other is. */
  lemma {:induction false} RecordLengths(data: seq<byte>, off: nat, i: nat)
    requires off <= |data| && Records(data, off).Some? && i < |Records(data, off).value|
    ensures var xs := Records(data, off).value;
      && xs[i].offset + 4 <= |data| && xs[i].size == 4 + WordAt(data, xs[i].offset)
      && (i + 1 == |xs| ==> xs[i].size == 4 || xs[i].offset + xs[i].size == |data|)
      && (i + 1 < |xs| ==> xs[i].size != 4)
    decreases |data| - off
  {
    var size := RecordSize(data, off).value;
    if size != 4 {
      var rest := Records(data, off + size).value;
      assert Records(data, off).value == [Extent(off, size)] + rest;
      if i > 0 {
        RecordLengths(data, off + size, i - 1);
      }
    }
  }

  // ---- pieces ---------------------------------------------------------------------------------

  const UNASSIGNED := -1

  class EhFramePiece {
    const offset: nat
    const size: nat
    var outputOffset: int

    constructor (offset: nat, size: nat)
      ensures this.offset == offset && this.size == size && outputOffset == UNASSIGNED
    {
      this.offset, this.size, outputOffset := offset, size, UNASSIGNED;
    }
  }

  /** A common information entry with the frame descriptions that are to be kept under it. */
  datatype EhFrameCIE = EhFrameCIE(cie: EhFramePiece, fdes: seq<EhFramePiece>)

  /** The piece is a whole record of the region, with room for both words emission rewrites. */
  ghost predicate InRegion(region: seq<byte>, p: EhFramePiece) {
    8 <= p.size < 0x1_0000_0000 && p.offset + p.size <= |region|
  }

  ghost predicate AllInRegion(region: seq<byte>, c: EhFrameCIE) {
    InRegion(region, c.cie) && forall p | p in c.fdes :: InRegion(region, p)
  }

  /** The bytes of a CIE and its first k frame descriptions. */
  function GroupSize(c: EhFrameCIE, k: nat): nat
    requires k <= |c.fdes|
  {
    if k == 0 then c.cie.size else GroupSize(c, k - 1) + c.fdes[k - 1].size
  }

  lemma {:induction false} GroupSizeMonotone(c: EhFrameCIE, j: nat, k: nat)
    requires j <= k <= |c.fdes|
    ensures GroupSize(c, j) <= GroupSize(c, k)
    decreases k
  {
    if j < k {
      GroupSizeMonotone(c, j, k - 1);
    }
  }

  /** A CIE without frame descriptions is left out. */
  function CieSize(c: EhFrameCIE): nat {
    if c.fdes == [] then 0 else GroupSize(c, |c.fdes|)
  }

  function Start(cies: seq<EhFrameCIE>, k: nat): nat
    requires k <= |cies|
  {
    if k == 0 then 0 else Start(cies, k - 1) + CieSize(cies[k - 1])
  }

  lemma {:induction false} StartMonotone(cies: seq<EhFrameCIE>, j: nat, k: nat)
    requires j <= k <= |cies|
    ensures Start(cies, j) <= Start(cies, k)
    decreases k
  {
    if j < k {
      StartMonotone(cies, j, k - 1);
    }
  }

  // ---- what is emitted ------------------------------------------------------------------------

  /** A record with its length word written: for a CIE, all there is to do. */
  function CieImage(region: seq<byte>, p: EhFramePiece): (r: seq<byte>)
    requires InRegion(region, p)
    ensures |r| == p.size
  {
    LittleEndian(p.size - 4, 4) + region[p.offset + 4..p.offset + p.size]
  }

  /** A frame description as emitted: its length, the distance back to its CIE, then the input's bytes. */
  function FdeImage(region: seq<byte>, p: EhFramePiece, back: nat): (r: seq<byte>)
    requires InRegion(region, p)
    ensures |r| == p.size
  {
    LittleEndian(p.size - 4, 4) + LittleEndian(back, 4) + region[p.offset + 8..p.offset + p.size]
  }

  /** The distance from behind a description's length word back to its CIE, in 32 bits. */
  function Back(fdeOff: nat, cieOff: nat): word { (fdeOff + 4 - cieOff) % 0x1_0000_0000 }

  ghost predicate FdePart(parts: seq<seq<byte>>, region: seq<byte>, c: EhFrameCIE, i: nat)
    requires i < |c.fdes| && i + 1 < |parts|
  {
    InRegion(region, c.fdes[i]) && parts[i + 1] == FdeImage(region, c.fdes[i], Back(GroupSize(c, i), 0))
  }

  /** The CIE, then its frame descriptions, each with the distance back to the CIE. */
  ghost predicate GroupParts(parts: seq<seq<byte>>, region: seq<byte>, c: EhFrameCIE) {
    && |parts| == |c.fdes| + 1 && InRegion(region, c.cie) && parts[0] == CieImage(region, c.cie)
    && forall i {:trigger FdePart(parts, region, c, i)} | 0 <= i < |c.fdes| :: FdePart(parts, region, c, i)
  }

  ghost predicate GroupImage(image: seq<byte>, region: seq<byte>, c: EhFrameCIE) {
    if c.fdes == [] then image == []
    else exists parts {:trigger GroupParts(parts, region, c)} ::
      GroupParts(parts, region, c) && image == Flat(parts, |parts|)
  }

  ghost predicate CiePart(parts: seq<seq<byte>>, region: seq<byte>, cies: seq<EhFrameCIE>, k: nat)
    requires k < |cies| == |parts|
  {
    |parts[k]| == CieSize(cies[k]) && GroupImage(parts[k], region, cies[k])
  }

  ghost predicate SectionParts(parts: seq<seq<byte>>, region: seq<byte>, cies: seq<EhFrameCIE>) {
    && |parts| == |cies|
    && forall k {:trigger CiePart(parts, region, cies, k)} | 0 <= k < |cies| :: CiePart(parts, region, cies, k)
  }

  /** The section's bytes: every CIE that has frame descriptions, each followed by those. */
  ghost predicate SectionImage(image: seq<byte>, region: seq<byte>, cies: seq<EhFrameCIE>) {
    exists parts {:trigger SectionParts(parts, region, cies)} ::
      SectionParts(parts, region, cies) && image == Flat(parts, |parts|)
  }

  lemma {:induction false} SectionLength(parts: seq<seq<byte>>, region: seq<byte>, cies: seq<EhFrameCIE>, k: nat)
    requires SectionParts(parts, region, cies) && k <= |cies|
    ensures |Flat(parts, k)| == Start(cies, k)
  {
    if k > 0 {
      SectionLength(parts, region, cies, k - 1);
      assert CiePart(parts, region, cies, k - 1);
    }
  }

  lemma {:induction false} GroupLength(parts: seq<seq<byte>>, region: seq<byte>, c: EhFrameCIE, k: nat)
    requires GroupParts(parts, region, c) && k <= |c.fdes|
    ensures |Flat(parts, k + 1)| == GroupSize(c, k)
  {
    if k > 0 {
      GroupLength(parts, region, c, k - 1);
      assert FdePart(parts, region, c, k - 1);
    } else {
      assert Flat(parts, 0) == [];
    }
  }

  lemma {:induction false} GroupPartsExist(region: seq<byte>, c: EhFrameCIE, k: nat) returns (parts: seq<seq<byte>>)
    requires AllInRegion(region, c) && k <= |c.fdes|
    ensures |parts| == k + 1 && parts[0] == CieImage(region, c.cie)
    ensures forall i {:trigger FdePart(parts, region, c, i)} | 0 <= i < k :: FdePart(parts, region, c, i)
  {
    if k == 0 {
      parts := [CieImage(region, c.cie)];
    } else {
      var before := GroupPartsExist(region, c, k - 1);
      var image := FdeImage(region, c.fdes[k - 1], Back(GroupSize(c, k - 1), 0));
      parts := before + [image];
      forall i | 0 <= i < k ensures FdePart(parts, region, c, i) {
        assert i < k - 1 ==> FdePart(before, region, c, i);
      }
    }
  }

  // ---- layout ---------------------------------------------------------------------------------

  ghost predicate FdeLaidOut(c: EhFrameCIE, at: nat, i: nat)
    requires i < |c.fdes|
    reads c.fdes[i]
  {
    c.fdes[i].outputOffset == at + GroupSize(c, i)
  }

  ghost predicate GroupLaidOut(c: EhFrameCIE, at: nat)
    reads PiecesOf(c)
  {
    && c.cie.outputOffset == at
    && forall i {:trigger FdeLaidOut(c, at, i)} | 0 <= i < |c.fdes| :: FdeLaidOut(c, at, i)
  }

  ghost predicate PiecesDistinct(c: EhFrameCIE) {
    c.cie !in c.fdes && NoRepeats(c.fdes)
  }

  function PiecesOf(c: EhFrameCIE): set<EhFramePiece> {
    {c.cie} + set p | p in c.fdes
  }

  ghost predicate Apart(c: EhFrameCIE, d: EhFrameCIE) {
    PiecesOf(c) !! PiecesOf(d)
  }

  method SetGroupOffset(c: EhFrameCIE, at: nat)
    requires PiecesDistinct(c)
    modifies PiecesOf(c)`outputOffset
    ensures c.fdes != [] ==> GroupLaidOut(c, at)
    ensures c.fdes == [] ==> c.cie.outputOffset == old(c.cie.outputOffset)
  {
    if c.fdes == [] {
      return;
    }
    var off := at + c.cie.size;
    for i := 0 to |c.fdes|
      invariant off == at + GroupSize(c, i)
      invariant forall j {:trigger FdeLaidOut(c, at, j)} | 0 <= j < i :: FdeLaidOut(c, at, j)
    {
      c.fdes[i].outputOffset := off;
      off := off + c.fdes[i].size;
    }
    c.cie.outputOffset := at;
  }

  // ---- emission -------------------------------------------------------------------------------

  /** Writes the record and its length word; the word behind it is still the input's. */
  method EmitRecord(p: EhFramePiece, at: nat, region: seq<byte>, out: array<byte>)
    requires InRegion(region, p) && at + p.size <= out.Length
    modifies out
    ensures out[..] == Overwrite(old(out[..]), at, CieImage(region, p))
  {
    var bytes := region[p.offset..p.offset + p.size];
    Write(out, at, bytes);
    Write(out, at, LittleEndian(p.size - 4, 4));
    OverwriteInside(old(out[..]), at, bytes, 0, LittleEndian(p.size - 4, 4));
    assert Overwrite(bytes, 0, LittleEndian(p.size - 4, 4)) == CieImage(region, p);
  }

  method EmitFde(p: EhFramePiece, region: seq<byte>, out: array<byte>)
    requires InRegion(region, p) && 0 <= p.outputOffset && p.outputOffset + p.size <= out.Length
    modifies out
    ensures out[..] == Overwrite(old(out[..]), p.outputOffset, CieImage(region, p))
  {
    EmitRecord(p, p.outputOffset, region, out);
  }

  /** One more frame description of the CIE emitted at cieOff. */
  method EmitNext(p: EhFramePiece, cieOff: nat, region: seq<byte>, out: array<byte>)
    requires InRegion(region, p) && 0 <= p.outputOffset && p.outputOffset + p.size <= out.Length
    modifies out
    ensures out[..] == Overwrite(old(out[..]), p.outputOffset, FdeImage(region, p, Back(p.outputOffset, cieOff)))
  {
    EmitFde(p, region, out);
    var back := LittleEndian(Back(p.outputOffset, cieOff), 4);
    Write(out, p.outputOffset + 4, back);
    OverwriteInside(old(out[..]), p.outputOffset, CieImage(region, p), 4, back);
    assert Overwrite(CieImage(region, p), 4, back) == FdeImage(region, p, Back(p.outputOffset, cieOff));
  }

  /** Description i of a group laid out at at is written, leading back to cieOff. */
  ghost predicate FdeWritten(out: seq<byte>, region: seq<byte>, c: EhFrameCIE, at: nat, cieOff: nat, i: nat)
    requires i < |c.fdes|
  {
    && InRegion(region, c.fdes[i])
    && Holds(out, at + GroupSize(c, i), FdeImage(region, c.fdes[i], Back(at + GroupSize(c, i), cieOff)))
  }

  /** What the descriptions behind it leave of a CIE written at cieOff: its bytes before the first of them. */
  function CieLeft(region: seq<byte>, p: EhFramePiece, at: nat, cieOff: nat): (r: seq<byte>)
    requires InRegion(region, p) && at <= cieOff
  {
    if cieOff - at <= p.size then CieImage(region, p)[..p.size - (cieOff - at)] else []
  }

  /** The CIE and the first n descriptions of the group are written. */
  ghost predicate GroupWritten(out: seq<byte>, region: seq<byte>, c: EhFrameCIE, at: nat, cieOff: nat, n: nat)
    requires n <= |c.fdes|
  {
    && at <= cieOff && InRegion(region, c.cie) && Holds(out, cieOff, CieLeft(region, c.cie, at, cieOff))
    && forall i {:trigger FdeWritten(out, region, c, at, cieOff, i)} | 0 <= i < n ::
         FdeWritten(out, region, c, at, cieOff, i)
  }

  lemma GroupStays(was: seq<byte>, now: seq<byte>, region: seq<byte>, c: EhFrameCIE, at: nat, cieOff: nat, n: nat,
                   lo: nat, hi: nat)
    requires n <= |c.fdes| && GroupWritten(was, region, c, at, cieOff, n)
    requires SameOutside(was, now, lo, hi) && at + GroupSize(c, n) <= lo
    ensures GroupWritten(now, region, c, at, cieOff, n)
  {
    GroupSizeMonotone(c, 0, n);
    if CieLeft(region, c.cie, at, cieOff) != [] {
      HoldsApart(was, now, lo, hi, cieOff, CieLeft(region, c.cie, at, cieOff));
    }
    forall i | 0 <= i < n ensures FdeWritten(now, region, c, at, cieOff, i) {
      assert FdeWritten(was, region, c, at, cieOff, i);
      GroupSizeMonotone(c, i + 1, n);
      HoldsApart(was, now, lo, hi, at + GroupSize(c, i),
                 FdeImage(region, c.fdes[i], Back(at + GroupSize(c, i), cieOff)));
    }
  }

  method EmitInGroup(c: EhFrameCIE, i: nat, at: nat, cieOff: nat, region: seq<byte>, out: array<byte>)
    requires GroupLaidOut(c, at) && i < |c.fdes| && InRegion(region, c.fdes[i])
    requires at + GroupSize(c, i + 1) <= out.Length && GroupWritten(out[..], region, c, at, cieOff, i)
    modifies out
    ensures GroupWritten(out[..], region, c, at, cieOff, i + 1)
    ensures SameOutside(old(out[..]), out[..], at + GroupSize(c, i), at + GroupSize(c, i + 1))
  {
    ghost var was := out[..];
    assert FdeLaidOut(c, at, i);
    EmitNext(c.fdes[i], cieOff, region, out);
    GroupGrows(was, out[..], region, c, at, cieOff, i);
  }

  lemma GroupGrows(was: seq<byte>, now: seq<byte>, region: seq<byte>, c: EhFrameCIE, at: nat, cieOff: nat, i: nat)
    requires i < |c.fdes| && InRegion(region, c.fdes[i]) && GroupWritten(was, region, c, at, cieOff, i)
    requires at + GroupSize(c, i + 1) <= |was|
    requires
      var off := at + GroupSize(c, i);
      now == Overwrite(was, off, FdeImage(region, c.fdes[i], Back(off, cieOff)))
    ensures GroupWritten(now, region, c, at, cieOff, i + 1)
    ensures SameOutside(was, now, at + GroupSize(c, i), at + GroupSize(c, i + 1))
  {
    var off, end := at + GroupSize(c, i), at + GroupSize(c, i + 1);
    OverwriteHolds(was, off, FdeImage(region, c.fdes[i], Back(off, cieOff)));
    GroupStays(was, now, region, c, at, cieOff, i, off, end);
    assert FdeWritten(now, region, c, at, cieOff, i);
  }

  lemma GroupStarts(was: seq<byte>, region: seq<byte>, c: EhFrameCIE, at: nat, cieOff: nat)
    requires InRegion(region, c.cie) && at <= cieOff && cieOff + c.cie.size <= |was|
    ensures var now := Overwrite(was, cieOff, CieImage(region, c.cie));
      GroupWritten(now, region, c, at, cieOff, 0) && SameOutside(was, now, cieOff, cieOff + c.cie.size)
  {
    OverwriteHolds(was, cieOff, CieImage(region, c.cie));
    HoldsPrefix(Overwrite(was, cieOff, CieImage(region, c.cie)), cieOff, CieImage(region, c.cie),
                |CieLeft(region, c.cie, at, cieOff)|);
  }

  /** Emits the CIE at cieOff and then each of its frame descriptions where it was laid out. */
  method EmitGroup(c: EhFrameCIE, at: nat, cieOff: nat, region: seq<byte>, out: array<byte>)
    requires GroupLaidOut(c, at) && AllInRegion(region, c) && at <= cieOff &&
      cieOff + GroupSize(c, |c.fdes|) <= out.Length
    modifies out
    ensures GroupWritten(out[..], region, c, at, cieOff, |c.fdes|)
    ensures SameOutside(old(out[..]), out[..], at, cieOff + GroupSize(c, |c.fdes|))
  {
    ghost var was := out[..];
    GroupSizeMonotone(c, 0, |c.fdes|);
    EmitRecord(c.cie, cieOff, region, out);
    GroupStarts(was, region, c, at, cieOff);
    for i := 0 to |c.fdes|
      invariant GroupWritten(out[..], region, c, at, cieOff, i)
      invariant SameOutside(was, out[..], at, cieOff + GroupSize(c, |c.fdes|))
    {
      ghost var before := out[..];
      GroupSizeMonotone(c, i + 1, |c.fdes|);
      GroupSizeMonotone(c, 0, i);
      EmitInGroup(c, i, at, cieOff, region, out);
      SameOutsideWider(was, before, out[..], at + GroupSize(c, i), at + GroupSize(c, i + 1), at,
                       cieOff + GroupSize(c, |c.fdes|));
    }
  }

  lemma CieWhole(region: seq<byte>, p: EhFramePiece, at: nat)
    requires InRegion(region, p)
    ensures CieLeft(region, p, at, at) == CieImage(region, p)
  {
  }

  lemma SameBack(at: nat, fde: nat)
    ensures Back(at + fde, at) == Back(fde, 0)
  {
  }

  lemma FdeAtPart(out: seq<byte>, region: seq<byte>, c: EhFrameCIE, at: nat, parts: seq<seq<byte>>, i: nat)
    requires GroupWritten(out, region, c, at, at, |c.fdes|) && GroupParts(parts, region, c) && i < |c.fdes|
    ensures |parts[i + 1]| == c.fdes[i].size && Holds(out, at + GroupSize(c, i), parts[i + 1])
  {
    SameBack(at, GroupSize(c, i));
    assert FdePart(parts, region, c, i) && FdeWritten(out, region, c, at, at, i);
  }

  /** Records written one behind the other are the group's image. */
  lemma {:induction false} GroupFlat(out: seq<byte>, region: seq<byte>, c: EhFrameCIE, at: nat, parts: seq<seq<byte>>,
                                     k: nat)
    requires GroupWritten(out, region, c, at, at, |c.fdes|) && GroupParts(parts, region, c) && k <= |c.fdes|
    ensures |Flat(parts, k + 1)| == GroupSize(c, k) && Holds(out, at, Flat(parts, k + 1))
  {
    if k == 0 {
      assert Flat(parts, 0) == [] && Flat(parts, 1) == parts[0];
      CieWhole(region, c.cie, at);
    } else {
      GroupFlat(out, region, c, at, parts, k - 1);
      FdeAtPart(out, region, c, at, parts, k - 1);
      HoldsJoined(out, at, Flat(parts, k), parts[k]);
    }
  }

  class EhFrameFragment {
    const region: seq<byte>
    const cies: seq<EhFrameCIE>
    ghost const pieces: set<EhFramePiece>
    /** The unpadded offset, and the padding in front of the fragment. */
    var offset: nat
    var padding: nat

    constructor (region: seq<byte>, cies: seq<EhFrameCIE>)
      ensures this.region == region && this.cies == cies
      ensures pieces == set c, p | c in cies && p in PiecesOf(c) :: p
    {
      this.region, this.cies, offset, padding := region, cies, 0, 0;
      pieces := set c, p | c in cies && p in PiecesOf(c) :: p;
    }

    /** Every piece is a record of the region, and none is used twice. */
    ghost predicate Valid() {
      && (forall i {:trigger AllInRegion(region, cies[i])} | 0 <= i < |cies| :: AllInRegion(region, cies[i]))
      && (forall i {:trigger PiecesDistinct(cies[i])} | 0 <= i < |cies| :: PiecesDistinct(cies[i]))
      && (forall i {:trigger PiecesOf(cies[i])} | 0 <= i < |cies| :: PiecesOf(cies[i]) <= pieces)
      && (forall i, j {:trigger Apart(cies[i], cies[j])} | 0 <= i < |cies| && 0 <= j < |cies| && i != j ::
           Apart(cies[i], cies[j]))
    }

    /** A section without CIEs is copied as it is. */
    ghost function TotalSize(): nat {
      if cies == [] then |region| else Start(cies, |cies|)
    }

    method Size() returns (size: nat)
      ensures size == TotalSize()
    {
      if cies == [] {
        return |region|;
      }
      size := 0;
      for k := 0 to |cies|
        invariant size == Start(cies, k)
      {
        size := size + CieSize(cies[k]);
      }
    }

    ghost predicate LaidOut()
      requires Valid()
      reads this, pieces
    {
      forall k {:trigger CieLaidOut(k)} | 0 <= k < |cies| && cies[k].fdes != [] :: CieLaidOut(k)
    }

    ghost predicate CieLaidOut(k: nat)
      requires k < |cies| && Valid()
      reads this, pieces
    {
      GroupLaidOut(cies[k], offset + Start(cies, k))
    }

    method SetOneOffset(k: nat, off: nat)
      requires Valid() && k < |cies| && off == offset + Start(cies, k)
      modifies PiecesOf(cies[k])`outputOffset
      ensures cies[k].fdes != [] ==> CieLaidOut(k)
      ensures forall j {:trigger CieLaidOut(j)} | 0 <= j < |cies| && j != k && old(CieLaidOut(j)) :: CieLaidOut(j)
      ensures forall j | 0 <= j < |cies| && cies[j].fdes == [] ::
        cies[j].cie.outputOffset == old(cies[j].cie.outputOffset)
    {
      assert PiecesDistinct(cies[k]);
      SetGroupOffset(cies[k], off);
      forall j | 0 <= j < |cies| && j != k && old(CieLaidOut(j)) ensures CieLaidOut(j) {
        assert Apart(cies[j], cies[k]);
      }
      forall j | 0 <= j < |cies| && j != k && cies[j].fdes == []
        ensures cies[j].cie.outputOffset == old(cies[j].cie.outputOffset)
      {
        assert Apart(cies[j], cies[k]) && cies[j].cie in PiecesOf(cies[j]);
      }
    }

    /** Layout starts at the unpadded offset. */
    method SetOffset(o: nat, padding: nat)
      requires Valid()
      modifies this, pieces`outputOffset
      ensures offset == o && this.padding == padding && LaidOut()
      ensures forall k | 0 <= k < |cies| && cies[k].fdes == [] ::
        cies[k].cie.outputOffset == old(cies[k].cie.outputOffset)
    {
      offset, this.padding := o, padding;
      SetPieceOffsets();
    }

    method SetPieceOffsets()
      requires Valid()
      modifies pieces`outputOffset
      ensures LaidOut()
      ensures forall k | 0 <= k < |cies| && cies[k].fdes == [] ::
        cies[k].cie.outputOffset == old(cies[k].cie.outputOffset)
    {
      var off := offset;
      for k := 0 to |cies|
        invariant off == offset + Start(cies, k)
        invariant forall j {:trigger CieLaidOut(j)} | 0 <= j < k && cies[j].fdes != [] :: CieLaidOut(j)
        invariant forall j | 0 <= j < |cies| && cies[j].fdes == [] ::
          cies[j].cie.outputOffset == old(cies[j].cie.outputOffset)
      {
        SetOneOffset(k, off);
        off := off + CieSize(cies[k]);
      }
    }

    /** The first n CIEs that have descriptions are written behind the padding, their descriptions where they
        were laid out. */
    ghost predicate Written(out: seq<byte>, n: nat)
      requires n <= |cies|
      reads this
    {
      forall j {:trigger CieWritten(out, j)} | 0 <= j < n && cies[j].fdes != [] :: CieWritten(out, j)
    }

    /** Where emission writes CIE k. */
    ghost function EmittedAt(k: nat): nat
      requires k <= |cies|
      reads this
    {
      offset + padding + Start(cies, k)
    }

    ghost predicate CieWritten(out: seq<byte>, k: nat)
      requires k < |cies|
      reads this
    {
      GroupWritten(out, region, cies[k], offset + Start(cies, k), EmittedAt(k), |cies[k].fdes|)
    }

    lemma CieStays(was: seq<byte>, now: seq<byte>, j: nat, n: nat, hi: nat)
      requires j < n <= |cies| && CieWritten(was, j) && SameOutside(was, now, offset + Start(cies, n), hi)
      requires cies[j].fdes != []
      ensures CieWritten(now, j)
    {
      StartMonotone(cies, j + 1, n);
      GroupStays(was, now, region, cies[j], offset + Start(cies, j), EmittedAt(j), |cies[j].fdes|,
                 offset + Start(cies, n), hi);
    }

    lemma WrittenStays(was: seq<byte>, now: seq<byte>, n: nat, hi: nat)
      requires n <= |cies| && Written(was, n) && SameOutside(was, now, offset + Start(cies, n), hi)
      ensures Written(now, n)
    {
      forall j | 0 <= j < n && cies[j].fdes != [] ensures CieWritten(now, j) {
        assert CieWritten(was, j);
        CieStays(was, now, j, n, hi);
      }
    }

    method EmitCie(k: nat, off: nat, out: array<byte>)
      requires Valid() && LaidOut() && k < |cies| && Written(out[..], k)
      requires off == offset + padding + Start(cies, k) && off + CieSize(cies[k]) <= out.Length
      modifies out
      ensures Written(out[..], k + 1)
      ensures SameOutside(old(out[..]), out[..], offset + Start(cies, k), off + CieSize(cies[k]))
    {
      if cies[k].fdes != [] {
        ghost var was := out[..];
        assert CieLaidOut(k) && AllInRegion(region, cies[k]);
        EmitGroup(cies[k], off - padding, off, region, out);
        WrittenStays(was, out[..], k, off + CieSize(cies[k]));
        assert CieWritten(out[..], k);
      }
    }

    lemma PartsExist(k: nat) returns (parts: seq<seq<byte>>)
      requires Valid() && k <= |cies|
      ensures SectionParts(parts, region, cies[..k])
    {
      parts := [];
      if k > 0 {
        parts := PartsExist(k - 1);
        assert cies[..k] == cies[..k - 1] + [cies[k - 1]];
        var image := ImageExists(k - 1);
        var longer := parts + [image];
        forall j | 0 <= j < k ensures CiePart(longer, region, cies[..k], j) {
          if j < k - 1 {
            assert CiePart(parts, region, cies[..k - 1], j);
          }
        }
        parts := longer;
      }
    }

    lemma ImageExists(k: nat) returns (image: seq<byte>)
      requires Valid() && k < |cies|
      ensures |image| == CieSize(cies[k]) && GroupImage(image, region, cies[k])
    {
      image := [];
      if cies[k].fdes != [] {
        assert AllInRegion(region, cies[k]);
        var parts := GroupPartsExist(region, cies[k], |cies[k].fdes|);
        GroupLength(parts, region, cies[k], |cies[k].fdes|);
        image := Flat(parts, |parts|);
      }
    }

    method EmitSection(out: array<byte>)
      requires Valid() && LaidOut() && offset + padding + Start(cies, |cies|) <= out.Length
      modifies out
      ensures Written(out[..], |cies|)
      ensures SameOutside(old(out[..]), out[..], offset, offset + padding + Start(cies, |cies|))
    {
      ghost var was := out[..];
      var off := offset + padding;
      for k := 0 to |cies|
        invariant off == offset + padding + Start(cies, k) && Written(out[..], k)
        invariant SameOutside(was, out[..], offset, offset + padding + Start(cies, |cies|))
      {
        ghost var before := out[..];
        StartMonotone(cies, k + 1, |cies|);
        EmitCie(k, off, out);
        SameOutsideWider(was, before, out[..], offset + Start(cies, k), off + CieSize(cies[k]), offset,
                         offset + padding + Start(cies, |cies|));
        off := off + CieSize(cies[k]);
      }
    }

    /** Writes behind the padding, within the padded section, and nothing else. Without padding these are the
        section's bytes. */
    method Emit(out: array<byte>) returns (ghost image: seq<byte>)
      requires Valid() && LaidOut() && offset + padding + TotalSize() <= out.Length
      modifies out
      ensures cies == [] ==> image == region && out[..] == Overwrite(old(out[..]), offset + padding, image)
      ensures cies != [] ==> Written(out[..], |cies|)
      ensures SameOutside(old(out[..]), out[..], offset, offset + padding + TotalSize())
      ensures cies != [] && padding == 0 ==>
        SectionImage(image, region, cies) && |image| == TotalSize() && out[..] == Overwrite(old(out[..]), offset, image)
    {
      if cies == [] {
        Write(out, offset + padding, region);
        OverwriteHolds(old(out[..]), offset + padding, region);
        return region;
      }
      EmitSection(out);
      image := SectionWritten(old(out[..]), out[..]);
    }

    /** Without padding, what is written is the section's image. */
    lemma SectionWritten(was: seq<byte>, out: seq<byte>) returns (image: seq<byte>)
      requires Valid() && cies != [] && Written(out, |cies|) && offset <= |out|
      requires SameOutside(was, out, offset, offset + padding + Start(cies, |cies|))
      ensures padding == 0 ==>
        SectionImage(image, region, cies) && |image| == TotalSize() <= |was| - offset &&
          out == Overwrite(was, offset, image)
    {
      if padding != 0 {
        return [];
      }
      var parts := PartsExist(|cies|);
      assert cies[..|cies|] == cies;
      SectionLength(parts, region, cies, |cies|);
      SectionFlat(out, parts, |cies|);
      image := Flat(parts, |parts|);
      OverwrittenBy(was, out, offset, image);
    }

    lemma PartHeld(out: seq<byte>, parts: seq<seq<byte>>, k: nat)
      requires SectionParts(parts, region, cies) && padding == 0 && Written(out, |cies|) && k < |cies|
      requires offset + Start(cies, k) <= |out|
      ensures Holds(out, offset + Start(cies, k), parts[k])
    {
      assert CiePart(parts, region, cies, k);
      if cies[k].fdes != [] {
        assert CieWritten(out, k);
        var group :| GroupParts(group, region, cies[k]) && parts[k] == Flat(group, |group|);
        GroupFlat(out, region, cies[k], offset + Start(cies, k), group, |cies[k].fdes|);
      }
    }

    lemma {:induction false} SectionFlat(out: seq<byte>, parts: seq<seq<byte>>, k: nat)
      requires SectionParts(parts, region, cies) && padding == 0 && Written(out, |cies|) && k <= |cies| &&
        offset <= |out|
      ensures Holds(out, offset, Flat(parts, k)) && |Flat(parts, k)| == Start(cies, k)
      decreases k
    {
      SectionLength(parts, region, cies, k);
      if k > 0 {
        SectionFlat(out, parts, k - 1);
        PartHeld(out, parts, k - 1);
        HoldsJoined(out, offset, Flat(parts, k - 1), parts[k - 1]);
      }
    }
  }

  // ---- reading back what was emitted ----------------------------------------------------------

  /** One whole record: its length word says how long it is. */
  ghost predicate IsRecord(image: seq<byte>) {
    8 <= |image| < 0x1_0000_0000 && WordAt(image, 0) == |image| - 4
  }

  lemma OneRecord(image: seq<byte>)
    requires IsRecord(image)
    ensures Records(image, 0) == Some([Extent(0, |image|)])
  {
    assert Records(image, |image|) == Some([]);
    assert [Extent(0, |image|)] + [] == [Extent(0, |image|)];
  }

  lemma CieIsRecord(region: seq<byte>, p: EhFramePiece)
    requires InRegion(region, p)
    ensures IsRecord(CieImage(region, p))
    ensures WordAt(CieImage(region, p), 4) == WordAt(region, p.offset + 4)
  {
    var image := CieImage(region, p);
    assert image[0..4] == LittleEndian(p.size - 4, 4);
    ReadBack4(p.size - 4);
    assert image[4..] == region[p.offset + 4..p.offset + p.size];
    assert image[4..8] == image[4..][..4] == region[p.offset + 4..p.offset + 8];
  }

  /** What a reader makes of a frame description's image. */
  ghost predicate ReadsAsFde(image: seq<byte>, region: seq<byte>, p: EhFramePiece, back: nat) {
    && InRegion(region, p) && |image| == p.size
    && WordAt(image, 0) == p.size - 4 && WordAt(image, 4) == back
    && image[8..p.size] == region[p.offset + 8..p.offset + p.size]
  }

  lemma FdeReads(region: seq<byte>, p: EhFramePiece, back: nat)
    requires InRegion(region, p) && back < 0x1_0000_0000
    ensures ReadsAsFde(FdeImage(region, p, back), region, p, back)
  {
    var image := FdeImage(region, p, back);
    assert image[0..4] == LittleEndian(p.size - 4, 4);
    assert image[4..8] == LittleEndian(back, 4);
    ReadBack4(p.size - 4);
    ReadBack4(back);
  }

  /** Distances within the group fit the word they are stored in. */
  ghost predicate SmallGroup(c: EhFrameCIE) {
    GroupSize(c, |c.fdes|) < 0xFFFF_FFFC
  }

  lemma SmallBack(at: nat)
    requires at + 4 < 0x1_0000_0000
    ensures Back(at, 0) == at + 4
  {
  }

  lemma FdePartReads(parts: seq<seq<byte>>, region: seq<byte>, c: EhFrameCIE, i: nat)
    requires GroupParts(parts, region, c) && SmallGroup(c) && i < |c.fdes|
    ensures ReadsAsFde(parts[i + 1], region, c.fdes[i], GroupSize(c, i) + 4)
  {
    assert FdePart(parts, region, c, i);
    GroupSizeMonotone(c, i, |c.fdes|);
    SmallBack(GroupSize(c, i));
    FdeReads(region, c.fdes[i], GroupSize(c, i) + 4);
  }

  lemma RecordsJoin(a: seq<byte>, b: seq<byte>, xs: seq<Extent>, ys: seq<Extent>)
    requires Records(a, 0) == Some(xs) && NoEnd(xs) && Records(b, 0) == Some(ys) && NoEnd(ys)
    ensures Records(a + b, 0) == Some(xs + Shift(ys, |a|)) && NoEnd(xs + Shift(ys, |a|))
  {
    RecordsAppend(a, b, 0);
    forall x | x in Shift(ys, |a|) ensures x.size != 4 {
      var i :| 0 <= i < |ys| && Shift(ys, |a|)[i] == x;
      assert ys[i] in ys;
    }
  }

  /** Where the CIE and its first k frame descriptions lie, from the CIE on. */
  function GroupExtents(c: EhFrameCIE, k: nat): seq<Extent>
    requires k <= |c.fdes|
  {
    if k == 0 then [Extent(0, c.cie.size)]
    else GroupExtents(c, k - 1) + [Extent(GroupSize(c, k - 1), c.fdes[k - 1].size)]
  }

  lemma {:induction false} GroupReads(parts: seq<seq<byte>>, region: seq<byte>, c: EhFrameCIE, k: nat)
    requires GroupParts(parts, region, c) && SmallGroup(c) && k <= |c.fdes|
    ensures |Flat(parts, k + 1)| == GroupSize(c, k)
    ensures Records(Flat(parts, k + 1), 0) == Some(GroupExtents(c, k)) && NoEnd(GroupExtents(c, k))
  {
    if k == 0 {
      assert Flat(parts, 0) == [] && Flat(parts, 1) == parts[0];
      CieIsRecord(region, c.cie);
      OneRecord(parts[0]);
      assert GroupExtents(c, 0) == [Extent(0, |parts[0]|)];
    } else {
      GroupReads(parts, region, c, k - 1);
      FdePartReads(parts, region, c, k - 1);
      OneRecord(parts[k]);
      RecordsJoin(Flat(parts, k), parts[k], GroupExtents(c, k - 1), [Extent(0, |parts[k]|)]);
      assert Shift([Extent(0, |parts[k]|)], GroupSize(c, k - 1)) == [Extent(GroupSize(c, k - 1), c.fdes[k - 1].size)];
    }
  }

  /** What the reader should find of each CIE, from the CIE on. */
  function ExtentsOf(c: EhFrameCIE): seq<Extent> {
    if c.fdes == [] then [] else GroupExtents(c, |c.fdes|)
  }

  /** The records of the whole section: every CIE that has frame descriptions, each followed by those. */
  function Extents(cies: seq<EhFrameCIE>, k: nat): seq<Extent>
    requires k <= |cies|
  {
    if k == 0 then [] else Extents(cies, k - 1) + Shift(ExtentsOf(cies[k - 1]), Start(cies, k - 1))
  }

  ghost predicate ReadsAs(image: seq<byte>, xs: seq<Extent>) {
    Records(image, 0) == Some(xs) && NoEnd(xs)
  }

  ghost predicate PartReads(parts: seq<seq<byte>>, cies: seq<EhFrameCIE>, k: nat)
    requires k < |cies| == |parts|
  {
    |parts[k]| == CieSize(cies[k]) && ReadsAs(parts[k], ExtentsOf(cies[k]))
  }

  lemma CiePartReads(parts: seq<seq<byte>>, region: seq<byte>, cies: seq<EhFrameCIE>, k: nat)
    requires SectionParts(parts, region, cies) && k < |cies| && SmallGroup(cies[k])
    ensures PartReads(parts, cies, k)
  {
    assert CiePart(parts, region, cies, k);
    var c := cies[k];
    if c.fdes != [] {
      var group :| GroupParts(group, region, c) && parts[k] == Flat(group, |group|);
      GroupReads(group, region, c, |c.fdes|);
    }
  }

  ghost predicate FlatReads(parts: seq<seq<byte>>, cies: seq<EhFrameCIE>, k: nat)
    requires k <= |cies| == |parts|
  {
    |Flat(parts, k)| == Start(cies, k) && ReadsAs(Flat(parts, k), Extents(cies, k))
  }

  lemma ReadOn(parts: seq<seq<byte>>, cies: seq<EhFrameCIE>, k: nat)
    requires 0 < k <= |cies| == |parts|
    requires FlatReads(parts, cies, k - 1) && PartReads(parts, cies, k - 1)
    ensures FlatReads(parts, cies, k)
  {
    RecordsJoin(Flat(parts, k - 1), parts[k - 1], Extents(cies, k - 1), ExtentsOf(cies[k - 1]));
  }

  lemma {:induction false} SectionReads(parts: seq<seq<byte>>, cies: seq<EhFrameCIE>, k: nat)
    requires k <= |cies| == |parts|
    requires forall i {:trigger PartReads(parts, cies, i)} | 0 <= i < |cies| :: PartReads(parts, cies, i)
    ensures FlatReads(parts, cies, k)
  {
    if k > 0 {
      SectionReads(parts, cies, k - 1);
      ReadOn(parts, cies, k);
    }
  }

  /** The linker's reader takes the emitted section apart into exactly the CIEs that have frame
      descriptions, each followed by those, and reaches its end. */
  lemma EmittedSectionReads(image: seq<byte>, region: seq<byte>, cies: seq<EhFrameCIE>)
    requires SectionImage(image, region, cies)
    requires forall i {:trigger SmallGroup(cies[i])} | 0 <= i < |cies| :: SmallGroup(cies[i])
    ensures Records(image, 0) == Some(Extents(cies, |cies|))
  {
    var parts :| SectionParts(parts, region, cies) && image == Flat(parts, |parts|);
    forall i | 0 <= i < |cies| ensures PartReads(parts, cies, i) {
      assert SmallGroup(cies[i]);
      CiePartReads(parts, region, cies, i);
    }
    SectionReads(parts, cies, |cies|);
    assert FlatReads(parts, cies, |cies|);
  }

  /** A frame description as it stands in some output. */
  ghost predicate FdeAt(out: seq<byte>, at: nat, region: seq<byte>, p: EhFramePiece, cieAt: nat) {
    && InRegion(region, p) && at + p.size <= |out|
    && at + 4 - WordAt(out, at + 4) == cieAt
    && out[at + 8..at + p.size] == region[p.offset + 8..p.offset + p.size]
  }

  lemma FdeHeld(out: seq<byte>, at: nat, image: seq<byte>, region: seq<byte>, p: EhFramePiece, back: nat)
    requires ReadsAsFde(image, region, p, back) && Holds(out, at, image) && back <= at + 4
    ensures FdeAt(out, at, region, p, at + 4 - back)
  {
    SliceOfSlice(out, at, at + p.size, 4, 8);
    SliceOfSlice(out, at, at + p.size, 8, p.size);
  }

  lemma FdePlaced(out: seq<byte>, at: nat, region: seq<byte>, c: EhFrameCIE, i: nat, parts: seq<seq<byte>>)
    requires i < |c.fdes| && GroupParts(parts, region, c) && Holds(out, at, Flat(parts, |parts|))
    ensures Holds(out, at + GroupSize(c, i), parts[i + 1])
  {
    GroupLength(parts, region, c, i);
    FlatAt(parts, i + 1, |parts|);
    HoldsWithin(out, at, Flat(parts, |parts|), GroupSize(c, i), parts[i + 1]);
  }

  lemma FdeInOutput(out: seq<byte>, at: nat, region: seq<byte>, c: EhFrameCIE, i: nat, parts: seq<seq<byte>>)
    requires i < |c.fdes| && GroupParts(parts, region, c) && SmallGroup(c)
    requires Holds(out, at, Flat(parts, |parts|))
    ensures FdeAt(out, at + GroupSize(c, i), region, c.fdes[i], at)
  {
    FdePlaced(out, at, region, c, i, parts);
    FdePartReads(parts, region, c, i);
    FdeHeld(out, at + GroupSize(c, i), parts[i + 1], region, c.fdes[i], GroupSize(c, i) + 4);
  }

  lemma CieInOutput(out: seq<byte>, o: nat, region: seq<byte>, cies: seq<EhFrameCIE>, k: nat, parts: seq<seq<byte>>)
    requires SectionParts(parts, region, cies) && k < |cies| && Holds(out, o, Flat(parts, |parts|))
    ensures Holds(out, o + Start(cies, k), parts[k])
  {
    SectionLength(parts, region, cies, k);
    FlatAt(parts, k, |parts|);
    HoldsWithin(out, o, Flat(parts, |parts|), Start(cies, k), parts[k]);
  }

  /** Wherever the section lies in the output, frame description i of CIE k leads back to where that CIE
      starts, and what is behind its two first words is the input's. */
  lemma FdeInSection(out: seq<byte>, o: nat, image: seq<byte>, region: seq<byte>, cies: seq<EhFrameCIE>, k: nat, i: nat)
    requires SectionImage(image, region, cies) && Holds(out, o, image)
    requires k < |cies| && i < |cies[k].fdes| && SmallGroup(cies[k])
    ensures FdeAt(out, o + Start(cies, k) + GroupSize(cies[k], i), region, cies[k].fdes[i], o + Start(cies, k))
  {
    var parts :| SectionParts(parts, region, cies) && image == Flat(parts, |parts|);
    CieInOutput(out, o, region, cies, k, parts);
    assert CiePart(parts, region, cies, k);
    FdeInPart(out, o + Start(cies, k), parts[k], region, cies[k], i);
  }

  lemma FdeInPart(out: seq<byte>, at: nat, part: seq<byte>, region: seq<byte>, c: EhFrameCIE, i: nat)
    requires GroupImage(part, region, c) && Holds(out, at, part) && i < |c.fdes| && SmallGroup(c)
    ensures FdeAt(out, at + GroupSize(c, i), region, c.fdes[i], at)
  {
    var group :| GroupParts(group, region, c) && part == Flat(group, |group|);
    FdeInOutput(out, at, region, c, i, group);
  }

  /** A CIE as it stands in some output: all behind its length word is the input's. */
  ghost predicate CieAt(out: seq<byte>, at: nat, region: seq<byte>, p: EhFramePiece) {
    && InRegion(region, p) && at + p.size <= |out|
    && WordAt(out, at) == p.size - 4 && out[at + 4..at + p.size] == region[p.offset + 4..p.offset + p.size]
  }

  lemma CieHeld(out: seq<byte>, at: nat, region: seq<byte>, p: EhFramePiece)
    requires InRegion(region, p) && Holds(out, at, CieImage(region, p))
    ensures CieAt(out, at, region, p)
  {
    var image := CieImage(region, p);
    CieIsRecord(region, p);
    SliceOfSlice(out, at, at + p.size, 0, 4);
    SliceOfSlice(out, at, at + p.size, 4, p.size);
    assert image[4..p.size] == region[p.offset + 4..p.offset + p.size];
  }

  /** CIE k stands at its start, so a reader that took the input's record for a CIE takes this one for
      a CIE too. */
  lemma CieInSection(out: seq<byte>, o: nat, image: seq<byte>, region: seq<byte>, cies: seq<EhFrameCIE>, k: nat)
    requires SectionImage(image, region, cies) && Holds(out, o, image)
    requires k < |cies| && cies[k].fdes != []
    ensures CieAt(out, o + Start(cies, k), region, cies[k].cie)
    ensures WordAt(out, o + Start(cies, k) + 4) == WordAt(region, cies[k].cie.offset + 4)
  {
    var parts :| SectionParts(parts, region, cies) && image == Flat(parts, |parts|);
    CieInOutput(out, o, region, cies, k, parts);
    assert CiePart(parts, region, cies, k);
    var group :| GroupParts(group, region, cies[k]) && parts[k] == Flat(group, |group|);
    CieLeads(out, o + Start(cies, k), region, cies[k], group);
  }

  lemma CieLeads(out: seq<byte>, at: nat, region: seq<byte>, c: EhFrameCIE, group: seq<seq<byte>>)
    requires GroupParts(group, region, c) && Holds(out, at, Flat(group, |group|))
    ensures CieAt(out, at, region, c.cie) && WordAt(out, at + 4) == WordAt(region, c.cie.offset + 4)
  {
    FlatAt(group, 0, |group|);
    assert Flat(group, 0) == [];
    HoldsWithin(out, at, Flat(group, |group|), 0, group[0]);
    CieHeld(out, at, region, c.cie);
    SecondWord(out, at, region, c.cie);
  }

  lemma SecondWord(out: seq<byte>, at: nat, region: seq<byte>, p: EhFramePiece)
    requires CieAt(out, at, region, p)
    ensures WordAt(out, at + 4) == WordAt(region, p.offset + 4)
  {
    SliceOfSlice(out, at + 4, at + p.size, 0, 4);
    SliceOfSlice(region, p.offset + 4, p.offset + p.size, 0, 4);
  }

  // ---- references into the section ------------------------------------------------------------

  /** The records of a section lie one behind the other. */
  lemma {:induction false} RecordsFollow(data: seq<byte>, off: nat, i: nat)
    requires off <= |data| && Records(data, off).Some? && i < |Records(data, off).value|
    ensures Records(data, off).value[i].offset == if i == 0 then off else
      Records(data, off).value[i - 1].offset + Records(data, off).value[i - 1].size
    decreases |data| - off
  {
    var size := RecordSize(data, off).value;
    if i > 0 && size != 4 {
      var rest := Records(data, off + size).value;
      assert Records(data, off).value == [Extent(off, size)] + rest;
      RecordsFollow(data, off + size, i - 1);
    }
  }

  predicate PieceCovers(p: EhFramePiece, x: nat) {
    p.offset <= x < p.offset + p.size
  }

  /** The pieces lie one behind the other, as the reader leaves them. */
  ghost predicate Follow(pieces: seq<EhFramePiece>) {
    forall i {:trigger PieceStart(pieces, i)} | 0 <= i < |pieces| :: pieces[i].offset == PieceStart(pieces, i)
  }

  function PieceStart(pieces: seq<EhFramePiece>, i: nat): nat
    requires i <= |pieces|
  {
    if i == 0 then 0 else pieces[i - 1].offset + pieces[i - 1].size
  }

  /** The piece around a reference, if it points into the pieces at all. */
  method FindPiece(pieces: seq<EhFramePiece>, x: nat) returns (i: nat)
    requires Follow(pieces)
    ensures i <= |pieces| && (i < |pieces| ==> PieceCovers(pieces[i], x))
    ensures i == |pieces| <==> PieceStart(pieces, |pieces|) <= x
  {
    i := 0;
    while i != |pieces| && pieces[i].offset + pieces[i].size <= x
      invariant i <= |pieces| && PieceStart(pieces, i) <= x
    {
      i := i + 1;
    }
    if i < |pieces| {
      assert pieces[i].offset == PieceStart(pieces, i);
      PieceStartsGrow(pieces, i + 1, |pieces|);
    }
  }

  lemma {:induction false} PieceStartsGrow(pieces: seq<EhFramePiece>, i: nat, j: nat)
    requires Follow(pieces) && i <= j <= |pieces|
    ensures PieceStart(pieces, i) <= PieceStart(pieces, j)
    decreases j
  {
    if i < j {
      PieceStartsGrow(pieces, i, j - 1);
      assert pieces[j - 1].offset == PieceStart(pieces, j - 1);
    }
  }

  function Redirected(p: EhFramePiece, x: nat): int
    reads p
  {
    if p.outputOffset == UNASSIGNED then UNASSIGNED else x + p.outputOffset - p.offset
  }

  /** A reference to x goes along with the piece around it. */
  ghost predicate RedirectsTo(pieces: seq<EhFramePiece>, x: nat, r: int)
    reads pieces
  {
    exists p :: p in pieces && PieceCovers(p, x) && r == Redirected(p, x)
  }

  /** Where a reference into the section points: along with the piece around it, or with the last piece
      when it is past them all; and nowhere when its piece was not laid out. */
  method GetOutputOffset(pieces: seq<EhFramePiece>, x: nat) returns (r: int)
    requires pieces != [] && Follow(pieces)
    ensures PieceStart(pieces, |pieces|) <= x ==>
      r == x + pieces[|pieces| - 1].outputOffset - pieces[|pieces| - 1].offset
    ensures x < PieceStart(pieces, |pieces|) ==> RedirectsTo(pieces, x, r)
  {
    var i := FindPiece(pieces, x);
    if i == |pieces| {
      return x + pieces[i - 1].outputOffset - pieces[i - 1].offset;
    }
    assert pieces[i] in pieces;
    if pieces[i].outputOffset == UNASSIGNED {
      return UNASSIGNED;
    }
    return x + pieces[i].outputOffset - pieces[i].offset;
  }

  /** Only one piece is around a reference. */
  lemma PieceUnique(pieces: seq<EhFramePiece>, i: nat, j: nat, x: nat)
    requires Follow(pieces) && i < |pieces| && j < |pieces| && PieceCovers(pieces[i], x) && PieceCovers(pieces[j], x)
    ensures i == j
  {
    if i < j {
      assert pieces[j].offset == PieceStart(pieces, j);
      PieceStartsGrow(pieces, i + 1, j);
    } else if j < i {
      assert pieces[i].offset == PieceStart(pieces, i);
      PieceStartsGrow(pieces, j + 1, i);
    }
  }

  lemma RedirectedAlong(pieces: seq<EhFramePiece>, x: nat, r: int, p: EhFramePiece)
    requires Follow(pieces) && RedirectsTo(pieces, x, r) && p in pieces && PieceCovers(p, x)
    ensures r == Redirected(p, x)
  {
    var q :| q in pieces && PieceCovers(q, x) && r == Redirected(q, x);
    var i :| 0 <= i < |pieces| && pieces[i] == q;
    var j :| 0 <= j < |pieces| && pieces[j] == p;
    PieceUnique(pieces, i, j, x);
  }

  /** The output holds the input's byte x at r. */
  ghost predicate ByteKept(out: seq<byte>, r: int, region: seq<byte>, x: nat) {
    0 <= r < |out| && x < |region| && out[r] == region[x]
  }

  /** A reference into a frame description, behind its two first words, is redirected to the byte it
      found in the input, padded or not. */
  lemma ReferenceKept(frag: EhFrameFragment, pieces: seq<EhFramePiece>, out: seq<byte>, k: nat, i: nat, x: nat, r: int)
    requires frag.Valid() && frag.LaidOut() && frag.Written(out, |frag.cies|)
    requires Follow(pieces) && (forall p | p in frag.pieces :: p in pieces) && RedirectsTo(pieces, x, r)
    requires k < |frag.cies| && i < |frag.cies[k].fdes|
    requires var p := frag.cies[k].fdes[i]; p.offset + 8 <= x < p.offset + p.size
    ensures ByteKept(out, r, frag.region, x)
  {
    var c, start := frag.cies[k], frag.offset + Start(frag.cies, k);
    var p, at := c.fdes[i], start + GroupSize(c, i);
    assert frag.CieLaidOut(k) && FdeLaidOut(c, start, i);
    assert frag.CieWritten(out, k) && FdeWritten(out, frag.region, c, start, start + frag.padding, i);
    var image := FdeImage(frag.region, p, Back(at, start + frag.padding));
    assert out[at..at + p.size][x - p.offset] == image[x - p.offset] == frag.region[x];
    assert p in PiecesOf(c);
    RedirectedAlong(pieces, x, r, p);
  }

  /** The same for a CIE, behind its length word, in a fragment without padding. */
  lemma CieReferenceKept(frag: EhFrameFragment, pieces: seq<EhFramePiece>, out: seq<byte>, k: nat, x: nat, r: int)
    requires frag.Valid() && frag.LaidOut() && frag.Written(out, |frag.cies|) && frag.padding == 0
    requires Follow(pieces) && (forall p | p in frag.pieces :: p in pieces) && RedirectsTo(pieces, x, r)
    requires k < |frag.cies| && frag.cies[k].fdes != []
    requires var p := frag.cies[k].cie; p.offset + 4 <= x < p.offset + p.size
    ensures ByteKept(out, r, frag.region, x)
  {
    var c, at := frag.cies[k], frag.offset + Start(frag.cies, k);
    var p := c.cie;
    assert frag.CieLaidOut(k) && frag.CieWritten(out, k);
    assert CieLeft(frag.region, p, at, at) == CieImage(frag.region, p);
    assert out[at..at + p.size][x - p.offset] == CieImage(frag.region, p)[x - p.offset] == frag.region[x];
    assert p in PiecesOf(c);
    RedirectedAlong(pieces, x, r, p);
  }

  /** A reference goes nowhere exactly when its piece was not laid out, as that of a CIE without frame
      descriptions. */
  lemma NowhereIffNotLaidOut(pieces: seq<EhFramePiece>, p: EhFramePiece, x: nat, r: int)
    requires Follow(pieces) && RedirectsTo(pieces, x, r) && p in pieces && PieceCovers(p, x) &&
      p.outputOffset >= UNASSIGNED
    ensures r == UNASSIGNED <==> p.outputOffset == UNASSIGNED
  {
    RedirectedAlong(pieces, x, r, p);
  }

  // ---- padding --------------------------------------------------------------------------------

  /** An emitted frame description leads back, in 32 bits, to where its CIE was written behind the padding. */
  lemma LeadsBehindPadding(frag: EhFrameFragment, out: seq<byte>, k: nat, i: nat)
    requires frag.Valid() && frag.LaidOut() && frag.Written(out, |frag.cies|)
    requires k < |frag.cies| && i < |frag.cies[k].fdes|
    ensures
      var p, at := frag.cies[k].fdes[i], frag.cies[k].fdes[i].outputOffset;
      && 0 <= at && at + p.size <= |out| && 8 <= p.size
      && (at + 4 - WordAt(out, at + 4)) % 0x1_0000_0000 == frag.EmittedAt(k) % 0x1_0000_0000
  {
    var c, start := frag.cies[k], frag.offset + Start(frag.cies, k);
    assert frag.CieLaidOut(k) && FdeLaidOut(c, start, i);
    assert frag.CieWritten(out, k) && FdeWritten(out, frag.region, c, start, frag.EmittedAt(k), i);
    WrittenLeads(out, frag.region, c, start, frag.EmittedAt(k), i);
  }

  lemma WrittenLeads(out: seq<byte>, region: seq<byte>, c: EhFrameCIE, start: nat, cieOff: nat, i: nat)
    requires i < |c.fdes| && FdeWritten(out, region, c, start, cieOff, i)
    ensures
      var at := start + GroupSize(c, i);
      && at + c.fdes[i].size <= |out| && 8 <= c.fdes[i].size
      && (at + 4 - WordAt(out, at + 4)) % 0x1_0000_0000 == cieOff % 0x1_0000_0000
  {
    var at := start + GroupSize(c, i);
    FdeReads(region, c.fdes[i], Back(at, cieOff));
    SliceOfSlice(out, at, at + c.fdes[i].size, 4, 8);
    DistanceTaken(at, cieOff);
  }

  predicate Meet(a: nat, aSize: nat, b: nat, bSize: nat) {
    a < b + bSize && b < a + aSize
  }

  lemma LengthLeft(out: seq<byte>, region: seq<byte>, p: EhFramePiece, at: nat, cieOff: nat)
    requires InRegion(region, p) && at <= cieOff <= at + p.size - 4 && cieOff + p.size <= |out|
    requires Holds(out, cieOff, CieLeft(region, p, at, cieOff))
    ensures RecordSize(out, cieOff) == Some(p.size)
  {
    var left := CieLeft(region, p, at, cieOff);
    assert left[0..4] == LittleEndian(p.size - 4, 4);
    ReadBack4(p.size - 4);
    SliceOfSlice(out, cieOff, cieOff + |left|, 0, 4);
  }

  /** Layout starts at the unpadded offset and emission behind the padding: the CIE is written over its first
      description's place exactly when there is padding and it does not take the CIE past both. A reader that
      starts at a CIE whose length word is left then steps that far into the description. */
  lemma PaddingMisleads(frag: EhFrameFragment, out: seq<byte>, k: nat)
    requires frag.Valid() && frag.LaidOut() && frag.Written(out, |frag.cies|) && k < |frag.cies|
    requires frag.cies[k].fdes != [] && frag.EmittedAt(k) + frag.cies[k].cie.size <= |out|
    ensures
      var cie, fde := frag.cies[k].cie, frag.cies[k].fdes[0];
      && 0 <= fde.outputOffset
      && (Meet(frag.EmittedAt(k), cie.size, fde.outputOffset, fde.size) <==> 0 < frag.padding < cie.size + fde.size)
      && frag.EmittedAt(k) + cie.size == fde.outputOffset + frag.padding
      && (frag.padding + 4 <= cie.size ==> RecordSize(out, frag.EmittedAt(k)) == Some(cie.size))
  {
    var c, start := frag.cies[k], frag.offset + Start(frag.cies, k);
    assert frag.CieLaidOut(k) && FdeLaidOut(c, start, 0) && frag.CieWritten(out, k);
    assert FdeWritten(out, frag.region, c, start, frag.EmittedAt(k), 0);
    if frag.padding + 4 <= c.cie.size {
      LengthLeft(out, frag.region, c.cie, start, frag.EmittedAt(k));
    }
  }

  /** With padding up to the first description's size, the CIE comes out whole exactly if its last bytes happen
      to be that description's first. */
  lemma CieSurvivesIff(frag: EhFrameFragment, out: seq<byte>, k: nat)
    requires frag.Valid() && frag.LaidOut() && frag.Written(out, |frag.cies|) && k < |frag.cies| &&
      frag.cies[k].fdes != []
    requires frag.padding <= frag.cies[k].cie.size && frag.padding <= frag.cies[k].fdes[0].size
    ensures
      var cie, fde := frag.cies[k].cie, frag.cies[k].fdes[0];
      && InRegion(frag.region, cie) && InRegion(frag.region, fde) && 0 <= fde.outputOffset
      && (Holds(out, frag.EmittedAt(k), CieImage(frag.region, cie)) <==>
          CieImage(frag.region, cie)[cie.size - frag.padding..] ==
            FdeImage(frag.region, fde, Back(fde.outputOffset, frag.EmittedAt(k)))[..frag.padding])
  {
    var c, start := frag.cies[k], frag.offset + Start(frag.cies, k);
    assert frag.CieLaidOut(k) && FdeLaidOut(c, start, 0) && frag.CieWritten(out, k);
    assert FdeWritten(out, frag.region, c, start, frag.EmittedAt(k), 0);
    WholeIff(out, frag.region, c.cie, start, frag.padding,
             FdeImage(frag.region, c.fdes[0], Back(start + c.cie.size, frag.EmittedAt(k))));
  }

  lemma WholeIff(out: seq<byte>, region: seq<byte>, p: EhFramePiece, start: nat, padding: nat, behind: seq<byte>)
    requires InRegion(region, p) && padding <= p.size && padding <= |behind|
    requires Holds(out, start + padding, CieLeft(region, p, start, start + padding)) &&
      Holds(out, start + p.size, behind)
    ensures Holds(out, start + padding, CieImage(region, p)) <==>
      CieImage(region, p)[p.size - padding..] == behind[..padding]
  {
    var cie, n := CieImage(region, p), p.size - padding;
    assert CieLeft(region, p, start, start + padding) == cie[..n] && cie == cie[..n] + cie[n..];
    HoldsPrefix(out, start + p.size, behind, padding);
    HoldsInTwo(out, start + padding, cie[..n], cie[n..], behind[..padding]);
  }

  lemma DistanceTaken(at: nat, cieOff: nat)
    ensures (at + 4 - Back(at, cieOff)) % 0x1_0000_0000 == cieOff % 0x1_0000_0000
  {
    SameWord(cieOff, at + 4 - Back(at, cieOff), (at + 4 - cieOff) / 0x1_0000_0000);
  }
}
