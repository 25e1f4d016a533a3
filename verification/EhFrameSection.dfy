/** Reading an exception frame section: its records become pieces, and every live frame description is put
    under the common information entry it names. */
module EhFrameSection {
  import opened Wrappers
  import opened Words
  import opened Buffers
  import opened EhFrame

  // ---- pieces ---------------------------------------------------------------------------------

  /** The pieces are the records read, in order. */
  ghost predicate PiecesFor(pieces: seq<EhFramePiece>, xs: seq<Extent>) {
    |pieces| == |xs| && forall i | 0 <= i < |xs| :: pieces[i].offset == xs[i].offset && pieces[i].size == xs[i].size
  }

  method AddPieces(xs: seq<Extent>) returns (pieces: seq<EhFramePiece>)
    ensures PiecesFor(pieces, xs) && NoRepeats(pieces)
    ensures forall p | p in pieces :: fresh(p) && p.outputOffset == UNASSIGNED
  {
    pieces := [];
    for i := 0 to |xs|
      invariant PiecesFor(pieces, xs[..i]) && NoRepeats(pieces)
      invariant forall p | p in pieces :: fresh(p) && p.outputOffset == UNASSIGNED
    {
      var p := new EhFramePiece(xs[i].offset, xs[i].size);
      pieces := pieces + [p];
    }
    assert xs[..|xs|] == xs;
  }

  lemma {:induction false} RecordsInside(data: seq<byte>, off: nat, i: nat)
    requires off <= |data| && Records(data, off).Some? && i < |Records(data, off).value|
    ensures var x := Records(data, off).value[i]; 4 <= x.size && x.offset + x.size <= |data|
    ensures i + 1 < |Records(data, off).value| ==> Records(data, off).value[i].size != 4
    decreases |data| - off
  {
    var size := RecordSize(data, off).value;
    if size != 4 && i > 0 {
      var rest := Records(data, off + size).value;
      assert Records(data, off).value == [Extent(off, size)] + rest;
      RecordsInside(data, off + size, i - 1);
    }
  }

  ghost predicate OffsetsDiffer(ps: seq<EhFramePiece>) {
    forall i, j | 0 <= i < j < |ps| :: ps[i].offset != ps[j].offset
  }

  /** Each piece fits the section, and only the last may be an end marker. */
  ghost predicate PieceFits(data: seq<byte>, pieces: seq<EhFramePiece>, i: nat)
    requires i < |pieces|
  {
    4 <= pieces[i].size && pieces[i].offset + pieces[i].size <= |data| && (i + 1 < |pieces| ==> pieces[i].size != 4)
  }

  lemma PieceOfRecord(data: seq<byte>, pieces: seq<EhFramePiece>, i: nat)
    requires Records(data, 0).Some? && PiecesFor(pieces, Records(data, 0).value) && i < |pieces|
    ensures pieces[i].offset == PieceStart(pieces, i) && PieceFits(data, pieces, i)
  {
    RecordsFollow(data, 0, i);
    RecordsInside(data, 0, i);
  }

  /** The pieces of a section lie one behind the other inside it. */
  lemma PiecesOfRecords(data: seq<byte>, pieces: seq<EhFramePiece>)
    requires Records(data, 0).Some? && PiecesFor(pieces, Records(data, 0).value)
    ensures Follow(pieces) && OffsetsDiffer(pieces)
    ensures forall i {:trigger PieceFits(data, pieces, i)} | 0 <= i < |pieces| :: PieceFits(data, pieces, i)
  {
    forall i | 0 <= i < |pieces| ensures pieces[i].offset == PieceStart(pieces, i) && PieceFits(data, pieces, i) {
      PieceOfRecord(data, pieces, i);
    }
    forall i, j | 0 <= i < j < |pieces| ensures pieces[i].offset != pieces[j].offset {
      assert PieceFits(data, pieces, i);
      PieceStartsGrow(pieces, i + 1, j);
      assert pieces[j].offset == PieceStart(pieces, j);
    }
  }

  // ---- what a record is -----------------------------------------------------------------------

  ghost predicate HasId(region: seq<byte>, p: EhFramePiece) {
    p.offset + 8 <= |region|
  }

  /** The word behind the length: 0 for a CIE, otherwise the distance back to one. */
  function IdOf(region: seq<byte>, p: EhFramePiece): word
    requires HasId(region, p)
  {
    WordAt(region, p.offset + 4)
  }

  /** Where a frame description says its CIE is, in 32 bits. */
  function CieOffset(region: seq<byte>, p: EhFramePiece): word
    requires HasId(region, p)
  {
    (p.offset + 4 - IdOf(region, p)) % 0x1_0000_0000
  }

  /** The pieces before the end marker. */
  function Entries(pieces: seq<EhFramePiece>): (r: seq<EhFramePiece>)
    ensures r <= pieces && forall p | p in r :: p.size != 4
    ensures |r| < |pieces| ==> pieces[|r|].size == 4
  {
    if pieces == [] || pieces[0].size == 4 then [] else [pieces[0]] + Entries(pieces[1..])
  }

  lemma {:induction false} EntryAt(pieces: seq<EhFramePiece>, i: nat)
    requires i < |pieces| && pieces[i].size != 4 && i <= |Entries(pieces)|
    ensures i < |Entries(pieces)| && Entries(pieces)[i] == pieces[i]
  {
  }

  ghost predicate Readable(region: seq<byte>, ps: seq<EhFramePiece>) {
    forall p | p in ps :: HasId(region, p)
  }

  /** The i-th piece is a frame description of the j-th, an earlier CIE. */
  ghost predicate Names(region: seq<byte>, ps: seq<EhFramePiece>, i: nat, j: nat)
    requires Readable(region, ps) && i < |ps|
  {
    && j < i && HasId(region, ps[i]) && HasId(region, ps[j])
    && WordAt(region, ps[i].offset + 4) != 0 && WordAt(region, ps[j].offset + 4) == 0
    && ps[j].offset == (ps[i].offset + 4 - WordAt(region, ps[i].offset + 4)) % 0x1_0000_0000
  }

  ghost predicate NamesEarlier(region: seq<byte>, ps: seq<EhFramePiece>, i: nat)
    requires Readable(region, ps) && i < |ps|
  {
    HasId(region, ps[i]) && (WordAt(region, ps[i].offset + 4) == 0 || exists j: nat :: Names(region, ps, i, j))
  }

  /** Every frame description names an earlier CIE. */
  ghost predicate AllNameEarlier(region: seq<byte>, ps: seq<EhFramePiece>)
    requires Readable(region, ps)
  {
    forall i {:trigger NamesEarlier(region, ps, i)} | 0 <= i < |ps| :: NamesEarlier(region, ps, i)
  }

  // ---- groups ---------------------------------------------------------------------------------

  function CiesAmong(region: seq<byte>, ps: seq<EhFramePiece>): seq<EhFramePiece>
    requires Readable(region, ps)
  {
    if ps == [] then [] else
      var n := |ps| - 1;
      CiesAmong(region, ps[..n]) + if IdOf(region, ps[n]) == 0 then [ps[n]] else []
  }

  predicate Under(region: seq<byte>, p: EhFramePiece, live: set<EhFramePiece>, offset: nat)
    requires HasId(region, p)
  {
    p in live && IdOf(region, p) != 0 && CieOffset(region, p) == offset
  }

  /** The live descriptions that name the offset, in order. */
  function FdesUnder(region: seq<byte>, ps: seq<EhFramePiece>, live: set<EhFramePiece>, offset: nat): seq<EhFramePiece>
    requires Readable(region, ps)
  {
    if ps == [] then [] else
      var n := |ps| - 1;
      FdesUnder(region, ps[..n], live, offset) + if Under(region, ps[n], live, offset) then [ps[n]] else []
  }

  ghost predicate GroupOf(region: seq<byte>, ps: seq<EhFramePiece>, live: set<EhFramePiece>, c: EhFrameCIE,
                          p: EhFramePiece)
    requires Readable(region, ps)
  {
    c.cie == p && c.fdes == FdesUnder(region, ps, live, p.offset)
  }

  /** One group for every CIE, in order, with the live descriptions that name it. */
  ghost predicate Grouped(region: seq<byte>, ps: seq<EhFramePiece>, live: set<EhFramePiece>, cies: seq<EhFrameCIE>)
    requires Readable(region, ps)
  {
    && |cies| == |CiesAmong(region, ps)|
    && forall k {:trigger cies[k]} | 0 <= k < |cies| :: GroupOf(region, ps, live, cies[k], CiesAmong(region, ps)[k])
  }

  /** Each CIE read so far by its offset. */
  ghost predicate Indexed(region: seq<byte>, ps: seq<EhFramePiece>, offsetToCie: map<nat, nat>)
    requires Readable(region, ps)
  {
    && (forall o | o in offsetToCie ::
         offsetToCie[o] < |CiesAmong(region, ps)| && CiesAmong(region, ps)[offsetToCie[o]].offset == o)
    && (forall j | 0 <= j < |ps| && IdOf(region, ps[j]) == 0 :: ps[j].offset in offsetToCie)
  }

  lemma {:induction false} CieAmong(region: seq<byte>, ps: seq<EhFramePiece>, k: nat) returns (j: nat)
    requires Readable(region, ps) && k < |CiesAmong(region, ps)|
    ensures j < |ps| && ps[j] == CiesAmong(region, ps)[k] && IdOf(region, ps[j]) == 0
    decreases |ps|
  {
    var n := |ps| - 1;
    if k < |CiesAmong(region, ps[..n])| {
      j := CieAmong(region, ps[..n], k);
    } else {
      j := n;
    }
  }

  /** Positions of different CIEs in the list are positions of different pieces. */
  lemma {:induction false} CiesOrdered(region: seq<byte>, ps: seq<EhFramePiece>, k: nat, l: nat)
    requires Readable(region, ps) && OffsetsDiffer(ps) && k < l < |CiesAmong(region, ps)|
    ensures CiesAmong(region, ps)[k].offset != CiesAmong(region, ps)[l].offset
    decreases |ps|
  {
    var n := |ps| - 1;
    if l < |CiesAmong(region, ps[..n])| {
      CiesOrdered(region, ps[..n], k, l);
    } else {
      var j := CieAmong(region, ps[..n], k);
      assert ps[j].offset != ps[n].offset;
    }
  }

  lemma {:induction false} CieListed(region: seq<byte>, ps: seq<EhFramePiece>, j: nat) returns (k: nat)
    requires Readable(region, ps) && j < |ps| && IdOf(region, ps[j]) == 0
    ensures k < |CiesAmong(region, ps)| && CiesAmong(region, ps)[k] == ps[j]
    decreases |ps|
  {
    var n := |ps| - 1;
    if j < n {
      k := CieListed(region, ps[..n], j);
    } else {
      k := |CiesAmong(region, ps[..n])|;
    }
  }

  lemma {:induction false} FdeAmong(region: seq<byte>, ps: seq<EhFramePiece>, live: set<EhFramePiece>, offset: nat,
                                    m: nat) returns (i: nat)
    requires Readable(region, ps) && m < |FdesUnder(region, ps, live, offset)|
    ensures i < |ps| && ps[i] == FdesUnder(region, ps, live, offset)[m] && Under(region, ps[i], live, offset)
    decreases |ps|
  {
    var n := |ps| - 1;
    if m < |FdesUnder(region, ps[..n], live, offset)| {
      i := FdeAmong(region, ps[..n], live, offset, m);
    } else {
      i := n;
    }
  }

  lemma {:induction false} FdeListed(region: seq<byte>, ps: seq<EhFramePiece>, live: set<EhFramePiece>, offset: nat,
                                     i: nat) returns (m: nat)
    requires Readable(region, ps) && i < |ps| && Under(region, ps[i], live, offset)
    ensures m < |FdesUnder(region, ps, live, offset)| && FdesUnder(region, ps, live, offset)[m] == ps[i]
    decreases |ps|
  {
    var n := |ps| - 1;
    if i < n {
      m := FdeListed(region, ps[..n], live, offset, i);
    } else {
      m := |FdesUnder(region, ps[..n], live, offset)|;
    }
  }

  /** The groups: the CIEs are the pieces with 0 behind their length, in order, each once. */
  lemma {:induction false} CiesPicked(region: seq<byte>, ps: seq<EhFramePiece>) returns (idx: seq<nat>)
    requires Readable(region, ps)
    ensures Picks(ps, CiesAmong(region, ps), idx)
    ensures forall i {:trigger i in idx} | 0 <= i < |ps| ::
      HasId(region, ps[i]) && (i in idx <==> WordAt(region, ps[i].offset + 4) == 0)
    decreases |ps|
  {
    if ps == [] {
      idx := [];
    } else {
      var n := |ps| - 1;
      var before := CiesPicked(region, ps[..n]);
      idx := PickNext(ps, CiesAmong(region, ps[..n]), before, IdOf(region, ps[n]) == 0);
    }
  }

  /** What is put under a CIE are the live pieces that lead back, in 32 bits, to its offset, in order, each once. */
  lemma {:induction false} FdesPicked(region: seq<byte>, ps: seq<EhFramePiece>, live: set<EhFramePiece>, offset: nat)
    returns (idx: seq<nat>)
    requires Readable(region, ps)
    ensures Picks(ps, FdesUnder(region, ps, live, offset), idx)
    ensures forall i {:trigger i in idx} | 0 <= i < |ps| ::
      HasId(region, ps[i]) &&
      (i in idx <==> ps[i] in live && WordAt(region, ps[i].offset + 4) != 0 &&
                     (ps[i].offset + 4 - WordAt(region, ps[i].offset + 4)) % 0x1_0000_0000 == offset)
    decreases |ps|
  {
    if ps == [] {
      idx := [];
    } else {
      var n := |ps| - 1;
      var before := FdesPicked(region, ps[..n], live, offset);
      idx := PickNext(ps, FdesUnder(region, ps[..n], live, offset), before, Under(region, ps[n], live, offset));
    }
  }

  lemma {:induction false} NoneUnder(region: seq<byte>, ps: seq<EhFramePiece>, live: set<EhFramePiece>, offset: nat)
    requires Readable(region, ps) && forall i | 0 <= i < |ps| :: !Under(region, ps[i], live, offset)
    ensures FdesUnder(region, ps, live, offset) == []
    decreases |ps|
  {
    if ps != [] {
      NoneUnder(region, ps[..|ps| - 1], live, offset);
    }
  }

  /** No description is under a CIE behind all of them. */
  lemma NoneUnderNew(region: seq<byte>, ps: seq<EhFramePiece>, live: set<EhFramePiece>, p: EhFramePiece)
    requires Readable(region, ps) && AllNameEarlier(region, ps) && forall i | 0 <= i < |ps| :: ps[i].offset != p.offset
    ensures FdesUnder(region, ps, live, p.offset) == []
  {
    forall i | 0 <= i < |ps| ensures !Under(region, ps[i], live, p.offset) {
      assert NamesEarlier(region, ps, i);
      if IdOf(region, ps[i]) != 0 {
        var j: nat :| Names(region, ps, i, j);
        assert ps[j].offset != p.offset;
      }
    }
    NoneUnder(region, ps, live, p.offset);
  }

  // ---- one more piece -------------------------------------------------------------------------

  lemma ListsGrow(region: seq<byte>, ps: seq<EhFramePiece>, live: set<EhFramePiece>, p: EhFramePiece, offset: nat)
    requires Readable(region, ps) && HasId(region, p)
    ensures Readable(region, ps + [p])
    ensures CiesAmong(region, ps + [p]) == CiesAmong(region, ps) + if IdOf(region, p) == 0 then [p] else []
    ensures FdesUnder(region, ps + [p], live, offset) ==
      FdesUnder(region, ps, live, offset) + if Under(region, p, live, offset) then [p] else []
  {
    assert (ps + [p])[..|ps|] == ps;
  }

  lemma OneMoreCie(region: seq<byte>, ps: seq<EhFramePiece>, live: set<EhFramePiece>, cies: seq<EhFrameCIE>,
                   p: EhFramePiece)
    requires Readable(region, ps) && HasId(region, p) && IdOf(region, p) == 0
    requires Grouped(region, ps, live, cies) && FdesUnder(region, ps, live, p.offset) == []
    ensures Readable(region, ps + [p]) && Grouped(region, ps + [p], live, cies + [EhFrameCIE(p, [])])
  {
    var more, now := ps + [p], cies + [EhFrameCIE(p, [])];
    ListsGrow(region, ps, live, p, p.offset);
    forall k | 0 <= k < |now| ensures GroupOf(region, more, live, now[k], CiesAmong(region, more)[k]) {
      if k < |cies| {
        assert GroupOf(region, ps, live, cies[k], CiesAmong(region, ps)[k]);
        ListsGrow(region, ps, live, p, cies[k].cie.offset);
      }
    }
  }

  /** The groups with one more description put under CIE k if it is live. */
  function PutUnder(cies: seq<EhFrameCIE>, k: nat, p: EhFramePiece, live: set<EhFramePiece>): (r: seq<EhFrameCIE>)
    requires k < |cies|
    ensures |r| == |cies| && r[k].cie == cies[k].cie && forall l | 0 <= l < |cies| && l != k :: r[l] == cies[l]
  {
    if p in live then cies[k := EhFrameCIE(cies[k].cie, cies[k].fdes + [p])] else cies
  }

  lemma OneMoreFde(region: seq<byte>, ps: seq<EhFramePiece>, live: set<EhFramePiece>, cies: seq<EhFrameCIE>,
                   p: EhFramePiece, k: nat)
    requires Readable(region, ps) && HasId(region, p) && IdOf(region, p) != 0 && OffsetsDiffer(ps)
    requires Grouped(region, ps, live, cies) && k < |cies| && CiesAmong(region, ps)[k].offset == CieOffset(region, p)
    ensures Readable(region, ps + [p]) && Grouped(region, ps + [p], live, PutUnder(cies, k, p, live))
  {
    var more, now := ps + [p], PutUnder(cies, k, p, live);
    ListsGrow(region, ps, live, p, 0);
    forall l | 0 <= l < |now| ensures GroupOf(region, more, live, now[l], CiesAmong(region, more)[l]) {
      assert GroupOf(region, ps, live, cies[l], CiesAmong(region, ps)[l]);
      ListsGrow(region, ps, live, p, cies[l].cie.offset);
      if l < k {
        CiesOrdered(region, ps, l, k);
      } else if k < l {
        CiesOrdered(region, ps, k, l);
      }
    }
  }

  lemma IndexedCie(region: seq<byte>, ps: seq<EhFramePiece>, offsetToCie: map<nat, nat>, p: EhFramePiece)
    requires Readable(region, ps + [p]) && IdOf(region, p) == 0
    requires Readable(region, ps) && Indexed(region, ps, offsetToCie)
    ensures Indexed(region, ps + [p], offsetToCie[p.offset := |CiesAmong(region, ps)|])
  {
    assert (ps + [p])[..|ps|] == ps;
  }

  lemma IndexedFde(region: seq<byte>, ps: seq<EhFramePiece>, offsetToCie: map<nat, nat>, p: EhFramePiece)
    requires Readable(region, ps + [p]) && IdOf(region, p) != 0
    requires Readable(region, ps) && Indexed(region, ps, offsetToCie)
    ensures Indexed(region, ps + [p], offsetToCie)
    ensures NamesEarlier(region, ps + [p], |ps|) <==> CieOffset(region, p) as nat in offsetToCie
  {
    var more := ps + [p];
    assert more[..|ps|] == ps;
    if CieOffset(region, p) as nat in offsetToCie {
      var j := CieAmong(region, ps, offsetToCie[CieOffset(region, p)]);
      assert Names(region, more, |ps|, j);
    }
    if NamesEarlier(region, more, |ps|) {
      var j: nat :| Names(region, more, |ps|, j);
      assert ps[j] == more[j];
    }
  }

  lemma NamesStay(region: seq<byte>, ps: seq<EhFramePiece>, p: EhFramePiece)
    requires Readable(region, ps + [p]) && Readable(region, ps)
    ensures AllNameEarlier(region, ps + [p]) <==> AllNameEarlier(region, ps) && NamesEarlier(region, ps + [p], |ps|)
  {
    var more := ps + [p];
    forall i | 0 <= i < |ps| ensures NamesEarlier(region, more, i) <==> NamesEarlier(region, ps, i) {
      assert forall j: nat | j < i :: Names(region, more, i, j) <==> Names(region, ps, i, j);
    }
  }

  lemma NotAll(region: seq<byte>, ps: seq<EhFramePiece>, i: nat)
    requires Readable(region, ps) && i < |ps| && Readable(region, ps[..i + 1]) && !NamesEarlier(region, ps[..i + 1], i)
    ensures !AllNameEarlier(region, ps)
  {
    if NamesEarlier(region, ps, i) {
      var j: nat :| Names(region, ps, i, j);
      assert Names(region, ps[..i + 1], i, j);
    }
  }

  /** What the loop has after the pieces ps. */
  ghost predicate ReadTo(region: seq<byte>, ps: seq<EhFramePiece>, live: set<EhFramePiece>, cies: seq<EhFrameCIE>,
                         offsetToCie: map<nat, nat>) {
    && Readable(region, ps) && OffsetsDiffer(ps) && AllNameEarlier(region, ps)
    && Grouped(region, ps, live, cies) && Indexed(region, ps, offsetToCie)
  }

  lemma ReadCie(region: seq<byte>, ps: seq<EhFramePiece>, live: set<EhFramePiece>, cies: seq<EhFrameCIE>,
                offsetToCie: map<nat, nat>, p: EhFramePiece)
    requires ReadTo(region, ps, live, cies, offsetToCie) && HasId(region, p) && IdOf(region, p) == 0
    requires OffsetsDiffer(ps + [p])
    ensures ReadTo(region, ps + [p], live, cies + [EhFrameCIE(p, [])], offsetToCie[p.offset := |cies|])
  {
    forall i | 0 <= i < |ps| ensures ps[i].offset != p.offset {
      assert (ps + [p])[i] == ps[i] && (ps + [p])[|ps|] == p;
    }
    NoneUnderNew(region, ps, live, p);
    OneMoreCie(region, ps, live, cies, p);
    IndexedCie(region, ps, offsetToCie, p);
    NamesStay(region, ps, p);
  }

  lemma ReadFde(region: seq<byte>, ps: seq<EhFramePiece>, live: set<EhFramePiece>, cies: seq<EhFrameCIE>,
                offsetToCie: map<nat, nat>, p: EhFramePiece)
    requires ReadTo(region, ps, live, cies, offsetToCie) && HasId(region, p) && IdOf(region, p) != 0
    requires OffsetsDiffer(ps + [p])
    ensures Readable(region, ps + [p]) &&
      (NamesEarlier(region, ps + [p], |ps|) <==> CieOffset(region, p) as nat in offsetToCie)
    ensures CieOffset(region, p) as nat in offsetToCie ==>
      && offsetToCie[CieOffset(region, p)] < |cies|
      && ReadTo(region, ps + [p], live, PutUnder(cies, offsetToCie[CieOffset(region, p)], p, live), offsetToCie)
  {
    assert forall q | q in ps + [p] :: HasId(region, q);
    IndexedFde(region, ps, offsetToCie, p);
    if CieOffset(region, p) as nat in offsetToCie {
      OneMoreFde(region, ps, live, cies, p, offsetToCie[CieOffset(region, p)]);
      NamesStay(region, ps, p);
    }
  }

  lemma OffsetsDifferTo(ps: seq<EhFramePiece>, k: nat)
    requires OffsetsDiffer(ps) && k <= |ps|
    ensures OffsetsDiffer(ps[..k])
  {
  }

  /** One more piece; fails if it is a description that names no earlier CIE. */
  method ReadPiece(region: seq<byte>, ghost ps: seq<EhFramePiece>, live: set<EhFramePiece>, cies: seq<EhFrameCIE>,
                   offsetToCie: map<nat, nat>, p: EhFramePiece)
    returns (ok: bool, moreCies: seq<EhFrameCIE>, moreOffsets: map<nat, nat>)
    requires ReadTo(region, ps, live, cies, offsetToCie) && HasId(region, p) && OffsetsDiffer(ps + [p])
    ensures Readable(region, ps + [p]) && (ok <==> NamesEarlier(region, ps + [p], |ps|))
    ensures ok ==> ReadTo(region, ps + [p], live, moreCies, moreOffsets)
  {
    if IdOf(region, p) == 0 {
      ReadCie(region, ps, live, cies, offsetToCie, p);
      return true, cies + [EhFrameCIE(p, [])], offsetToCie[p.offset := |cies|];
    }
    ReadFde(region, ps, live, cies, offsetToCie, p);
    if CieOffset(region, p) as nat !in offsetToCie {
      return false, cies, offsetToCie;
    }
    return true, PutUnder(cies, offsetToCie[CieOffset(region, p)], p, live), offsetToCie;
  }

  lemma TakeOneMore<T>(xs: seq<T>, i: nat)
    requires i < |xs|
    ensures xs[..i + 1] == xs[..i] + [xs[i]]
  {
  }

  lemma NextEntry(region: seq<byte>, pieces: seq<EhFramePiece>, i: nat)
    requires Readable(region, Entries(pieces)) && OffsetsDiffer(Entries(pieces))
    requires i < |pieces| && pieces[i].size != 4 && i <= |Entries(pieces)|
    ensures i < |Entries(pieces)| && HasId(region, pieces[i])
    ensures Entries(pieces)[..i + 1] == Entries(pieces)[..i] + [pieces[i]] &&
      OffsetsDiffer(Entries(pieces)[..i] + [pieces[i]])
  {
    var ps := Entries(pieces);
    EntryAt(pieces, i);
    OffsetsDifferTo(ps, i + 1);
    TakeOneMore(ps, i);
    assert ps[i] in ps;
  }

  /** Puts every live description under the CIE it names; fails exactly if some description before the end
      marker, live or not, names no earlier CIE. */
  method CreateCieAndFdeFragments(region: seq<byte>, pieces: seq<EhFramePiece>, live: set<EhFramePiece>)
    returns (ok: bool, cies: seq<EhFrameCIE>)
    requires Readable(region, Entries(pieces)) && OffsetsDiffer(Entries(pieces))
    ensures ok <==> AllNameEarlier(region, Entries(pieces))
    ensures ok ==> Grouped(region, Entries(pieces), live, cies)
  {
    ghost var ps := Entries(pieces);
    cies := [];
    var offsetToCie: map<nat, nat> := map[];
    var i := 0;
    while i < |pieces| && pieces[i].size != 4
      invariant i <= |ps| && ReadTo(region, ps[..i], live, cies, offsetToCie)
    {
      NextEntry(region, pieces, i);
      ok, cies, offsetToCie := ReadPiece(region, ps[..i], live, cies, offsetToCie, pieces[i]);
      if !ok {
        NotAll(region, ps, i);
        return false, cies;
      }
      i := i + 1;
    }
    assert ps[..i] == ps;
    return true, cies;
  }

  // ---- from the groups to the output ----------------------------------------------------------

  /** The piece is the CIE at the offset or a description that names it. */
  ghost predicate Belongs(region: seq<byte>, p: EhFramePiece, offset: nat) {
    HasId(region, p) && offset == if IdOf(region, p) == 0 then p.offset else CieOffset(region, p) as nat
  }

  lemma Members(region: seq<byte>, ps: seq<EhFramePiece>, live: set<EhFramePiece>, cies: seq<EhFrameCIE>, k: nat)
    requires Readable(region, ps) && Grouped(region, ps, live, cies) && k < |cies|
    ensures cies[k].cie in ps && IdOf(region, cies[k].cie) == 0
    ensures forall p | p in cies[k].fdes :: p in ps && p in live && IdOf(region, p) != 0
    ensures forall p | p in PiecesOf(cies[k]) :: p in ps && Belongs(region, p, cies[k].cie.offset)
  {
    var c := cies[k];
    assert GroupOf(region, ps, live, c, CiesAmong(region, ps)[k]);
    var j := CieAmong(region, ps, k);
    forall p | p in c.fdes ensures p in ps && Under(region, p, live, c.cie.offset) {
      var m :| 0 <= m < |c.fdes| && c.fdes[m] == p;
      var i := FdeAmong(region, ps, live, c.cie.offset, m);
    }
  }

  lemma {:induction false} FdesDiffer(region: seq<byte>, ps: seq<EhFramePiece>, live: set<EhFramePiece>, offset: nat)
    requires Readable(region, ps) && OffsetsDiffer(ps)
    ensures NoRepeats(FdesUnder(region, ps, live, offset))
    decreases |ps|
  {
    if ps != [] {
      var n := |ps| - 1;
      var before := FdesUnder(region, ps[..n], live, offset);
      FdesDiffer(region, ps[..n], live, offset);
      forall m | 0 <= m < |before| ensures before[m] != ps[n] {
        var i := FdeAmong(region, ps[..n], live, offset, m);
        assert ps[i].offset != ps[n].offset;
      }
    }
  }

  lemma GroupsApart(region: seq<byte>, ps: seq<EhFramePiece>, live: set<EhFramePiece>, cies: seq<EhFrameCIE>, k: nat,
                    l: nat)
    requires Readable(region, ps) && OffsetsDiffer(ps) && Grouped(region, ps, live, cies) && k < |cies| && l < |cies| &&
      k != l
    ensures Apart(cies[k], cies[l])
  {
    Members(region, ps, live, cies, k);
    Members(region, ps, live, cies, l);
    assert GroupOf(region, ps, live, cies[k], CiesAmong(region, ps)[k]);
    assert GroupOf(region, ps, live, cies[l], CiesAmong(region, ps)[l]);
    if k < l {
      CiesOrdered(region, ps, k, l);
    } else {
      CiesOrdered(region, ps, l, k);
    }
  }

  /** The groups the reader makes of a section are those a fragment can be laid out and emitted from. */
  lemma GroupedValid(frag: EhFrameFragment, ps: seq<EhFramePiece>, live: set<EhFramePiece>)
    requires Readable(frag.region, ps) && OffsetsDiffer(ps) && Grouped(frag.region, ps, live, frag.cies)
    requires forall p | p in ps :: InRegion(frag.region, p)
    requires forall k | 0 <= k < |frag.cies| :: PiecesOf(frag.cies[k]) <= frag.pieces
    ensures frag.Valid()
  {
    var cies := frag.cies;
    forall k | 0 <= k < |cies| ensures AllInRegion(frag.region, cies[k]) && PiecesDistinct(cies[k]) {
      Members(frag.region, ps, live, cies, k);
      assert GroupOf(frag.region, ps, live, cies[k], CiesAmong(frag.region, ps)[k]);
      FdesDiffer(frag.region, ps, live, cies[k].cie.offset);
    }
    forall k, l | 0 <= k < |cies| && 0 <= l < |cies| && k != l ensures Apart(cies[k], cies[l]) {
      GroupsApart(frag.region, ps, live, cies, k, l);
    }
  }

  /** Every record before the end marker has room for both words emission rewrites. */
  ghost predicate RecordsLinkable(region: seq<byte>) {
    Records(region, 0).Some? ==> forall x | x in Records(region, 0).value && x.size != 4 :: 8 <= x.size < 0x1_0000_0000
  }

  lemma EntriesInRegion(region: seq<byte>, pieces: seq<EhFramePiece>)
    requires RecordsLinkable(region) && Records(region, 0).Some? && PiecesFor(pieces, Records(region, 0).value)
    ensures forall p | p in Entries(pieces) :: InRegion(region, p) && HasId(region, p)
    ensures OffsetsDiffer(Entries(pieces)) && Follow(pieces)
  {
    var xs := Records(region, 0).value;
    PiecesOfRecords(region, pieces);
    forall p | p in Entries(pieces) ensures InRegion(region, p) {
      var i :| 0 <= i < |Entries(pieces)| && Entries(pieces)[i] == p;
      assert pieces[i] == p && xs[i] in xs && PieceFits(region, pieces, i);
    }
    OffsetsDifferTo(pieces, |Entries(pieces)|);
  }

  lemma PiecesAmong(frag: EhFrameFragment, ps: seq<EhFramePiece>, live: set<EhFramePiece>)
    requires Readable(frag.region, ps) && Grouped(frag.region, ps, live, frag.cies)
    requires frag.pieces == set c, p | c in frag.cies && p in PiecesOf(c) :: p
    ensures forall p | p in frag.pieces :: p in ps
  {
    forall k | 0 <= k < |frag.cies| ensures forall p | p in PiecesOf(frag.cies[k]) :: p in ps {
      Members(frag.region, ps, live, frag.cies, k);
    }
  }

  method NewFragment(region: seq<byte>, ghost ps: seq<EhFramePiece>, ghost live: set<EhFramePiece>,
                     cies: seq<EhFrameCIE>)
    returns (frag: EhFrameFragment)
    requires Readable(region, ps) && OffsetsDiffer(ps) && Grouped(region, ps, live, cies)
    requires forall p | p in ps :: InRegion(region, p)
    ensures fresh(frag) && frag.region == region && frag.cies == cies && frag.Valid()
    ensures forall p | p in frag.pieces :: p in ps
  {
    frag := new EhFrameFragment(region, cies);
    GroupedValid(frag, ps, live);
    PiecesAmong(frag, ps, live);
  }

  /** Reads a section; the descriptions at the live offsets are to be kept. Nothing comes of it exactly if its
      records do not fill it or some description names no earlier CIE; otherwise the fragment can be laid out
      and emitted. */
  method ReadFrames(region: seq<byte>, live: set<nat>)
    returns (r: Option<EhFrameFragment>, pieces: seq<EhFramePiece>, ghost kept: set<EhFramePiece>)
    requires RecordsLinkable(region)
    ensures Records(region, 0).Some? ==> PiecesFor(pieces, Records(region, 0).value)
    ensures Readable(region, Entries(pieces)) && kept == set p | p in pieces && p.offset in live
    ensures r.Some? <==> Records(region, 0).Some? && AllNameEarlier(region, Entries(pieces))
    ensures r.Some? ==> r.value.region == region && r.value.Valid()
    ensures r.Some? ==> Grouped(region, Entries(pieces), kept, r.value.cies)
    ensures Follow(pieces) && (r.Some? ==> forall p | p in r.value.pieces :: p in pieces)
    ensures forall p | p in pieces :: fresh(p)
    ensures r.Some? ==> fresh(r.value)
  {
    var xs := Split(region);
    if xs.None? {
      return None, [], {};
    }
    pieces := AddPieces(xs.value);
    EntriesInRegion(region, pieces);
    var livePieces := set p | p in pieces && p.offset in live;
    kept := livePieces;
    var ok, cies := CreateCieAndFdeFragments(region, pieces, livePieces);
    if !ok {
      return None, pieces, kept;
    }
    var frag := NewFragment(region, Entries(pieces), kept, cies);
    return Some(frag), pieces, kept;
  }

  /** Every description that is live is put under the very CIE it names. */
  lemma LiveUnder(region: seq<byte>, ps: seq<EhFramePiece>, live: set<EhFramePiece>, cies: seq<EhFrameCIE>, i: nat,
                  j: nat)
    returns (k: nat, m: nat)
    requires Readable(region, ps) && Grouped(region, ps, live, cies) && i < |ps| && Names(region, ps, i, j) &&
      ps[i] in live
    ensures k < |cies| && m < |cies[k].fdes| && cies[k].cie == ps[j] && cies[k].fdes[m] == ps[i]
  {
    k := CieListed(region, ps, j);
    assert GroupOf(region, ps, live, cies[k], CiesAmong(region, ps)[k]);
    m := FdeListed(region, ps, live, ps[j].offset, i);
  }

  ghost predicate InGroup(cies: seq<EhFrameCIE>, k: nat, p: EhFramePiece) {
    k < |cies| && p in cies[k].fdes
  }

  /** A description is kept exactly if it is live. */
  lemma KeptIffLive(region: seq<byte>, ps: seq<EhFramePiece>, live: set<EhFramePiece>, cies: seq<EhFrameCIE>, i: nat)
    requires Readable(region, ps) && Grouped(region, ps, live, cies) && AllNameEarlier(region, ps)
    requires i < |ps| && HasId(region, ps[i]) && WordAt(region, ps[i].offset + 4) != 0
    ensures (exists k: nat :: InGroup(cies, k, ps[i])) <==> ps[i] in live
  {
    if k: nat :| InGroup(cies, k, ps[i]) {
      Members(region, ps, live, cies, k);
    }
    if ps[i] in live {
      assert NamesEarlier(region, ps, i);
      var j: nat :| Names(region, ps, i, j);
      var k, m := LiveUnder(region, ps, live, cies, i, j);
      assert InGroup(cies, k, ps[i]);
    }
  }

  /** In the output every live description leads to the image of the very CIE it led to in the input. */
  lemma LeadsToItsCie(frag: EhFrameFragment, ps: seq<EhFramePiece>, live: set<EhFramePiece>, out: seq<byte>, i: nat,
                      j: nat)
    requires Readable(frag.region, ps) && Grouped(frag.region, ps, live, frag.cies)
    requires frag.Valid() && frag.LaidOut() && frag.Written(out, |frag.cies|) && frag.padding == 0
    requires forall k {:trigger SmallGroup(frag.cies[k])} | 0 <= k < |frag.cies| :: SmallGroup(frag.cies[k])
    requires i < |ps| && Names(frag.region, ps, i, j) && ps[i] in live
    ensures 0 <= ps[j].outputOffset && CieAt(out, ps[j].outputOffset, frag.region, ps[j])
    ensures 0 <= ps[i].outputOffset && FdeAt(out, ps[i].outputOffset, frag.region, ps[i], ps[j].outputOffset)
  {
    var k, m := LiveUnder(frag.region, ps, live, frag.cies, i, j);
    var c, at := frag.cies[k], frag.offset + Start(frag.cies, k);
    assert frag.CieLaidOut(k) && FdeLaidOut(c, at, m) && frag.CieWritten(out, k);
    assert CieLeft(frag.region, c.cie, at, at) == CieImage(frag.region, c.cie);
    CieHeld(out, at, frag.region, c.cie);
    assert FdeWritten(out, frag.region, c, at, at, m) && SmallGroup(c);
    FdeWrittenAt(out, frag.region, c, at, m);
  }

  lemma FdeWrittenAt(out: seq<byte>, region: seq<byte>, c: EhFrameCIE, at: nat, m: nat)
    requires m < |c.fdes| && FdeWritten(out, region, c, at, at, m) && SmallGroup(c)
    ensures FdeAt(out, at + GroupSize(c, m), region, c.fdes[m], at)
  {
    var back := GroupSize(c, m) + 4;
    GroupSizeMonotone(c, m, |c.fdes|);
    SmallBack(GroupSize(c, m));
    assert Back(at + GroupSize(c, m), at) == Back(GroupSize(c, m), 0);
    FdeReads(region, c.fdes[m], back);
    FdeHeld(out, at + GroupSize(c, m), FdeImage(region, c.fdes[m], back), region, c.fdes[m], back);
  }
}
