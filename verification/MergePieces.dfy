/** The pieces of mergeable sections: what a string and a constant have in common. Pieces that are
    not excluded are laid out and emitted one behind the other, in input order. */
module MergePieces {
  import opened Wrappers
  import opened Words
  import opened Sums
  import opened Buffers

  const UNASSIGNED := 0xFFFF_FFFF

  class Piece {
    const data: seq<byte>
    const inputOffset: nat
    const alignment: nat
    var outputOffset: nat
    var exclude: bool

    constructor (data: seq<byte>, inputOffset: nat, alignment: nat)
      ensures this.data == data && this.inputOffset == inputOffset && this.alignment == alignment
      ensures outputOffset == UNASSIGNED && !exclude
    {
      this.data, this.inputOffset, this.alignment := data, inputOffset, alignment;
      outputOffset, exclude := UNASSIGNED, false;
    }
  }

  /** Where piece i starts when the pieces before it follow one another from 0. */
  function TileStart(ps: seq<Piece>, i: nat): nat
    requires i <= |ps|
  {
    if i == 0 then 0 else ps[i - 1].inputOffset + |ps[i - 1].data|
  }

  /** p is a non-empty stretch of the first end bytes of the contents. */
  ghost predicate CutFrom(contents: seq<byte>, p: Piece, end: nat)
    requires end <= |contents|
  {
    && p.data != [] && p.inputOffset + |p.data| <= end
    && contents[p.inputOffset..p.inputOffset + |p.data|] == p.data
  }

  /** The first end bytes of a section's contents, cut into consecutive pieces. */
  ghost predicate TilesTo(contents: seq<byte>, ps: seq<Piece>, end: nat) {
    && end <= |contents|
    && (forall i | 0 <= i < |ps| :: CutFrom(contents, ps[i], end))
    && (forall i {:trigger TileStart(ps, i)} | 0 <= i < |ps| :: ps[i].inputOffset == TileStart(ps, i))
    && TileStart(ps, |ps|) == end
  }

  ghost predicate Tiles(contents: seq<byte>, ps: seq<Piece>) {
    TilesTo(contents, ps, |contents|)
  }

  lemma TileStartSnoc(ps: seq<Piece>, p: Piece, i: nat)
    requires i <= |ps|
    ensures TileStart(ps + [p], i) == TileStart(ps, i)
  {
  }

  lemma TilesSnoc(contents: seq<byte>, ps: seq<Piece>, end: nat, p: Piece)
    requires TilesTo(contents, ps, end) && p.inputOffset == end && p.data != []
    requires end + |p.data| <= |contents| && contents[end..end + |p.data|] == p.data
    ensures TilesTo(contents, ps + [p], end + |p.data|)
  {
    var now := ps + [p];
    forall i | 0 <= i < |now| ensures now[i].inputOffset == TileStart(now, i) {
      TileStartSnoc(ps, p, i);
    }
    forall i | 0 <= i < |now| ensures CutFrom(contents, now[i], end + |p.data|) {
      assert i < |ps| ==> CutFrom(contents, ps[i], end);
    }
  }

  lemma {:induction false} TilesOrdered(contents: seq<byte>, ps: seq<Piece>, end: nat, i: nat, j: nat)
    requires TilesTo(contents, ps, end) && i < j < |ps|
    ensures ps[i].inputOffset + |ps[i].data| <= ps[j].inputOffset
    decreases j
  {
    assert ps[j].inputOffset == TileStart(ps, j);
    if i < j - 1 {
      TilesOrdered(contents, ps, end, i, j - 1);
    }
  }

  predicate Covers(p: Piece, offset: nat) {
    p.inputOffset <= offset < p.inputOffset + |p.data|
  }

  /** The piece containing an offset is unique. */
  lemma CoveredOnce(contents: seq<byte>, ps: seq<Piece>, offset: nat, i: nat, j: nat)
    requires Tiles(contents, ps) && i < |ps| && j < |ps| && Covers(ps[i], offset) && Covers(ps[j], offset)
    ensures i == j
  {
    if i < j {
      TilesOrdered(contents, ps, |contents|, i, j);
    } else if j < i {
      TilesOrdered(contents, ps, |contents|, j, i);
    }
  }

  // ---- layout ---------------------------------------------------------------------------------

  /** How many bytes each piece emits. */
  function Lengths(ps: seq<Piece>): (r: seq<nat>)
    reads (set p | p in ps)`exclude
    ensures |r| == |ps|
    ensures forall i | 0 <= i < |ps| :: r[i] == if ps[i].exclude then 0 else |ps[i].data|
  {
    if ps == [] then [] else
      var n := |ps| - 1;
      Lengths(ps[..n]) + [if ps[n].exclude then 0 else |ps[n].data|]
  }

  method Size(ps: seq<Piece>) returns (size: nat)
    ensures size == Total(Lengths(ps))
  {
    size := 0;
    for i := 0 to |ps|
      invariant size == Before(Lengths(ps), i)
    {
      size := size + if ps[i].exclude then 0 else |ps[i].data|;
    }
  }

  /** A kept piece sits behind the kept pieces before it. */
  ghost predicate InPlace(p: Piece, lengths: seq<nat>, start: nat, i: nat)
    requires i < |lengths|
    reads p
  {
    !p.exclude ==> p.outputOffset == start + Before(lengths, i)
  }

  ghost predicate LaidOut(ps: seq<Piece>, lengths: seq<nat>, start: nat)
    requires |lengths| == |ps|
    reads ps
  {
    forall i {:trigger InPlace(ps[i], lengths, start, i)} | 0 <= i < |ps| :: InPlace(ps[i], lengths, start, i)
  }

  /** The kept pieces sit end to end behind start. */
  ghost predicate PlacedAt(ps: seq<Piece>, start: nat)
    reads ps
  {
    LaidOut(ps, Lengths(ps), start)
  }

  lemma {:induction false} NothingBetween(lengths: seq<nat>, i: nat, j: nat)
    requires i <= j <= |lengths| && forall k | i <= k < j :: lengths[k] == 0
    ensures Before(lengths, i) == Before(lengths, j)
    decreases j
  {
    if i < j {
      NothingBetween(lengths, i, j - 1);
    }
  }

  /** No piece from i up to j is kept. */
  ghost predicate NoneKept(ps: seq<Piece>, i: nat, j: nat)
    requires j <= |ps|
    reads (set p | p in ps)`exclude
  {
    forall k | i <= k < j :: ps[k].exclude
  }

  lemma NoneKeptNothing(ps: seq<Piece>, i: nat, j: nat)
    requires i <= j <= |ps| && NoneKept(ps, i, j)
    ensures Before(Lengths(ps), i) == Before(Lengths(ps), j)
  {
    NothingBetween(Lengths(ps), i, j);
  }

  /** The first kept piece is at the start. */
  lemma KeptFirst(ps: seq<Piece>, start: nat, i: nat)
    requires PlacedAt(ps, start) && i < |ps| && !ps[i].exclude && NoneKept(ps, 0, i)
    ensures ps[i].outputOffset == start
  {
    assert InPlace(ps[i], Lengths(ps), start, i);
    NoneKeptNothing(ps, 0, i);
  }

  /** The last kept piece ends where the size says. */
  lemma KeptLast(ps: seq<Piece>, start: nat, i: nat)
    requires PlacedAt(ps, start) && i < |ps| && !ps[i].exclude && NoneKept(ps, i + 1, |ps|)
    ensures start + Total(Lengths(ps)) == ps[i].outputOffset + |ps[i].data|
  {
    assert InPlace(ps[i], Lengths(ps), start, i);
    NoneKeptNothing(ps, i + 1, |ps|);
  }

  /** Each kept piece is where the kept one before it ends. */
  lemma KeptFollow(ps: seq<Piece>, start: nat, i: nat, j: nat)
    requires PlacedAt(ps, start) && i < j < |ps| && !ps[i].exclude && !ps[j].exclude && NoneKept(ps, i + 1, j)
    ensures ps[j].outputOffset == ps[i].outputOffset + |ps[i].data|
  {
    assert InPlace(ps[i], Lengths(ps), start, i) && InPlace(ps[j], Lengths(ps), start, j);
    NoneKeptNothing(ps, i + 1, j);
  }

  method AssignOutputOffsets(ps: seq<Piece>, start: nat, ghost lengths: seq<nat>)
    requires NoRepeats(ps) && lengths == Lengths(ps)
    modifies (set p | p in ps)`outputOffset
    ensures LaidOut(ps, lengths, start)
    ensures forall i | 0 <= i < |ps| && ps[i].exclude :: ps[i].outputOffset == old(ps[i].outputOffset)
  {
    var offset := start;
    for i := 0 to |ps|
      invariant offset == start + Before(lengths, i)
      invariant forall j {:trigger InPlace(ps[j], lengths, start, j)} | 0 <= j < i :: InPlace(ps[j], lengths, start, j)
      invariant forall j | 0 <= j < |ps| && (ps[j].exclude || i <= j) :: ps[j].outputOffset == old(ps[j].outputOffset)
    {
      assert lengths[i] == if ps[i].exclude then 0 else |ps[i].data|;
      if !ps[i].exclude {
        ps[i].outputOffset := offset;
        offset := offset + |ps[i].data|;
      }
    }
  }

  // ---- emission -------------------------------------------------------------------------------

  /** The output holds the piece's bytes at its output offset. */
  ghost predicate Emitted(out: seq<byte>, p: Piece)
    reads p
  {
    Holds(out, p.outputOffset, p.data)
  }

  /** If piece j is kept, the bytes are there. */
  ghost predicate PieceHeld(out: seq<byte>, ps: seq<Piece>, lengths: seq<nat>, start: nat, j: nat)
    requires j < |ps| == |lengths|
  {
    lengths[j] == |ps[j].data| ==> Holds(out, start + Before(lengths, j), ps[j].data)
  }

  lemma HoldsNext(was: seq<byte>, now: seq<byte>, ps: seq<Piece>, lengths: seq<nat>, start: nat, i: nat)
    requires i < |ps| == |lengths| && |was| == start + Before(lengths, i)
    requires forall j | 0 <= j < i :: PieceHeld(was, ps, lengths, start, j)
    requires now == if lengths[i] == |ps[i].data| then was + ps[i].data else was
    ensures forall j | 0 <= j <= i :: PieceHeld(now, ps, lengths, start, j)
  {
    HoldsBehind(was, ps[i].data);
    forall j | 0 <= j <= i ensures PieceHeld(now, ps, lengths, start, j) {
      if j < i {
        assert PieceHeld(was, ps, lengths, start, j);
        if lengths[j] == |ps[j].data| && now != was {
          StillHolds(was, now, start + Before(lengths, j), ps[j].data);
        }
      }
    }
  }

  method Emit(ps: seq<Piece>, start: nat, out: array<byte>, ghost lengths: seq<nat>)
    requires lengths == Lengths(ps) && start + Total(lengths) <= out.Length
    modifies out
    ensures forall j | 0 <= j < |ps| :: PieceHeld(out[..], ps, lengths, start, j)
    ensures forall k | 0 <= k < start || start + Total(lengths) <= k < out.Length :: out[k] == old(out[k])
  {
    var at := start;
    ghost var emitted := out[..at];
    for i := 0 to |ps|
      invariant at == start + Before(lengths, i) <= out.Length && out[..at] == emitted
      invariant forall j | 0 <= j < i :: PieceHeld(emitted, ps, lengths, start, j)
      invariant forall k | 0 <= k < start || at <= k < out.Length :: out[k] == old(out[k])
    {
      assert lengths[i] == if ps[i].exclude then 0 else |ps[i].data|;
      BeforeMonotone(lengths, i + 1, |ps|);
      ghost var next := if lengths[i] == |ps[i].data| then emitted + ps[i].data else emitted;
      HoldsNext(emitted, next, ps, lengths, start, i);
      if !ps[i].exclude {
        CopyBytes(out, at, ps[i].data);
        at := at + |ps[i].data|;
        assert out[..at] == emitted + ps[i].data;
      }
      emitted := next;
    }
    forall j | 0 <= j < |ps| ensures PieceHeld(out[..], ps, lengths, start, j) {
      assert PieceHeld(emitted, ps, lengths, start, j);
      if lengths[j] == |ps[j].data| {
        StillHolds(emitted, out[..], start + Before(lengths, j), ps[j].data);
      }
    }
  }

  /** Laid out and emitted, every kept piece is in the output at its offset. */
  lemma HeldIsEmitted(out: seq<byte>, ps: seq<Piece>, lengths: seq<nat>, start: nat, j: nat)
    requires j < |ps| == |lengths| && !ps[j].exclude && lengths == Lengths(ps)
    requires PieceHeld(out, ps, lengths, start, j) && InPlace(ps[j], lengths, start, j)
    ensures Emitted(out, ps[j])
  {
    assert lengths[j] == |ps[j].data|;
  }

  // ---- a whole output section -----------------------------------------------------------------

  ghost predicate Apart(ps: seq<Piece>, qs: seq<Piece>) {
    forall p | p in ps :: p !in qs
  }

  /** The fragments of one output section: no piece in two of them, and no two output windows meeting. */
  ghost predicate Windows(frags: seq<seq<Piece>>, lens: seq<seq<nat>>, starts: seq<nat>, size: nat) {
    && |lens| == |starts| == |frags|
    && (forall f | 0 <= f < |frags| ::
         NoRepeats(frags[f]) && |lens[f]| == |frags[f]| && starts[f] + Total(lens[f]) <= size)
    && (forall f, g | 0 <= f < g < |frags| :: Apart(frags[f], frags[g]))
    && (forall f, g | 0 <= f < g < |frags| ::
         starts[f] + Total(lens[f]) <= starts[g] || starts[g] + Total(lens[g]) <= starts[f])
  }

  function AllPieces(frags: seq<seq<Piece>>): set<Piece> {
    set f, p | 0 <= f < |frags| && p in frags[f] :: p
  }

  lemma PieceInWindow(was: seq<byte>, now: seq<byte>, ps: seq<Piece>, lengths: seq<nat>, start: nat, j: nat)
    requires |ps| == |lengths| && j < |ps| && start + Total(lengths) <= |was| == |now|
    requires forall k | start <= k < start + Total(lengths) :: now[k] == was[k]
    requires PieceHeld(was, ps, lengths, start, j)
    ensures PieceHeld(now, ps, lengths, start, j)
  {
    BeforeMonotone(lengths, j + 1, |lengths|);
    if lengths[j] == |ps[j].data| {
      var at := start + Before(lengths, j);
      assert now[at..at + |ps[j].data|] == was[at..at + |ps[j].data|];
    }
  }

  /** Fragment f's kept pieces are all in the output. */
  ghost predicate FragmentHeld(out: seq<byte>, ps: seq<Piece>, lengths: seq<nat>, start: nat)
    requires |ps| == |lengths|
  {
    forall j | 0 <= j < |ps| :: PieceHeld(out, ps, lengths, start, j)
  }

  method EmitAll(frags: seq<seq<Piece>>, starts: seq<nat>, out: array<byte>, ghost lens: seq<seq<nat>>)
    requires Windows(frags, lens, starts, out.Length)
    requires forall f | 0 <= f < |frags| :: lens[f] == Lengths(frags[f])
    modifies out
    ensures forall f | 0 <= f < |frags| :: FragmentHeld(out[..], frags[f], lens[f], starts[f])
  {
    for f := 0 to |frags|
      invariant forall g | 0 <= g < f :: FragmentHeld(out[..], frags[g], lens[g], starts[g])
    {
      ghost var was := out[..];
      Emit(frags[f], starts[f], out, lens[f]);
      forall g | 0 <= g < f ensures FragmentHeld(out[..], frags[g], lens[g], starts[g]) {
        forall j | 0 <= j < |frags[g]| ensures PieceHeld(out[..], frags[g], lens[g], starts[g], j) {
          assert PieceHeld(was, frags[g], lens[g], starts[g], j);
          PieceInWindow(was, out[..], frags[g], lens[g], starts[g], j);
        }
      }
    }
  }

  /** The first n fragments' kept pieces have their output offsets. */
  ghost predicate LaidOutTo(frags: seq<seq<Piece>>, lens: seq<seq<nat>>, starts: seq<nat>, n: nat)
    requires |lens| == |starts| == |frags| && n <= |frags|
    requires forall f | 0 <= f < |frags| :: |lens[f]| == |frags[f]|
    reads AllPieces(frags)
  {
    assert forall f, p | 0 <= f < n && p in frags[f] :: p in AllPieces(frags);
    forall f | 0 <= f < n :: LaidOut(frags[f], lens[f], starts[f])
  }

  method LayOutNext(frags: seq<seq<Piece>>, starts: seq<nat>, f: nat, ghost lens: seq<seq<nat>>)
    requires |lens| == |starts| == |frags| && f < |frags| && forall f | 0 <= f < |frags| :: |lens[f]| == |frags[f]|
    requires NoRepeats(frags[f]) && lens[f] == Lengths(frags[f]) && forall g | 0 <= g < f :: Apart(frags[g], frags[f])
    requires LaidOutTo(frags, lens, starts, f)
    modifies (set p | p in frags[f])`outputOffset
    ensures LaidOutTo(frags, lens, starts, f + 1)
  {
    AssignOutputOffsets(frags[f], starts[f], lens[f]);
    assert forall p | p in frags[f] :: p in AllPieces(frags);
    forall g | 0 <= g < f ensures LaidOut(frags[g], lens[g], starts[g]) {
      assert Apart(frags[g], frags[f]);
      assert old(LaidOut(frags[g], lens[g], starts[g]));
    }
  }

  method LayOutAll(frags: seq<seq<Piece>>, starts: seq<nat>, size: nat, ghost lens: seq<seq<nat>>)
    requires Windows(frags, lens, starts, size)
    requires forall f | 0 <= f < |frags| :: lens[f] == Lengths(frags[f])
    modifies AllPieces(frags)`outputOffset
    ensures LaidOutTo(frags, lens, starts, |frags|)
  {
    for f := 0 to |frags|
      invariant forall g | f <= g < |frags| :: lens[g] == Lengths(frags[g])
      invariant LaidOutTo(frags, lens, starts, f)
    {
      assert forall p | p in frags[f] :: p in AllPieces(frags);
      LayOutNext(frags, starts, f, lens);
    }
  }

  /** llvm::offsetToAlignment */
  function Padding(x: nat, a: nat): nat
    requires a > 0
  {
    if Remainder(x, a) == 0 then 0 else a - Remainder(x, a)
  }

  predicate Aligned(x: nat, a: nat) {
    a > 0 && Remainder(x, a) == 0
  }

  lemma PaddingAligns(x: nat, a: nat)
    requires a > 0
    ensures Aligned(x + Padding(x, a), a)
  {
    var q := RemainderOf(x, a);
    assert (q + 1) * a == q * a + a;
    RemainderUnique(x + Padding(x, a), a, if Remainder(x, a) == 0 then q else q + 1, 0);
  }

  /** No address from x up to y is aligned. */
  ghost predicate NoneAligned(x: nat, y: nat, a: nat) {
    x <= y && forall z | x <= z < y :: !Aligned(z, a)
  }

  /** No smaller padding would do. */
  lemma PaddingLeast(x: nat, a: nat)
    requires a > 0
    ensures Padding(x, a) < a && NoneAligned(x, x + Padding(x, a), a)
  {
    var q := RemainderOf(x, a);
    forall z | x <= z < x + Padding(x, a) ensures !Aligned(z, a) {
      RemainderUnique(z, a, q, Remainder(x, a) + (z - x));
    }
  }

  /** Where the fragments before f end. */
  function EndBefore(starts: seq<nat>, lens: seq<seq<nat>>, f: nat): nat
    requires f <= |starts| && f <= |lens|
  {
    if f == 0 then 0 else starts[f - 1] + Total(lens[f - 1])
  }

  /** Fragment f starts at the first address of its alignment behind the one before. */
  ghost predicate StartLeast(starts: seq<nat>, lens: seq<seq<nat>>, alignments: seq<nat>, addr: nat, f: nat)
    requires f < |starts| == |lens| <= |alignments|
  {
    NoneAligned(addr + EndBefore(starts, lens, f), addr + starts[f], alignments[f])
  }

  ghost predicate StartsLeast(starts: seq<nat>, lens: seq<seq<nat>>, alignments: seq<nat>, addr: nat) {
    && |starts| == |lens| <= |alignments|
    && forall f {:trigger StartLeast(starts, lens, alignments, addr, f)} | 0 <= f < |starts| ::
         StartLeast(starts, lens, alignments, addr, f)
  }

  lemma LeastNext(starts: seq<nat>, lens: seq<seq<nat>>, alignments: seq<nat>, addr: nat, start: nat, len: seq<nat>)
    requires StartsLeast(starts, lens, alignments, addr) && |starts| < |alignments|
    requires NoneAligned(addr + EndBefore(starts, lens, |starts|), addr + start, alignments[|starts|])
    ensures StartsLeast(starts + [start], lens + [len], alignments, addr)
    ensures EndBefore(starts + [start], lens + [len], |starts| + 1) == start + Total(len)
  {
    var more, moreLens := starts + [start], lens + [len];
    forall g | 0 <= g < |more| ensures StartLeast(more, moreLens, alignments, addr, g) {
      assert EndBefore(more, moreLens, g) == EndBefore(starts, lens, g);
      if g < |starts| {
        assert StartLeast(starts, lens, alignments, addr, g);
      }
    }
  }

  /** Every fragment starts at an address of its alignment. */
  ghost predicate StartsAligned(starts: seq<nat>, alignments: seq<nat>, addr: nat) {
    |starts| == |alignments| && forall f | 0 <= f < |starts| :: Aligned(addr + starts[f], alignments[f])
  }

  /** Windows given out one behind the other, the last one ending at size. */
  ghost predicate Queued(starts: seq<nat>, lens: seq<seq<nat>>, size: nat) {
    && |starts| == |lens|
    && (forall g | 0 <= g < |starts| :: starts[g] + Total(lens[g]) <= size)
    && forall g, h | 0 <= g < h < |starts| :: starts[g] + Total(lens[g]) <= starts[h]
  }

  lemma QueuedNext(starts: seq<nat>, lens: seq<seq<nat>>, size: nat, start: nat, len: seq<nat>)
    requires Queued(starts, lens, size) && size <= start
    ensures Queued(starts + [start], lens + [len], start + Total(len))
  {
  }

  /** The first fragments have their places, aligned and as early as can be, and end at size. */
  ghost predicate PlacedFirst(starts: seq<nat>, lens: seq<seq<nat>>, alignments: seq<nat>, addr: nat, size: nat) {
    && Queued(starts, lens, size) && StartsLeast(starts, lens, alignments, addr)
    && size == EndBefore(starts, lens, |starts|) && FirstAligned(starts, alignments, addr)
  }

  ghost predicate FirstAligned(starts: seq<nat>, alignments: seq<nat>, addr: nat) {
    |starts| <= |alignments| && forall g | 0 <= g < |starts| :: Aligned(addr + starts[g], alignments[g])
  }

  lemma AlignedNext(starts: seq<nat>, alignments: seq<nat>, addr: nat, start: nat)
    requires FirstAligned(starts, alignments, addr) && |starts| < |alignments|
    requires Aligned(addr + start, alignments[|starts|])
    ensures FirstAligned(starts + [start], alignments, addr)
  {
  }

  lemma PlaceNext(starts: seq<nat>, lens: seq<seq<nat>>, alignments: seq<nat>, addr: nat, size: nat, len: seq<nat>)
    requires PlacedFirst(starts, lens, alignments, addr, size) && |starts| < |alignments| && alignments[|starts|] > 0
    ensures var start := size + Padding(addr + size, alignments[|starts|]);
      PlacedFirst(starts + [start], lens + [len], alignments, addr, start + Total(len))
  {
    var start := size + Padding(addr + size, alignments[|starts|]);
    PaddingAligns(addr + size, alignments[|starts|]);
    PaddingLeast(addr + size, alignments[|starts|]);
    QueuedNext(starts, lens, size, start, len);
    LeastNext(starts, lens, alignments, addr, start, len);
    AlignedNext(starts, alignments, addr, start);
  }

  /** Gives each fragment the next place of its alignment behind the fragments before it, in an output
      section at addr. */
  method PlaceInOrder(frags: seq<seq<Piece>>, alignments: seq<nat>, addr: nat)
    returns (starts: seq<nat>, size: nat, ghost lens: seq<seq<nat>>)
    requires |alignments| == |frags| && forall f | 0 <= f < |frags| :: alignments[f] > 0
    requires forall f | 0 <= f < |frags| :: NoRepeats(frags[f])
    requires forall f, g | 0 <= f < g < |frags| :: Apart(frags[f], frags[g])
    ensures Windows(frags, lens, starts, size) && StartsAligned(starts, alignments, addr)
    ensures StartsLeast(starts, lens, alignments, addr) && size == EndBefore(starts, lens, |frags|)
    ensures forall f | 0 <= f < |frags| :: lens[f] == Lengths(frags[f])
  {
    starts, size, lens := [], 0, [];
    for f := 0 to |frags|
      invariant |starts| == f && PlacedFirst(starts, lens, alignments, addr, size)
      invariant forall g | 0 <= g < f :: lens[g] == Lengths(frags[g])
    {
      var start, end := PlaceOne(frags[f], alignments[f], addr, size, starts, lens, alignments, Lengths(frags[f]));
      starts, lens, size := starts + [start], lens + [Lengths(frags[f])], end;
    }
  }

  method PlaceOne(ps: seq<Piece>, alignment: nat, addr: nat, size: nat,
                  ghost starts: seq<nat>, ghost lens: seq<seq<nat>>, ghost alignments: seq<nat>, ghost len: seq<nat>)
    returns (start: nat, end: nat)
    requires len == Lengths(ps)
    requires PlacedFirst(starts, lens, alignments, addr, size)
    requires |starts| < |alignments| && alignment == alignments[|starts|] > 0
    ensures PlacedFirst(starts + [start], lens + [len], alignments, addr, end)
  {
    PlaceNext(starts, lens, alignments, addr, size, len);
    start := size + Padding(addr + size, alignment);
    var bytes := Size(ps);
    end := start + bytes;
  }

  lemma AllEmitted(out: seq<byte>, frags: seq<seq<Piece>>, lens: seq<seq<nat>>, starts: seq<nat>, f: nat)
    requires |lens| == |starts| == |frags| && f < |frags| && lens[f] == Lengths(frags[f])
    requires LaidOut(frags[f], lens[f], starts[f]) && FragmentHeld(out, frags[f], lens[f], starts[f])
    ensures PlacedAt(frags[f], starts[f])
    ensures forall j | 0 <= j < |frags[f]| && !frags[f][j].exclude :: Emitted(out, frags[f][j])
  {
    forall j | 0 <= j < |frags[f]| && !frags[f][j].exclude ensures Emitted(out, frags[f][j]) {
      assert PieceHeld(out, frags[f], lens[f], starts[f], j);
      HeldIsEmitted(out, frags[f], lens[f], starts[f], j);
    }
  }

  /** Layout and emission of a whole section put every kept piece at its output offset. */
  method LayOutAndEmit(frags: seq<seq<Piece>>, starts: seq<nat>, out: array<byte>, ghost lens: seq<seq<nat>>)
    requires Windows(frags, lens, starts, out.Length)
    requires forall f | 0 <= f < |frags| :: lens[f] == Lengths(frags[f])
    modifies out, AllPieces(frags)`outputOffset
    ensures forall f | 0 <= f < |frags| :: PlacedAt(frags[f], starts[f])
    ensures forall f, j | 0 <= f < |frags| && 0 <= j < |frags[f]| && !frags[f][j].exclude ::
      Emitted(out[..], frags[f][j])
  {
    LayOutAll(frags, starts, out.Length, lens);
    EmitAll(frags, starts, out, lens);
    forall f | 0 <= f < |frags|
      ensures PlacedAt(frags[f], starts[f])
      ensures forall j | 0 <= j < |frags[f]| && !frags[f][j].exclude :: Emitted(out[..], frags[f][j])
    {
      AllEmitted(out[..], frags, lens, starts, f);
    }
  }

  method LayOutNew(frags: seq<seq<Piece>>, alignments: seq<nat>, addr: nat) returns (out: array<byte>, starts: seq<nat>)
    requires |alignments| == |frags| && forall f | 0 <= f < |frags| :: alignments[f] > 0
    requires forall f | 0 <= f < |frags| :: NoRepeats(frags[f])
    requires forall f, g | 0 <= f < g < |frags| :: Apart(frags[f], frags[g])
    modifies AllPieces(frags)`outputOffset
    ensures fresh(out) && StartsAligned(starts, alignments, addr)
    ensures forall f | 0 <= f < |frags| :: PlacedAt(frags[f], starts[f])
    ensures forall f, j | 0 <= f < |frags| && 0 <= j < |frags[f]| && !frags[f][j].exclude ::
      Emitted(out[..], frags[f][j])
  {
    var size;
    ghost var lens;
    starts, size, lens := PlaceInOrder(frags, alignments, addr);
    out := new byte[size](_ => 0);
    LayOutAndEmit(frags, starts, out, lens);
  }
}
