/** A code fragment with pending relaxation edits, and the commit that applies them all: patch the
    instructions, move every reference, compact the buffer in one forward walk. */
module RegionFragmentEx {
  import opened Wrappers
  import opened Words
  import opened Buffers
  import opened Sorting
  import opened RelaxEdits
  import opened RelaxPlan
  import opened Compaction

  /** A symbol defined in the fragment; offset is that of its fragment reference. */
  class Symbol {
    var offset: nat
    var size: word
    const isSection: bool

    constructor (offset: nat, size: word, isSection: bool)
      ensures this.offset == offset && this.size == size && this.isSection == isSection
    {
      this.offset, this.size, this.isSection := offset, size, isSection;
    }
  }

  // ---- patches --------------------------------------------------------------------------------

  ghost predicate PatchFits(e: RelaxEdit, size: nat) {
    e.newInstr.Some? ==> e.newInstrSize <= 8 && e.origOffset + e.newInstrSize <= size
  }

  ghost predicate PatchesFit(m: Edits, size: nat) {
    forall k | k in m && m[k].active :: PatchFits(m[k], size)
  }

  function Patch(buf: seq<byte>, e: RelaxEdit): (r: seq<byte>)
    requires e.newInstr.Some? ==> e.origOffset + e.newInstrSize <= |buf|
    ensures |r| == |buf|
  {
    if e.newInstr.None? then buf
    else Overwrite(buf, e.origOffset, LittleEndian(e.newInstr.value, e.newInstrSize))
  }

  ghost function Patched(buf: seq<byte>, s: seq<RelaxEdit>): (r: seq<byte>)
    requires forall e | e in s :: PatchFits(e, |buf|)
    ensures |r| == |buf|
  {
    if s == [] then buf else
      var e := s[|s| - 1];
      var prev := Patched(buf, s[..|s| - 1]);
      assert e in s && PatchFits(e, |buf|) && |prev| == |buf|;
      Patch(prev, e)
  }

  lemma PatchedNext(buf: seq<byte>, s: seq<RelaxEdit>, i: nat)
    requires i < |s| && forall e | e in s :: PatchFits(e, |buf|)
    ensures forall e | e in s[..i + 1] :: PatchFits(e, |buf|)
    ensures PatchFits(s[i], |buf|) && Patched(buf, s[..i + 1]) == Patch(Patched(buf, s[..i]), s[i])
  {
    assert s[i] in s;
    assert s[..i + 1][..i] == s[..i];
  }

  predicate Patches(e: RelaxEdit, o: int) {
    e.newInstr.Some? && e.origOffset <= o < e.origOffset + e.newInstrSize
  }

  /** Where no two rewrites meet, the patched byte is the rewrite's own, in whatever order they were applied. */
  lemma {:induction false} PatchedByte(buf: seq<byte>, s: seq<RelaxEdit>, o: nat)
    requires (forall e | e in s :: PatchFits(e, |buf|)) && o < |buf|
    requires forall i, j | 0 <= i < j < |s| :: !(Patches(s[i], o) && Patches(s[j], o))
    ensures forall e | e in s && Patches(e, o) ::
      Patched(buf, s)[o] == LittleEndian(e.newInstr.value, e.newInstrSize)[o - e.origOffset]
    ensures (forall e | e in s :: !Patches(e, o)) ==> Patched(buf, s)[o] == buf[o]
  {
    if s != [] {
      var n := |s| - 1;
      assert s[n] in s;
      assert forall e | e in s[..n] :: e in s;
      PatchedByte(buf, s[..n], o);
      forall e | e in s && Patches(e, o)
        ensures Patched(buf, s)[o] == LittleEndian(e.newInstr.value, e.newInstrSize)[o - e.origOffset]
      {
        var i :| 0 <= i < |s| && s[i] == e;
        if i < n {
          assert e in s[..n];
        }
      }
    }
  }

  // ---- compaction -----------------------------------------------------------------------------

  lemma {:induction false} KeepRange(buf: seq<byte>, m: Edits, lo: nat, hi: nat)
    requires lo <= hi <= |buf|
    requires forall o | lo <= o < hi :: !Deleted(m, o)
    ensures Survive(buf, m, hi) == Survive(buf, m, lo) + buf[lo..hi]
    decreases hi
  {
    if lo < hi {
      KeepRange(buf, m, lo, hi - 1);
      assert buf[lo..hi] == buf[lo..hi - 1] + [buf[hi - 1]];
    }
  }

  lemma {:induction false} SkipRange(buf: seq<byte>, m: Edits, lo: nat, hi: nat)
    requires lo <= hi <= |buf|
    requires forall o | lo <= o < hi :: Deleted(m, o)
    ensures Survive(buf, m, hi) == Survive(buf, m, lo)
    decreases hi
  {
    if lo < hi {
      SkipRange(buf, m, lo, hi - 1);
    }
  }

  /** Where the walk stands before the i-th edit of the listing. */
  function SourceAt(order: seq<RelaxEdit>, i: nat): nat
    requires i <= |order|
  {
    if i == 0 then 0 else order[i - 1].End()
  }

  /** The listing can be walked over size bytes: each gap before an edit is a stretch of the buffer. */
  ghost predicate Walkable(order: seq<RelaxEdit>, size: nat) {
    && SourceAt(order, |order|) <= size
    && forall i {:trigger SourceAt(order, i)} | 0 <= i < |order| ::
         SourceAt(order, i) <= order[i].deleteOffset && order[i].End() <= size
  }

  /** The stretches of buf before the first i edits of the listing, put end to end. */
  ghost function Gaps(buf: seq<byte>, order: seq<RelaxEdit>, i: nat): seq<byte>
    requires Walkable(order, |buf|) && i <= |order|
  {
    if i == 0 then [] else
      Gaps(buf, order, i - 1) + buf[SourceAt(order, i - 1)..order[i - 1].deleteOffset]
  }

  ghost function AllGaps(buf: seq<byte>, order: seq<RelaxEdit>): seq<byte>
    requires Walkable(order, |buf|)
  {
    Gaps(buf, order, |order|) + buf[SourceAt(order, |order|)..]
  }

  lemma GapUncovered(order: seq<RelaxEdit>, i: nat, o: nat, j: nat)
    requires Chain(order) && i <= |order| && j < |order|
    requires SourceAt(order, i) <= o && (i < |order| ==> o < order[i].deleteOffset)
    ensures !Covers(order[j], o)
  {
    if j < i - 1 {
      assert order[j].End() <= order[i - 1].deleteOffset;
    } else if j > i {
      assert order[i].End() <= order[j].deleteOffset;
    }
  }

  lemma GapSurvives(m: Edits, order: seq<RelaxEdit>, i: nat, hi: nat)
    requires Keyed(m) && Lists(m, order) && Chain(order) && i <= |order|
    requires i < |order| ==> hi <= order[i].deleteOffset
    ensures forall o | SourceAt(order, i) <= o < hi :: !Deleted(m, o)
  {
    forall o | SourceAt(order, i) <= o < hi ensures !Deleted(m, o) {
      DeletedListed(m, order, o);
      forall d | d in order ensures !Covers(d, o) {
        var j :| 0 <= j < |order| && order[j] == d;
        GapUncovered(order, i, o, j);
      }
    }
  }

  lemma ChainWalkable(m: Edits, order: seq<RelaxEdit>, size: nat)
    requires Lists(m, order) && Chain(order) && InBounds(m, size)
    ensures Walkable(order, size)
  {
    forall i | 0 <= i < |order| ensures order[i].End() <= size {
      assert order[i] in order;
    }
    assert order == [] || SourceAt(order, |order|) == order[|order| - 1].End();
  }

  /** Up to the end of the i-th edit survives what survives before it and the gap in front of it. */
  ghost predicate GapKept(buf: seq<byte>, m: Edits, order: seq<RelaxEdit>, i: nat)
    requires i < |order| && SourceAt(order, i) <= order[i].deleteOffset && order[i].End() <= |buf|
  {
    Survive(buf, m, order[i].End()) ==
      Survive(buf, m, SourceAt(order, i)) + buf[SourceAt(order, i)..order[i].deleteOffset]
  }

  lemma GapStep(buf: seq<byte>, m: Edits, order: seq<RelaxEdit>, i: nat)
    requires Keyed(m) && Lists(m, order) && Chain(order) && i < |order|
    requires SourceAt(order, i) <= order[i].deleteOffset && order[i].End() <= |buf|
    ensures GapKept(buf, m, order, i)
  {
    var e := order[i];
    assert e in order;
    GapSurvives(m, order, i, e.deleteOffset);
    forall o | e.deleteOffset <= o < e.End() ensures Deleted(m, o) {
      DeletedListed(m, order, o);
      assert Covers(e, o);
    }
    KeepRange(buf, m, SourceAt(order, i), e.deleteOffset);
    SkipRange(buf, m, e.deleteOffset, e.End());
  }

  lemma {:induction false} GapsSurvive(buf: seq<byte>, m: Edits, order: seq<RelaxEdit>, i: nat)
    requires Walkable(order, |buf|) && i <= |order|
    requires forall j | 0 <= j < |order| :: GapKept(buf, m, order, j)
    ensures Gaps(buf, order, i) == Survive(buf, m, SourceAt(order, i))
  {
    if i > 0 {
      GapsSurvive(buf, m, order, i - 1);
      assert GapKept(buf, m, order, i - 1);
    }
  }

  lemma GapsKept(buf: seq<byte>, m: Edits, order: seq<RelaxEdit>)
    requires Keyed(m) && Lists(m, order) && Chain(order) && Walkable(order, |buf|)
    ensures forall i | 0 <= i < |order| :: GapKept(buf, m, order, i)
  {
    forall i | 0 <= i < |order| ensures GapKept(buf, m, order, i) {
      assert SourceAt(order, i) <= order[i].deleteOffset;
      GapStep(buf, m, order, i);
    }
  }

  /** What the walk copies is exactly what survives. */
  lemma AllGapsSurvive(buf: seq<byte>, m: Edits, order: seq<RelaxEdit>)
    requires Keyed(m) && Lists(m, order) && Chain(order) && Walkable(order, |buf|)
    ensures AllGaps(buf, order) == Survive(buf, m, |buf|)
  {
    GapsKept(buf, m, order);
    GapsSurvive(buf, m, order, |order|);
    GapSurvives(m, order, |order|, |buf|);
    KeepRange(buf, m, SourceAt(order, |order|), |buf|);
    assert buf[SourceAt(order, |order|)..|buf|] == buf[SourceAt(order, |order|)..];
  }

  /** memmove to lower addresses, of bytes of the original buffer. */
  method MoveDown(a: array<byte>, dst: nat, src: nat, n: nat, ghost kept: seq<byte>, ghost buf: seq<byte>)
    requires dst == |kept| <= src && src + n <= |buf| <= a.Length && a[..dst] == kept
    requires forall k | src <= k < |buf| :: a[k] == buf[k]
    modifies a
    ensures a[..dst + n] == kept + buf[src..src + n]
    ensures forall k | src + n <= k < a.Length :: a[k] == old(a[k])
  {
    for i := 0 to n
      invariant a[..dst + i] == kept + buf[src..src + i]
      invariant forall k | src + i <= k < a.Length :: a[k] == old(a[k])
    {
      assert buf[src..src + i + 1] == buf[src..src + i] + [buf[src + i]];
      a[dst + i] := a[src + i];
      assert a[..dst + (i + 1)] == a[..dst + i] + [a[dst + i]];
    }
  }

  /** The walk's next move, from src over n bytes, adds the next gap. */
  lemma NextGap(buf: seq<byte>, order: seq<RelaxEdit>, i: nat, src: nat, n: nat)
    requires Walkable(order, |buf|) && i < |order| && src == SourceAt(order, i) && src + n == order[i].deleteOffset
    ensures Gaps(buf, order, i + 1) == Gaps(buf, order, i) + buf[src..src + n]
  {
  }

  lemma LastGap(buf: seq<byte>, order: seq<RelaxEdit>, src: nat, n: nat)
    requires Walkable(order, |buf|) && src == SourceAt(order, |order|) && src + n == |buf|
    ensures AllGaps(buf, order) == Gaps(buf, order, |order|) + buf[src..src + n]
  {
    assert buf[src..src + n] == buf[src..];
  }

  /** The walk's i-th move: the stretch before edit i goes down to dst. */
  method MoveGap(a: array<byte>, order: seq<RelaxEdit>, i: nat, dst: nat, src: nat, ghost buf: seq<byte>)
    returns (newDst: nat, newSrc: nat)
    requires |buf| <= a.Length && Walkable(order, |buf|) && i < |order|
    requires |Gaps(buf, order, i)| == dst <= src == SourceAt(order, i) <= |buf| && a[..dst] == Gaps(buf, order, i)
    requires forall k | src <= k < |buf| :: a[k] == buf[k]
    modifies a
    ensures |Gaps(buf, order, i + 1)| == newDst <= newSrc == SourceAt(order, i + 1) <= |buf|
    ensures a[..newDst] == Gaps(buf, order, i + 1)
    ensures forall k | newSrc <= k < a.Length :: a[k] == old(a[k])
  {
    var e := order[i];
    assert SourceAt(order, i) <= e.deleteOffset && e.End() <= |buf|;
    var n := e.deleteOffset - src;
    NextGap(buf, order, i, src, n);
    MoveDown(a, dst, src, n, Gaps(buf, order, i), buf);
    return dst + n, e.deleteOffset + e.deleteBytes;
  }

  /** One forward walk puts the gaps between the listed edits end to end. */
  method Compact(a: array<byte>, order: seq<RelaxEdit>, size: nat, ghost buf: seq<byte>)
    requires size == |buf| <= a.Length && a[..size] == buf && Walkable(order, size)
    modifies a
    ensures |AllGaps(buf, order)| <= size && a[..|AllGaps(buf, order)|] == AllGaps(buf, order)
    ensures forall k | size <= k < a.Length :: a[k] == old(a[k])
  {
    var dst: nat, src: nat := 0, 0;
    for i := 0 to |order|
      invariant |Gaps(buf, order, i)| == dst <= src == SourceAt(order, i) <= size
      invariant a[..dst] == Gaps(buf, order, i)
      invariant forall k | src <= k < a.Length :: a[k] == old(a[k])
    {
      dst, src := MoveGap(a, order, i, dst, src, buf);
    }
    var n := size - src;
    LastGap(buf, order, src, n);
    MoveDown(a, dst, src, n, Gaps(buf, order, |order|), buf);
  }

  // ---- the commit -----------------------------------------------------------------------------

  function WithTarget(e: RelaxEdit, f: RelocationFields): RelocationFields {
    if e.newInstr.Some? then f.(target := e.newInstr.value) else f
  }

  function WithType(e: RelaxEdit, f: RelocationFields): RelocationFields {
    f.(kind := if e.newType.Some? then e.newType.value else f.kind,
       addend := if e.newAddend.Some? then e.newAddend.value else f.addend)
  }

  /** Fields have what the edit says, and keep what it does not say. */
  predicate Decided(e: RelaxEdit, was: RelocationFields, now: RelocationFields) {
    && now.kind == (if e.active && e.newType.Some? then e.newType.value else was.kind)
    && now.addend == (if e.active && e.newAddend.Some? then e.newAddend.value else was.addend)
    && now.target == (if e.active && e.newInstr.Some? then e.newInstr.value else was.target)
  }

  /** The listing rewrites exactly the relocations with an active edit. */
  lemma EditListed(m: Edits, order: seq<RelaxEdit>, k: Relocation)
    requires Keyed(m) && Lists(m, order) && k in m
    ensures k in Relocs(order) <==> m[k].active
    ensures m[k].active ==> exists j :: 0 <= j < |order| && order[j] == m[k] && order[j].reloc == k
  {
    if m[k].active {
      assert m[k] in multiset(order);
      var j :| 0 <= j < |order| && order[j] == m[k];
    }
  }

  /** Edit i is the only one listed for its relocation. */
  lemma RelocOnce(m: Edits, order: seq<RelaxEdit>, i: nat)
    requires Lists(m, order) && i < |order|
    ensures forall j | 0 <= j < |order| && j != i :: order[j].reloc != order[i].reloc
  {
    forall j | 0 <= j < |order| && j != i ensures order[j].reloc != order[i].reloc {
      if i < j {
        ListedDistinct(m, order, i, j);
      } else {
        ListedDistinct(m, order, j, i);
      }
    }
  }

  ghost function Relocs(s: seq<RelaxEdit>): set<Relocation> {
    set e | e in s :: e.reloc
  }

  /** Where the commit moves a reference at off into a fragment of the given size. */
  ghost function CommittedOffset(m: Edits, off: nat, moves: bool): nat {
    if moves then (off - Shift(m, Below(off))) % 0x1_0000_0000_0000_0000 else off
  }

  /** Where a reference at off is while the plan is pending. */
  ghost function PendingOffset(m: Edits, off: nat): nat {
    (off - Shift(m, Below(off))) % 0x1_0000_0000
  }

  /** Beyond the fragment every deletion lies below. */
  lemma ShiftBeyond(m: Edits, off: nat, size: nat)
    requires Committable(m) && InBounds(m, size) && size <= off
    ensures Shift(m, Below(off)) == Shift(m, Everywhere)
  {
    var s := SortedListing(m);
    forall e | e in s ensures e.End() <= off {}
    WholeShift(s, off);
    ListedShift(m, s, Below(off));
    ListedShift(m, s, Everywhere);
  }

  lemma BeyondNotInside(m: Edits, off: nat, size: nat)
    requires InBounds(m, size) && size <= off
    ensures !Inside(m, off)
  {
  }

  lemma NoWrap(x: int)
    requires 0 <= x < 0x1_0000_0000
    ensures x % 0x1_0000_0000 == x && x % 0x1_0000_0000_0000_0000 == x
  {
  }

  lemma InRange(m: Edits, off: nat)
    requires Committable(m) && !Inside(m, off) && off < 0x1_0000_0000
    ensures 0 <= off - Shift(m, Below(off)) == Kept(m, off) == PendingOffset(m, off)
    ensures CommittedOffset(m, off, true) == Kept(m, off) < 0x1_0000_0000
  {
    MappedOffset(m, off);
    KeptMonotone(m, 0, off);
    NoWrap(Kept(m, off));
  }

  lemma NothingPending(off: nat)
    requires off < 0x1_0000_0000
    ensures PendingOffset(map[], off) == off
  {
  }

  /** A 64-bit difference cut to 32 bits is the 32-bit difference. */
  lemma NarrowAfterWide(x: int)
    ensures x % 0x1_0000_0000_0000_0000 % 0x1_0000_0000 == x % 0x1_0000_0000
  {
    SameWord(x % 0x1_0000_0000_0000_0000, x, 0x1_0000_0000 * (x / 0x1_0000_0000_0000_0000));
  }

  /** The committed offset, read with no plan pending, is the pending view's for every reference the
      commit moves, wherever it points; for one beyond the fragment exactly when nothing is deleted. */
  lemma ViewKept(m: Edits, off: nat, size: nat, moves: bool)
    requires off < size ==> moves
    requires !moves ==> Committable(m) && InBounds(m, size) && off < 0x1_0000_0000
    ensures PendingOffset(map[], CommittedOffset(m, off, moves)) == PendingOffset(m, off)
       <==> moves || Shift(m, Everywhere) == 0
  {
    if moves {
      NarrowAfterWide(off - Shift(m, Below(off)));
    } else {
      ShiftBeyond(m, off, size);
      NothingPending(off);
      BeyondNotInside(m, off, size);
      InRange(m, off);
    }
  }

  /** A reference to a surviving byte still reads that byte of the patched buffer after the commit. */
  lemma ReferenceFollowsByte(patched: seq<byte>, m: Edits, off: nat)
    requires Committable(m) && InBounds(m, |patched|) && |patched| < 0x1_0000_0000
    requires off < |patched| && !Deleted(m, off)
    ensures CommittedOffset(m, off, true) < Kept(m, |patched|)
    ensures Survive(patched, m, |patched|)[CommittedOffset(m, off, true)] == patched[off]
  {
    InRange(m, off);
    SurvivorFound(patched, m, off);
  }

  class RegionFragmentEx {
    const data: array<byte>
    const plan: RelaxPlan
    var size: nat
    var relocs: seq<Relocation>
    var symbols: seq<Symbol>

    ghost predicate Valid()
      reads this, plan
    {
      plan.Valid() && size <= data.Length && size < 0x1_0000_0000
    }

    constructor (data: array<byte>, relocs: seq<Relocation>)
      requires data.Length < 0x1_0000_0000
      ensures Valid() && fresh(plan)
      ensures this.data == data && size == data.Length && this.relocs == relocs && symbols == []
      ensures plan.editsByReloc == map[]
    {
      this.data, this.size, this.relocs, this.symbols := data, data.Length, relocs, [];
      plan := new RelaxPlan();
    }

    /** Size() of a committable fragment: the bytes that will survive. */
    method Size() returns (n: int)
      requires Valid()
      ensures n == size - Shift(plan.editsByReloc, Everywhere)
      ensures Committable(plan.editsByReloc) && InBounds(plan.editsByReloc, size) ==> n == Kept(plan.editsByReloc, size)
    {
      if Committable(plan.editsByReloc) && InBounds(plan.editsByReloc, size) {
        MappedSize(plan.editsByReloc, size);
      }
      return size - plan.totalShift;
    }

    method MapOffset(origOff: nat) returns (n: nat)
      requires Valid()
      ensures n == PendingOffset(plan.editsByReloc, origOff)
      ensures Committable(plan.editsByReloc) && !Inside(plan.editsByReloc, origOff) && origOff < 0x1_0000_0000 ==>
        n == Kept(plan.editsByReloc, origOff)
    {
      var shift := plan.ShiftAt(origOff);
      if Committable(plan.editsByReloc) && !Inside(plan.editsByReloc, origOff) {
        MappedOffset(plan.editsByReloc, origOff);
      }
      return (origOff - shift) % 0x1_0000_0000;
    }

    method RecordDelete(reloc: Relocation, deleteOffset: nat, deleteBytes: nat, nopBytes: nat)
      requires Valid()
      modifies plan
      ensures Valid()
      ensures plan.editsByReloc == old(plan.editsByReloc)[reloc :=
        RelaxEdit(reloc, deleteOffset, deleteOffset, deleteBytes, nopBytes, None, None, 0, None, true)]
    {
      plan.AddEdit(RelaxEdit(reloc, deleteOffset, deleteOffset, deleteBytes, nopBytes, None, None, 0, None, true));
    }

    method RecordRewrite(reloc: Relocation, instrOffset: nat, newType: nat, newInstr: nat, newInstrSize: nat,
                         newAddend: Option<int>)
      requires Valid()
      modifies plan
      ensures Valid()
      ensures plan.editsByReloc == old(plan.editsByReloc)[reloc :=
        RelaxEdit(reloc, instrOffset, instrOffset, 0, 0, Some(newType), Some(newInstr), newInstrSize, newAddend, true)]
    {
      plan.AddEdit(RelaxEdit(reloc, instrOffset, instrOffset, 0, 0, Some(newType), Some(newInstr), newInstrSize,
                             newAddend, true));
    }

    /** Completes an edit already recorded; its deletion, and with it every offset, is unchanged. */
    method AttachDecision(reloc: Relocation, newType: nat, newInstr: Option<nat>, instrOffset: nat, newInstrSize: nat)
      requires Valid() && reloc in plan.editsByReloc
      modifies plan
      ensures Valid()
      ensures var e := old(plan.editsByReloc)[reloc].(newType := Some(newType));
        plan.editsByReloc == old(plan.editsByReloc)[reloc :=
          if newInstr.Some? then e.(origOffset := instrOffset, newInstr := newInstr, newInstrSize := newInstrSize)
          else e]
    {
      var e := plan.editsByReloc[reloc].(newType := Some(newType));
      if newInstr.Some? {
        e := e.(origOffset := instrOffset, newInstr := newInstr, newInstrSize := newInstrSize);
      }
      var _ := plan.FindAndUpdate(reloc, e);
    }

    method DropEdit(reloc: Relocation)
      requires Valid()
      modifies plan
      ensures Valid() && plan.editsByReloc == old(plan.editsByReloc) - {reloc}
    {
      plan.RemoveEdit(reloc);
    }

    method PatchInstruction(e: RelaxEdit)
      requires size <= data.Length && PatchFits(e, size)
      modifies data, e.reloc`fields
      ensures data[..size] == Patch(old(data[..size]), e)
      ensures e.reloc.fields == WithTarget(e, old(e.reloc.fields))
    {
      if e.newInstr.Some? {
        ghost var was, bytes := data[..], LittleEndian(e.newInstr.value, e.newInstrSize);
        Write(data, e.origOffset, LittleEndian(e.newInstr.value, e.newInstrSize));
        assert data[..size] == data[..][..size];
        assert Overwrite(was, e.origOffset, bytes)[..size] == Overwrite(was[..size], e.origOffset, bytes);
        e.reloc.fields := e.reloc.fields.(target := e.newInstr.value);
      }
    }

    /** Writes the replacement instructions, while their offsets still address the untouched buffer. */
    method PatchInstructions(order: seq<RelaxEdit>, ghost m: Edits)
      requires size <= data.Length && Lists(m, order)
      requires forall e | e in order :: PatchFits(e, size)
      modifies data, Relocs(order)`fields
      ensures data[..size] == Patched(old(data[..size]), order)
      ensures forall j | 0 <= j < |order| :: order[j].reloc.fields == WithTarget(order[j], old(order[j].reloc.fields))
    {
      ghost var buf := data[..size];
      for i := 0 to |order|
        invariant forall e | e in order[..i] :: PatchFits(e, size)
        invariant data[..size] == Patched(buf, order[..i])
        invariant forall j | 0 <= j < i :: order[j].reloc.fields == WithTarget(order[j], old(order[j].reloc.fields))
        invariant forall j | i <= j < |order| :: order[j].reloc.fields == old(order[j].reloc.fields)
      {
        PatchedNext(buf, order, i);
        RelocOnce(m, order, i);
        PatchInstruction(order[i]);
      }
      assert order[..|order|] == order;
    }
  
    /** Moves every relocation that targets the fragment's bytes. */
    method MoveRelocations()
      requires Valid() && NoRepeats(relocs)
      modifies (set r | r in relocs)`offset
      ensures forall r | r in relocs ::
        r.offset == CommittedOffset(plan.editsByReloc, old(r.offset), old(r.offset) < size)
    {
      ghost var m := plan.editsByReloc;
      for i := 0 to |relocs|
        invariant forall j | 0 <= j < i ::
          relocs[j].offset == CommittedOffset(m, old(relocs[j].offset), old(relocs[j].offset) < size)
        invariant forall j | i <= j < |relocs| :: relocs[j].offset == old(relocs[j].offset)
      {
        var ref := relocs[i];
        if ref.offset < size {
          var shift := plan.ShiftAt(ref.offset);
          if shift != 0 {
            ref.offset := (ref.offset - shift) % 0x1_0000_0000_0000_0000;
          }
        }
      }
    }
  
    method ShrinkSymbol(sym: Symbol, order: seq<RelaxEdit>)
      requires forall e | e in order :: e.active
      modifies sym`size
      ensures sym.size == ShrunkSize(order, sym.offset, old(sym.size))
    {
      var symbolSize: word := sym.size;
      for i := 0 to |order|
        invariant symbolSize == sym.size == ShrunkSize(order[..i], sym.offset, old(sym.size))
      {
        assert order[..i + 1][..i] == order[..i];
        var e := order[i];
        if e.deleteOffset >= sym.offset && e.deleteOffset - sym.offset < symbolSize {
          symbolSize := (symbolSize - e.deleteBytes) % 0x1_0000_0000;
          sym.size := symbolSize;
        }
      }
      assert order[..|order|] == order;
    }

    /** Moves and shrinks every symbol; section symbols keep their size. */
    method MoveSymbols(order: seq<RelaxEdit>)
      requires Valid() && NoRepeats(symbols)
      requires forall e | e in order :: e.active
      modifies set s | s in symbols
      ensures forall s | s in symbols ::
        && s.offset == CommittedOffset(plan.editsByReloc, old(s.offset), old(s.offset) <= size)
        && s.size == if s.isSection then old(s.size) else ShrunkSize(order, old(s.offset), old(s.size))
    {
      ghost var m := plan.editsByReloc;
      for i := 0 to |symbols|
        invariant forall j | 0 <= j < i ::
          && symbols[j].offset == CommittedOffset(m, old(symbols[j].offset), old(symbols[j].offset) <= size)
          && symbols[j].size == if symbols[j].isSection then old(symbols[j].size)
                                else ShrunkSize(order, old(symbols[j].offset), old(symbols[j].size))
        invariant forall j | i <= j < |symbols| ::
          symbols[j].offset == old(symbols[j].offset) && symbols[j].size == old(symbols[j].size)
      {
        var sym := symbols[i];
        if !sym.isSection {
          ShrinkSymbol(sym, order);
        }
        if sym.offset <= size {
          var shift := plan.ShiftAt(sym.offset);
          if shift != 0 {
            sym.offset := (sym.offset - shift) % 0x1_0000_0000_0000_0000;
          }
        }
      }
    }

    /** Applies the deferred relocation types and addends. */
    method RetypeRelocations(order: seq<RelaxEdit>, ghost m: Edits)
      requires Lists(m, order)
      modifies Relocs(order)`fields
      ensures forall j | 0 <= j < |order| :: order[j].reloc.fields == WithType(order[j], old(order[j].reloc.fields))
    {
      for i := 0 to |order|
        invariant forall j | 0 <= j < i :: order[j].reloc.fields == WithType(order[j], old(order[j].reloc.fields))
        invariant forall j | i <= j < |order| :: order[j].reloc.fields == old(order[j].reloc.fields)
      {
        var e := order[i];
        assert e in order;
        RelocOnce(m, order, i);
        if e.newType.Some? {
          e.reloc.fields := e.reloc.fields.(kind := e.newType.value);
        }
        if e.newAddend.Some? {
          e.reloc.fields := e.reloc.fields.(addend := e.newAddend.value);
        }
      }
    }

    /** Removes the deleted ranges from the buffer. */
    method CompactData(order: seq<RelaxEdit>)
      requires Valid() && Committable(plan.editsByReloc) && InBounds(plan.editsByReloc, size)
      requires Lists(plan.editsByReloc, order) && SortedBy(order, DeleteStart)
      modifies data, this`size
      ensures Valid()
      ensures size == old(size) - Shift(plan.editsByReloc, Everywhere) == Kept(plan.editsByReloc, old(size))
      ensures data[..size] == Survive(old(data[..size]), plan.editsByReloc, old(size))
    {
      ghost var m, buf := plan.editsByReloc, data[..size];
      TieFreeChain(m, order);
      ChainWalkable(m, order, size);
      Compact(data, order, size, buf);
      AllGapsSurvive(buf, m, order);
      MappedSize(m, size);
      size := size - plan.totalShift;
    }

    /** What the commit promises about the buffer, given the order the cache held: the surviving bytes
        of the patched buffer, and nothing else. */
    ghost predicate Compacted(was: seq<byte>, m: Edits, order: seq<RelaxEdit>)
      reads this, data
      requires forall e | e in order :: PatchFits(e, |was|)
    {
      && Lists(m, order) && SortedBy(order, DeleteStart)
      && size == |was| - Shift(m, Everywhere) == Kept(m, |was|) <= data.Length
      && data[..size] == Survive(Patched(was, order), m, |was|)
    }

    /** Every reference moved and every symbol shrunk. */
    twostate predicate ReferencesMoved(m: Edits, order: seq<RelaxEdit>, rs: seq<Relocation>, ss: seq<Symbol>)
      reads rs, ss
    {
      && (forall r | r in rs :: r.offset == CommittedOffset(m, old(r.offset), old(r.offset) < old(size)))
      && (forall s | s in ss ::
        && s.offset == CommittedOffset(m, old(s.offset), old(s.offset) <= old(size))
        && s.size == if s.isSection then old(s.size) else ShrunkSize(order, old(s.offset), old(s.size)))
    }

    /** Every edited relocation rewritten. */
    twostate predicate RelocationsRewritten(order: seq<RelaxEdit>)
      reads Relocs(order)
    {
      forall j | 0 <= j < |order| ::
        order[j].reloc.fields == WithType(order[j], WithTarget(order[j], old(order[j].reloc.fields)))
    }

    method PatchAndMove(order: seq<RelaxEdit>, ghost m: Edits)
      requires Valid() && m == plan.editsByReloc && Lists(m, order)
      requires forall e | e in order :: e.active && PatchFits(e, size)
      requires NoRepeats(relocs)
      requires NoRepeats(symbols)
      modifies data, (set r | r in relocs)`offset, (set s | s in symbols), Relocs(order)`fields
      ensures data[..size] == Patched(old(data[..size]), order)
      ensures ReferencesMoved(m, order, relocs, symbols)
      ensures forall j | 0 <= j < |order| :: order[j].reloc.fields == WithTarget(order[j], old(order[j].reloc.fields))
    {
      PatchInstructions(order, m);
      MoveRelocations();
      MoveSymbols(order);
    }

    method CompactAndRetype(order: seq<RelaxEdit>, ghost m: Edits)
      requires Valid() && m == plan.editsByReloc
      requires Committable(m) && InBounds(m, size) && Lists(m, order) && SortedBy(order, DeleteStart)
      modifies this`size, data, Relocs(order)`fields
      ensures Valid()
      ensures size == old(size) - Shift(m, Everywhere) == Kept(m, old(size))
      ensures data[..size] == Survive(old(data[..size]), m, old(size))
      ensures forall j | 0 <= j < |order| :: order[j].reloc.fields == WithType(order[j], old(order[j].reloc.fields))
    {
      CompactData(order);
      RetypeRelocations(order, m);
    }

    method ApplyEdits(order: seq<RelaxEdit>, ghost m: Edits, ghost was: seq<byte>)
      requires Valid() && m == plan.editsByReloc && was == data[..size]
      requires Committable(m) && InBounds(m, size) && Lists(m, order) && SortedBy(order, DeleteStart)
      requires forall e | e in order :: e.active && PatchFits(e, size)
      requires NoRepeats(relocs)
      requires NoRepeats(symbols)
      modifies this`size, data, (set r | r in relocs)`offset, (set s | s in symbols), Relocs(order)`fields
      ensures Valid() && Compacted(was, m, order)
      ensures ReferencesMoved(m, order, relocs, symbols) && RelocationsRewritten(order)
    {
      PatchAndMove(order, m);
      CompactAndRetype(order, m);
    }

    /** The plan can be committed and no reference is listed twice. */
    ghost predicate Ready()
      reads this, plan
    {
      && Valid()
      && Committable(plan.editsByReloc) && InBounds(plan.editsByReloc, size) && PatchesFit(plan.editsByReloc, size)
      && NoRepeats(relocs)
      && NoRepeats(symbols)
    }

    method ApplyPending() returns (ghost order: seq<RelaxEdit>)
      requires Ready()
      modifies this`size, plan, data, (set r | r in relocs)`offset, (set s | s in symbols),
        plan.editsByReloc.Keys`fields
      ensures Valid()
      ensures (forall e | e in order :: PatchFits(e, old(size))) &&
        Compacted(old(data[..size]), old(plan.editsByReloc), order)
      ensures ReferencesMoved(old(plan.editsByReloc), order, relocs, symbols)
      ensures forall k | k in old(plan.editsByReloc) ::
        Decided(old(plan.editsByReloc)[k], old(k.fields), k.fields)
    {
      ghost var was, m := data[..size], plan.editsByReloc;
      var edits := plan.EditsInOrder();
      order := edits;
      forall e | e in edits ensures e.active && PatchFits(e, size) {}
      ApplyEdits(edits, m, was);
      forall k | k in m ensures Decided(m[k], old(k.fields), k.fields) {
        EditListed(m, order, k);
      }
    }

    /** The commit: the buffer holds exactly the surviving bytes of its patched contents, every
        reference follows its byte, every edited relocation is rewritten, and nothing is pending. */
    method CommitRelaxEdits() returns (ghost order: seq<RelaxEdit>)
      requires Ready()
      modifies this`size, plan, data, (set r | r in relocs)`offset, (set s | s in symbols),
        plan.editsByReloc.Keys`fields
      ensures Valid() && plan.editsByReloc == map[]
      ensures (forall e | e in order :: PatchFits(e, old(size))) &&
        Compacted(old(data[..size]), old(plan.editsByReloc), order)
      ensures ReferencesMoved(old(plan.editsByReloc), order, relocs, symbols)
      ensures forall k | k in old(plan.editsByReloc) && old(plan.editsByReloc)[k].active ::
        var e := old(plan.editsByReloc)[k];
        && (if e.newType.Some? then k.fields.kind == e.newType.value else k.fields.kind == old(k.fields.kind))
        && (if e.newAddend.Some? then k.fields.addend == e.newAddend.value
            else k.fields.addend == old(k.fields.addend))
        && (if e.newInstr.Some? then k.fields.target == e.newInstr.value
            else k.fields.target == old(k.fields.target))
      ensures forall k | k in old(plan.editsByReloc) && !old(plan.editsByReloc)[k].active :: k.fields == old(k.fields)
    {
      if plan.editsByReloc == map[] {
        order := [];
        NothingToCommit(data[..size]);
      } else {
        order := ApplyPending();
        plan.Clear();
      }
    }
  }

  lemma NothingToCommit(was: seq<byte>)
    ensures Survive(was, map[], |was|) == was && Kept(map[], |was|) == |was|
  {
    KeepRange(was, map[], 0, |was|);
    assert was[0..|was|] == was;
  }
}
