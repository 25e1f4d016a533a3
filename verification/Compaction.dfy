/** What a relaxation plan does to offsets and bytes: which offsets survive, where they go, and how
    many survive in a symbol. */
module Compaction {
  import opened Wrappers
  import opened Words
  import opened Sorting
  import opened RelaxEdits

  ghost predicate Deleted(m: Edits, o: int) {
    exists k | k in m :: m[k].active && m[k].deleteOffset <= o < m[k].End()
  }

  /** o lies strictly inside a deleted range. */
  ghost predicate Inside(m: Edits, o: int) {
    exists k | k in m :: m[k].active && m[k].deleteOffset < o < m[k].End()
  }

  ghost predicate InBounds(m: Edits, size: nat) {
    forall k | k in m && m[k].active :: m[k].End() <= size
  }

  /** How many offsets below n survive. */
  ghost function Kept(m: Edits, n: nat): nat {
    if n == 0 then 0 else Kept(m, n - 1) + if Deleted(m, n - 1) then 0 else 1
  }

  /** The surviving bytes among the first n of buf. */
  ghost function Survive(buf: seq<byte>, m: Edits, n: nat): (r: seq<byte>)
    requires n <= |buf|
    ensures |r| == Kept(m, n)
  {
    if n == 0 then [] else Survive(buf, m, n - 1) + if Deleted(m, n - 1) then [] else [buf[n - 1]]
  }

  // ---- counting -------------------------------------------------------------------------------

  predicate Covers(e: RelaxEdit, o: int) {
    e.deleteOffset <= o < e.End()
  }

  function Clip(e: RelaxEdit, o: nat): nat {
    if o <= e.deleteOffset then 0 else if o < e.End() then o - e.deleteOffset else e.deleteBytes
  }

  /** The deleted bytes below o, range by range. */
  function ClipSum(s: seq<RelaxEdit>, o: nat): nat {
    if s == [] then 0 else ClipSum(s[..|s| - 1], o) + Clip(s[|s| - 1], o)
  }

  lemma {:induction false} ClipSumStep(s: seq<RelaxEdit>, o: nat)
    requires Chain(s)
    ensures ClipSum(s, o + 1) == ClipSum(s, o) + if exists e | e in s :: Covers(e, o) then 1 else 0
  {
    if s != [] {
      var n := |s| - 1;
      ClipSumStep(s[..n], o);
      assert forall e | e in s :: e in s[..n] || e == s[n];
      if Covers(s[n], o) {
        forall e | e in s[..n] ensures !Covers(e, o) {
          var i :| 0 <= i < n && s[i] == e;
        }
        assert s[n] in s;
      } else {
        assert forall e | e in s[..n] :: e in s;
      }
    }
  }

  lemma DeletedListed(m: Edits, s: seq<RelaxEdit>, o: int)
    requires Keyed(m) && Lists(m, s)
    ensures Deleted(m, o) <==> exists e | e in s :: Covers(e, o)
  {
    if Deleted(m, o) {
      var k :| k in m && m[k].active && m[k].deleteOffset <= o < m[k].End();
      assert m[k] in multiset(s);
      assert m[k] in s && Covers(m[k], o);
    }
  }

  lemma {:induction false} KeptByClips(m: Edits, s: seq<RelaxEdit>, n: nat)
    requires Keyed(m) && Lists(m, s) && Chain(s)
    ensures Kept(m, n) + ClipSum(s, n) == n
  {
    if n == 0 {
      ClipSumZero(s);
    } else {
      KeptByClips(m, s, n - 1);
      ClipSumStep(s, n - 1);
      DeletedListed(m, s, n - 1);
    }
  }

  lemma {:induction false} ClipSumZero(s: seq<RelaxEdit>)
    ensures ClipSum(s, 0) == 0
  {
    if s != [] {
      ClipSumZero(s[..|s| - 1]);
    }
  }

  /** Off the inside of a deletion, clipping a range is all or nothing. */
  lemma {:induction false} ClipSumIsShift(s: seq<RelaxEdit>, o: nat)
    requires forall e | e in s :: e.active && !(e.deleteOffset < o < e.End())
    ensures ClipSum(s, o) == ListShift(s, Below(o))
  {
    if s != [] {
      assert forall e | e in s[..|s| - 1] :: e in s;
      assert s[|s| - 1] in s;
      ClipSumIsShift(s[..|s| - 1], o);
    }
  }

  lemma {:induction false} WholeShift(s: seq<RelaxEdit>, size: nat)
    requires forall e | e in s :: e.End() <= size
    ensures ListShift(s, Below(size)) == ListShift(s, Everywhere)
  {
    if s != [] {
      assert forall e | e in s[..|s| - 1] :: e in s;
      assert s[|s| - 1] in s;
      WholeShift(s[..|s| - 1], size);
    }
  }

  /** A plan that can be committed: its deletions are disjoint and an empty edit never shares an
      offset with a deletion. */
  ghost predicate Committable(m: Edits) {
    Keyed(m) && PlanSeparated(m) && TieFree(m)
  }

  /** An offset not inside a deletion moves down by exactly the deleted bytes below it. */
  lemma MappedOffset(m: Edits, o: nat)
    requires Committable(m) && !Inside(m, o)
    ensures o - Shift(m, Below(o)) == Kept(m, o)
  {
    var s := SortedListing(m);
    TieFreeChain(m, s);
    KeptByClips(m, s, o);
    ClipSumIsShift(s, o);
    ListedShift(m, s, Below(o));
  }

  lemma MappedSize(m: Edits, size: nat)
    requires Committable(m) && InBounds(m, size)
    ensures size - Shift(m, Everywhere) == Kept(m, size)
    ensures Shift(m, Below(size)) == Shift(m, Everywhere)
  {
    MappedOffset(m, size);
    var s := SortedListing(m);
    WholeShift(s, size);
    ListedShift(m, s, Below(size));
    ListedShift(m, s, Everywhere);
  }

  lemma {:induction false} KeptMonotone(m: Edits, a: nat, b: nat)
    requires a <= b
    ensures Kept(m, a) <= Kept(m, b) <= Kept(m, a) + (b - a)
    decreases b
  {
    if a < b {
      KeptMonotone(m, a, b - 1);
    }
  }

  lemma {:induction false} SurvivePrefix(buf: seq<byte>, m: Edits, a: nat, b: nat)
    requires a <= b <= |buf|
    ensures Survive(buf, m, a) <= Survive(buf, m, b)
    decreases b
  {
    if a < b {
      SurvivePrefix(buf, m, a, b - 1);
    }
  }

  // ---- the offset map -------------------------------------------------------------------------

  /** Every surviving byte is found at its mapped offset. */
  lemma SurvivorFound(buf: seq<byte>, m: Edits, o: nat)
    requires Committable(m) && o < |buf| && !Deleted(m, o)
    ensures Shift(m, Below(o)) <= o
    ensures o - Shift(m, Below(o)) < |Survive(buf, m, |buf|)|
    ensures Survive(buf, m, |buf|)[o - Shift(m, Below(o))] == buf[o]
  {
    MappedOffset(m, o);
    SurvivesAtKept(buf, m, o);
  }

  lemma SurvivesAtKept(buf: seq<byte>, m: Edits, o: nat)
    requires o < |buf| && !Deleted(m, o)
    ensures Kept(m, o) < |Survive(buf, m, |buf|)| && Survive(buf, m, |buf|)[Kept(m, o)] == buf[o]
  {
    SurvivePrefix(buf, m, o + 1, |buf|);
    assert Survive(buf, m, o + 1)[Kept(m, o)] == buf[o];
  }

  /** Every byte of the result is a survivor. */
  lemma {:induction false} EveryByteSurvived(buf: seq<byte>, m: Edits, n: nat, i: nat) returns (o: nat)
    requires Committable(m) && n <= |buf| && i < Kept(m, n)
    ensures o < n && !Deleted(m, o) && o - Shift(m, Below(o)) == i && Survive(buf, m, n)[i] == buf[o]
    decreases n
  {
    if i < Kept(m, n - 1) {
      o := EveryByteSurvived(buf, m, n - 1, i);
    } else {
      o := n - 1;
      MappedOffset(m, o);
    }
  }

  /** The offset map keeps order off the insides of deletions, and separates survivors. */
  lemma OffsetMapOrdered(m: Edits, a: nat, b: nat)
    requires Committable(m) && a < b && !Inside(m, a) && !Inside(m, b)
    ensures a - Shift(m, Below(a)) <= b - Shift(m, Below(b))
    ensures !Deleted(m, a) ==> a - Shift(m, Below(a)) < b - Shift(m, Below(b))
  {
    MappedOffset(m, a);
    MappedOffset(m, b);
    KeptMonotone(m, a + 1, b);
  }

  lemma {:induction false} ShiftMonotone(m: Edits, a: nat, b: nat)
    requires a <= b
    ensures Shift(m, Below(a)) <= Shift(m, Below(b))
    decreases |m|
  {
    if m != map[] {
      var k :| k in m;
      ShiftSplit(m, k, Below(a));
      ShiftSplit(m, k, Below(b));
      ShiftMonotone(m - {k}, a, b);
    }
  }

  /** An offset inside a deletion is mapped before the deletion's own start. */
  lemma InsideRunsBackwards(m: Edits, k: Relocation, o: nat)
    requires k in m && m[k].active && m[k].deleteOffset < o < m[k].End()
    ensures o - Shift(m, Below(o)) < m[k].deleteOffset - Shift(m, Below(m[k].deleteOffset))
  {
    var start := m[k].deleteOffset;
    ShiftSplit(m, k, Below(o));
    ShiftSplit(m, k, Below(start));
    ShiftMonotone(m - {k}, start, o);
  }

  /** So the map keeps the order of all offsets exactly when none is inside a deletion. */
  lemma OrderedIffNoneInside(m: Edits)
    requires Committable(m)
    ensures (forall a: nat, b: nat | a < b :: a - Shift(m, Below(a)) <= b - Shift(m, Below(b))) <==>
            forall o: nat :: !Inside(m, o)
  {
    if forall a: nat, b: nat | a < b :: a - Shift(m, Below(a)) <= b - Shift(m, Below(b)) {
      forall o: nat ensures !Inside(m, o) {
        if Inside(m, o) {
          var k :| k in m && m[k].active && m[k].deleteOffset < o < m[k].End();
          InsideRunsBackwards(m, k, o);
        }
      }
    }
    if forall o: nat :: !Inside(m, o) {
      forall a: nat, b: nat | a < b ensures a - Shift(m, Below(a)) <= b - Shift(m, Below(b)) {
        OffsetMapOrdered(m, a, b);
      }
    }
  }

  /** Four bytes deleted at 4: offset 4 stays, offset 5 goes to 1. */
  lemma FifthRunsBackwards(r: Relocation)
    ensures var m := map[r := RelaxEdit(r, 4, 4, 4, 0, None, None, 0, None, true)];
      Committable(m) && Inside(m, 5) && 4 - Shift(m, Below(4)) == 4 && 5 - Shift(m, Below(5)) == 1
  {
    var m := map[r := RelaxEdit(r, 4, 4, 4, 0, None, None, 0, None, true)];
    ShiftSplit(m, r, Below(5));
    ShiftSplit(m, r, Below(4));
    assert m - {r} == map[];
    assert m[r].deleteOffset < 5 < m[r].End();
  }

  // ---- symbol sizes ---------------------------------------------------------------------------

  /** The commit loop's running size, in its 32-bit arithmetic. */
  function ShrunkSize(s: seq<RelaxEdit>, off: nat, size: nat): nat {
    if s == [] then size else
      var e := s[|s| - 1];
      var r := ShrunkSize(s[..|s| - 1], off, size);
      if e.deleteOffset >= off && e.deleteOffset - off < r then (r - e.deleteBytes) % 0x1_0000_0000 else r
  }

  /** The size with every deletion starting in the symbol subtracted. */
  function IdealSize(s: seq<RelaxEdit>, off: nat, size: nat): int {
    size - (ListShift(s, Below(off + size)) - ListShift(s, Below(off)))
  }

  /** The loop's test on the j-th edit agrees with "starts in the symbol". */
  predicate Noticed(s: seq<RelaxEdit>, j: nat, off: nat, size: nat)
    requires j < |s|
  {
    s[j].deleteBytes > 0 && off <= s[j].deleteOffset < off + size ==>
      s[j].deleteOffset - off < IdealSize(s[..j], off, size)
  }

  lemma {:induction false} ShrunkVersusIdeal(s: seq<RelaxEdit>, off: nat, size: nat, k: nat)
    requires forall e | e in s :: e.active
    requires k <= |s| && size < 0x1_0000_0000
    requires IdealSize(s, off, size) >= 0
    ensures 0 <= IdealSize(s[..k], off, size) <= ShrunkSize(s[..k], off, size) <= size
    ensures IdealSize(s[..k], off, size) == ShrunkSize(s[..k], off, size) <==>
      forall j | 0 <= j < k :: Noticed(s, j, off, size)
  {
    IdealDecreases(s, off, size, k);
    if k == 0 {
    } else {
      ShrunkVersusIdeal(s, off, size, k - 1);
      assert s[..k][..k - 1] == s[..k - 1];
      assert s[k - 1] in s;
      var ideal, shrunk := IdealSize(s[..k - 1], off, size), ShrunkSize(s[..k - 1], off, size);
      assert Noticed(s, k - 1, off, size) && ideal == shrunk ==>
        IdealSize(s[..k], off, size) == ShrunkSize(s[..k], off, size);
    }
  }

  lemma {:induction false} IdealDecreases(s: seq<RelaxEdit>, off: nat, size: nat, k: nat)
    requires k <= |s|
    ensures IdealSize(s, off, size) <= IdealSize(s[..k], off, size) <= size
  {
    if s == [] {
    } else if k == |s| {
      assert s[..k] == s;
      IdealDecreases(s[..k - 1], off, size, 0);
    } else {
      IdealDecreases(s[..|s| - 1], off, size, k);
      assert s[..|s| - 1][..k] == s[..k];
    }
  }

  lemma {:induction false} SameCuts(s: seq<RelaxEdit>, a: nat, b: nat)
    requires forall e | e in s :: e.deleteBytes == 0 || (e.deleteOffset < a <==> e.deleteOffset < b)
    ensures ListShift(s, Below(a)) == ListShift(s, Below(b))
  {
    if s != [] {
      assert s[|s| - 1] in s;
      assert forall e | e in s[..|s| - 1] :: e in s;
      SameCuts(s[..|s| - 1], a, b);
    }
  }

  lemma {:induction false} PrefixCuts(s: seq<RelaxEdit>, j: nat, lim: nat)
    requires j <= |s|
    requires forall i | j <= i < |s| :: s[i].deleteOffset >= lim
    ensures ListShift(s, Below(lim)) == ListShift(s[..j], Below(lim))
  {
    if j == |s| {
      assert s[..j] == s;
    } else {
      PrefixCuts(s[..|s| - 1], j, lim);
      assert s[..|s| - 1][..j] == s[..j];
    }
  }

  /** The size the symbol has when the walk reaches an edit starting in it. */
  lemma IdealAtEdit(s: seq<RelaxEdit>, j: nat, off: nat, size: nat)
    requires Chain(s) && SortedBy(s, DeleteStart) && j < |s| && off <= s[j].deleteOffset < off + size
    ensures IdealSize(s[..j], off, size) == size - (ListShift(s, Below(s[j].deleteOffset)) - ListShift(s, Below(off)))
  {
    forall i | j <= i < |s| ensures s[i].deleteOffset >= s[j].deleteOffset {
      if i > j { assert DeleteStart(s[j]) <= DeleteStart(s[i]); }
    }
    PrefixCuts(s, j, s[j].deleteOffset);
    PrefixCuts(s, j, off);
    forall e | e in s[..j]
      ensures e.deleteBytes == 0 || (e.deleteOffset < s[j].deleteOffset <==> e.deleteOffset < off + size)
    {
      var i :| 0 <= i < j && s[i] == e;
      assert s[i].End() <= s[j].deleteOffset;
    }
    SameCuts(s[..j], s[j].deleteOffset, off + size);
  }

  /** Every deletion starting in the symbol starts below the size left by the deletions before it. */
  ghost predicate StartsBelowRunningSize(m: Edits, off: nat, size: nat) {
    forall k | k in m && m[k].active && m[k].deleteBytes > 0 && off <= m[k].deleteOffset < off + size ::
      m[k].deleteOffset - off < size - (Shift(m, Below(m[k].deleteOffset)) - Shift(m, Below(off)))
  }

  lemma NoticedListed(m: Edits, s: seq<RelaxEdit>, off: nat, size: nat)
    requires Committable(m) && Lists(m, s) && SortedBy(s, DeleteStart)
    ensures StartsBelowRunningSize(m, off, size) <==> forall j | 0 <= j < |s| :: Noticed(s, j, off, size)
  {
    TieFreeChain(m, s);
    forall j | 0 <= j < |s| && off <= s[j].deleteOffset < off + size
      ensures s[j].reloc in m && m[s[j].reloc] == s[j] && s[j].active
      ensures IdealSize(s[..j], off, size) == size - (Shift(m, Below(s[j].deleteOffset)) - Shift(m, Below(off)))
    {
      assert s[j] in s;
      IdealAtEdit(s, j, off, size);
      ListedShift(m, s, Below(s[j].deleteOffset));
      ListedShift(m, s, Below(off));
    }
    if forall j | 0 <= j < |s| :: Noticed(s, j, off, size) {
      forall k | k in m && m[k].active && m[k].deleteBytes > 0 && off <= m[k].deleteOffset < off + size
        ensures m[k].deleteOffset - off < size - (Shift(m, Below(m[k].deleteOffset)) - Shift(m, Below(off)))
      {
        var j := ListedPositions(m, s, k);
        assert Noticed(s, j, off, size);
      }
    }
  }

  lemma IdealIsKept(m: Edits, s: seq<RelaxEdit>, off: nat, size: nat)
    requires Committable(m) && Lists(m, s) && !Inside(m, off) && !Inside(m, off + size)
    ensures 0 <= IdealSize(s, off, size) == Kept(m, off + size) - Kept(m, off)
  {
    MappedOffset(m, off);
    MappedOffset(m, off + size);
    KeptMonotone(m, off, off + size);
    ListedShift(m, s, Below(off));
    ListedShift(m, s, Below(off + size));
  }

  /** The committed size of a symbol no deletion straddles is its number of surviving bytes exactly
      when every deletion in it starts below the running size. */
  lemma SymbolSizeExact(m: Edits, s: seq<RelaxEdit>, off: nat, size: nat)
    requires Committable(m) && Lists(m, s) && SortedBy(s, DeleteStart)
    requires size < 0x1_0000_0000 && !Inside(m, off) && !Inside(m, off + size)
    ensures ShrunkSize(s, off, size) >= Kept(m, off + size) - Kept(m, off)
    ensures ShrunkSize(s, off, size) == Kept(m, off + size) - Kept(m, off) <==> StartsBelowRunningSize(m, off, size)
  {
    IdealIsKept(m, s, off, size);
    assert s[..|s|] == s;
    forall e | e in s ensures e.active {}
    ShrunkVersusIdeal(s, off, size, |s|);
    NoticedListed(m, s, off, size);
  }

  /** Two calls shortened in one 16-byte symbol: twelve bytes go, the symbol's size loses six. */
  lemma ShrinkMissesSecondCall(r1: Relocation, r2: Relocation)
    requires r1 != r2
    ensures var e1 := RelaxEdit(r1, 0, 2, 6, 0, None, None, 0, None, true);
      var e2 := RelaxEdit(r2, 8, 10, 6, 0, None, None, 0, None, true);
      var m := map[r1 := e1, r2 := e2];
      Committable(m) && Lists(m, [e1, e2]) && ShrunkSize([e1, e2], 0, 16) == 10 && Kept(m, 16) - Kept(m, 0) == 4
  {
    var e1 := RelaxEdit(r1, 0, 2, 6, 0, None, None, 0, None, true);
    var e2 := RelaxEdit(r2, 8, 10, 6, 0, None, None, 0, None, true);
    var m := map[r1 := e1, r2 := e2];
    var s := [e1, e2];
    assert s[..1] == [e1] && [e1][..0] == [];
    assert ShrunkSize([e1], 0, 16) == 10;
    assert ListShift([e1], Everywhere) == 6;
    MappedSize(m, 16);
    ListedShift(m, s, Everywhere);
  }
}
