/** The deferred edits of one fragment, keyed by relocation, with the lazily rebuilt sorted and
    prefix-summed cache the ordered queries use. */
module RelaxPlan {
  import opened Sorting
  import opened RelaxEdits

  /** The cache for m: its active edits by offset, and the bytes deleted before each. */
  ghost predicate Derived(m: Edits, ordered: seq<RelaxEdit>, prefix: seq<int>) {
    && Lists(m, ordered)
    && SortedBy(ordered, DeleteStart)
    && |prefix| == |ordered|
    && forall i | 0 <= i < |prefix| :: prefix[i] == ListShift(ordered[..i], Everywhere)
  }

  /** The full scan: some active edit's range meets [start, start + bytes). */
  ghost predicate Overlaps(m: Edits, start: nat, bytes: nat) {
    exists k | k in m :: Meets(m[k], start, bytes)
  }

  predicate Meets(e: RelaxEdit, start: nat, bytes: nat) {
    e.active && e.deleteOffset < start + bytes && start < e.End()
  }

  predicate Within(o: nat, start: nat, bytes: nat) {
    start <= o < start + bytes
  }

  /** Two ranges that are not empty meet exactly if they share an offset; an empty one meets another exactly if it
      lies strictly inside it. */
  lemma MeetsWhen(e: RelaxEdit, start: nat, bytes: nat)
    ensures !e.active ==> !Meets(e, start, bytes)
    ensures e.active && e.deleteBytes > 0 && bytes > 0 ==>
      (Meets(e, start, bytes) <==>
        exists o: nat :: Within(o, start, bytes) && Within(o, e.deleteOffset, e.deleteBytes))
    ensures e.active && e.deleteBytes == 0 ==> (Meets(e, start, bytes) <==> start < e.deleteOffset < start + bytes)
    ensures e.active && bytes == 0 ==>
      (Meets(e, start, bytes) <==> e.deleteOffset < start < e.deleteOffset + e.deleteBytes)
  {
    if Meets(e, start, bytes) && e.deleteBytes > 0 && bytes > 0 {
      var o := if start < e.deleteOffset then e.deleteOffset else start;
      assert Within(o, start, bytes) && Within(o, e.deleteOffset, e.deleteBytes);
    }
  }

  /** One more edit leaves a plan of disjoint edits such exactly if the scan finds no overlap with it. */
  lemma AdditionSeparated(m: Edits, e: RelaxEdit)
    requires PlanSeparated(m) && e.reloc !in m && e.active
    ensures PlanSeparated(m[e.reloc := e]) <==> !Overlaps(m, e.deleteOffset, e.deleteBytes)
  {
    var more := m[e.reloc := e];
    forall k | k in m && m[k].active ensures Meets(m[k], e.deleteOffset, e.deleteBytes) <==> !Separated(m[k], e) {
      assert more[k] == m[k] && more[e.reloc] == e;
    }
    if Overlaps(m, e.deleteOffset, e.deleteBytes) {
      var k: Relocation :| k in m && Meets(m[k], e.deleteOffset, e.deleteBytes);
      assert k in more && more[k] == m[k] && more[e.reloc] == e;
    }
  }

  /** An active edit that deletes nothing sits exactly at start. */
  ghost predicate EmptyAt(m: Edits, start: nat) {
    exists k | k in m :: m[k].active && m[k].deleteOffset == start && m[k].deleteBytes == 0
  }

  /** i splits the listing at off, as std::lower_bound does. */
  ghost predicate SplitsAt(s: seq<RelaxEdit>, i: nat, off: nat) {
    && i <= |s|
    && (forall k | 0 <= k < i :: s[k].deleteOffset < off)
    && (forall k | i <= k < |s| :: s[k].deleteOffset >= off)
  }

  /** std::lower_bound by DeleteOffset. */
  method LowerBound(s: seq<RelaxEdit>, off: nat) returns (i: nat)
    requires SortedBy(s, DeleteStart)
    ensures SplitsAt(s, i, off)
  {
    i := 0;
    var j := |s|;
    while i < j
      invariant 0 <= i <= j <= |s|
      invariant forall k | 0 <= k < i :: s[k].deleteOffset < off
      invariant forall k | j <= k < |s| :: s[k].deleteOffset >= off
    {
      var mid := (i + j) / 2;
      if s[mid].deleteOffset < off {
        forall k | 0 <= k < mid ensures s[k].deleteOffset < off {
          assert DeleteStart(s[k]) <= DeleteStart(s[mid]);
        }
        i := mid + 1;
      } else {
        forall k | mid < k < |s| ensures s[k].deleteOffset >= off {
          assert DeleteStart(s[mid]) <= DeleteStart(s[k]);
        }
        j := mid;
      }
    }
  }

  lemma {:induction false} SplitExists(s: seq<RelaxEdit>, off: nat) returns (i: nat)
    requires SortedBy(s, DeleteStart)
    ensures SplitsAt(s, i, off)
  {
    if s == [] {
      i := 0;
    } else if DeleteStart(s[|s| - 1]) < off {
      i := |s|;
    } else {
      i := SplitExists(s[..|s| - 1], off);
    }
  }

  // ---- the two-neighbour test -----------------------------------------------------------------

  /** The two-neighbour test on the sorted edits, i being the first at or after start. */
  predicate NeighbourHit(s: seq<RelaxEdit>, i: nat, start: nat, bytes: nat)
    requires i <= |s|
  {
    (i > 0 && s[i - 1].End() > start) || (i < |s| && start + bytes > s[i].deleteOffset)
  }

  /** The query the two-neighbour test answers when nothing is masked: an empty edit at the query's own
      start also counts when the query is not empty. */
  ghost predicate MeetsOrStartsAtEmpty(m: Edits, start: nat, bytes: nat) {
    Overlaps(m, start, bytes) || (bytes > 0 && EmptyAt(m, start))
  }

  /** An order the cache may hold. */
  ghost predicate CacheOrder(m: Edits, s: seq<RelaxEdit>) {
    Lists(m, s) && SortedBy(s, DeleteStart)
  }

  /** No active empty edit shares its offset with a deletion of two bytes or more. */
  ghost predicate NoneMasked(m: Edits) {
    forall j, k | j in m && k in m && m[j].active && m[k].active &&
        m[j].deleteOffset == m[k].deleteOffset && m[k].deleteBytes == 0 ::
      m[j].deleteBytes <= 1
  }

  /** e deletes just the byte at off. */
  predicate TakesByte(e: RelaxEdit, off: nat) {
    e.active && e.deleteOffset == off && e.deleteBytes == 1
  }

  /** Every active empty edit sits at the deletion of a single byte. */
  ghost predicate EmptiesOnBytes(m: Edits) {
    forall k | k in m && m[k].active && m[k].deleteBytes == 0 ::
      exists j :: j in m && TakesByte(m[j], m[k].deleteOffset)
  }

  lemma NeighbourSound(m: Edits, s: seq<RelaxEdit>, i: nat, start: nat, bytes: nat)
    requires Lists(m, s) && SplitsAt(s, i, start) && NeighbourHit(s, i, start, bytes)
    ensures MeetsOrStartsAtEmpty(m, start, bytes)
  {
    if i > 0 && s[i - 1].End() > start {
      assert s[i - 1] in s;
      assert Meets(m[s[i - 1].reloc], start, bytes);
    } else {
      assert s[i] in s;
      assert Meets(m[s[i].reloc], start, bytes) || m[s[i].reloc].deleteBytes == 0;
    }
  }

  /** With nothing masked the last edit below start reaches furthest. */
  lemma LastReachesFurthest(m: Edits, s: seq<RelaxEdit>, i: nat, start: nat, j: nat)
    requires CacheOrder(m, s) && PlanSeparated(m) && NoneMasked(m) && SplitsAt(s, i, start)
    requires j < i && s[j].End() > start
    ensures s[i - 1].End() > start
  {
    if j < i - 1 {
      ListedDistinct(m, s, j, i - 1);
    }
  }

  lemma NeighbourComplete(m: Edits, s: seq<RelaxEdit>, i: nat, start: nat, bytes: nat, k: Relocation)
    requires CacheOrder(m, s) && PlanSeparated(m) && NoneMasked(m) && SplitsAt(s, i, start)
    requires k in m && m[k].active
    requires Meets(m[k], start, bytes) || (bytes > 0 && m[k].deleteOffset == start)
    ensures NeighbourHit(s, i, start, bytes)
  {
    var j := ListedPositions(m, s, k);
    if j < i {
      LastReachesFurthest(m, s, i, start, j);
    } else {
      assert i < j ==> DeleteStart(s[i]) <= DeleteStart(s[j]);
    }
  }

  /** With nothing masked the neighbour test is the full scan but for empty edits at the query's start. */
  lemma NeighboursDecide(m: Edits, s: seq<RelaxEdit>, i: nat, start: nat, bytes: nat)
    requires CacheOrder(m, s) && PlanSeparated(m) && NoneMasked(m) && SplitsAt(s, i, start)
    ensures NeighbourHit(s, i, start, bytes) <==> MeetsOrStartsAtEmpty(m, start, bytes)
  {
    if NeighbourHit(s, i, start, bytes) {
      NeighbourSound(m, s, i, start, bytes);
    }
    if Overlaps(m, start, bytes) {
      var k :| k in m && Meets(m[k], start, bytes);
      NeighbourComplete(m, s, i, start, bytes, k);
    } else if bytes > 0 && EmptyAt(m, start) {
      var k :| k in m && m[k].active && m[k].deleteOffset == start && m[k].deleteBytes == 0;
      NeighbourComplete(m, s, i, start, bytes, k);
    }
  }

  /** An empty edit can mask a deletion of two bytes or more at its offset: some order the sort may pick
      makes the test miss the deletion's second byte. */
  lemma MaskMissesOverlap(m: Edits, j: Relocation, k: Relocation) returns (s: seq<RelaxEdit>, i: nat)
    requires Keyed(m) && PlanSeparated(m) && j in m && k in m && m[j].active && m[k].active
    requires m[j].deleteOffset == m[k].deleteOffset && m[j].deleteBytes >= 2 && m[k].deleteBytes == 0
    ensures CacheOrder(m, s) && SplitsAt(s, i, m[j].deleteOffset + 1)
    ensures !NeighbourHit(s, i, m[j].deleteOffset + 1, 1) && Overlaps(m, m[j].deleteOffset + 1, 1)
  {
    var at := m[j].deleteOffset;
    var a: nat, b: nat;
    s, a, b := TieBreaksWalk(m, j, k);
    i := SplitExists(s, at + 1);
    assert b < i;
    assert DeleteStart(s[b]) <= DeleteStart(s[i - 1]);
    ListedDistinct(m, s, a, i - 1);
    assert Separated(m[j], m[s[i - 1].reloc]);
    if i < |s| {
      ListedDistinct(m, s, a, i);
      assert s[i] in s && Separated(m[j], m[s[i].reloc]);
    }
    assert s[i - 1] in s && Meets(m[j], at + 1, 1);
  }

  /** The cached test finds every overlap, in whatever order the sort leaves ties, exactly when no empty
      edit masks a deletion. */
  lemma MissesNothingIff(m: Edits)
    requires Keyed(m) && PlanSeparated(m)
    ensures NoneMasked(m) <==>
            forall s: seq<RelaxEdit>, i: nat, start: nat, bytes: nat | CacheOrder(m, s) && SplitsAt(s, i, start) ::
              Overlaps(m, start, bytes) ==> NeighbourHit(s, i, start, bytes)
  {
    if NoneMasked(m) {
      forall s: seq<RelaxEdit>, i: nat, start: nat, bytes: nat | CacheOrder(m, s) && SplitsAt(s, i, start)
        ensures Overlaps(m, start, bytes) ==> NeighbourHit(s, i, start, bytes)
      {
        NeighboursDecide(m, s, i, start, bytes);
      }
    } else {
      var j, k :| j in m && k in m && m[j].active && m[k].active && m[j].deleteOffset == m[k].deleteOffset
        && m[k].deleteBytes == 0 && m[j].deleteBytes > 1;
      var s, i := MaskMissesOverlap(m, j, k);
    }
  }

  lemma OnBytesNoneMasked(m: Edits)
    requires PlanSeparated(m) && EmptiesOnBytes(m)
    ensures NoneMasked(m)
  {
    forall j, k | j in m && k in m && m[j].active && m[k].active &&
        m[j].deleteOffset == m[k].deleteOffset && m[k].deleteBytes == 0
      ensures m[j].deleteBytes <= 1
    {
      var d :| d in m && TakesByte(m[d], m[k].deleteOffset);
      assert d != j ==> Separated(m[d], m[j]);
    }
  }

  lemma OnBytesAgree(m: Edits, s: seq<RelaxEdit>, i: nat, start: nat, bytes: nat)
    requires CacheOrder(m, s) && PlanSeparated(m) && EmptiesOnBytes(m) && SplitsAt(s, i, start)
    ensures NeighbourHit(s, i, start, bytes) <==> Overlaps(m, start, bytes)
  {
    OnBytesNoneMasked(m);
    NeighboursDecide(m, s, i, start, bytes);
    if bytes > 0 && EmptyAt(m, start) {
      var k :| k in m && m[k].active && m[k].deleteOffset == start && m[k].deleteBytes == 0;
      var d :| d in m && TakesByte(m[d], start);
      assert Meets(m[d], start, bytes);
    }
  }

  /** An empty edit that sits at no one-byte deletion tells the two paths apart. */
  lemma StrayEmptyTells(m: Edits, k: Relocation) returns (s: seq<RelaxEdit>, i: nat, start: nat)
    requires Keyed(m) && PlanSeparated(m) && k in m && m[k].active && m[k].deleteBytes == 0
    requires forall j | j in m :: !TakesByte(m[j], m[k].deleteOffset)
    ensures CacheOrder(m, s) && SplitsAt(s, i, start)
    ensures !(NeighbourHit(s, i, start, 1) <==> Overlaps(m, start, 1))
  {
    start := m[k].deleteOffset;
    if j :| j in m && m[j].active && m[j].deleteOffset == start && m[j].deleteBytes > 0 {
      assert !TakesByte(m[j], start);
      start := start + 1;
      s, i := MaskMissesOverlap(m, j, k);
    } else {
      s := SortedListing(m);
      i := SplitExists(s, start);
      forall j | j in m && m[j].active ensures !Meets(m[j], start, 1) {
        assert j != k ==> Separated(m[j], m[k]);
      }
      var p := ListedPositions(m, s, k);
      assert i < p ==> DeleteStart(s[i]) <= DeleteStart(s[p]);
    }
  }

  /** With and without a valid cache every query has the same answer, in whatever order the sort leaves
      ties, exactly when every empty edit sits at the deletion of a single byte. */
  lemma PathsAgreeIff(m: Edits)
    requires Keyed(m) && PlanSeparated(m)
    ensures EmptiesOnBytes(m) <==>
            forall s: seq<RelaxEdit>, i: nat, start: nat, bytes: nat | CacheOrder(m, s) && SplitsAt(s, i, start) ::
              NeighbourHit(s, i, start, bytes) <==> Overlaps(m, start, bytes)
  {
    if EmptiesOnBytes(m) {
      forall s: seq<RelaxEdit>, i: nat, start: nat, bytes: nat | CacheOrder(m, s) && SplitsAt(s, i, start)
        ensures NeighbourHit(s, i, start, bytes) <==> Overlaps(m, start, bytes)
      {
        OnBytesAgree(m, s, i, start, bytes);
      }
    } else {
      var k :| k in m && m[k].active && m[k].deleteBytes == 0 &&
        forall j | j in m :: !TakesByte(m[j], m[k].deleteOffset);
      var s, i, start := StrayEmptyTells(m, k);
    }
  }

  /** The bytes deleted before each listed edit, and by all of them. */
  method PrefixSums(s: seq<RelaxEdit>) returns (prefix: seq<int>, shift: nat)
    requires forall e | e in s :: e.active
    ensures |prefix| == |s|
    ensures forall i | 0 <= i < |s| :: prefix[i] == ListShift(s[..i], Everywhere)
    ensures shift == ListShift(s, Everywhere)
  {
    prefix, shift := [], 0;
    for i := 0 to |s|
      invariant |prefix| == i && shift == ListShift(s[..i], Everywhere)
      invariant forall j | 0 <= j < i :: prefix[j] == ListShift(s[..j], Everywhere)
    {
      PrefixShiftStep(s, i);
      prefix := prefix + [shift];
      shift := shift + s[i].deleteBytes;
    }
    assert s[..|s|] == s;
  }

  class RelaxPlan {
    var editsByReloc: Edits
    var orderedEdits: seq<RelaxEdit>
    var prefixShift: seq<int>
    var derivedValid: bool
    var totalShift: int

    ghost predicate Valid()
      reads this
    {
      && Keyed(editsByReloc)
      && totalShift == Shift(editsByReloc, Everywhere)
      && (derivedValid ==> Derived(editsByReloc, orderedEdits, prefixShift))
    }

    constructor ()
      ensures Valid() && editsByReloc == map[] && !derivedValid
    {
      editsByReloc, orderedEdits, prefixShift := map[], [], [];
      derivedValid, totalShift := false, 0;
    }

    method AddEdit(e: RelaxEdit)
      requires Valid()
      modifies this
      ensures Valid() && !derivedValid
      ensures editsByReloc == old(editsByReloc)[e.reloc := e]
    {
      ghost var m := editsByReloc;
      if e.reloc in editsByReloc && editsByReloc[e.reloc].active {
        totalShift := totalShift - editsByReloc[e.reloc].deleteBytes;
      }
      if e.active {
        totalShift := totalShift + e.deleteBytes;
      }
      editsByReloc := editsByReloc[e.reloc := e];
      derivedValid := false;
      ShiftUpdate(m, e.reloc, e, Everywhere);
      if e.reloc in m {
        ShiftSplit(m, e.reloc, Everywhere);
      }
    }

    method RemoveEdit(r: Relocation)
      requires Valid()
      modifies this
      ensures Valid()
      ensures editsByReloc == old(editsByReloc) - {r}
      ensures r !in old(editsByReloc) ==> unchanged(this)
    {
      if r !in editsByReloc {
        assert editsByReloc - {r} == editsByReloc;
        return;
      }
      ShiftSplit(editsByReloc, r, Everywhere);
      if editsByReloc[r].active {
        totalShift := totalShift - editsByReloc[r].deleteBytes;
      }
      editsByReloc := editsByReloc - {r};
      derivedValid := false;
    }

    method Clear()
      modifies this
      ensures Valid() && editsByReloc == map[] && derivedValid && totalShift == 0
    {
      editsByReloc, orderedEdits, prefixShift := map[], [], [];
      derivedValid, totalShift := true, 0;
    }

    /** The active edits of the map in the map's own, unspecified, order. */
    method CollectActive() returns (s: seq<RelaxEdit>)
      requires Valid()
      ensures Lists(editsByReloc, s)
    {
      s := [];
      var rest := editsByReloc.Keys;
      while rest != {}
        invariant rest <= editsByReloc.Keys
        invariant Lists(editsByReloc - rest, s)
        decreases |rest|
      {
        var k :| k in rest;
        ghost var done := editsByReloc - rest;
        ghost var was := s;
        if editsByReloc[k].active {
          s := s + [editsByReloc[k]];
          assert editsByReloc[k] !in was;
        }
        rest := rest - {k};
        assert editsByReloc - rest == done[k := editsByReloc[k]];
      }
      assert editsByReloc - rest == editsByReloc;
    }

    method RebuildDerived()
      requires Valid()
      modifies this
      ensures Valid() && derivedValid
      ensures editsByReloc == old(editsByReloc) && totalShift == old(totalShift)
    {
      var active := CollectActive();
      orderedEdits := StableSort(active, DeleteStart);
      StableSortSorts(active, DeleteStart);
      ListsPermuted(editsByReloc, active, orderedEdits);

      prefixShift, totalShift := PrefixSums(orderedEdits);
      ListedShift(editsByReloc, orderedEdits, Everywhere);
      derivedValid := true;
    }

    /** Cached or not, the answer is the plain sum over active edits starting below origOff. */
    method ShiftAt(origOff: nat) returns (r: nat)
      requires Valid()
      ensures r == Shift(editsByReloc, Below(origOff))
    {
      if !derivedValid {
        r := 0;
        var rest := editsByReloc;
        while rest != map[]
          invariant forall k | k in rest :: k in editsByReloc && rest[k] == editsByReloc[k]
          invariant r + Shift(rest, Below(origOff)) == Shift(editsByReloc, Below(origOff))
          decreases |rest|
        {
          var k :| k in rest;
          ShiftSplit(rest, k, Below(origOff));
          if rest[k].active && rest[k].deleteOffset < origOff {
            r := r + rest[k].deleteBytes;
          }
          rest := rest - {k};
        }
        return;
      }
      var i := LowerBound(orderedEdits, origOff);
      ListedShift(editsByReloc, orderedEdits, Below(origOff));
      SortedPrefixShift(orderedEdits, i, origOff);
      if i == 0 {
        return 0;
      }
      assert orderedEdits[i - 1] in orderedEdits;
      PrefixShiftStep(orderedEdits, i - 1);
      return prefixShift[i - 1] + orderedEdits[i - 1].deleteBytes;
    }

    /** While the cache is out of date this is the full scan; otherwise the neighbour test at the lower
        bound of the cached order, which on a separated plan with nothing masked differs from the scan
        only by an empty edit at the query's own start. */
    method WouldOverlap(deleteOffset: nat, deleteBytes: nat) returns (r: bool)
      requires Valid()
      ensures !derivedValid ==> (r <==> Overlaps(editsByReloc, deleteOffset, deleteBytes))
      ensures derivedValid ==> exists i ::
        SplitsAt(orderedEdits, i, deleteOffset) && (r <==> NeighbourHit(orderedEdits, i, deleteOffset, deleteBytes))
      ensures derivedValid && PlanSeparated(editsByReloc) && NoneMasked(editsByReloc) ==>
        (r <==> MeetsOrStartsAtEmpty(editsByReloc, deleteOffset, deleteBytes))
      ensures PlanSeparated(editsByReloc) && EmptiesOnBytes(editsByReloc) ==>
        (r <==> Overlaps(editsByReloc, deleteOffset, deleteBytes))
    {
      if !derivedValid {
        var rest := editsByReloc.Keys;
        while rest != {}
          invariant rest <= editsByReloc.Keys
          invariant forall k | k in editsByReloc && k !in rest :: !Meets(editsByReloc[k], deleteOffset, deleteBytes)
          decreases |rest|
        {
          var k :| k in rest;
          var e := editsByReloc[k];
          if e.active && e.deleteOffset < deleteOffset + deleteBytes && deleteOffset < e.deleteOffset + e.deleteBytes {
            assert Meets(e, deleteOffset, deleteBytes);
            return true;
          }
          rest := rest - {k};
        }
        return false;
      }
      var i := LowerBound(orderedEdits, deleteOffset);
      CachedAnswer(i, deleteOffset, deleteBytes);
      if i != 0 && orderedEdits[i - 1].deleteOffset + orderedEdits[i - 1].deleteBytes > deleteOffset {
        return true;
      }
      return i != |orderedEdits| && deleteOffset + deleteBytes > orderedEdits[i].deleteOffset;
    }

    lemma CachedAnswer(i: nat, start: nat, bytes: nat)
      requires Valid() && derivedValid && SplitsAt(orderedEdits, i, start)
      ensures PlanSeparated(editsByReloc) && NoneMasked(editsByReloc) ==>
        (NeighbourHit(orderedEdits, i, start, bytes) <==> MeetsOrStartsAtEmpty(editsByReloc, start, bytes))
      ensures PlanSeparated(editsByReloc) && EmptiesOnBytes(editsByReloc) ==>
        (NeighbourHit(orderedEdits, i, start, bytes) <==> Overlaps(editsByReloc, start, bytes))
    {
      if PlanSeparated(editsByReloc) && NoneMasked(editsByReloc) {
        NeighboursDecide(editsByReloc, orderedEdits, i, start, bytes);
      }
      if PlanSeparated(editsByReloc) && EmptiesOnBytes(editsByReloc) {
        OnBytesAgree(editsByReloc, orderedEdits, i, start, bytes);
      }
    }

    /** find() followed by an assignment through the returned pointer that leaves the deletion alone. */
    method FindAndUpdate(r: Relocation, e: RelaxEdit) returns (found: bool)
      requires Valid()
      requires r in editsByReloc ==>
        e.reloc == r && e.active == editsByReloc[r].active && e.deleteBytes == editsByReloc[r].deleteBytes
      modifies this
      ensures Valid()
      ensures found == (r in old(editsByReloc))
      ensures found ==> !derivedValid && editsByReloc == old(editsByReloc)[r := e]
      ensures !found ==> unchanged(this)
    {
      found := r in editsByReloc;
      if found {
        ShiftSplit(editsByReloc, r, Everywhere);
        ShiftUpdate(editsByReloc, r, e, Everywhere);
        derivedValid := false;
        editsByReloc := editsByReloc[r := e];
      }
    }

    method EditsInOrder() returns (s: seq<RelaxEdit>)
      requires Valid()
      modifies this
      ensures Valid() && derivedValid && s == orderedEdits
      ensures editsByReloc == old(editsByReloc) && totalShift == old(totalShift)
      ensures old(derivedValid) ==> unchanged(this)
    {
      if !derivedValid {
        RebuildDerived();
      }
      s := orderedEdits;
    }
  }
}
