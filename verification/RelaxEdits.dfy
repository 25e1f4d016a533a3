/** The edits of a relaxation plan as values: the shift they cause at an offset, summed over the
    plan's map (the specification) and over a sorted listing of it (what the cache holds). */
module RelaxEdits {
  import opened Wrappers
  import opened Sorting

  /** The fields of a relocation other than its target reference. */
  datatype RelocationFields = RelocationFields(kind: nat, addend: int, target: nat)

  /** A relocation; offset is that of its target reference, in the fragment being relaxed. */
  class Relocation {
    var offset: nat
    var fields: RelocationFields

    constructor (offset: nat, fields: RelocationFields)
      ensures this.offset == offset && this.fields == fields
    {
      this.offset, this.fields := offset, fields;
    }
  }

  datatype RelaxEdit = RelaxEdit(
    reloc: Relocation,
    origOffset: nat,
    deleteOffset: nat,
    deleteBytes: nat,
    nopBytes: nat,
    newType: Option<nat>,
    newInstr: Option<nat>,
    newInstrSize: nat,
    newAddend: Option<int>,
    active: bool)
  {
    function End(): nat { deleteOffset + deleteBytes }
  }

  type Edits = map<Relocation, RelaxEdit>

  function DeleteStart(e: RelaxEdit): int { e.deleteOffset }

  // ---- shifts ---------------------------------------------------------------------------------

  /** Which edits a sum ranges over: those deleting below an offset, or all of them. */
  datatype Limit = Below(off: nat) | Everywhere

  /** The bytes e removes below the limit. */
  function Cut(e: RelaxEdit, lim: Limit): nat {
    if e.active && (lim.Everywhere? || e.deleteOffset < lim.off) then e.deleteBytes else 0
  }

  /** The plain sum over the plan. */
  ghost function Shift(m: Edits, lim: Limit): nat
    decreases |m|
  {
    if m == map[] then 0 else
      var k :| k in m;
      Cut(m[k], lim) + Shift(m - {k}, lim)
  }

  /** The sum over a listing. */
  function ListShift(s: seq<RelaxEdit>, lim: Limit): nat {
    if s == [] then 0 else ListShift(s[..|s| - 1], lim) + Cut(s[|s| - 1], lim)
  }

  lemma {:induction false} ShiftSplit(m: Edits, k: Relocation, lim: Limit)
    requires k in m
    ensures Shift(m, lim) == Cut(m[k], lim) + Shift(m - {k}, lim)
    decreases |m|
  {
    var j :| j in m && Shift(m, lim) == Cut(m[j], lim) + Shift(m - {j}, lim);
    if j != k {
      ShiftSplit(m - {j}, k, lim);
      ShiftSplit(m - {k}, j, lim);
      assert m - {j} - {k} == m - {k} - {j};
    }
  }

  lemma ShiftUpdate(m: Edits, k: Relocation, e: RelaxEdit, lim: Limit)
    ensures Shift(m[k := e], lim) == Cut(e, lim) + Shift(m - {k}, lim)
    ensures k !in m ==> m - {k} == m
  {
    ShiftSplit(m[k := e], k, lim);
    assert m[k := e] - {k} == m - {k};
  }

  // ---- listings -------------------------------------------------------------------------------

  /** Every edit is filed under its own relocation. */
  ghost predicate Keyed(m: Edits) {
    forall k | k in m :: m[k].reloc == k
  }

  /** s holds exactly the active edits of m, each once. */
  ghost predicate Lists(m: Edits, s: seq<RelaxEdit>) {
    && (forall e | e in s :: e.active && e.reloc in m && m[e.reloc] == e)
    && (forall k | k in m && m[k].active :: multiset(s)[m[k]] == 1)
  }

  lemma ListsPermuted(m: Edits, s: seq<RelaxEdit>, t: seq<RelaxEdit>)
    requires Lists(m, s) && multiset(s) == multiset(t)
    ensures Lists(m, t)
  {
    forall e | e in t ensures e in s {
      assert e in multiset(t);
    }
  }

  lemma ListsDropLast(m: Edits, s: seq<RelaxEdit>)
    requires Keyed(m) && Lists(m, s) && s != []
    ensures s[|s| - 1].reloc in m && m[s[|s| - 1].reloc] == s[|s| - 1] && s[|s| - 1].active
    ensures Lists(m - {s[|s| - 1].reloc}, s[..|s| - 1])
  {
    var n := |s| - 1;
    var e := s[n];
    assert e in s;
    assert s == s[..n] + [e];
    assert multiset(s) == multiset(s[..n]) + multiset{e};
    assert multiset(s)[m[e.reloc]] == 1;
    forall d | d in s[..n] ensures d.active && d.reloc in m - {e.reloc} && m[d.reloc] == d {
      assert d in s;
      assert d in multiset(s[..n]);
      assert d != e;
    }
  }

  /** The sum does not depend on how the plan is listed. */
  lemma {:induction false} ListedShift(m: Edits, s: seq<RelaxEdit>, lim: Limit)
    requires Keyed(m) && Lists(m, s)
    ensures Shift(m, lim) == ListShift(s, lim)
    decreases |m|
  {
    if s != [] {
      var e := s[|s| - 1];
      ListsDropLast(m, s);
      ShiftSplit(m, e.reloc, lim);
      ListedShift(m - {e.reloc}, s[..|s| - 1], lim);
    } else if m != map[] {
      var k :| k in m;
      ShiftSplit(m, k, lim);
      assert !m[k].active;
      ListedShift(m - {k}, s, lim);
    }
  }

  /** In a sorted listing the edits below off are a prefix. */
  lemma {:induction false} SortedPrefixShift(s: seq<RelaxEdit>, i: nat, off: nat)
    requires i <= |s|
    requires forall k | 0 <= k < i :: s[k].deleteOffset < off
    requires forall k | i <= k < |s| :: s[k].deleteOffset >= off
    ensures ListShift(s, Below(off)) == ListShift(s[..i], Everywhere)
  {
    if s != [] {
      var n := |s| - 1;
      if i == |s| {
        assert s[..i] == s;
        SortedPrefixShift(s[..n], n, off);
        assert s[..n][..n] == s[..n];
      } else {
        SortedPrefixShift(s[..n], i, off);
        assert s[..n][..i] == s[..i];
      }
    }
  }

  lemma {:induction false} PrefixShiftStep(s: seq<RelaxEdit>, i: nat)
    requires i < |s|
    ensures ListShift(s[..i + 1], Everywhere) == ListShift(s[..i], Everywhere) + Cut(s[i], Everywhere)
  {
    assert s[..i + 1][..i] == s[..i];
  }

  // ---- disjointness ---------------------------------------------------------------------------

  predicate Separated(a: RelaxEdit, b: RelaxEdit) {
    a.End() <= b.deleteOffset || b.End() <= a.deleteOffset
  }

  /** No two active edits delete overlapping ranges. */
  ghost predicate PlanSeparated(m: Edits) {
    forall j, k | j in m && k in m && j != k && m[j].active && m[k].active :: Separated(m[j], m[k])
  }

  /** Active edits at one offset either all delete something or all delete nothing. */
  ghost predicate TieFree(m: Edits) {
    forall j, k | j in m && k in m && m[j].active && m[k].active && m[j].deleteOffset == m[k].deleteOffset ::
      m[j].deleteBytes == 0 <==> m[k].deleteBytes == 0
  }

  /** A listing the compaction can walk forward: each edit starts at or after the end of every earlier one. */
  ghost predicate Chain(s: seq<RelaxEdit>) {
    forall i, j | 0 <= i < j < |s| :: s[i].End() <= s[j].deleteOffset
  }

  lemma ListedTwice(s: seq<RelaxEdit>, i: nat, j: nat)
    requires i < j < |s| && s[i] == s[j]
    ensures multiset(s)[s[i]] >= 2
  {
    assert s == s[..j] + [s[j]] + s[j + 1..];
    assert s[..j] == s[..i] + [s[i]] + s[i + 1..j];
  }

  /** Distinct positions of a listing hold the edits of distinct relocations. */
  lemma ListedDistinct(m: Edits, s: seq<RelaxEdit>, i: nat, j: nat)
    requires Lists(m, s) && i < j < |s|
    ensures s[i].reloc in m && s[j].reloc in m && s[i].reloc != s[j].reloc
    ensures m[s[i].reloc] == s[i] && m[s[j].reloc] == s[j]
  {
    assert s[i] in s && s[j] in s;
    if s[i].reloc == s[j].reloc {
      ListedTwice(s, i, j);
    }
  }

  lemma ListedPositions(m: Edits, s: seq<RelaxEdit>, k: Relocation) returns (i: nat)
    requires Lists(m, s) && k in m && m[k].active
    ensures i < |s| && s[i] == m[k]
  {
    assert m[k] in multiset(s);
    assert m[k] in s;
    i :| i < |s| && s[i] == m[k];
  }

  /** A sorted listing of a separated plan can be walked iff no deleting edit precedes an empty one at its offset. */
  lemma ChainIff(m: Edits, s: seq<RelaxEdit>)
    requires Lists(m, s) && SortedBy(s, DeleteStart) && PlanSeparated(m)
    ensures Chain(s) <==>
            forall i, j | 0 <= i < j < |s| && s[i].deleteOffset == s[j].deleteOffset :: s[i].deleteBytes == 0
  {
    if forall i, j | 0 <= i < j < |s| && s[i].deleteOffset == s[j].deleteOffset :: s[i].deleteBytes == 0 {
      forall i, j | 0 <= i < j < |s| ensures s[i].End() <= s[j].deleteOffset {
        ListedDistinct(m, s, i, j);
        assert s[i] in s && s[j] in s;
        assert DeleteStart(s[i]) <= DeleteStart(s[j]);
        assert Separated(s[i], s[j]);
      }
    }
  }

  lemma TieFreeChain(m: Edits, s: seq<RelaxEdit>)
    requires Lists(m, s) && SortedBy(s, DeleteStart) && PlanSeparated(m) && TieFree(m)
    ensures Chain(s)
  {
    forall i, j | 0 <= i < j < |s| && s[i].deleteOffset == s[j].deleteOffset ensures s[i].deleteBytes == 0 {
      ListedDistinct(m, s, i, j);
      assert s[i] in s && s[j] in s;
      assert Separated(s[i], s[j]);
    }
    ChainIff(m, s);
  }

  lemma {:induction false} SomeListing(m: Edits) returns (s: seq<RelaxEdit>)
    requires Keyed(m)
    ensures Lists(m, s)
    decreases |m|
  {
    if m == map[] {
      s := [];
    } else {
      var k :| k in m;
      var rest := SomeListing(m - {k});
      assert m[k] !in rest;
      s := if m[k].active then rest + [m[k]] else rest;
      forall j | j in m && m[j].active ensures multiset(s)[m[j]] == 1 {
        if j != k {
          assert multiset(rest)[(m - {k})[j]] == 1 && m[j] != m[k];
        } else {
          assert multiset(rest)[m[k]] == 0;
        }
      }
    }
  }

  lemma SortedListing(m: Edits) returns (s: seq<RelaxEdit>)
    requires Keyed(m)
    ensures Lists(m, s) && SortedBy(s, DeleteStart)
  {
    var t := SomeListing(m);
    s := StableSort(t, DeleteStart);
    StableSortSorts(t, DeleteStart);
    ListsPermuted(m, t, s);
  }

  lemma {:induction false} WithKeyPositions<T>(s: seq<T>, key: T -> int, v: int, p: nat, q: nat)
    returns (i: nat, j: nat)
    requires p < q < |WithKey(s, key, v)|
    ensures i < j < |s| && s[i] == WithKey(s, key, v)[p] && s[j] == WithKey(s, key, v)[q]
    decreases |s|
  {
    var n := |s| - 1;
    var init := WithKey(s[..n], key, v);
    if q < |init| {
      i, j := WithKeyPositions(s[..n], key, v, p, q);
    } else {
      j := n;
      i := WithKeyPosition(s[..n], key, v, p);
    }
  }

  lemma {:induction false} WithKeyPosition<T>(s: seq<T>, key: T -> int, v: int, p: nat) returns (i: nat)
    requires p < |WithKey(s, key, v)|
    ensures i < |s| && s[i] == WithKey(s, key, v)[p]
    decreases |s|
  {
    var n := |s| - 1;
    if p < |WithKey(s[..n], key, v)| {
      i := WithKeyPosition(s[..n], key, v, p);
    } else {
      i := n;
    }
  }

  lemma {:induction false} WithKeyPrefix<T>(s: seq<T>, t: seq<T>, key: T -> int, v: int)
    ensures WithKey(s, key, v) <= WithKey(s + t, key, v)
    decreases |t|
  {
    if t == [] {
      assert s + t == s;
    } else {
      var n := |t| - 1;
      WithKeyPrefix(s, t[..n], key, v);
      WithKeySnoc(s + t[..n], t[n], key, v);
      assert s + t == s + t[..n] + [t[n]];
    }
  }

  lemma ListingFrom(m: Edits, j: Relocation, k: Relocation) returns (rest: seq<RelaxEdit>)
    requires Keyed(m) && j in m && k in m && j != k && m[j].active && m[k].active
    ensures Lists(m, [m[j], m[k]] + rest)
  {
    rest := SomeListing(m - {j, k});
    assert m[j] !in rest && m[k] !in rest;
    var s := [m[j], m[k]] + rest;
    forall i | i in m && m[i].active ensures multiset(s)[m[i]] == 1 {
      if i !in {j, k} {
        assert multiset(rest)[(m - {j, k})[i]] == 1;
      }
    }
  }

  /** The stable sort keeps two leading elements of equal key in their order. */
  lemma SortKeepsFirstTwo(x: RelaxEdit, y: RelaxEdit, rest: seq<RelaxEdit>) returns (i: nat, j: nat)
    requires x.deleteOffset == y.deleteOffset
    ensures var s := StableSort([x, y] + rest, DeleteStart);
      i < j < |s| && s[i] == x && s[j] == y
  {
    var at: int := x.deleteOffset;
    var first := [x, y];
    StableSortKeeps(first + rest, DeleteStart, at);
    assert first[..1] == [x] && [x][..0] == [];
    assert WithKey([x], DeleteStart, at) == [x];
    assert WithKey(first, DeleteStart, at) == first;
    WithKeyPrefix(first, rest, DeleteStart, at);
    i, j := WithKeyPositions(StableSort(first + rest, DeleteStart), DeleteStart, at, 0, 1);
  }

  lemma NotChain(s: seq<RelaxEdit>, i: nat, j: nat)
    requires i < j < |s| && s[i].End() > s[j].deleteOffset
    ensures !Chain(s)
  {
  }

  /** A deletion and an empty edit at one offset: some sorted order puts the deletion first. */
  lemma TieBreaksWalk(m: Edits, j: Relocation, k: Relocation) returns (s: seq<RelaxEdit>, a: nat, b: nat)
    requires Keyed(m) && j in m && k in m && m[j].active && m[k].active
    requires m[j].deleteOffset == m[k].deleteOffset && m[j].deleteBytes > 0 && m[k].deleteBytes == 0
    ensures Lists(m, s) && SortedBy(s, DeleteStart) && !Chain(s)
    ensures a < b < |s| && s[a] == m[j] && s[b] == m[k]
  {
    var rest := ListingFrom(m, j, k);
    var t := [m[j], m[k]] + rest;
    s := StableSort(t, DeleteStart);
    StableSortSorts(t, DeleteStart);
    ListsPermuted(m, t, s);
    a, b := SortKeepsFirstTwo(m[j], m[k], rest);
    NotChain(s, a, b);
  }

  /** The sort leaves ties unordered, so every order it may choose can be walked iff the plan is tie-free. */
  lemma WalkableIffTieFree(m: Edits)
    requires Keyed(m) && PlanSeparated(m)
    ensures TieFree(m) <==> forall s: seq<RelaxEdit> | Lists(m, s) && SortedBy(s, DeleteStart) :: Chain(s)
  {
    if TieFree(m) {
      forall s: seq<RelaxEdit> | Lists(m, s) && SortedBy(s, DeleteStart) ensures Chain(s) {
        TieFreeChain(m, s);
      }
    } else {
      var j, k :| j in m && k in m && m[j].active && m[k].active && m[j].deleteOffset == m[k].deleteOffset
        && m[j].deleteBytes > 0 && m[k].deleteBytes == 0;
      var s, a, b := TieBreaksWalk(m, j, k);
    }
  }
}
