/** Constant merging: identical fixed-size entries share one copy where their alignments allow, and
    an entry of stronger alignment takes over from a weaker copy. */
module MergeConstants {
  import opened Wrappers
  import opened Words
  import opened Sums
  import opened MergePieces
  import opened Buffers

  // ---- alignment ------------------------------------------------------------------------------

  /** std::gcd */
  function Gcd(a: nat, b: nat): (r: nat)
    ensures a > 0 || b > 0 ==> r > 0
    decreases b
  {
    if b == 0 then a else Gcd(b, Remainder(a, b))
  }

  function AtLeast1(n: nat): nat { if n == 0 then 1 else n }

  /** Both entries can have their section's alignment at one address. */
  predicate Compatible(c: Piece, d: Piece) {
    var common := Gcd(AtLeast1(c.alignment), AtLeast1(d.alignment));
    Remainder(c.inputOffset, common) == Remainder(d.inputOffset, common)
  }

  /** ELF alignments are powers of two. */
  ghost predicate PowerOfTwo(n: nat) {
    exists k: nat :: n == Pow2(k)
  }

  predicate Congruent(x: nat, y: nat, a: nat)
    requires a > 0
  {
    Remainder(x, a) == Remainder(y, a)
  }

  lemma PowersDivide(a: nat, b: nat) returns (k: nat)
    requires PowerOfTwo(a) && PowerOfTwo(b) && a <= b
    ensures b == k * a
  {
    var i: nat :| a == Pow2(i);
    var j: nat :| b == Pow2(j);
    if i > j {
      Pow2Grows(j, i);
      k := 1;
    } else {
      k := Pow2(j - i);
      Pow2Product(i, j - i);
    }
  }

  /** For powers of two the common alignment is the weaker one. */
  lemma GcdOfPowers(a: nat, b: nat)
    requires PowerOfTwo(a) && PowerOfTwo(b) && a <= b
    ensures Gcd(a, b) == a && Gcd(b, a) == a
  {
    var k := PowersDivide(a, b);
    RemainderUnique(b, a, k, 0);
    assert Gcd(a, 0) == a;
  }

  lemma CompatibleIs(c: Piece, d: Piece)
    requires PowerOfTwo(c.alignment) && PowerOfTwo(d.alignment) && c.alignment <= d.alignment
    ensures c.alignment > 0
    ensures Compatible(c, d) == Compatible(d, c) == Congruent(c.inputOffset, d.inputOffset, c.alignment)
  {
    GcdOfPowers(c.alignment, d.alignment);
  }

  lemma CongruentWeaker(x: nat, y: nat, a: nat, b: nat)
    requires PowerOfTwo(a) && PowerOfTwo(b) && a <= b && Congruent(x, y, b)
    ensures a > 0 && Congruent(x, y, a)
  {
    var k := PowersDivide(a, b);
    RemainderOfMultiple(x, a, k);
    RemainderOfMultiple(y, a, k);
  }

  lemma CompatibleSymmetric(c: Piece, d: Piece)
    requires PowerOfTwo(c.alignment) && PowerOfTwo(d.alignment)
    ensures Compatible(c, d) == Compatible(d, c)
  {
    if c.alignment <= d.alignment {
      CompatibleIs(c, d);
    } else {
      CompatibleIs(d, c);
    }
  }

  /** Compatible entries agree at every alignment not above either of theirs. */
  lemma CompatibleAgree(c: Piece, d: Piece, a: nat)
    requires PowerOfTwo(c.alignment) && PowerOfTwo(d.alignment) && PowerOfTwo(a)
    requires Compatible(c, d) && a <= c.alignment && a <= d.alignment
    ensures a > 0 && Congruent(c.inputOffset, d.inputOffset, a)
  {
    if c.alignment <= d.alignment {
      CompatibleIs(c, d);
      CongruentWeaker(c.inputOffset, d.inputOffset, a, c.alignment);
    } else {
      CompatibleIs(d, c);
      CongruentWeaker(d.inputOffset, c.inputOffset, a, d.alignment);
    }
  }

  /** Compatibility passes through an entry that is not the weakest of the three. */
  lemma CompatibleThrough(c: Piece, e: Piece, d: Piece)
    requires PowerOfTwo(c.alignment) && PowerOfTwo(e.alignment) && PowerOfTwo(d.alignment)
    requires Compatible(c, e) && Compatible(e, d)
    requires e.alignment >= c.alignment || e.alignment >= d.alignment
    ensures Compatible(c, d)
  {
    var a := if c.alignment <= d.alignment then c.alignment else d.alignment;
    CompatibleAgree(c, e, a);
    CompatibleAgree(e, d, a);
    if c.alignment <= d.alignment {
      CompatibleIs(c, d);
    } else {
      CompatibleIs(d, c);
    }
  }

  // ---- which entries are kept -----------------------------------------------------------------

  /** No two kept entries with the same bytes are compatible. */
  ghost predicate Irredundant(kept: set<Piece>) {
    forall c, d | c in kept && d in kept && c != d && c.data == d.data :: !Compatible(c, d)
  }

  predicate Serves(e: Piece, c: Piece) {
    e.data == c.data && Compatible(e, c) && e.alignment >= c.alignment
  }

  /** Some kept entry can stand in for c. */
  ghost predicate Served(kept: set<Piece>, c: Piece) {
    exists e | e in kept :: Serves(e, c)
  }

  /** Whichever compatible kept entry the table offers for a served entry, it is strong enough. */
  lemma OfferedServes(kept: set<Piece>, c: Piece, f: Piece)
    requires Irredundant(kept) && Served(kept, c) && f in kept && f.data == c.data && Compatible(f, c)
    requires PowerOfTwo(c.alignment) && forall e | e in kept :: PowerOfTwo(e.alignment)
    ensures f.alignment >= c.alignment
  {
    if f.alignment < c.alignment {
      var e :| e in kept && Serves(e, c);
      CompatibleSymmetric(e, c);
      CompatibleThrough(f, c, e);
    }
  }

  /** An entry the table offers nothing for joins the kept ones. */
  lemma AdditionKeeps(kept: set<Piece>, c: Piece)
    requires Irredundant(kept) && c !in kept
    requires PowerOfTwo(c.alignment) && forall e | e in kept :: PowerOfTwo(e.alignment)
    requires forall e | e in kept && e.data == c.data :: !Compatible(e, c)
    ensures Irredundant(kept + {c}) && Served(kept + {c}, c)
    ensures forall d | Served(kept, d) :: Served(kept + {c}, d)
  {
    forall e | e in kept && e.data == c.data ensures !Compatible(c, e) {
      CompatibleSymmetric(c, e);
    }
    assert Serves(c, c);
    forall d | Served(kept, d) ensures Served(kept + {c}, d) {
      var e :| e in kept && Serves(e, d);
      assert e in kept + {c};
    }
  }

  /** An entry of stronger alignment takes over from a compatible kept one, and serves all it served. */
  lemma PromotionKeeps(kept: set<Piece>, c: Piece, retired: Piece)
    requires Irredundant(kept) && c !in kept && retired in kept
    requires retired.data == c.data && Compatible(retired, c) && retired.alignment < c.alignment
    requires PowerOfTwo(c.alignment) && forall e | e in kept :: PowerOfTwo(e.alignment)
    ensures Irredundant(kept - {retired} + {c})
    ensures Served(kept - {retired} + {c}, c) && Served(kept - {retired} + {c}, retired)
    ensures forall d | Served(kept, d) && PowerOfTwo(d.alignment) :: Served(kept - {retired} + {c}, d)
  {
    var now := kept - {retired} + {c};
    CompatibleSymmetric(c, retired);
    forall e | e in kept && e != retired && e.data == c.data ensures !Compatible(c, e) && !Compatible(e, c) {
      CompatibleSymmetric(c, e);
      if Compatible(c, e) {
        CompatibleThrough(retired, c, e);
      }
    }
    assert Serves(c, c) && Serves(c, retired);
    forall d | Served(kept, d) && PowerOfTwo(d.alignment) ensures Served(now, d) {
      var e :| e in kept && Serves(e, d);
      if e == retired {
        CompatibleThrough(c, retired, d);
        assert Serves(c, d);
      } else {
        assert e in now;
      }
    }
  }

  // ---- one addition ---------------------------------------------------------------------------

  /** e is kept, is not c itself, and can share an address with it. */
  predicate Suits(e: Piece, kept: set<Piece>, c: Piece) {
    e != c && e in kept && Compatible(e, c)
  }

  /** The first listed entry that suits c. */
  function Offered(list: seq<Piece>, kept: set<Piece>, c: Piece): (r: Piece?)
    ensures r == null ==> forall e | e in list :: !Suits(e, kept, c)
    ensures r != null ==> exists i | 0 <= i < |list| ::
      list[i] == r && Suits(r, kept, c) && forall j | 0 <= j < i :: !Suits(list[j], kept, c)
  {
    if list == [] then null
    else if Suits(list[0], kept, c) then list[0]
    else Offered(list[1..], kept, c)
  }

  /** The offered entry, if its alignment is strong enough to replace c. */
  function Merged(list: seq<Piece>, kept: set<Piece>, c: Piece): Piece? {
    var e := Offered(list, kept, c);
    if e != null && e.alignment >= c.alignment then e else null
  }

  /** The kept entries once c is added; list is that of c's bytes. */
  function KeptAfter(list: seq<Piece>, kept: set<Piece>, c: Piece): set<Piece> {
    var e := Offered(list, kept, c);
    if e == null then kept + {c} else if e.alignment >= c.alignment then kept else kept - {e} + {c}
  }

  /** The entries listed for c's bytes once c is added. */
  function ListAfter(list: seq<Piece>, kept: set<Piece>, c: Piece): seq<Piece> {
    if Merged(list, kept, c) != null then list else list + [c]
  }

  /** The kept entries serve everything added, and none of them is redundant. */
  ghost predicate Serving(kept: set<Piece>, added: set<Piece>) {
    && kept <= added
    && (forall c | c in added :: PowerOfTwo(c.alignment))
    && (forall c {:trigger Served(kept, c)} | c in added :: Served(kept, c))
    && Irredundant(kept)
  }

  /** Whatever is added, the kept entries go on serving everything. */
  lemma AddingKeeps(list: seq<Piece>, kept: set<Piece>, added: set<Piece>, c: Piece)
    requires Serving(kept, added) && c !in added && PowerOfTwo(c.alignment)
    requires forall e | e in list :: e.data == c.data
    requires forall e | e in kept && e.data == c.data :: e in list
    ensures Serving(KeptAfter(list, kept, c), added + {c})
  {
    var e, now := Offered(list, kept, c), KeptAfter(list, kept, c);
    assert forall d | d in added :: Served(kept, d);
    if e == null {
      AdditionKeeps(kept, c);
    } else if e.alignment >= c.alignment {
      assert Serves(e, c);
    } else {
      PromotionKeeps(kept, c, e);
    }
    forall d | d in added + {c} ensures Served(now, d) {
      assert d in added ==> Served(kept, d);
    }
  }

  /** The entries that cannot share an address and bytes with c. */
  ghost function Without(kept: set<Piece>, c: Piece): set<Piece> {
    set e | e in kept && !(e.data == c.data && Compatible(e, c))
  }

  /** An entry is merged away exactly if a kept one serves it; otherwise it is kept, and the kept entries with its
      bytes that are compatible with it, all weaker, are not. */
  lemma AddedWhen(list: seq<Piece>, kept: set<Piece>, c: Piece)
    requires Irredundant(kept) && c !in kept && PowerOfTwo(c.alignment)
    requires forall e | e in kept :: PowerOfTwo(e.alignment)
    requires forall e | e in list :: e.data == c.data
    requires forall e | e in kept && e.data == c.data :: e in list
    ensures Merged(list, kept, c) != null <==> Served(kept, c)
    ensures Served(kept, c) ==> KeptAfter(list, kept, c) == kept
    ensures !Served(kept, c) ==>
      KeptAfter(list, kept, c) == Without(kept, c) + {c}
  {
    var f := Offered(list, kept, c);
    if Served(kept, c) {
      var e :| e in kept && Serves(e, c);
      assert Suits(e, kept, c);
      OfferedServes(kept, c, f);
    } else if f != null {
      assert !Serves(f, c);
      forall e | e in kept && e.data == c.data && Compatible(e, c) ensures e == f {
        CompatibleSymmetric(e, c);
        CompatibleThrough(f, c, e);
      }
    }
  }

  /** The constant tables of one output section. */
  class ConstantTable {
    var uniqueConstants: map<seq<byte>, seq<Piece>>
    ghost var added: set<Piece>

    constructor ()
      ensures Valid() && added == {} && uniqueConstants == map[]
    {
      uniqueConstants, added := map[], {};
    }

    ghost function Kept(): set<Piece>
      reads this, added`exclude
    {
      set c | c in added && !c.exclude
    }

    function ListOf(data: seq<byte>): seq<Piece>
      reads this
    {
      if data in uniqueConstants then uniqueConstants[data] else []
    }

    /** Entries are listed under their bytes, the kept ones all. */
    ghost predicate Consistent()
      reads this, added`exclude
    {
      && (forall d, e | d in uniqueConstants && e in uniqueConstants[d] :: e in added && e.data == d)
      && (forall c | c in Kept() :: c in ListOf(c.data))
    }

    ghost predicate Valid()
      reads this, added`exclude
    {
      Consistent() && Serving(Kept(), added)
    }

    /** The first kept, compatible entry with c's bytes, other than c. */
    method FindConstant(c: Piece) returns (r: Piece?)
      requires Consistent()
      ensures r == Offered(ListOf(c.data), Kept(), c)
    {
      if c.data !in uniqueConstants {
        return null;
      }
      var list := uniqueConstants[c.data];
      for i := 0 to |list|
        invariant Offered(list, Kept(), c) == Offered(list[i..], Kept(), c)
      {
        assert list[i..][0] == list[i] && list[i..][1..] == list[i + 1..];
        if list[i] != c && !list[i].exclude && Compatible(list[i], c) {
          return list[i];
        }
      }
      return null;
    }

    /** The same, unless its alignment is too weak for c. In a table that serves everything the answer
        for an added entry is one that serves it if it was excluded, and nothing if it was kept. */
    method GetMergedConstant(c: Piece) returns (r: Piece?)
      requires Consistent()
      ensures r == Merged(ListOf(c.data), Kept(), c)
      ensures Valid() && PowerOfTwo(c.alignment) ==> Strongest(c, r)
      ensures Valid() && c in added ==> (r != null <==> c.exclude)
    {
      r := FindConstant(c);
      MergedSays(c);
      if r == null {
        return null;
      }
      if r.alignment < c.alignment {
        return null;
      }
    }

    /** r serves c; without it no other kept entry is compatible and strong enough. */
    ghost predicate Strongest(c: Piece, r: Piece?)
      reads this, added`exclude
    {
      && (r != null ==> r in Kept() && r != c && Serves(r, c))
      && (r == null ==> forall e | e in Kept() && e != c && e.data == c.data && Compatible(e, c) ::
           e.alignment < c.alignment)
    }

    lemma OfferedListed(c: Piece)
      requires Consistent()
      ensures forall e | e in ListOf(c.data) :: e in added && e.data == c.data
      ensures forall e | e in Kept() && e.data == c.data :: e in ListOf(c.data)
    {
    }

    lemma MergedSays(c: Piece)
      requires Consistent()
      ensures Valid() && PowerOfTwo(c.alignment) ==> Strongest(c, Merged(ListOf(c.data), Kept(), c))
      ensures Valid() && c in added ==> (Merged(ListOf(c.data), Kept(), c) != null <==> c.exclude)
    {
      OfferedListed(c);
      if Valid() && PowerOfTwo(c.alignment) {
        MergedStrongest(c);
      }
      if Valid() && c in added {
        MergedForAdded(c);
      }
    }

    lemma MergedStrongest(c: Piece)
      requires Valid() && PowerOfTwo(c.alignment)
      ensures Strongest(c, Merged(ListOf(c.data), Kept(), c))
    {
      OfferedListed(c);
      var r := Offered(ListOf(c.data), Kept(), c);
      if r != null && r.alignment < c.alignment {
        forall e | e in Kept() && e.data == c.data && Compatible(e, c) ensures e.alignment < c.alignment {
          if e.alignment >= c.alignment {
            assert Serves(e, c);
            OfferedServes(Kept(), c, r);
          }
        }
      }
    }

    lemma MergedForAdded(c: Piece)
      requires Valid() && c in added
      ensures Merged(ListOf(c.data), Kept(), c) != null <==> c.exclude
    {
      OfferedListed(c);
      assert Served(Kept(), c);
      var r := Offered(ListOf(c.data), Kept(), c);
      if c.exclude {
        var e :| e in Kept() && Serves(e, c);
        assert e in ListOf(c.data) && Suits(e, Kept(), c);
        OfferedServes(Kept(), c, r);
      } else {
        assert c in Kept();
      }
    }

    method AddConstant(c: Piece)
      requires Consistent() && c !in added
      modifies this
      ensures Consistent() && Kept() == if c.exclude then old(Kept()) else old(Kept()) + {c}
      ensures added == old(added) + {c}
      ensures uniqueConstants ==
        if c.exclude then old(uniqueConstants) else old(uniqueConstants)[c.data := old(ListOf(c.data)) + [c]]
    {
      added := added + {c};
      if !c.exclude {
        var list := if c.data in uniqueConstants then uniqueConstants[c.data] else [];
        uniqueConstants := uniqueConstants[c.data := list + [c]];
      }
    }

    /** Records an entry a kept one stands in for. */
    method DropConstant(c: Piece)
      requires Consistent() && c !in added
      modifies this, c`exclude
      ensures Consistent() && added == old(added) + {c} && Kept() == old(Kept()) && c.exclude
      ensures uniqueConstants == old(uniqueConstants)
    {
      ghost var kept := Kept();
      c.exclude := true;
      AddConstant(c);
      assert Kept() == kept;
    }

    /** Keeps an entry no kept one can stand in for; a weaker compatible copy, if there is one, is retired. */
    method KeepConstant(c: Piece)
      requires Consistent() && c !in added && !c.exclude && Merged(ListOf(c.data), Kept(), c) == null
      modifies this, added`exclude
      ensures Consistent() && added == old(added) + {c}
      ensures Kept() == KeptAfter(old(ListOf(c.data)), old(Kept()), c)
      ensures uniqueConstants == old(uniqueConstants)[c.data := old(ListOf(c.data)) + [c]]
      ensures forall e | e in old(added) && old(e.exclude) :: e.exclude
    {
      ghost var kept, list := Kept(), ListOf(c.data);
      var existing := FindConstant(c);
      if existing != null {
        existing.exclude := true;
        assert Kept() == kept - {existing};
      }
      AddConstant(c);
      assert Kept() == KeptAfter(list, kept, c);
    }

    /** Merges an entry into the section: it is excluded if a strong enough copy is kept, and kept
        otherwise. A table that serves everything goes on doing so. */
    method GetOrAddMergedConstant(c: Piece) returns (canonical: Piece)
      requires Consistent() && c !in added && !c.exclude
      modifies this, c`exclude, added`exclude
      ensures Consistent() && added == old(added) + {c}
      ensures Kept() == KeptAfter(old(ListOf(c.data)), old(Kept()), c)
      ensures uniqueConstants ==
        if c.exclude then old(uniqueConstants) else old(uniqueConstants)[c.data := old(ListOf(c.data)) + [c]]
      ensures c.exclude <==> Merged(old(ListOf(c.data)), old(Kept()), c) != null
      ensures c.exclude ==> canonical == Merged(old(ListOf(c.data)), old(Kept()), c)
      ensures !c.exclude ==> canonical == c
      ensures forall e | e in old(added) && old(e.exclude) :: e.exclude
      ensures old(Valid()) && PowerOfTwo(c.alignment) ==> Valid() && canonical in Kept() && Serves(canonical, c)
      ensures old(Valid()) && PowerOfTwo(c.alignment) ==> (c.exclude <==> Served(old(Kept()), c))
      ensures old(Valid()) && PowerOfTwo(c.alignment) && !c.exclude ==>
        Kept() == Without(old(Kept()), c) + {c}
    {
      AdditionServes(c);
      var merged := GetMergedConstant(c);
      if merged != null {
        DropConstant(c);
        return merged;
      }
      KeepConstant(c);
      return c;
    }

    lemma AdditionServes(c: Piece)
      requires Consistent() && c !in added
      ensures Valid() && PowerOfTwo(c.alignment) ==>
        Serving(KeptAfter(ListOf(c.data), Kept(), c), added + {c}) && Strongest(c, Merged(ListOf(c.data), Kept(), c))
      ensures Valid() && PowerOfTwo(c.alignment) ==> (Merged(ListOf(c.data), Kept(), c) != null <==> Served(Kept(), c))
      ensures Valid() && PowerOfTwo(c.alignment) && !Served(Kept(), c) ==>
        KeptAfter(ListOf(c.data), Kept(), c) ==
          Without(Kept(), c) + {c}
    {
      OfferedListed(c);
      if Valid() && PowerOfTwo(c.alignment) {
        AddedWhen(ListOf(c.data), Kept(), c);
        AddingKeeps(ListOf(c.data), Kept(), added, c);
        MergedStrongest(c);
      }
    }

    method MergeConstantsOf(ps: seq<Piece>)
      requires Valid() && NoRepeats(ps)
      requires forall p | p in ps :: p !in added && !p.exclude && PowerOfTwo(p.alignment)
      modifies this, (set p | p in ps)`exclude, added`exclude
      ensures Valid() && added == old(added) + set p | p in ps
    {
      for j := 0 to |ps|
        invariant Valid() && added == old(added) + set p | p in ps[..j]
        invariant forall i | j <= i < |ps| :: ps[i] !in added && !ps[i].exclude
      {
        assert ps[..j + 1] == ps[..j] + [ps[j]];
        var _ := GetOrAddMergedConstant(ps[j]);
      }
      assert ps[..|ps|] == ps;
    }
  }

  /** The alignments of the three entries: the last retires the second, which alone served the first,
      without serving it. */
  lemma ThirdRetiresServer(d: Piece, e: Piece, c: Piece)
    requires d != e && e != c && c != d && d.data == e.data == c.data
    requires d.alignment == 4 && e.alignment == 6 && c.alignment == 12
    requires d.inputOffset == 0 && e.inputOffset == 6 && c.inputOffset == 6
    ensures KeptAfter([], {}, d) == {d} && ListAfter([], {}, d) == [d]
    ensures KeptAfter([d], {d}, e) == {e} && ListAfter([d], {d}, e) == [d, e]
    ensures KeptAfter([d, e], {e}, c) == {c} && !Served({c}, d)
  {
    assert Gcd(4, 6) == Gcd(6, 4) && Gcd(6, 4) == Gcd(4, 2) && Gcd(4, 2) == Gcd(2, 0) == 2;
    assert Gcd(6, 12) == Gcd(12, 6) && Gcd(12, 6) == Gcd(6, 0) == 6 && Gcd(12, 4) == Gcd(4, 0) == 4;
    assert Remainder(6, 2) == Remainder(4, 2) && Remainder(4, 2) == Remainder(2, 2) == 0;
    assert Remainder(12, 6) == Remainder(6, 6) == 0 && Remainder(12, 4) == Remainder(8, 4) &&
      Remainder(8, 4) == Remainder(4, 4);
    assert Remainder(6, 4) == 2;
    assert [d][1..] == [] && [d, e][1..] == [e];
    assert Compatible(d, e) && Compatible(e, c) && !Compatible(c, d);
    assert Offered([d], {d}, e) == d && {d} - {d} + {e} == {e};
    assert Offered([d, e], {e}, c) == Offered([e], {e}, c) == e && {e} - {e} + {c} == {c};
  }

  /** So the power-of-two demand matters: three additions leave an entry unserved. */
  method PromotionNeedsPowers(d: Piece, e: Piece, c: Piece) returns (table: ConstantTable)
    requires d != e && e != c && c != d && d.data == e.data == c.data
    requires d.alignment == 4 && e.alignment == 6 && c.alignment == 12
    requires d.inputOffset == 0 && e.inputOffset == 6 && c.inputOffset == 6
    requires !d.exclude && !e.exclude && !c.exclude
    modifies d, e, c
    ensures table.Consistent() && table.added == {d, e, c} && table.Kept() == {c} && !Served(table.Kept(), d)
  {
    ThirdRetiresServer(d, e, c);
    table := new ConstantTable();
    assert table.Kept() == {};
    var _ := table.GetOrAddMergedConstant(d);
    var _ := table.GetOrAddMergedConstant(e);
    var _ := table.GetOrAddMergedConstant(c);
  }

  // ---- fragments ------------------------------------------------------------------------------

  class MergeDataFragment {
    const contents: seq<byte>
    const entSize: nat
    const alignment: nat
    var constants: seq<Piece>

    constructor (contents: seq<byte>, entSize: nat, alignment: nat)
      ensures this.contents == contents && this.entSize == entSize && this.alignment == alignment && constants == []
    {
      this.contents, this.entSize, this.alignment, constants := contents, entSize, alignment, [];
    }

    ghost predicate Read()
      reads this
    {
      && Tiles(contents, constants) && NoRepeats(constants)
      && forall i | 0 <= i < |constants| :: |constants[i].data| == entSize && constants[i].alignment == alignment
    }

    /** Splits the contents into entries; fails exactly when they are not a whole number of entries. */
    method ReadConstants() returns (ok: bool)
      requires constants == []
      modifies this
      ensures ok <==> contents == [] || (entSize > 0 && Remainder(|contents|, entSize) == 0)
      ensures ok ==> Read()
      ensures forall p | p in constants :: fresh(p) && !p.exclude
    {
      if contents == [] {
        return true;
      }
      if entSize == 0 || Remainder(|contents|, entSize) != 0 {
        return false;
      }
      var off := 0;
      while off < |contents|
        invariant TilesTo(contents, constants, off) && NoRepeats(constants)
        invariant Remainder(|contents| - off, entSize) == 0
        invariant forall i | 0 <= i < |constants| ::
          |constants[i].data| == entSize && constants[i].alignment == alignment
        invariant forall p | p in constants :: fresh(p) && !p.exclude
      {
        var piece := new Piece(contents[off..off + entSize], off, alignment);
        TilesSnoc(contents, constants, off, piece);
        constants := constants + [piece];
        off := off + entSize;
      }
      return true;
    }

    lemma EntryStart(i: nat)
      requires Read() && i <= |constants|
      ensures TileStart(constants, i) == i * entSize
      decreases i
    {
      if i > 0 {
        EntryStart(i - 1);
        assert constants[i - 1].inputOffset == TileStart(constants, i - 1);
        assert (i - 1) * entSize + entSize == i * entSize;
      }
    }

    method GetConstantAtOffset(offset: nat) returns (r: Option<nat>)
      requires Read() && (contents != [] ==> entSize > 0)
      ensures r.None? <==> offset >= |contents|
      ensures r.Some? ==> r.value < |constants| && MergePieces.Covers(constants[r.value], offset)
    {
      if offset >= |contents| || entSize == 0 {
        return None;
      }
      var i := offset / entSize;
      DivisionBounds(offset, entSize);
      EntryStart(|constants|);
      if i >= |constants| {
        ProductMonotone(|constants|, i, entSize);
        assert false;
      }
      EntryStart(i);
      assert constants[i].inputOffset == TileStart(constants, i);
      return Some(i);
    }
  }

  lemma DivisionBounds(x: nat, n: nat)
    requires n > 0
    ensures x / n * n <= x < x / n * n + n
  {
  }

  lemma ProductMonotone(a: nat, b: nat, n: nat)
    requires a <= b
    ensures a * n <= b * n
  {
    assert b * n == a * n + (b - a) * n;
  }

  // ---- redirection ----------------------------------------------------------------------------

  /** The output holds, from r, the input's bytes from the offset to the end of the entry p around it. */
  ghost predicate EntryRead(out: seq<byte>, r: nat, contents: seq<byte>, p: Piece, offset: nat) {
    && Covers(p, offset) && p.inputOffset + |p.data| <= |contents|
    && Holds(out, r, contents[offset..p.inputOffset + |p.data|])
  }

  lemma ReadThrough(out: seq<byte>, at: nat, contents: seq<byte>, c: Piece, offset: nat)
    requires CutFrom(contents, c, |contents|) && Covers(c, offset) && Holds(out, at, c.data)
    ensures EntryRead(out, at + (offset - c.inputOffset), contents, c, offset)
  {
    var k, n := offset - c.inputOffset, |c.data|;
    assert contents[offset..c.inputOffset + n] == c.data[k..];
    assert out[at + k..at + n] == out[at..at + n][k..];
  }

  /** kept stands for the added entry c: a kept entry that serves it, c itself if that is kept. */
  ghost predicate StandsFor(table: ConstantTable, kept: Piece, c: Piece)
    reads table, table.added`exclude, c
  {
    kept in table.Kept() && Serves(kept, c) && (!c.exclude ==> kept == c)
  }

  /** r is where kept holds what c holds at the offset. */
  ghost predicate Redirected(r: nat, kept: Piece, c: Piece, offset: nat)
    reads kept
  {
    Covers(c, offset) && r == kept.outputOffset + (offset - c.inputOffset)
  }

  /** Where a reference into a constant section points in the output section: the same byte of the entry
      that stands for the referenced one. Once that is emitted, the output holds, from there to the end of
      the entry, exactly the input's bytes. */
  method GetOutputOffset(frag: MergeDataFragment, offset: nat, table: ConstantTable, sectionSize: nat,
                         ghost out: seq<byte>)
    returns (r: nat)
    requires frag.Read() && (frag.contents != [] ==> frag.entSize > 0)
    requires table.Valid() && forall p | p in frag.constants :: p in table.added
    ensures offset >= |frag.contents| ==> r == sectionSize
    ensures offset < |frag.contents| ==> exists c, kept ::
      c in frag.constants && StandsFor(table, kept, c) && Redirected(r, kept, c, offset)
    ensures offset < |frag.contents| && (forall p | p in table.Kept() :: Emitted(out, p)) ==> exists p ::
      p in frag.constants && EntryRead(out, r, frag.contents, p, offset)
  {
    var found := frag.GetConstantAtOffset(offset);
    if found.None? {
      return sectionSize;
    }
    var c := frag.constants[found.value];
    var kept := Canonical(c, table);
    r := kept.outputOffset + (offset - c.inputOffset);
    assert c in frag.constants && StandsFor(table, kept, c) && Redirected(r, kept, c, offset);
    if forall p | p in table.Kept() :: Emitted(out, p) {
      assert Emitted(out, kept);
      ReadThrough(out, kept.outputOffset, frag.contents, c, offset);
      assert c in frag.constants && EntryRead(out, r, frag.contents, c, offset);
    }
  }

  /** The kept entry standing for an added one: the one the table offers, or else the entry itself. */
  method Canonical(c: Piece, table: ConstantTable) returns (kept: Piece)
    requires table.Valid() && c in table.added
    ensures StandsFor(table, kept, c)
  {
    var merged := table.GetMergedConstant(c);
    if merged != null {
      return merged;
    }
    return c;
  }

  /** Merges the entries of every fragment of an output section, in order. */
  method MergeAll(frags: seq<seq<Piece>>, table: ConstantTable)
    requires table.Valid() && table.added == {}
    requires forall f | 0 <= f < |frags| :: NoRepeats(frags[f])
    requires forall f, g | 0 <= f < g < |frags| :: Apart(frags[f], frags[g])
    requires forall f, p | 0 <= f < |frags| && p in frags[f] :: !p.exclude && PowerOfTwo(p.alignment)
    modifies table, AllPieces(frags)`exclude
    ensures table.Valid() && forall p | p in table.added :: p in AllPieces(frags)
    ensures forall f, p | 0 <= f < |frags| && p in frags[f] :: p in table.added
  {
    for f := 0 to |frags|
      invariant table.Valid() && forall p | p in table.added :: p in AllPieces(frags)
      invariant forall g, p | 0 <= g < f && p in frags[g] :: p in table.added
      invariant forall g, p | f <= g < |frags| && p in frags[g] :: p !in table.added && !p.exclude
    {
      assert forall p | p in frags[f] :: p in AllPieces(frags);
      table.MergeConstantsOf(frags[f]);
      forall g, p | f < g < |frags| && p in frags[g] ensures p !in table.added && !p.exclude {
        assert Apart(frags[f], frags[g]);
      }
    }
  }

  function ConstantsOf(frags: seq<MergeDataFragment>): (r: seq<seq<Piece>>)
    reads frags
    ensures |r| == |frags|
    ensures forall f | 0 <= f < |frags| :: r[f] == frags[f].constants
  {
    if frags == [] then [] else ConstantsOf(frags[..|frags| - 1]) + [frags[|frags| - 1].constants]
  }

  method LinkPieces(pieces: seq<seq<Piece>>, alignments: seq<nat>, addr: nat)
    returns (table: ConstantTable, out: array<byte>, starts: seq<nat>)
    requires |alignments| == |pieces| && forall f | 0 <= f < |pieces| :: alignments[f] > 0
    requires forall f | 0 <= f < |pieces| :: NoRepeats(pieces[f])
    requires forall f, g | 0 <= f < g < |pieces| :: Apart(pieces[f], pieces[g])
    requires forall f, p | 0 <= f < |pieces| && p in pieces[f] :: !p.exclude && PowerOfTwo(p.alignment)
    modifies AllPieces(pieces)
    ensures table.Valid() && forall f, p | 0 <= f < |pieces| && p in pieces[f] :: p in table.added
    ensures forall p | p in table.Kept() :: p in AllPieces(pieces) && Emitted(out[..], p)
    ensures StartsAligned(starts, alignments, addr) && forall f | 0 <= f < |pieces| :: PlacedAt(pieces[f], starts[f])
  {
    table := new ConstantTable();
    MergeAll(pieces, table);
    out, starts := LayOutMerged(pieces, alignments, addr, table);
  }

  method LayOutMerged(pieces: seq<seq<Piece>>, alignments: seq<nat>, addr: nat, ghost table: ConstantTable)
    returns (out: array<byte>, starts: seq<nat>)
    requires |alignments| == |pieces| && forall f | 0 <= f < |pieces| :: alignments[f] > 0
    requires forall f | 0 <= f < |pieces| :: NoRepeats(pieces[f])
    requires forall f, g | 0 <= f < g < |pieces| :: Apart(pieces[f], pieces[g])
    requires table.Valid() && forall p | p in table.added :: p in AllPieces(pieces)
    modifies AllPieces(pieces)`outputOffset
    ensures table.Valid() && forall p | p in table.Kept() :: Emitted(out[..], p)
    ensures StartsAligned(starts, alignments, addr) && forall f | 0 <= f < |pieces| :: PlacedAt(pieces[f], starts[f])
  {
    out, starts := LayOutNew(pieces, alignments, addr);
    forall p | p in table.Kept() ensures Emitted(out[..], p) {
      assert p in AllPieces(pieces);
      var f :| 0 <= f < |pieces| && p in pieces[f];
      var j :| 0 <= j < |pieces[f]| && pieces[f][j] == p;
      assert Emitted(out[..], pieces[f][j]);
    }
  }

  ghost predicate HasHome(frags: seq<MergeDataFragment>, p: Piece)
    reads frags
  {
    exists f | 0 <= f < |frags| :: p in frags[f].constants
  }

  /** The kept entries of the fragment sit end to end behind a start of its alignment. */
  ghost predicate InSection(frag: MergeDataFragment, start: nat, addr: nat)
    reads frag, frag.constants
  {
    frag.Read() && PlacedAt(frag.constants, start) && Aligned(addr + start, frag.alignment)
  }

  lemma SectionsFrom(frags: seq<MergeDataFragment>, pieces: seq<seq<Piece>>, alignments: seq<nat>, starts: seq<nat>,
                     addr: nat)
    requires |pieces| == |alignments| == |frags| && StartsAligned(starts, alignments, addr)
    requires forall f | 0 <= f < |frags| ::
      frags[f].Read() && frags[f].constants == pieces[f] && frags[f].alignment == alignments[f]
    requires forall f | 0 <= f < |frags| :: PlacedAt(pieces[f], starts[f])
    ensures forall f | 0 <= f < |frags| :: InSection(frags[f], starts[f], addr)
  {
  }

  lemma ConstantsReady(frags: seq<MergeDataFragment>, pieces: seq<seq<Piece>>, alignments: seq<nat>)
    requires |pieces| == |alignments| == |frags|
    requires forall f | 0 <= f < |frags| :: pieces[f] == frags[f].constants && alignments[f] == frags[f].alignment
    requires forall f | 0 <= f < |frags| :: frags[f].Read() && PowerOfTwo(frags[f].alignment)
    requires forall f, g | 0 <= f < g < |frags| :: Apart(frags[f].constants, frags[g].constants)
    requires forall f, p | 0 <= f < |frags| && p in frags[f].constants :: !p.exclude
    ensures forall f | 0 <= f < |pieces| :: alignments[f] > 0 && NoRepeats(pieces[f])
    ensures forall f, g | 0 <= f < g < |pieces| :: Apart(pieces[f], pieces[g])
    ensures forall f, p | 0 <= f < |pieces| && p in pieces[f] :: !p.exclude && PowerOfTwo(p.alignment)
  {
  }

  lemma Homes(frags: seq<MergeDataFragment>, pieces: seq<seq<Piece>>)
    requires |pieces| == |frags| && forall f | 0 <= f < |frags| :: pieces[f] == frags[f].constants
    ensures forall p | p in AllPieces(pieces) :: HasHome(frags, p)
  {
  }

  /** Constant merging for one output section at addr: merge, lay out, emit. Afterwards every reference
      into any of the fragments meets GetOutputOffset's demands, and every kept entry is emitted in place. */
  method LinkConstants(frags: seq<MergeDataFragment>, addr: nat)
    returns (table: ConstantTable, out: array<byte>, starts: seq<nat>)
    requires forall f | 0 <= f < |frags| :: frags[f].Read() && PowerOfTwo(frags[f].alignment)
    requires forall f, g | 0 <= f < g < |frags| :: Apart(frags[f].constants, frags[g].constants)
    requires forall f, p | 0 <= f < |frags| && p in frags[f].constants :: !p.exclude
    modifies AllPieces(ConstantsOf(frags))
    ensures table.Valid() && forall f, p | 0 <= f < |frags| && p in frags[f].constants :: p in table.added
    ensures forall p | p in table.Kept() :: HasHome(frags, p) && Emitted(out[..], p)
    ensures |starts| == |frags| && forall f | 0 <= f < |frags| :: InSection(frags[f], starts[f], addr)
  {
    var pieces := ConstantsOf(frags);
    var alignments := seq(|frags|, f requires 0 <= f < |frags| => frags[f].alignment);
    ConstantsReady(frags, pieces, alignments);
    table, out, starts := LinkPieces(pieces, alignments, addr);
    SectionsFrom(frags, pieces, alignments, starts, addr);
    Homes(frags, pieces);
  }

  // ---- the alignment of emitted entries -------------------------------------------------------

  /** How many of the first k entries are dropped. */
  function Dropped(lengths: seq<nat>, k: nat): nat
    requires k <= |lengths|
  {
    if k == 0 then 0 else Dropped(lengths, k - 1) + if lengths[k - 1] == 0 then 1 else 0
  }

  lemma {:induction false} DroppedBytes(lengths: seq<nat>, k: nat, ent: nat)
    requires k <= |lengths| && forall i | 0 <= i < |lengths| :: lengths[i] == 0 || lengths[i] == ent
    requires ent > 0
    ensures Before(lengths, k) + Dropped(lengths, k) * ent == k * ent
  {
    if k > 0 {
      DroppedBytes(lengths, k - 1, ent);
      assert k * ent == (k - 1) * ent + ent;
      assert (Dropped(lengths, k - 1) + 1) * ent == Dropped(lengths, k - 1) * ent + ent;
    }
  }

  lemma {:induction false} AlignedBehind(lengths: seq<nat>, i: nat, k: nat, a: nat, start: nat)
    requires i <= |lengths| && a > 0 && k > 0
    requires forall i | 0 <= i < |lengths| :: lengths[i] == 0 || lengths[i] == k * a
    requires Aligned(start, a)
    ensures Aligned(start + Before(lengths, i), a)
    decreases i
  {
    if i > 0 {
      AlignedBehind(lengths, i - 1, k, a, start);
      if lengths[i - 1] != 0 {
        RemainderUnique(k * a, a, k, 0);
        RemainderAfterAdding(start + Before(lengths, i - 1), k * a, a);
      }
    }
  }

  /** When its alignment divides a fragment's entry size, every kept entry has an address of that alignment. */
  lemma EmittedAligned(home: MergeDataFragment, i: nat, k: nat, start: nat, addr: nat)
    requires InSection(home, start, addr) && i < |home.constants| && !home.constants[i].exclude
    requires home.entSize == k * home.alignment > 0
    ensures Aligned(addr + home.constants[i].outputOffset, home.alignment)
  {
    AlignedBehind(Lengths(home.constants), i, k, home.alignment, addr + start);
    assert InPlace(home.constants[i], Lengths(home.constants), start, i);
  }

  lemma CongruentApart(x: nat, y: nat, a: nat)
    requires a > 0 && x <= y
    ensures Congruent(x, y, a) <==> Remainder(y - x, a) == 0
  {
    RemainderAfterAdding(x, y - x, a);
  }

  lemma CongruentShifted(x: nat, y: nat, k: nat, a: nat)
    requires a > 0
    ensures Congruent(x + k, y + k, a) <==> Congruent(x, y, a)
  {
    if x <= y {
      CongruentApart(x, y, a);
      CongruentApart(x + k, y + k, a);
    } else {
      CongruentApart(y, x, a);
      CongruentApart(y + k, x + k, a);
    }
  }

  lemma EntryInPlace(home: MergeDataFragment, i: nat, start: nat)
    requires home.Read() && home.entSize > 0 && i < |home.constants| && !home.constants[i].exclude
    requires PlacedAt(home.constants, start)
    ensures home.constants[i].outputOffset + Dropped(Lengths(home.constants), i) * home.entSize ==
      start + home.constants[i].inputOffset
  {
    home.EntryStart(i);
    assert home.constants[i].inputOffset == TileStart(home.constants, i);
    DroppedBytes(Lengths(home.constants), i, home.entSize);
    assert InPlace(home.constants[i], Lengths(home.constants), start, i);
  }

  /** A reference redirected to a kept entry of some fragment keeps its residue at its own alignment
      exactly when the bytes dropped before that entry are a multiple of it. */
  lemma ResidueKept(home: MergeDataFragment, i: nat, start: nat, addr: nat, c: Piece, offset: nat, r: nat)
    requires InSection(home, start, addr) && home.entSize > 0 && i < |home.constants| && !home.constants[i].exclude
    requires PowerOfTwo(home.alignment) && PowerOfTwo(c.alignment) && Serves(home.constants[i], c)
    requires Redirected(r, home.constants[i], c, offset)
    ensures c.alignment > 0
    ensures Congruent(addr + r, offset, c.alignment) <==>
            Remainder(Dropped(Lengths(home.constants), i) * home.entSize, c.alignment) == 0
  {
    var kept, a, k := home.constants[i], c.alignment, offset - c.inputOffset;
    var dropped := Dropped(Lengths(home.constants), i) * home.entSize;
    CompatibleAgree(kept, c, a);
    CongruentShifted(kept.inputOffset, c.inputOffset, k, a);
    CongruentWeaker(addr + start, 0, a, home.alignment);
    CongruentApart(kept.inputOffset + k, addr + start + kept.inputOffset + k, a);
    EntryInPlace(home, i, start);
    assert addr + r + dropped == addr + start + kept.inputOffset + k;
    CongruentApart(addr + r, addr + start + kept.inputOffset + k, a);
  }

  method MergeBehindCopy(copy: Piece, first: Piece, second: Piece) returns (table: ConstantTable)
    requires copy != first && first != second && second != copy && !copy.exclude && !first.exclude && !second.exclude
    requires copy.data == first.data != second.data
    requires copy.alignment == first.alignment == second.alignment == Pow2(3) && copy.inputOffset == first.inputOffset
    modifies copy, first, second
    ensures fresh(table) && table.Valid() && table.added == {copy, first, second} && first.exclude && !second.exclude
  {
    table := NewWith(copy);
    assert Suits(copy, {copy}, first);
    var _ := table.GetOrAddMergedConstant(first);
    var _ := table.GetOrAddMergedConstant(second);
  }

  method NewWith(c: Piece) returns (table: ConstantTable)
    requires !c.exclude && PowerOfTwo(c.alignment)
    modifies c
    ensures fresh(table) && table.Valid() && table.added == {c} && !c.exclude
    ensures table.Kept() == {c} && table.ListOf(c.data) == [c]
  {
    table := new ConstantTable();
    assert table.Kept() == {};
    var _ := table.GetOrAddMergedConstant(c);
  }

  /** An 8-byte section of two 4-byte entries and alignment 8. */
  ghost predicate TwoEntries(frag: MergeDataFragment)
    reads frag
  {
    && frag.Read() && frag.contents == [1, 1, 1, 1, 2, 2, 2, 2] && frag.entSize == 4 && frag.alignment == 8
    && |frag.constants| == 2
    && frag.constants[0].data == [1, 1, 1, 1] && frag.constants[0].inputOffset == 0
    && frag.constants[1].data == [2, 2, 2, 2] && frag.constants[1].inputOffset == 4
  }

  method ReadTwoEntries() returns (frag: MergeDataFragment)
    ensures fresh(frag) && TwoEntries(frag)
    ensures forall p | p in frag.constants :: fresh(p) && !p.exclude
  {
    frag := new MergeDataFragment([1, 1, 1, 1, 2, 2, 2, 2], 4, 8);
    assert Remainder(8, 4) == Remainder(4, 4) == 0;
    var ok := frag.ReadConstants();
    frag.EntryStart(|frag.constants|);
    assert TileStart(frag.constants, 0) == 0 && TileStart(frag.constants, 1) == 4;
    assert CutFrom(frag.contents, frag.constants[0], 8) && CutFrom(frag.contents, frag.constants[1], 8);
  }

  method PlaceEntries(frag: MergeDataFragment, start: nat, addr: nat, ghost table: ConstantTable)
    requires frag.Read() && table.Valid() && Aligned(addr + start, frag.alignment)
    modifies (set p | p in frag.constants)`outputOffset
    ensures InSection(frag, start, addr) && table.Valid()
  {
    AssignOutputOffsets(frag.constants, start, Lengths(frag.constants));
  }

  lemma SecondMoved(frag: MergeDataFragment, table: ConstantTable, r: nat, c: Piece, kept: Piece)
    requires TwoEntries(frag) && frag.constants[0].exclude && !frag.constants[1].exclude && PlacedAt(frag.constants, 8)
    requires c in frag.constants && StandsFor(table, kept, c) && Redirected(r, kept, c, 4)
    ensures r == 8 && !Congruent(r, 4, 8)
  {
    assert c == frag.constants[1] && kept == c;
    assert InPlace(frag.constants[1], Lengths(frag.constants), 8, 1);
    assert Before(Lengths(frag.constants), 1) == 0;
    assert Remainder(8, 8) == Remainder(0, 8) == 0 && Remainder(4, 8) == 4;
  }

  method LinkTwoEntries() returns (frag: MergeDataFragment, table: ConstantTable)
    ensures TwoEntries(frag) && InSection(frag, 8, 0) && frag.constants[0].exclude && !frag.constants[1].exclude
    ensures table.Valid() && forall p | p in frag.constants :: p in table.added
  {
    var copy := new Piece([1, 1, 1, 1], 0, 8);
    frag := ReadTwoEntries();
    var first, second := frag.constants[0], frag.constants[1];
    assert first in frag.constants && second in frag.constants;
    assert Pow2(3) == 2 * Pow2(2) && Pow2(2) == 2 * Pow2(1) && Pow2(1) == 2 * Pow2(0);
    table := MergeBehindCopy(copy, first, second);
    assert Remainder(8, 8) == Remainder(0, 8) == 0;
    PlaceEntries(frag, 8, 0, table);
  }

  /** The first entry merges into another section's copy: the second, at offset 4, goes to a multiple of 8. */
  method ResidueLost() returns (frag: MergeDataFragment, table: ConstantTable, r: nat)
    ensures TwoEntries(frag) && InSection(frag, 8, 0) && !Congruent(r, 4, 8)
    ensures table.Valid() && forall p | p in frag.constants :: p in table.added
    ensures exists c, kept :: c in frag.constants && StandsFor(table, kept, c) && Redirected(r, kept, c, 4)
  {
    frag, table := LinkTwoEntries();
    r := GetOutputOffset(frag, 4, table, 12, []);
    ghost var c, kept :| c in frag.constants && StandsFor(table, kept, c) && Redirected(r, kept, c, 4);
    SecondMoved(frag, table, r, c, kept);
  }
}
