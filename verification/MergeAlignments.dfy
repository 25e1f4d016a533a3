/** For which alignments promotion is safe: everything added to a constant table stays served in every run
    exactly if, of any three alignments in use, what the outer two have in common divides the middle one. */
module MergeAlignments {
  import opened Wrappers
  import opened Words
  import opened MergePieces
  import opened MergeConstants

  // ---- common divisors ------------------------------------------------------------------------

  predicate Divides(g: nat, n: nat)
    requires g > 0
  {
    Remainder(n, g) == 0
  }

  lemma DividesProduct(g: nat, k: nat)
    requires g > 0
    ensures Divides(g, k * g)
  {
    RemainderUnique(k * g, g, k, 0);
  }

  lemma DividesThrough(g: nat, q: nat, b: nat, r: nat)
    requires g > 0 && Divides(g, b)
    ensures Divides(g, q * b + r) <==> Divides(g, r)
  {
    var j := RemainderOf(b, g);
    assert q * b == q * (j * g) == (q * j) * g;
    DividesProduct(g, q * j);
    RemainderAfterAdding(r, q * b, g);
  }

  /** The greatest common divisor divides both, and every common divisor divides it. */
  lemma {:induction false} GcdDivides(a: nat, b: nat)
    requires a > 0
    ensures Divides(Gcd(a, b), a) && Divides(Gcd(a, b), b)
    decreases b
  {
    if b == 0 {
      RemainderUnique(a, a, 1, 0);
    } else {
      var q := RemainderOf(a, b);
      GcdDivides(b, Remainder(a, b));
      DividesThrough(Gcd(a, b), q, b, Remainder(a, b));
    }
  }

  lemma {:induction false} CommonDivides(g: nat, a: nat, b: nat)
    requires g > 0 && a > 0 && Divides(g, a) && Divides(g, b)
    ensures Divides(g, Gcd(a, b))
    decreases b
  {
    if b > 0 {
      var q := RemainderOf(a, b);
      DividesThrough(g, q, b, Remainder(a, b));
      CommonDivides(g, b, Remainder(a, b));
    }
  }

  lemma GcdSymmetric(a: nat, b: nat)
    ensures Gcd(a, b) == Gcd(b, a)
  {
  }

  lemma CongruentBelow(x: nat, y: nat, g: nat, n: nat)
    requires g > 0 && n > 0 && Divides(g, n) && Congruent(x, y, n)
    ensures Congruent(x, y, g)
  {
    var k := RemainderOf(n, g);
    RemainderOfMultiple(x, g, k);
    RemainderOfMultiple(y, g, k);
  }

  // ---- the condition --------------------------------------------------------------------------

  function Common(c: Piece, d: Piece): (r: nat)
    ensures r > 0
  {
    Gcd(AtLeast1(c.alignment), AtLeast1(d.alignment))
  }

  /** If e is between d and c, what those two have in common divides its alignment. */
  predicate Bridges(d: Piece, e: Piece, c: Piece) {
    d.alignment < e.alignment < c.alignment ==> Divides(Common(d, c), e.alignment)
  }

  ghost predicate AllBridged(added: set<Piece>) {
    forall d, e, c {:trigger Bridges(d, e, c)} | d in added && e in added && c in added :: Bridges(d, e, c)
  }

  /** Compatibility passes up through an entry that bridges. */
  lemma CompatibleUp(d: Piece, e: Piece, c: Piece)
    requires Compatible(e, d) && Compatible(e, c) && d.alignment <= e.alignment < c.alignment && Bridges(d, e, c)
    ensures Compatible(c, d)
  {
    var a, b, g := AtLeast1(d.alignment), AtLeast1(e.alignment), Common(d, c);
    GcdSymmetric(c.alignment, a);
    GcdSymmetric(b, a);
    GcdDivides(a, c.alignment);
    CommonDivides(g, a, b);
    CommonDivides(g, b, c.alignment);
    CongruentBelow(d.inputOffset, e.inputOffset, g, Gcd(a, b));
    CongruentBelow(e.inputOffset, c.inputOffset, g, Gcd(b, c.alignment));
  }

  // ---- runs -----------------------------------------------------------------------------------

  ghost predicate AllServed(kept: set<Piece>, added: set<Piece>) {
    forall c {:trigger Served(kept, c)} | c in added :: Served(kept, c)
  }

  /** One addition keeps everything served if all alignments bridge. */
  lemma AddingServes(list: seq<Piece>, kept: set<Piece>, added: set<Piece>, c: Piece)
    requires kept <= added && AllServed(kept, added) && AllBridged(added + {c})
    requires forall e | e in list :: e.data == c.data
    ensures KeptAfter(list, kept, c) <= added + {c} && AllServed(KeptAfter(list, kept, c), added + {c})
  {
    var f, now := Offered(list, kept, c), KeptAfter(list, kept, c);
    assert Serves(c, c);
    forall d | d in added + {c} ensures Served(now, d) {
      if d in added && d != c {
        assert Served(kept, d);
        var e :| e in kept && Serves(e, d);
        if e !in now {
          assert Bridges(d, e, c);
          CompatibleUp(d, e, c);
          assert Serves(c, d);
        }
      } else if f != null && f.alignment >= c.alignment {
        assert Serves(f, c);
      }
    }
  }

  datatype Table = Table(list: seq<Piece>, kept: set<Piece>)

  /** What is listed and kept after adding entries of the same bytes one by one. */
  function Run(ps: seq<Piece>): Table {
    if ps == [] then Table([], {}) else
      var before, c := Run(ps[..|ps| - 1]), ps[|ps| - 1];
      Table(ListAfter(before.list, before.kept, c), KeptAfter(before.list, before.kept, c))
  }

  /** Whatever is added, and in whatever order, everything stays served if all alignments bridge. */
  lemma {:induction false} RunServes(ps: seq<Piece>)
    requires (forall p, q | p in ps && q in ps :: p.data == q.data) && AllBridged(set p | p in ps)
    ensures Run(ps).kept <= (set p | p in ps) && AllServed(Run(ps).kept, set p | p in ps)
    ensures forall p | p in Run(ps).list :: p in ps
    decreases |ps|
  {
    if ps != [] {
      var n := |ps| - 1;
      var before := set p | p in ps[..n];
      assert ps == ps[..n] + [ps[n]];
      assert (set p | p in ps) == before + {ps[n]};
      RunServes(ps[..n]);
      AddingServes(Run(ps[..n]).list, Run(ps[..n]).kept, before, ps[n]);
    }
  }

  /** Alignments that divide one another bridge, as powers of two do. */
  lemma ChainBridges(d: Piece, e: Piece, c: Piece)
    requires d.alignment > 0 ==> Divides(d.alignment, e.alignment)
    ensures Bridges(d, e, c)
  {
    if d.alignment < e.alignment < c.alignment {
      var a := AtLeast1(d.alignment);
      GcdDivides(a, c.alignment);
      var k := RemainderOf(e.alignment, a);
      DividesThrough(Common(d, c), k, a, 0);
    }
  }

  /** Three entries in a row, the second and third behind the first by what the first two have in common: all
      stay served exactly if the second bridges. */
  lemma ThreeServedIff(d: Piece, e: Piece, c: Piece)
    requires d != e && e != c && c != d && d.data == e.data == c.data && 0 < d.alignment < e.alignment < c.alignment
    requires d.inputOffset == 0 && e.inputOffset == c.inputOffset == Common(d, e)
    ensures AllServed(Run([d, e, c]).kept, {d, e, c}) <==> Bridges(d, e, c)
  {
    if Bridges(d, e, c) {
      var ps := [d, e, c];
      assert (set p | p in ps) == {d, e, c};
      RunServes(ps);
    } else {
      UnbridgedRun(d, e, c);
    }
  }

  lemma FirstTwo(d: Piece, e: Piece)
    requires d != e && 0 < d.alignment < e.alignment
    requires d.inputOffset == 0 && e.inputOffset == Common(d, e)
    ensures Run([d, e]) == Table([d, e], {e})
  {
    assert [d, e][..1] == [d] && [d][..0] == [];
    assert Run([]).list == [] && Run([]).kept == {} && {} + {d} == {d};
    assert Run([d]).list == [d] && Run([d]).kept == {d};
    RemainderUnique(Common(d, e), Common(d, e), 1, 0);
    assert Compatible(d, e);
    assert Offered([d], {d}, e) == d && {d} - {d} + {e} == {e};
  }

  lemma UnbridgedRun(d: Piece, e: Piece, c: Piece)
    requires d != e && e != c && c != d && d.data == e.data == c.data && 0 < d.alignment < e.alignment < c.alignment
    requires d.inputOffset == 0 && e.inputOffset == c.inputOffset == Common(d, e) && !Bridges(d, e, c)
    ensures Run([d, e, c]).kept == {c} && !Served({c}, d)
  {
    FirstTwo(d, e);
    assert [d, e, c][..2] == [d, e] && [d, e][1..] == [e];
    assert Compatible(e, c);
    assert Offered([d, e], {e}, c) == Offered([e], {e}, c) == e && {e} - {e} + {c} == {c};
    Unbridged(d, e, c);
  }

  /** A number that divides what two have in common divides both. */
  lemma Unbridged(d: Piece, e: Piece, c: Piece)
    requires 0 < d.alignment < e.alignment < c.alignment && !Bridges(d, e, c)
    requires d.inputOffset == 0 && c.inputOffset == Common(d, e)
    ensures !Compatible(c, d)
  {
    var g, h := Common(d, e), Common(d, c);
    GcdSymmetric(c.alignment, d.alignment);
    GcdDivides(d.alignment, e.alignment);
    if Divides(h, g) {
      var k := RemainderOf(e.alignment, g);
      DividesThrough(h, k, g, 0);
    }
  }
}
