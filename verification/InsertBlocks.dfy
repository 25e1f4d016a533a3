/** Which neighbours an INSERT parts: the exact condition under which one insertion leaves every section in
    one stretch with those put next to it, in any script. */
module InsertBlocks {
  import opened Wrappers
  import opened InsertOrder

  // ---- stretches ------------------------------------------------------------------------------

  predicate OccursAt(b: seq<Name>, xs: seq<Name>, i: nat) {
    i + |b| <= |xs| && xs[i..i + |b|] == b
  }

  /** b is a stretch of xs. */
  ghost predicate Infix(b: seq<Name>, xs: seq<Name>) {
    exists i: nat :: OccursAt(b, xs, i)
  }

  /** Where x goes in among xs. */
  function Cut(xs: seq<Name>, anchor: Name, after: bool): nat {
    IndexOf(xs, anchor) + if after then 1 else 0
  }

  lemma InsertedAt(xs: seq<Name>, x: Name, anchor: Name, after: bool)
    requires anchor in xs
    ensures Cut(xs, anchor, after) <= |xs|
    ensures InsertBy(xs, x, anchor, after) == xs[..Cut(xs, anchor, after)] + [x] + xs[Cut(xs, anchor, after)..]
  {
  }

  lemma SplitAround(xs: seq<Name>, x: Name) returns (p: seq<Name>, q: seq<Name>)
    requires NoRepeats(xs) && x in xs
    ensures xs == p + [x] + q && x !in p && x !in q && Erase(xs, x) == p + q
  {
    var i := IndexOf(xs, x);
    p, q := xs[..i], xs[i + 1..];
    assert xs == p + [x] + q;
    OnlyHere(p, x, q);
  }

  lemma OccursBetween(p: seq<Name>, b: seq<Name>, q: seq<Name>)
    ensures OccursAt(b, p + b + q, |p|) && Infix(b, p + b + q)
  {
    assert (p + b + q)[|p|..|p| + |b|] == b;
    assert OccursAt(b, p + b + q, |p|);
  }

  lemma OccursSplits(b: seq<Name>, xs: seq<Name>, i: nat)
    requires OccursAt(b, xs, i)
    ensures xs == xs[..i] + b + xs[i + |b|..]
  {
  }

  lemma EraseApart(xs: seq<Name>, x: Name)
    requires x !in xs
    ensures Erase(xs, x) == xs
  {
  }

  lemma RegroupedTail(u: seq<Name>, x: Name, v: seq<Name>, r: seq<Name>)
    ensures (u + [x] + v) + r == u + [x] + (v + r) && u + (v + r) == (u + v) + r
  {
  }

  lemma EraseInFront(p: seq<Name>, r: seq<Name>, x: Name)
    requires NoRepeats(p) && x in p
    ensures Erase(p + r, x) == Erase(p, x) + r
  {
    var u, v := SplitAround(p, x);
    RegroupedTail(u, x, v, r);
    EraseMid(u, x, v + r);
  }

  lemma Regrouped(p: seq<Name>, u: seq<Name>, x: Name, v: seq<Name>)
    ensures p + (u + [x] + v) == (p + u) + [x] + v && (p + u) + v == p + (u + v)
  {
  }

  lemma EraseBehind(p: seq<Name>, r: seq<Name>, x: Name)
    requires NoRepeats(r) && x !in p
    ensures Erase(p + r, x) == p + Erase(r, x)
  {
    if x in r {
      var u, v := SplitAround(r, x);
      Regrouped(p, u, x, v);
      EraseMid(p + u, x, v);
    } else {
      EraseApart(r, x);
      EraseApart(p + r, x);
    }
  }

  lemma PartOf(p: seq<Name>, b: seq<Name>, q: seq<Name>)
    requires NoRepeats(p + b + q)
    ensures NoRepeats(p) && NoRepeats(b) && NoRepeats(q) && NoRepeats(b + q)
    ensures forall y | y in b :: y !in p && y !in q
    ensures forall y | y in p :: y !in q
  {
    var all := p + b + q;
    assert forall i | 0 <= i < |p| :: p[i] == all[i];
    assert forall i | 0 <= i < |b| :: b[i] == all[|p| + i];
    assert forall i | 0 <= i < |q| :: q[i] == all[|p| + |b| + i];
    assert forall i | 0 <= i < |b + q| :: (b + q)[i] == all[|p| + i];
  }

  lemma Grouped(p: seq<Name>, b: seq<Name>, q: seq<Name>)
    ensures p + b + q == p + (b + q)
  {
  }

  /** What taking a section out makes of three stretches. */
  lemma EraseInThree(p: seq<Name>, b: seq<Name>, q: seq<Name>, x: Name)
    requires NoRepeats(p + b + q)
    ensures Erase(p + b + q, x) == Erase(p, x) + Erase(b, x) + Erase(q, x)
  {
    PartOf(p, b, q);
    Grouped(p, b, q);
    if x in p {
      EraseInFront(p, b + q, x);
      EraseApart(b, x);
      EraseApart(q, x);
      Grouped(Erase(p, x), b, q);
    } else {
      EraseApart(p, x);
      EraseBehind(p, b + q, x);
      if x in b {
        EraseInFront(b, q, x);
        EraseApart(q, x);
        Grouped(p, Erase(b, x), q);
      } else {
        EraseApart(b, x);
        EraseBehind(b, q, x);
        Grouped(p, b, Erase(q, x));
      }
    }
  }

  /** Taking a section out closes the gap. */
  lemma InfixErased(b: seq<Name>, xs: seq<Name>, x: Name)
    requires NoRepeats(xs) && Infix(b, xs)
    ensures Infix(Erase(b, x), Erase(xs, x))
  {
    var i: nat :| OccursAt(b, xs, i);
    OccursSplits(b, xs, i);
    EraseInThree(xs[..i], b, xs[i + |b|..], x);
    OccursBetween(Erase(xs[..i], x), Erase(b, x), Erase(xs[i + |b|..], x));
  }

  /** The j-th member of the stretch and the next meet where an insertion next to the goal goes. */
  predicate MeetAt(b: seq<Name>, goal: Name, after: bool, j: nat) {
    j + 1 < |b| && goal == if after then b[j] else b[j + 1]
  }

  /** An insertion next to the goal goes through the stretch. */
  ghost predicate Through(b: seq<Name>, goal: Name, after: bool) {
    exists j: nat :: MeetAt(b, goal, after, j)
  }

  lemma ThroughIsCut(b: seq<Name>, xs: seq<Name>, i: nat, goal: Name, after: bool)
    requires NoRepeats(xs) && OccursAt(b, xs, i) && goal in xs
    ensures Through(b, goal, after) <==> i < Cut(xs, goal, after) < i + |b|
  {
    assert forall j | 0 <= j < |b| :: b[j] == xs[i..i + |b|][j] == xs[i + j];
    if i < Cut(xs, goal, after) < i + |b| {
      assert MeetAt(b, goal, after, Cut(xs, goal, after) - 1 - i);
    }
    if Through(b, goal, after) {
      var j: nat :| MeetAt(b, goal, after, j);
      assert xs[IndexOf(xs, goal)] == xs[if after then i + j else i + j + 1];
    }
  }

  /** A stretch stays one exactly if the insertion does not go through it. */
  lemma InfixInserted(b: seq<Name>, xs: seq<Name>, x: Name, goal: Name, after: bool)
    requires NoRepeats(xs) && x !in xs && goal in xs && b != [] && Infix(b, xs)
    ensures Infix(b, InsertBy(xs, x, goal, after)) <==> !Through(b, goal, after)
  {
    var i: nat :| OccursAt(b, xs, i);
    var cut := Cut(xs, goal, after);
    InsertedAt(xs, x, goal, after);
    ThroughIsCut(b, xs, i, goal, after);
    var now := xs[..cut] + [x] + xs[cut..];
    if cut <= i {
      assert now[i + 1..i + 1 + |b|] == xs[i..i + |b|];
      assert OccursAt(b, now, i + 1);
    } else if i + |b| <= cut {
      assert now[i..i + |b|] == xs[i..i + |b|];
      assert OccursAt(b, now, i);
    } else {
      forall k: nat ensures !OccursAt(b, now, k) {
        PartedNowhere(b, xs, x, i, cut, k);
      }
    }
  }

  lemma PartedNowhere(b: seq<Name>, xs: seq<Name>, x: Name, i: nat, cut: nat, k: nat)
    requires NoRepeats(xs) && x !in xs && OccursAt(b, xs, i) && i < cut < i + |b|
    ensures !OccursAt(b, xs[..cut] + [x] + xs[cut..], k)
  {
    var now, m := xs[..cut] + [x] + xs[cut..], cut - 1 - i;
    assert xs == xs[..cut] + xs[cut..];
    PutInNoRepeats(xs[..cut], x, xs[cut..]);
    assert b[m] == xs[i..i + |b|][m] == now[cut - 1];
    assert b[m + 1] == xs[i..i + |b|][m + 1] == xs[cut];
    if k + |b| <= |now| {
      var n := if k == i then m + 1 else m;
      assert now[k..k + |b|][n] == now[k + n] != b[n];
    }
  }

  lemma JoinedOnlyThere(b: seq<Name>, xs: seq<Name>, x: Name, g: nat)
    requires NoRepeats(xs) && x !in xs && g < |xs| && b != [] && Infix(b + [x], xs[..g + 1] + [x] + xs[g + 1..])
    ensures xs[g] == b[|b| - 1]
  {
    var now, n := xs[..g + 1] + [x] + xs[g + 1..], |b|;
    assert xs == xs[..g + 1] + xs[g + 1..];
    PutInNoRepeats(xs[..g + 1], x, xs[g + 1..]);
    var k: nat :| OccursAt(b + [x], now, k);
    assert now[k..k + n + 1][n] == now[k + n] == x == now[g + 1];
    assert now[k..k + n + 1][n - 1] == now[k + n - 1] == b[n - 1];
  }

  lemma JoinedThere(b: seq<Name>, xs: seq<Name>, x: Name, g: nat)
    requires NoRepeats(xs) && x !in xs && g < |xs| && b != [] && (|b| > 1 ==> Infix(b, xs)) && xs[g] == b[|b| - 1]
    ensures Infix(b + [x], xs[..g + 1] + [x] + xs[g + 1..])
  {
    EndsThere(b, xs, g);
    var i: nat := g + 1 - |b|;
    assert xs[..g + 1] == xs[..i] + b;
    assert xs[..g + 1] + [x] + xs[g + 1..] == xs[..i] + (b + [x]) + xs[g + 1..];
    OccursBetween(xs[..i], b + [x], xs[g + 1..]);
  }

  /** What joins the end of a stretch makes a longer one exactly if it goes right behind its last. */
  lemma JoinedBehind(b: seq<Name>, xs: seq<Name>, x: Name, goal: Name)
    requires NoRepeats(xs) && x !in xs && goal in xs && b != [] && (|b| > 1 ==> Infix(b, xs))
    ensures Infix(b + [x], InsertBy(xs, x, goal, true)) <==> goal == b[|b| - 1]
  {
    var g := IndexOf(xs, goal);
    InsertedAt(xs, x, goal, true);
    if Infix(b + [x], xs[..g + 1] + [x] + xs[g + 1..]) {
      JoinedOnlyThere(b, xs, x, g);
    }
    if goal == b[|b| - 1] {
      JoinedThere(b, xs, x, g);
    }
  }

  lemma EndsThere(b: seq<Name>, xs: seq<Name>, g: nat)
    requires NoRepeats(xs) && g < |xs| && b != [] && xs[g] == b[|b| - 1] && (|b| > 1 ==> Infix(b, xs))
    ensures |b| <= g + 1 && OccursAt(b, xs, g + 1 - |b|)
  {
    if |b| > 1 {
      var i: nat :| OccursAt(b, xs, i);
      assert b[|b| - 1] == xs[i..i + |b|][|b| - 1] == xs[i + |b| - 1];
    } else {
      assert xs[g..g + 1] == [xs[g]] == b;
    }
  }

  lemma JoinedInside(head: seq<Name>, p: seq<Name>, a: Name, q: seq<Name>, tail: seq<Name>, x: Name)
    requires NoRepeats(head + (p + [a] + q) + tail)
    ensures Infix(p + [x] + [a] + q, InsertBy(head + (p + [a] + q) + tail, x, a, false))
  {
    AroundAnchor(head, p, a, q, tail);
    OnlyHere(head + p, a, q + tail);
    InsertByMid(head + p, a, q + tail, x, false);
    assert (head + p) + [x, a] + (q + tail) == head + (p + [x] + [a] + q) + tail;
    OccursBetween(head, p + [x] + [a] + q, tail);
  }

  /** What goes right before a member of a stretch makes a longer one. */
  lemma JoinedBefore(p: seq<Name>, a: Name, q: seq<Name>, xs: seq<Name>, x: Name)
    requires NoRepeats(xs) && a in xs && (p + q != [] ==> Infix(p + [a] + q, xs))
    ensures Infix(p + [x] + [a] + q, InsertBy(xs, x, a, false))
  {
    var b := p + [a] + q;
    if p + q != [] {
      var i: nat :| OccursAt(b, xs, i);
      OccursSplits(b, xs, i);
      JoinedInside(xs[..i], p, a, q, xs[i + |b|..], x);
    } else {
      var u, v := SplitAround(xs, a);
      assert p == [] && q == [] && u + [a] + v == u + (p + [a] + q) + v;
      JoinedInside(u, p, a, q, v, x);
    }
  }

  /** A section with a neighbour in a stretch keeps it only where it was. */
  lemma HeadStays(b: seq<Name>, xs: seq<Name>, x: Name, goal: Name, after: bool)
    requires NoRepeats(xs) && x in xs && goal in xs && goal != x && x in b && |b| > 1 && Infix(b, xs)
    ensures Infix(b, Moved(xs, x, goal, after)) <==> Moved(xs, x, goal, after) == xs
  {
    var now := Moved(xs, x, goal, after);
    if Infix(b, now) {
      var p, q := SplitAround(xs, x);
      var es := p + q;
      EraseNoRepeats(xs, x);
      OthersStay(xs, x, goal);
      InsertedAt(es, x, goal, after);
      SameSpot(b, es, x, |p|, Cut(es, goal, after));
    }
  }

  lemma SameSpot(b: seq<Name>, es: seq<Name>, x: Name, c: nat, d: nat)
    requires NoRepeats(es) && x !in es && c <= |es| && d <= |es| && x in b && |b| > 1
    requires Infix(b, es[..c] + [x] + es[c..]) && Infix(b, es[..d] + [x] + es[d..])
    ensures c == d
  {
    var m :| 0 <= m < |b| && b[m] == x;
    var i := SpotOf(b, es, x, c, m);
    var j := SpotOf(b, es, x, d, m);
    if m + 1 < |b| {
      assert es[c] == b[m + 1] == es[d];
    } else {
      assert es[c - 1] == b[m - 1] == es[d - 1];
    }
  }

  lemma SpotOf(b: seq<Name>, es: seq<Name>, x: Name, c: nat, m: nat) returns (i: nat)
    requires NoRepeats(es) && x !in es && c <= |es| && m < |b| && b[m] == x && Infix(b, es[..c] + [x] + es[c..])
    ensures m + 1 < |b| ==> c < |es| && es[c] == b[m + 1]
    ensures m > 0 ==> 0 < c && es[c - 1] == b[m - 1]
  {
    var p, q := es[..c], es[c..];
    var xs := p + [x] + q;
    assert es == p + q;
    PutInNoRepeats(p, x, q);
    i :| OccursAt(b, xs, i);
    assert forall j | 0 <= j < |b| :: b[j] == xs[i..i + |b|][j] == xs[i + j];
    assert xs[i + m] == x == xs[c];
  }

  // ---- neighbours and blocks ------------------------------------------------------------------

  /** v is directly behind u. */
  ghost predicate Behind(xs: seq<Name>, u: Name, v: Name) {
    Infix([u, v], xs)
  }

  lemma ThroughPair(u: Name, v: Name, goal: Name, after: bool)
    ensures Through([u, v], goal, after) <==> goal == if after then u else v
  {
    assert MeetAt([u, v], goal, after, 0) <==> goal == if after then u else v;
  }

  /** An insertion parts two neighbours it does not move exactly if it goes between them: behind the first,
      or before the second. */
  lemma KeptBehindIff(c: Placement, ins: Insertion, u: Name, v: Name)
    requires NoRepeats(c.entries) && CanPlace(c, ins) && ins.section != Goal(c, ins)
    requires Behind(c.entries, u, v) && u != ins.section && v != ins.section
    ensures Behind(Place(c, ins).entries, u, v) <==> if ins.after then u != Goal(c, ins) else v != Goal(c, ins)
  {
    var x := ins.section;
    EraseNoRepeats(c.entries, x);
    OthersStay(c.entries, x, Goal(c, ins));
    InfixErased([u, v], c.entries, x);
    EraseApart([u, v], x);
    InfixInserted([u, v], Erase(c.entries, x), x, Goal(c, ins), ins.after);
    ThroughPair(u, v, Goal(c, ins), ins.after);
  }

  /** Every section with others put next to it stands with them in one stretch. */
  ghost predicate Contiguous(xs: seq<Name>, befores: map<Name, seq<Name>>, afters: map<Name, seq<Name>>) {
    forall b {:trigger Block(b, befores, afters)} | |Block(b, befores, afters)| > 1 ::
      Infix(Block(b, befores, afters), xs)
  }

  /** x taken out of all lists. */
  function Dropped(m: map<Name, seq<Name>>, x: Name): map<Name, seq<Name>> {
    map b | b in m :: Erase(m[b], x)
  }

  /** The lists once the insertion is carried out: the section leaves its old one and joins the anchor's. */
  function BeforesAfter(befores: map<Name, seq<Name>>, ins: Insertion): map<Name, seq<Name>> {
    var rest := Dropped(befores, ins.section);
    if ins.after then rest else Joined(rest, ins.anchor, ins.section)
  }

  function AftersAfter(afters: map<Name, seq<Name>>, ins: Insertion): map<Name, seq<Name>> {
    var rest := Dropped(afters, ins.section);
    if ins.after then Joined(rest, ins.anchor, ins.section) else rest
  }

  lemma InfixNoRepeats(b: seq<Name>, xs: seq<Name>)
    requires NoRepeats(xs) && Infix(b, xs)
    ensures NoRepeats(b)
  {
    var i: nat :| OccursAt(b, xs, i);
    OccursSplits(b, xs, i);
    PartOf(xs[..i], b, xs[i + |b|..]);
  }

  /** The block of a section that stays, without the one that moves. */
  lemma DroppedBlock(xs: seq<Name>, b: Name, x: Name, befores: map<Name, seq<Name>>, afters: map<Name, seq<Name>>)
    requires NoRepeats(xs) && Contiguous(xs, befores, afters) && b != x
    ensures Block(b, Dropped(befores, x), Dropped(afters, x)) == Erase(Block(b, befores, afters), x)
    ensures var rest := Block(b, Dropped(befores, x), Dropped(afters, x));
      |rest| > 1 ==> Infix(rest, Erase(xs, x))
  {
    var block := Block(b, befores, afters);
    if |block| > 1 {
      InfixNoRepeats(block, xs);
      InfixErased(block, xs, x);
    } else {
      assert block == [b];
    }
    EraseInThree(Of(befores, b), [b], Of(afters, b), x);
    EraseApart([b], x);
    DroppedOf(befores, b, x);
    DroppedOf(afters, b, x);
  }

  lemma DroppedOf(m: map<Name, seq<Name>>, b: Name, x: Name)
    ensures Of(Dropped(m, x), b) == Erase(Of(m, b), x)
  {
  }

  /** The block of the section that moves goes with it unchanged. */
  lemma HeadBlock(xs: seq<Name>, x: Name, befores: map<Name, seq<Name>>, afters: map<Name, seq<Name>>)
    requires NoRepeats(xs) && Contiguous(xs, befores, afters)
    ensures Block(x, Dropped(befores, x), Dropped(afters, x)) == Block(x, befores, afters)
  {
    var block := Block(x, befores, afters);
    if |block| > 1 {
      InfixNoRepeats(block, xs);
    } else {
      assert block == [x];
    }
    PartOf(Of(befores, x), [x], Of(afters, x));
    assert x in [x];
    EraseApart(Of(befores, x), x);
    EraseApart(Of(afters, x), x);
    DroppedOf(befores, x, x);
    DroppedOf(afters, x, x);
  }

  /** Which blocks an insertion keeps: it goes behind the last of its anchor's block, it goes through no other
      block, and a section with others put next to it does not move away from them. */
  ghost predicate KeepsBlocks(c: Placement, ins: Insertion, befores: map<Name, seq<Name>>,
                              afters: map<Name, seq<Name>>) {
    var x, goal := ins.section, Goal(c, ins);
    && goal == Target(ins.anchor, Dropped(afters, x), ins.after)
    && (forall b {:trigger Block(b, Dropped(befores, x), Dropped(afters, x))} | b != ins.anchor && b != x ::
          !Through(Block(b, Dropped(befores, x), Dropped(afters, x)), goal, ins.after))
    && (|Block(x, befores, afters)| > 1 ==> Place(c, ins).entries == c.entries)
  }

  lemma JoinedBlock(a: Name, x: Name, after: bool, befores: map<Name, seq<Name>>, afters: map<Name, seq<Name>>)
    ensures after ==> Block(a, befores, Joined(afters, a, x)) == Block(a, befores, afters) + [x]
    ensures !after ==> Block(a, Joined(befores, a, x), afters) == Of(befores, a) + [x] + [a] + Of(afters, a)
    ensures var b := Block(a, befores, afters); b[|b| - 1] == Target(a, afters, true)
  {
  }

  lemma OwnBlockKept(c: Placement, ins: Insertion, befores: map<Name, seq<Name>>, afters: map<Name, seq<Name>>)
    requires NoRepeats(c.entries) && CanPlace(c, ins) && ins.section !in {Goal(c, ins), ins.anchor}
    requires Contiguous(c.entries, befores, afters)
    ensures Infix(Block(ins.anchor, BeforesAfter(befores, ins), AftersAfter(afters, ins)), Place(c, ins).entries)
       <==> Goal(c, ins) == Target(ins.anchor, Dropped(afters, ins.section), ins.after)
  {
    var x, a, es := ins.section, ins.anchor, Erase(c.entries, ins.section);
    EraseNoRepeats(c.entries, x);
    OthersStay(c.entries, x, Goal(c, ins));
    DroppedBlock(c.entries, a, x, befores, afters);
    JoinedBlock(a, x, ins.after, Dropped(befores, x), Dropped(afters, x));
    if ins.after {
      JoinedBehind(Block(a, Dropped(befores, x), Dropped(afters, x)), es, x, Goal(c, ins));
    } else {
      JoinedBefore(Of(Dropped(befores, x), a), a, Of(Dropped(afters, x), a), es, x);
    }
  }

  lemma OtherBlockKept(c: Placement, ins: Insertion, b: Name, befores: map<Name, seq<Name>>,
                       afters: map<Name, seq<Name>>)
    requires NoRepeats(c.entries) && CanPlace(c, ins) && ins.section !in {Goal(c, ins), ins.anchor}
    requires Contiguous(c.entries, befores, afters) && b != ins.anchor && b != ins.section
    ensures Block(b, BeforesAfter(befores, ins), AftersAfter(afters, ins)) ==
      Block(b, Dropped(befores, ins.section), Dropped(afters, ins.section))
    ensures var rest := Block(b, Dropped(befores, ins.section), Dropped(afters, ins.section));
      (|rest| > 1 ==> Infix(rest, Place(c, ins).entries)) <==> !Through(rest, Goal(c, ins), ins.after)
  {
    var x := ins.section;
    EraseNoRepeats(c.entries, x);
    OthersStay(c.entries, x, Goal(c, ins));
    DroppedBlock(c.entries, b, x, befores, afters);
    var rest := Block(b, Dropped(befores, x), Dropped(afters, x));
    if |rest| > 1 {
      InfixInserted(rest, Erase(c.entries, x), x, Goal(c, ins), ins.after);
    }
  }

  lemma HeadBlockKept(c: Placement, ins: Insertion, befores: map<Name, seq<Name>>, afters: map<Name, seq<Name>>)
    requires NoRepeats(c.entries) && CanPlace(c, ins) && ins.section !in {Goal(c, ins), ins.anchor}
    requires Contiguous(c.entries, befores, afters)
    ensures var block := Block(ins.section, BeforesAfter(befores, ins), AftersAfter(afters, ins));
      && block == Block(ins.section, befores, afters)
      && (|block| > 1 ==> (Infix(block, Place(c, ins).entries) <==> Place(c, ins).entries == c.entries))
  {
    var x := ins.section;
    HeadBlock(c.entries, x, befores, afters);
    var block := Block(x, befores, afters);
    if |block| > 1 {
      assert block[|Of(befores, x)|] == x;
      HeadStays(block, c.entries, x, Goal(c, ins), ins.after);
    }
  }

  /** One insertion, in any script, leaves every section in one stretch with those put next to it exactly
      under that condition. */
  lemma BlocksKeptIff(c: Placement, ins: Insertion, befores: map<Name, seq<Name>>, afters: map<Name, seq<Name>>)
    requires NoRepeats(c.entries) && CanPlace(c, ins) && ins.section !in {Goal(c, ins), ins.anchor}
    requires Contiguous(c.entries, befores, afters)
    ensures Contiguous(Place(c, ins).entries, BeforesAfter(befores, ins), AftersAfter(afters, ins))
       <==> KeepsBlocks(c, ins, befores, afters)
  {
    var x, now := ins.section, Place(c, ins).entries;
    var befores', afters' := BeforesAfter(befores, ins), AftersAfter(afters, ins);
    OwnBlockKept(c, ins, befores, afters);
    HeadBlockKept(c, ins, befores, afters);
    assert |Block(ins.anchor, befores', afters')| > 1;
    forall b | b != ins.anchor && b != x
      ensures Block(b, befores', afters') == Block(b, Dropped(befores, x), Dropped(afters, x))
      ensures (|Block(b, befores', afters')| > 1 ==> Infix(Block(b, befores', afters'), now)) <==>
        !Through(Block(b, Dropped(befores, x), Dropped(afters, x)), Goal(c, ins), ins.after)
    {
      OtherBlockKept(c, ins, b, befores, afters);
    }
    if KeepsBlocks(c, ins, befores, afters) {
      forall b | |Block(b, befores', afters')| > 1 ensures Infix(Block(b, befores', afters'), now) {
        assert b != ins.anchor && b != x ==>
          !Through(Block(b, Dropped(befores, x), Dropped(afters, x)), Goal(c, ins), ins.after);
      }
    }
    if Contiguous(now, befores', afters') {
      forall b | b != ins.anchor && b != x
        ensures !Through(Block(b, Dropped(befores, x), Dropped(afters, x)), Goal(c, ins), ins.after)
      {
        assert |Block(b, befores', afters')| > 1 ==> Infix(Block(b, befores', afters'), now);
      }
    }
  }

  // ---- a whole call ---------------------------------------------------------------------------

  /** What was put before and after each section. */
  datatype Blocks = Blocks(befores: map<Name, seq<Name>>, afters: map<Name, seq<Name>>)

  /** A section that is its own goal already stands where it should. */
  function PlacedBlocks(c: Placement, ins: Insertion, s: Blocks): Blocks {
    if ins.section == Goal(c, ins) then s else Blocks(BeforesAfter(s.befores, ins), AftersAfter(s.afters, ins))
  }

  function RunBlocks(c: Placement, pending: seq<Insertion>, anchor: Name, s: Blocks): Blocks {
    if pending == [] then s else
      var n := |pending| - 1;
      var before, blocks := Run(c, pending[..n], anchor), RunBlocks(c, pending[..n], anchor, s);
      if pending[n].anchor == anchor && CanPlace(before, pending[n])
      then PlacedBlocks(before, pending[n], blocks) else blocks
  }

  /** Every insertion the call carries out meets the condition when its turn comes. */
  ghost predicate StepsKeep(c: Placement, pending: seq<Insertion>, anchor: Name, s: Blocks) {
    pending == [] ||
      var n := |pending| - 1;
      var before, blocks, ins := Run(c, pending[..n], anchor), RunBlocks(c, pending[..n], anchor, s), pending[n];
      && StepsKeep(c, pending[..n], anchor, s)
      && (ins.anchor == anchor && CanPlace(before, ins) && ins.section != Goal(before, ins) ==>
            ins.section != anchor && KeepsBlocks(before, ins, blocks.befores, blocks.afters))
  }

  /** Then it leaves every section in one stretch with those put next to it, the sections it moved included. */
  lemma {:induction false} RunKeepsBlocks(c: Placement, pending: seq<Insertion>, anchor: Name, s: Blocks)
    requires NoRepeats(c.entries) && Contiguous(c.entries, s.befores, s.afters) && StepsKeep(c, pending, anchor, s)
    ensures var now := RunBlocks(c, pending, anchor, s);
      Contiguous(Run(c, pending, anchor).entries, now.befores, now.afters)
  {
    if pending != [] {
      var n := |pending| - 1;
      RunKeepsBlocks(c, pending[..n], anchor, s);
      RunKeepsSections(c, pending[..n], anchor);
      var before, blocks, ins := Run(c, pending[..n], anchor), RunBlocks(c, pending[..n], anchor, s), pending[n];
      if ins.anchor == anchor && CanPlace(before, ins) && ins.section != Goal(before, ins) {
        BlocksKeptIff(before, ins, blocks.befores, blocks.afters);
      }
    }
  }
}
