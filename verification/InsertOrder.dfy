/** INSERT AFTER and INSERT BEFORE in linker scripts: output sections that are moved next to an anchor
    once both exist, in the order they were asked for. */
module InsertOrder {
  import opened Wrappers

  datatype Name = Name(text: string)

  datatype Insertion = Insertion(section: Name, anchor: Name, after: bool)

  // ---- moving one section ---------------------------------------------------------------------

  /** Where x first occurs. */
  function IndexOf(xs: seq<Name>, x: Name): (i: nat)
    ensures i <= |xs| && (i < |xs| ==> xs[i] == x)
    ensures i < |xs| <==> x in xs
  {
    if xs == [] then 0 else if xs[0] == x then 0 else IndexOf(xs[1..], x) + 1
  }

  function Erase(xs: seq<Name>, x: Name): seq<Name> {
    var i := IndexOf(xs, x);
    if i == |xs| then xs else xs[..i] + xs[i + 1..]
  }

  function InsertBy(xs: seq<Name>, x: Name, anchor: Name, after: bool): seq<Name> {
    var i := IndexOf(xs, anchor);
    if i == |xs| then xs else if after then xs[..i + 1] + [x] + xs[i + 1..] else xs[..i] + [x] + xs[i..]
  }

  lemma {:induction false} IndexOfMid(p: seq<Name>, x: Name, q: seq<Name>)
    requires x !in p
    ensures IndexOf(p + [x] + q, x) == |p|
  {
    if p != [] {
      assert (p + [x] + q)[1..] == p[1..] + [x] + q;
      IndexOfMid(p[1..], x, q);
    }
  }

  lemma EraseMid(p: seq<Name>, x: Name, q: seq<Name>)
    requires x !in p
    ensures Erase(p + [x] + q, x) == p + q
  {
    IndexOfMid(p, x, q);
  }

  lemma InsertByMid(p: seq<Name>, t: Name, q: seq<Name>, x: Name, after: bool)
    requires t !in p
    ensures InsertBy(p + [t] + q, x, t, after) == p + (if after then [t, x] else [x, t]) + q
  {
    IndexOfMid(p, t, q);
  }

  // ---- what the order should be ---------------------------------------------------------------

  function Of(m: map<Name, seq<Name>>, a: Name): seq<Name> { if a in m then m[a] else [] }

  /** A section with those inserted before and after it. */
  function Block(a: Name, befores: map<Name, seq<Name>>, afters: map<Name, seq<Name>>): seq<Name> {
    Of(befores, a) + [a] + Of(afters, a)
  }

  /** The whole order: the sections that were not moved, each with those moved next to it. */
  function Arranged(base: seq<Name>, befores: map<Name, seq<Name>>, afters: map<Name, seq<Name>>): seq<Name> {
    if base == [] then [] else Arranged(base[..|base| - 1], befores, afters) + Block(base[|base| - 1], befores, afters)
  }

  lemma {:induction false} ArrangedConcat(p: seq<Name>, q: seq<Name>, befores: map<Name, seq<Name>>,
                                          afters: map<Name, seq<Name>>)
    ensures Arranged(p + q, befores, afters) == Arranged(p, befores, afters) + Arranged(q, befores, afters)
    decreases |q|
  {
    if q == [] {
      assert p + q == p;
    } else {
      var n := |q| - 1;
      assert (p + q)[..|p + q| - 1] == p + q[..n];
      ArrangedConcat(p, q[..n], befores, afters);
      Regroup(Arranged(p, befores, afters), Arranged(q[..n], befores, afters), Block(q[n], befores, afters));
    }
  }

  lemma Regroup(a: seq<Name>, b: seq<Name>, c: seq<Name>)
    ensures (a + b) + c == a + (b + c)
  {
  }

  lemma ArrangedOne(a: Name, befores: map<Name, seq<Name>>, afters: map<Name, seq<Name>>)
    ensures Arranged([a], befores, afters) == Block(a, befores, afters)
  {
    assert Arranged([], befores, afters) == [];
    assert [a][..0] == [];
  }

  /** The order around one section that was not moved. */
  lemma ArrangedAround(p: seq<Name>, a: Name, q: seq<Name>, befores: map<Name, seq<Name>>, afters: map<Name, seq<Name>>)
    ensures Arranged(p + [a] + q, befores, afters) ==
      Arranged(p, befores, afters) + Block(a, befores, afters) + Arranged(q, befores, afters)
  {
    ArrangedConcat(p + [a], q, befores, afters);
    ArrangedConcat(p, [a], befores, afters);
    ArrangedOne(a, befores, afters);
  }

  lemma {:induction false} ArrangedAgrees(base: seq<Name>, befores: map<Name, seq<Name>>, afters: map<Name, seq<Name>>,
                                          befores': map<Name, seq<Name>>, afters': map<Name, seq<Name>>)
    requires forall a | a in base :: Of(befores, a) == Of(befores', a) && Of(afters, a) == Of(afters', a)
    ensures Arranged(base, befores, afters) == Arranged(base, befores', afters')
  {
    if base != [] {
      var n := |base| - 1;
      assert base[n] in base;
      ArrangedAgrees(base[..n], befores, afters, befores', afters');
    }
  }

  lemma {:induction false} BaseArranged(base: seq<Name>, a: Name, befores: map<Name, seq<Name>>,
                                        afters: map<Name, seq<Name>>)
    requires a in base
    ensures a in Arranged(base, befores, afters)
  {
    var n := |base| - 1;
    if a != base[n] {
      assert a in base[..n];
      BaseArranged(base[..n], a, befores, afters);
    }
  }

  function Joined(m: map<Name, seq<Name>>, a: Name, x: Name): map<Name, seq<Name>> {
    m[a := Of(m, a) + [x]]
  }

  /** What a section goes next to: the anchor, or behind the last one that went there. */
  function Target(a: Name, afters: map<Name, seq<Name>>, after: bool): Name {
    if after && Of(afters, a) != [] then Of(afters, a)[|Of(afters, a)| - 1] else a
  }

  function Moved(order: seq<Name>, x: Name, target: Name, after: bool): seq<Name> {
    InsertBy(Erase(order, x), x, target, after)
  }

  lemma OnlyHere(p: seq<Name>, x: Name, q: seq<Name>)
    requires NoRepeats(p + [x] + q)
    ensures x !in p && x !in q
  {
    var all := p + [x] + q;
    assert all[|p|] == x;
    forall i | 0 <= i < |p| ensures p[i] != x {
      assert all[i] == p[i];
    }
    forall i | 0 <= i < |q| ensures q[i] != x {
      assert all[|p| + 1 + i] == q[i];
    }
  }

  lemma StillNoRepeats(p: seq<Name>, x: Name, q: seq<Name>)
    requires NoRepeats(p + [x] + q)
    ensures NoRepeats(p + q)
  {
    var all := p + [x] + q;
    forall i, j | 0 <= i < j < |p + q| ensures (p + q)[i] != (p + q)[j] {
      var i', j' := if i < |p| then i else i + 1, if j < |p| then j else j + 1;
      assert all[i'] == (p + q)[i] && all[j'] == (p + q)[j];
    }
  }

  /** Taking out a section nothing was moved next to. */
  lemma TakenOut(base: seq<Name>, x: Name, befores: map<Name, seq<Name>>, afters: map<Name, seq<Name>>)
    requires NoRepeats(Arranged(base, befores, afters)) && x in base
    requires Of(befores, x) == [] && Of(afters, x) == []
    ensures Erase(Arranged(base, befores, afters), x) == Arranged(Erase(base, x), befores, afters)
    ensures NoRepeats(Arranged(Erase(base, x), befores, afters))
  {
    var i := IndexOf(base, x);
    var p, q := base[..i], base[i + 1..];
    assert base == p + [x] + q;
    ArrangedAround(p, x, q, befores, afters);
    assert Block(x, befores, afters) == [x];
    var f, g := Arranged(p, befores, afters), Arranged(q, befores, afters);
    OnlyHere(f, x, g);
    EraseMid(f, x, g);
    StillNoRepeats(f, x, g);
    ArrangedConcat(p, q, befores, afters);
  }

  lemma AroundAnchor(f: seq<Name>, b: seq<Name>, a: Name, c: seq<Name>, g: seq<Name>)
    ensures f + (b + [a] + c) + g == (f + b) + [a] + (c + g)
  {
  }

  lemma OnceInBase(p: seq<Name>, a: Name, q: seq<Name>, befores: map<Name, seq<Name>>, afters: map<Name, seq<Name>>)
    requires NoRepeats(Arranged(p + [a] + q, befores, afters))
    ensures a !in p && a !in q
  {
    ArrangedAround(p, a, q, befores, afters);
    var f, g := Arranged(p, befores, afters), Arranged(q, befores, afters);
    var b, c := Of(befores, a), Of(afters, a);
    AroundAnchor(f, b, a, c, g);
    OnlyHere(f + b, a, c + g);
    if a in p {
      BaseArranged(p, a, befores, afters);
    }
    if a in q {
      BaseArranged(q, a, befores, afters);
    }
  }

  /** The rest of the order does not change when something joins one section's block. */
  lemma JoinedAround(p: seq<Name>, a: Name, q: seq<Name>, befores: map<Name, seq<Name>>, afters: map<Name, seq<Name>>,
                     befores': map<Name, seq<Name>>, afters': map<Name, seq<Name>>)
    requires NoRepeats(Arranged(p + [a] + q, befores, afters))
    requires forall b | b != a :: Of(befores, b) == Of(befores', b) && Of(afters, b) == Of(afters', b)
    ensures Arranged(p + [a] + q, befores', afters') ==
      Arranged(p, befores, afters) + Block(a, befores', afters') + Arranged(q, befores, afters)
  {
    ArrangedAround(p, a, q, befores, afters);
    ArrangedAround(p, a, q, befores', afters');
    OnceInBase(p, a, q, befores, afters);
    ArrangedAgrees(p, befores, afters, befores', afters');
    ArrangedAgrees(q, befores, afters, befores', afters');
  }

  lemma LastOfBlock(f: seq<Name>, b: seq<Name>, a: Name, c: seq<Name>, tail: seq<Name>, m: seq<Name>, t: Name)
    requires [a] + c == m + [t]
    ensures f + (b + [a] + c) + tail == (f + b + m) + [t] + tail
  {
    assert b + [a] + c == b + ([a] + c) == b + m + [t];
  }

  lemma InsertAfterBlock(f: seq<Name>, b: seq<Name>, a: Name, c: seq<Name>, g: seq<Name>, x: Name, m: seq<Name>,
                         t: Name)
    requires NoRepeats(f + (b + [a] + c) + g) && [a] + c == m + [t]
    ensures InsertBy(f + (b + [a] + c) + g, x, t, true) == f + (b + [a] + c) + ([x] + g)
  {
    LastOfBlock(f, b, a, c, g, m, t);
    OnlyHere(f + b + m, t, g);
    InsertByMid(f + b + m, t, g, x, true);
    LastOfBlock(f, b, a, c, [x] + g, m, t);
    AppendTwo(f + b + m, t, x, g);
  }

  lemma AppendTwo(head: seq<Name>, t: Name, x: Name, g: seq<Name>)
    ensures head + [t, x] + g == head + [t] + ([x] + g)
  {
  }

  lemma JoinEnd(f: seq<Name>, b: seq<Name>, a: Name, c: seq<Name>, x: Name, g: seq<Name>)
    ensures f + (b + [a] + c) + ([x] + g) == f + (b + [a] + (c + [x])) + g
  {
    assert b + [a] + c + [x] == b + [a] + (c + [x]);
  }

  lemma InsertBeforeAnchor(f: seq<Name>, b: seq<Name>, a: Name, c: seq<Name>, g: seq<Name>, x: Name)
    requires NoRepeats(f + (b + [a] + c) + g)
    ensures InsertBy(f + (b + [a] + c) + g, x, a, false) == f + (b + [x] + [a] + c) + g
  {
    var head, tail := f + b, c + g;
    AroundAnchor(f, b, a, c, g);
    OnlyHere(head, a, tail);
    InsertByMid(head, a, tail, x, false);
    assert head + [x, a] + tail == f + (b + [x] + [a] + c) + g;
  }

  lemma PutAfterAt(p: seq<Name>, x: Name, a: Name, q: seq<Name>, befores: map<Name, seq<Name>>,
                   afters: map<Name, seq<Name>>)
    requires NoRepeats(Arranged(p + [a] + q, befores, afters))
    ensures InsertBy(Arranged(p + [a] + q, befores, afters), x, Target(a, afters, true), true) ==
      Arranged(p + [a] + q, befores, Joined(afters, a, x))
  {
    ArrangedAround(p, a, q, befores, afters);
    JoinedAround(p, a, q, befores, afters, befores, Joined(afters, a, x));
    var f, g, b, c := Arranged(p, befores, afters), Arranged(q, befores, afters), Of(befores, a), Of(afters, a);
    var m := ([a] + c)[..|c|];
    assert [a] + c == m + [Target(a, afters, true)];
    InsertAfterBlock(f, b, a, c, g, x, m, Target(a, afters, true));
    JoinEnd(f, b, a, c, x, g);
  }

  lemma PutAfter(base: seq<Name>, x: Name, a: Name, befores: map<Name, seq<Name>>, afters: map<Name, seq<Name>>)
    requires NoRepeats(Arranged(base, befores, afters)) && a in base
    ensures InsertBy(Arranged(base, befores, afters), x, Target(a, afters, true), true) ==
      Arranged(base, befores, Joined(afters, a, x))
  {
    var i := IndexOf(base, a);
    assert base == base[..i] + [a] + base[i + 1..];
    PutAfterAt(base[..i], x, a, base[i + 1..], befores, afters);
  }

  lemma PutBeforeAt(p: seq<Name>, x: Name, a: Name, q: seq<Name>, befores: map<Name, seq<Name>>,
                    afters: map<Name, seq<Name>>)
    requires NoRepeats(Arranged(p + [a] + q, befores, afters))
    ensures InsertBy(Arranged(p + [a] + q, befores, afters), x, a, false) ==
      Arranged(p + [a] + q, Joined(befores, a, x), afters)
  {
    ArrangedAround(p, a, q, befores, afters);
    JoinedAround(p, a, q, befores, afters, Joined(befores, a, x), afters);
    InsertBeforeAnchor(Arranged(p, befores, afters), Of(befores, a), a, Of(afters, a), Arranged(q, befores, afters), x);
  }

  lemma PutBefore(base: seq<Name>, x: Name, a: Name, befores: map<Name, seq<Name>>, afters: map<Name, seq<Name>>)
    requires NoRepeats(Arranged(base, befores, afters)) && a in base
    ensures InsertBy(Arranged(base, befores, afters), x, a, false) == Arranged(base, Joined(befores, a, x), afters)
  {
    var i := IndexOf(base, a);
    assert base == base[..i] + [a] + base[i + 1..];
    PutBeforeAt(base[..i], x, a, base[i + 1..], befores, afters);
  }

  lemma OthersStay(xs: seq<Name>, x: Name, y: Name)
    requires x != y
    ensures y in xs <==> y in Erase(xs, x)
  {
    var i := IndexOf(xs, x);
    if i < |xs| {
      assert xs == xs[..i] + [x] + xs[i + 1..];
      assert Erase(xs, x) == xs[..i] + xs[i + 1..];
    }
  }

  /** One applied insertion: the section leaves its place and joins the anchor's block. */
  lemma MovedArranged(base: seq<Name>, x: Name, a: Name, after: bool, befores: map<Name, seq<Name>>,
                      afters: map<Name, seq<Name>>)
    requires NoRepeats(Arranged(base, befores, afters)) && x in base && a in base && x != a
    requires Of(befores, x) == [] && Of(afters, x) == []
    ensures Moved(Arranged(base, befores, afters), x, Target(a, afters, after), after) ==
      if after then Arranged(Erase(base, x), befores, Joined(afters, a, x))
      else Arranged(Erase(base, x), Joined(befores, a, x), afters)
  {
    TakenOut(base, x, befores, afters);
    OthersStay(base, x, a);
    if after {
      PutAfter(Erase(base, x), x, a, befores, afters);
    } else {
      PutBefore(Erase(base, x), x, a, befores, afters);
    }
  }

  // ---- the section map and the script ---------------------------------------------------------

  class SectionMap {
    var entries: seq<Name>

    constructor (entries: seq<Name>)
      ensures this.entries == entries
    {
      this.entries := entries;
    }

    /** Moves a section next to the anchor, if both exist. */
    method MoveOutputSection(section: Name, anchor: Name, after: bool) returns (ok: bool)
      modifies this
      ensures ok <==> section in old(entries) && anchor in old(entries)
      ensures entries == if ok && section != anchor then Moved(old(entries), section, anchor, after) else old(entries)
    {
      var sectionAt := IndexOf(entries, section);
      if sectionAt == |entries| {
        return false;
      }
      var anchorAt := IndexOf(entries, anchor);
      if anchorAt == |entries| {
        return false;
      }
      if sectionAt == anchorAt {
        return true;
      }
      ghost var was := entries;
      entries := entries[..sectionAt] + entries[sectionAt + 1..];
      OthersStay(was, section, anchor);
      anchorAt := IndexOf(entries, anchor);
      if after {
        anchorAt := anchorAt + 1;
      }
      entries := entries[..anchorAt] + [section] + entries[anchorAt..];
      return true;
    }
  }

  /** Can the insertion be carried out now? */
  predicate Applies(ins: Insertion, anchor: Name, entries: seq<Name>) {
    ins.anchor == anchor && anchor in entries && ins.section in entries
  }

  function Kept(pending: seq<Insertion>, anchor: Name, entries: seq<Name>): seq<Insertion> {
    if pending == [] then [] else
      var n := |pending| - 1;
      Kept(pending[..n], anchor, entries) + if Applies(pending[n], anchor, entries) then [] else [pending[n]]
  }

  /** The sections that are put after, or before, the anchor, in the order they were asked for. */
  function Applied(pending: seq<Insertion>, anchor: Name, entries: seq<Name>, after: bool): seq<Name> {
    if pending == [] then [] else
      var n := |pending| - 1;
      Applied(pending[..n], anchor, entries, after) +
      if Applies(pending[n], anchor, entries) && pending[n].after == after then [pending[n].section] else []
  }

  /** The sections of some insertions, in their order. */
  ghost predicate SectionsOf(names: seq<Name>, chosen: seq<Insertion>) {
    |names| == |chosen| && forall k | 0 <= k < |names| :: names[k] == chosen[k].section
  }

  /** These are the sections asked for at the anchor, on that side, that exist when the anchor does, in the order
      they were asked for. */
  lemma {:induction false} AppliedPicked(pending: seq<Insertion>, anchor: Name, entries: seq<Name>, after: bool)
    returns (chosen: seq<Insertion>, idx: seq<nat>)
    ensures Picks(pending, chosen, idx) && SectionsOf(Applied(pending, anchor, entries, after), chosen)
    ensures forall i {:trigger i in idx} | 0 <= i < |pending| :: i in idx <==>
      pending[i].anchor == anchor && pending[i].after == after && anchor in entries && pending[i].section in entries
    decreases |pending|
  {
    if pending == [] {
      chosen, idx := [], [];
    } else {
      var n := |pending| - 1;
      var before;
      chosen, before := AppliedPicked(pending[..n], anchor, entries, after);
      var taken := Applies(pending[n], anchor, entries) && pending[n].after == after;
      idx := PickNext(pending, chosen, before, taken);
      chosen := chosen + if taken then [pending[n]] else [];
    }
  }

  /** All other insertions are kept, in their order. */
  lemma {:induction false} KeptPicked(pending: seq<Insertion>, anchor: Name, entries: seq<Name>) returns (idx: seq<nat>)
    ensures Picks(pending, Kept(pending, anchor, entries), idx)
    ensures forall i {:trigger i in idx} | 0 <= i < |pending| :: i in idx <==>
      pending[i].anchor != anchor || anchor !in entries || pending[i].section !in entries
    decreases |pending|
  {
    if pending == [] {
      idx := [];
    } else {
      var n := |pending| - 1;
      var before := KeptPicked(pending[..n], anchor, entries);
      idx := PickNext(pending, Kept(pending[..n], anchor, entries), before, !Applies(pending[n], anchor, entries));
    }
  }

  /** The sections that stay where they are. */
  function Unmoved(base: seq<Name>, pending: seq<Insertion>, anchor: Name, entries: seq<Name>): seq<Name> {
    if pending == [] then base else
      var n := |pending| - 1;
      var rest := Unmoved(base, pending[..n], anchor, entries);
      if Applies(pending[n], anchor, entries) then Erase(rest, pending[n].section) else rest
  }

  ghost predicate Distinct(pending: seq<Insertion>) {
    forall i, j | 0 <= i < j < |pending| :: pending[i].section != pending[j].section
  }

  /** tails names the last section put after each anchor. */
  ghost predicate TailsRight(tails: map<Name, Name>, afters: map<Name, seq<Name>>) {
    forall a :: (a in tails <==> Of(afters, a) != []) && (a in tails ==> tails[a] == Target(a, afters, true))
  }

  /** Everything recorded for an anchor is about an anchor in the base, and holds inserted sections. */
  ghost predicate Recorded(m: map<Name, seq<Name>>, base: seq<Name>, inserted: set<Name>, anchors: set<Name>) {
    forall a | a in m :: a in anchors && a in base && forall x | x in m[a] :: x in inserted
  }

  /** An insertion still pending: if its section exists, it was not moved yet. */
  ghost predicate Waiting(ins: Insertion, base: seq<Name>, entries: seq<Name>, inserted: set<Name>,
                          anchors: set<Name>) {
    && ins.section in inserted && ins.anchor in anchors
    && (ins.section in entries ==> ins.section in base)
  }

  lemma {:induction false} UnmovedOrInserted(base: seq<Name>, befores: map<Name, seq<Name>>,
                                             afters: map<Name, seq<Name>>, inserted: set<Name>,
                                             anchors: set<Name>, all: seq<Name>, x: Name)
    requires Recorded(befores, all, inserted, anchors) && Recorded(afters, all, inserted, anchors)
    requires x in Arranged(base, befores, afters) && x !in inserted
    ensures x in base
  {
    var n := |base| - 1;
    if x in Arranged(base[..n], befores, afters) {
      UnmovedOrInserted(base[..n], befores, afters, inserted, anchors, all, x);
    } else {
      assert x in Block(base[n], befores, afters);
    }
  }

  // ---- one step -------------------------------------------------------------------------------

  datatype State = State(entries: seq<Name>, base: seq<Name>, befores: map<Name, seq<Name>>,
                         afters: map<Name, seq<Name>>, tails: map<Name, Name>)

  ghost predicate Consistent(s: State, pending: seq<Insertion>, inserted: set<Name>, anchors: set<Name>) {
    && NoRepeats(s.entries) && s.entries == Arranged(s.base, s.befores, s.afters) && TailsRight(s.tails, s.afters)
    && Recorded(s.befores, s.base, inserted, anchors) && Recorded(s.afters, s.base, inserted, anchors)
    && inserted !! anchors && Distinct(pending)
    && forall ins | ins in pending :: Waiting(ins, s.base, s.entries, inserted, anchors)
  }

  function Next(s: State, ins: Insertion): State {
    var a, x := ins.anchor, ins.section;
    State(Moved(s.entries, x, Target(a, s.afters, ins.after), ins.after), Erase(s.base, x),
          if ins.after then s.befores else Joined(s.befores, a, x),
          if ins.after then Joined(s.afters, a, x) else s.afters,
          if ins.after then s.tails[a := x] else s.tails)
  }

  lemma EraseNoRepeats(xs: seq<Name>, x: Name)
    requires NoRepeats(xs)
    ensures NoRepeats(Erase(xs, x)) && x !in Erase(xs, x)
  {
    var i := IndexOf(xs, x);
    if i < |xs| {
      assert xs == xs[..i] + [x] + xs[i + 1..];
      OnlyHere(xs[..i], x, xs[i + 1..]);
      StillNoRepeats(xs[..i], x, xs[i + 1..]);
    }
  }

  lemma PutInNoRepeats(p: seq<Name>, x: Name, q: seq<Name>)
    requires NoRepeats(p + q) && x !in p + q
    ensures NoRepeats(p + [x] + q)
  {
    var now := p + [x] + q;
    forall i, j | 0 <= i < j < |now| ensures now[i] != now[j] {
      assert now[i] == if i < |p| then (p + q)[i] else if i == |p| then x else (p + q)[i - 1];
      assert now[j] == if j < |p| then (p + q)[j] else if j == |p| then x else (p + q)[j - 1];
    }
  }

  lemma InsertNoRepeats(xs: seq<Name>, x: Name, t: Name, after: bool)
    requires NoRepeats(xs) && x !in xs && t in xs
    ensures NoRepeats(InsertBy(xs, x, t, after))
    ensures forall y :: y in InsertBy(xs, x, t, after) <==> y in xs || y == x
  {
    var k := if after then IndexOf(xs, t) + 1 else IndexOf(xs, t);
    assert xs == xs[..k] + xs[k..];
    PutInNoRepeats(xs[..k], x, xs[k..]);
  }

  lemma MovedSame(xs: seq<Name>, x: Name, t: Name, after: bool)
    requires NoRepeats(xs) && x in xs && t in xs && t != x
    ensures NoRepeats(Moved(xs, x, t, after))
    ensures forall y :: y in Moved(xs, x, t, after) <==> y in xs
  {
    EraseNoRepeats(xs, x);
    OthersStay(xs, x, t);
    InsertNoRepeats(Erase(xs, x), x, t, after);
    forall y ensures y in Moved(xs, x, t, after) <==> y in xs {
      if y != x {
        OthersStay(xs, x, y);
      }
    }
  }

  lemma {:induction false} RecordedPresent(base: seq<Name>, a: Name, x: Name, befores: map<Name, seq<Name>>,
                                           afters: map<Name, seq<Name>>)
    requires a in base && x in Block(a, befores, afters)
    ensures x in Arranged(base, befores, afters)
  {
    var n := |base| - 1;
    if a != base[n] {
      assert a in base[..n];
      RecordedPresent(base[..n], a, x, befores, afters);
    }
  }

  /** The facts one applied insertion rests on. */
  lemma ReadyToMove(s: State, pending: seq<Insertion>, ins: Insertion, inserted: set<Name>, anchors: set<Name>)
    requires Consistent(s, pending, inserted, anchors) && ins in pending && Applies(ins, ins.anchor, s.entries)
    ensures ins.section in s.base && ins.anchor in s.base && ins.section != ins.anchor
    ensures Of(s.befores, ins.section) == [] && Of(s.afters, ins.section) == []
    ensures var t := Target(ins.anchor, s.afters, ins.after); t in s.entries && t != ins.section
  {
    assert Waiting(ins, s.base, s.entries, inserted, anchors);
    UnmovedOrInserted(s.base, s.befores, s.afters, inserted, anchors, s.base, ins.anchor);
    var t := Target(ins.anchor, s.afters, ins.after);
    RecordedPresent(s.base, ins.anchor, t, s.befores, s.afters);
    if t == ins.section {
      MovedNotInBase(s, ins.anchor, t);
    }
  }

  /** What was put after an anchor is not in the base any more. */
  lemma MovedNotInBase(s: State, a: Name, x: Name)
    requires NoRepeats(s.entries) && s.entries == Arranged(s.base, s.befores, s.afters)
    requires a in s.base && x in Of(s.afters, a) && x != a && Of(s.befores, x) == [] && Of(s.afters, x) == []
    ensures x !in s.base
  {
    if x in s.base {
      TakenOut(s.base, x, s.befores, s.afters);
      EraseNoRepeats(s.entries, x);
      OthersStay(s.base, x, a);
      RecordedPresent(Erase(s.base, x), a, x, s.befores, s.afters);
    }
  }

  /** Applying one insertion keeps everything consistent, and neither adds nor loses a section. */
  lemma NextConsistent(s: State, r: seq<Insertion>, ins: Insertion, t: seq<Insertion>, inserted: set<Name>,
                       anchors: set<Name>)
    requires Consistent(s, r + [ins] + t, inserted, anchors) && Applies(ins, ins.anchor, s.entries)
    ensures Consistent(Next(s, ins), r + t, inserted, anchors)
    ensures forall y :: y in Next(s, ins).entries <==> y in s.entries
  {
    var pending := r + [ins] + t;
    assert pending[|r|] == ins;
    ReadyToMove(s, pending, ins, inserted, anchors);
    MovedArranged(s.base, ins.section, ins.anchor, ins.after, s.befores, s.afters);
    MovedSame(s.entries, ins.section, Target(ins.anchor, s.afters, ins.after), ins.after);
    NextRecorded(s, ins, inserted, anchors);
    StillDistinct(r, ins, t);
    forall other | other in r + t ensures Waiting(other, Next(s, ins).base, Next(s, ins).entries, inserted, anchors) {
      assert other in pending && Waiting(other, s.base, s.entries, inserted, anchors);
      OthersStay(s.base, ins.section, other.section);
    }
  }

  lemma StillDistinct(r: seq<Insertion>, ins: Insertion, t: seq<Insertion>)
    requires Distinct(r + [ins] + t)
    ensures Distinct(r + t) && forall other | other in r + t :: other.section != ins.section
  {
    var all := r + [ins] + t;
    assert all[|r|] == ins;
    forall i, j | 0 <= i < j < |r + t| ensures (r + t)[i].section != (r + t)[j].section {
      assert all[if i < |r| then i else i + 1] == (r + t)[i] && all[if j < |r| then j else j + 1] == (r + t)[j];
    }
    forall i | 0 <= i < |r + t| ensures (r + t)[i].section != ins.section {
      assert all[if i < |r| then i else i + 1] == (r + t)[i];
    }
  }

  lemma StillRecorded(m: map<Name, seq<Name>>, base: seq<Name>, x: Name, inserted: set<Name>, anchors: set<Name>)
    requires Recorded(m, base, inserted, anchors) && x in inserted && inserted !! anchors
    ensures Recorded(m, Erase(base, x), inserted, anchors)
  {
    forall a | a in m ensures a in Erase(base, x) {
      OthersStay(base, x, a);
    }
  }

  lemma JoinedRecorded(m: map<Name, seq<Name>>, base: seq<Name>, a: Name, x: Name, inserted: set<Name>,
                       anchors: set<Name>)
    requires Recorded(m, base, inserted, anchors) && x in inserted && inserted !! anchors
    requires a in anchors && a in base
    ensures Recorded(Joined(m, a, x), Erase(base, x), inserted, anchors)
  {
    StillRecorded(m, base, x, inserted, anchors);
    OthersStay(base, x, a);
    forall y | y in Of(m, a) + [x] ensures y in inserted {
    }
  }

  lemma TailJoined(tails: map<Name, Name>, afters: map<Name, seq<Name>>, a: Name, x: Name)
    requires TailsRight(tails, afters)
    ensures TailsRight(tails[a := x], Joined(afters, a, x))
  {
    forall b ensures (b in tails[a := x] <==> Of(Joined(afters, a, x), b) != []) &&
      (b in tails[a := x] ==> tails[a := x][b] == Target(b, Joined(afters, a, x), true))
    {
      assert b != a ==> Of(Joined(afters, a, x), b) == Of(afters, b) && (b in tails[a := x] <==> b in tails);
    }
  }

  lemma NextRecorded(s: State, ins: Insertion, inserted: set<Name>, anchors: set<Name>)
    requires Recorded(s.befores, s.base, inserted, anchors) && Recorded(s.afters, s.base, inserted, anchors)
    requires TailsRight(s.tails, s.afters) && inserted !! anchors
    requires ins.section in inserted && ins.anchor in anchors && ins.anchor in s.base
    ensures Recorded(Next(s, ins).befores, Next(s, ins).base, inserted, anchors)
    ensures Recorded(Next(s, ins).afters, Next(s, ins).base, inserted, anchors)
    ensures TailsRight(Next(s, ins).tails, Next(s, ins).afters)
  {
    if ins.after {
      StillRecorded(s.befores, s.base, ins.section, inserted, anchors);
      JoinedRecorded(s.afters, s.base, ins.anchor, ins.section, inserted, anchors);
      TailJoined(s.tails, s.afters, ins.anchor, ins.section);
    } else {
      JoinedRecorded(s.befores, s.base, ins.anchor, ins.section, inserted, anchors);
      StillRecorded(s.afters, s.base, ins.section, inserted, anchors);
    }
  }

  // ---- carrying insertions out ----------------------------------------------------------------

  /** The order, and the last section put after each anchor. */
  datatype Placement = Placement(entries: seq<Name>, tails: map<Name, Name>)

  function TailOf(c: Placement, a: Name): Name { if a in c.tails then c.tails[a] else a }

  function Goal(c: Placement, ins: Insertion): Name { if ins.after then TailOf(c, ins.anchor) else ins.anchor }

  predicate CanPlace(c: Placement, ins: Insertion) {
    ins.section in c.entries && Goal(c, ins) in c.entries
  }

  /** The section goes next to its goal, unless it is its own goal. */
  function Place(c: Placement, ins: Insertion): Placement {
    Placement(if ins.section == Goal(c, ins) then c.entries else Moved(c.entries, ins.section, Goal(c, ins), ins.after),
              if ins.after then c.tails[ins.anchor := ins.section] else c.tails)
  }

  /** All pending insertions at the anchor that can be carried out, one after the other. */
  function Run(c: Placement, pending: seq<Insertion>, anchor: Name): Placement {
    if pending == [] then c else
      var n := |pending| - 1;
      var before := Run(c, pending[..n], anchor);
      if pending[n].anchor == anchor && CanPlace(before, pending[n]) then Place(before, pending[n]) else before
  }

  /** Those that cannot be carried out when their turn comes. */
  function Left(c: Placement, pending: seq<Insertion>, anchor: Name): seq<Insertion> {
    if pending == [] then [] else
      var n := |pending| - 1;
      var before := Run(c, pending[..n], anchor);
      Left(c, pending[..n], anchor) + if pending[n].anchor == anchor && CanPlace(before, pending[n]) then []
      else [pending[n]]
  }

  /** It is for another anchor, its section does not exist, or what it would go next to in its turn does not. */
  ghost predicate Stays(c: Placement, pending: seq<Insertion>, anchor: Name, i: nat)
    requires i < |pending|
  {
    || pending[i].anchor != anchor || pending[i].section !in c.entries
    || Goal(Run(c, pending[..i], anchor), pending[i]) !in c.entries
  }

  lemma StaysSame(c: Placement, pending: seq<Insertion>, anchor: Name, i: nat, n: nat)
    requires i < n <= |pending|
    ensures Stays(c, pending[..n], anchor, i) == Stays(c, pending, anchor, i)
  {
    assert pending[..n][..i] == pending[..i];
  }

  lemma LastStays(c: Placement, pending: seq<Insertion>, anchor: Name)
    requires NoRepeats(c.entries) && pending != []
    ensures var n := |pending| - 1;
      var before := Run(c, pending[..n], anchor);
      Stays(c, pending, anchor, n) <==> !(pending[n].anchor == anchor && CanPlace(before, pending[n]))
  {
    RunKeepsSections(c, pending[..|pending| - 1], anchor);
  }

  lemma StaysNext(c: Placement, pending: seq<Insertion>, anchor: Name, before: seq<nat>, idx: seq<nat>, n: nat)
    requires |pending| == n + 1 && n !in before
    requires forall i {:trigger i in before} | 0 <= i < n :: i in before <==> Stays(c, pending[..n], anchor, i)
    requires idx == before + if Stays(c, pending, anchor, n) then [n] else []
    ensures forall i {:trigger i in idx} | 0 <= i <= n :: i in idx <==> Stays(c, pending, anchor, i)
  {
    forall i | 0 <= i < n ensures i in idx <==> Stays(c, pending, anchor, i) {
      StaysSame(c, pending, anchor, i, n);
    }
  }

  /** They stay pending in their order. */
  lemma {:induction false} LeftPicked(c: Placement, pending: seq<Insertion>, anchor: Name) returns (idx: seq<nat>)
    requires NoRepeats(c.entries)
    ensures Picks(pending, Left(c, pending, anchor), idx)
    ensures forall i {:trigger i in idx} | 0 <= i < |pending| :: i in idx <==> Stays(c, pending, anchor, i)
    decreases |pending|
  {
    if pending == [] {
      idx := [];
    } else {
      var n := |pending| - 1;
      var before := LeftPicked(c, pending[..n], anchor);
      LastStays(c, pending, anchor);
      idx := PickNext(pending, Left(c, pending[..n], anchor), before, Stays(c, pending, anchor, n));
      StaysNext(c, pending, anchor, before, idx, n);
    }
  }

  lemma {:induction false} LeftShorter(c: Placement, pending: seq<Insertion>, anchor: Name)
    ensures |Left(c, pending, anchor)| <= |pending|
    ensures |Left(c, pending, anchor)| == |pending| ==> Left(c, pending, anchor) == pending
  {
    if pending != [] {
      LeftShorter(c, pending[..|pending| - 1], anchor);
    }
  }

  /** Whatever is asked for, no section is lost, added or doubled. */
  lemma {:induction false} RunKeepsSections(c: Placement, pending: seq<Insertion>, anchor: Name)
    requires NoRepeats(c.entries)
    ensures NoRepeats(Run(c, pending, anchor).entries)
    ensures forall y :: y in Run(c, pending, anchor).entries <==> y in c.entries
  {
    if pending != [] {
      var n := |pending| - 1;
      RunKeepsSections(c, pending[..n], anchor);
      var before, ins := Run(c, pending[..n], anchor), pending[n];
      if CanPlace(before, ins) && ins.section != Goal(before, ins) {
        MovedSame(before.entries, ins.section, Goal(before, ins), ins.after);
      }
    }
  }

  /** When an inserted section is an anchor itself, blocks can be broken up: C follows B, which follows A,
      and the next section asked for after A comes between B and C. */
  lemma ChainedAnchorsPart(a: Name, b: Name, c: Name, d: Name)
    requires NoRepeats([a, b, c, d])
    ensures
      var first := Run(Placement([a, b, c, d], map[]), [Insertion(b, a, true)], a);
      var second := Run(first, [Insertion(c, b, true)], b);
      var third := Run(second, [Insertion(d, a, true)], a);
      second.entries == [a, b, c, d] && third.entries == [a, b, d, c]
  {
    FirstFollows(a, b, c, d);
    SecondFollows(a, b, c, d);
    ThirdParts(a, b, c, d);
  }

  lemma FirstFollows(a: Name, b: Name, c: Name, d: Name)
    requires NoRepeats([a, b, c, d])
    ensures Run(Placement([a, b, c, d], map[]), [Insertion(b, a, true)], a) == Placement([a, b, c, d], map[a := b])
  {
    RunOne(Placement([a, b, c, d], map[]), Insertion(b, a, true), [a], [c, d], [a], [c, d]);
    assert [a] + [b] + [c, d] == [a, b, c, d];
  }

  lemma SecondFollows(a: Name, b: Name, c: Name, d: Name)
    requires NoRepeats([a, b, c, d])
    ensures Run(Placement([a, b, c, d], map[a := b]), [Insertion(c, b, true)], b) ==
      Placement([a, b, c, d], map[a := b, b := c])
  {
    assert a != b by {
      assert [a, b, c, d][0] != [a, b, c, d][1];
    }
    RunOne(Placement([a, b, c, d], map[a := b]), Insertion(c, b, true), [a, b], [d], [a, b], [d]);
    assert [a, b] + [c] + [d] == [a, b, c, d] && map[a := b][b := c] == map[a := b, b := c];
  }

  lemma ThirdParts(a: Name, b: Name, c: Name, d: Name)
    requires NoRepeats([a, b, c, d])
    ensures Run(Placement([a, b, c, d], map[a := b, b := c]), [Insertion(d, a, true)], a).entries == [a, b, d, c]
  {
    assert a != b by {
      assert [a, b, c, d][0] != [a, b, c, d][1];
    }
    RunOne(Placement([a, b, c, d], map[a := b, b := c]), Insertion(d, a, true), [a, b, c], [], [a, b], [c]);
    assert [a, b] + [d] + [c] == [a, b, d, c];
  }

  /** One section taken out between p and q and put behind the last of p2, before q2. */
  lemma RunOne(c: Placement, ins: Insertion, p: seq<Name>, q: seq<Name>, p2: seq<Name>, q2: seq<Name>)
    requires ins.after && NoRepeats(c.entries) && c.entries == p + [ins.section] + q && p + q == p2 + q2
    requires p2 != [] && p2[|p2| - 1] == TailOf(c, ins.anchor)
    ensures Run(c, [ins], ins.anchor) == Placement(p2 + [ins.section] + q2, c.tails[ins.anchor := ins.section])
  {
    RunFirst(c, ins);
    var x, t, m := ins.section, TailOf(c, ins.anchor), p2[..|p2| - 1];
    assert p2 == m + [t];
    MovedMid(p, x, q, m, t, q2);
    AppendTwo(m, t, x, q2);
    Regroup(p2, [x], q2);
  }

  lemma RunFirst(c: Placement, ins: Insertion)
    ensures Run(c, [ins], ins.anchor) == if CanPlace(c, ins) then Place(c, ins) else c
  {
    assert [ins][..0] == [] && Run(c, [], ins.anchor) == c;
  }

  lemma MovedMid(p: seq<Name>, x: Name, q: seq<Name>, m: seq<Name>, t: Name, q2: seq<Name>)
    requires NoRepeats(p + [x] + q) && p + q == m + [t] + q2
    ensures x != t && t in p + [x] + q && Moved(p + [x] + q, x, t, true) == m + [t, x] + q2
  {
    OnlyHere(p, x, q);
    EraseMid(p, x, q);
    StillNoRepeats(p, x, q);
    OnlyHere(m, t, q2);
    InsertByMid(m, t, q2, x, true);
    assert t in m + [t] + q2 && x !in p + q;
  }

  // ---- whole runs -----------------------------------------------------------------------------

  /** The state after carrying out, in order, all insertions that can be. */
  function After(s: State, pending: seq<Insertion>, anchor: Name): State {
    if pending == [] then s else
      var n := |pending| - 1;
      var before := After(s, pending[..n], anchor);
      if Applies(pending[n], anchor, s.entries) then Next(before, pending[n]) else before
  }

  /** What that adds up to: the applied sections left the base and joined the anchor's block, in order. */
  lemma {:induction false} AfterBase(s: State, pending: seq<Insertion>, anchor: Name)
    ensures After(s, pending, anchor).base == Unmoved(s.base, pending, anchor, s.entries)
  {
    if pending != [] {
      AfterBase(s, pending[..|pending| - 1], anchor);
    }
  }

  lemma {:induction false} AfterBlocks(s: State, pending: seq<Insertion>, anchor: Name, a: Name)
    ensures Of(After(s, pending, anchor).afters, a) == Of(s.afters, a) + AppliedTo(a, pending, anchor, s.entries, true)
    ensures Of(After(s, pending, anchor).befores, a) ==
      Of(s.befores, a) + AppliedTo(a, pending, anchor, s.entries, false)
  {
    if pending != [] {
      var n := |pending| - 1;
      AfterBlocks(s, pending[..n], anchor, a);
      if Applies(pending[n], anchor, s.entries) && a == anchor {
        if pending[n].after {
          Associate(Of(s.afters, a), AppliedTo(a, pending[..n], anchor, s.entries, true), pending[n].section);
        } else {
          Associate(Of(s.befores, a), AppliedTo(a, pending[..n], anchor, s.entries, false), pending[n].section);
        }
      }
    }
  }

  function AppliedTo(a: Name, pending: seq<Insertion>, anchor: Name, entries: seq<Name>, after: bool): seq<Name> {
    if a == anchor then Applied(pending, anchor, entries, after) else []
  }

  lemma Associate(p: seq<Name>, q: seq<Name>, x: Name)
    ensures p + q + [x] == p + (q + [x])
  {
  }

  /** What an insertion goes next to exists exactly when its anchor does. */
  lemma TargetExists(s: State, pending: seq<Insertion>, ins: Insertion, inserted: set<Name>, anchors: set<Name>)
    requires Consistent(s, pending, inserted, anchors) && ins in pending
    ensures Target(ins.anchor, s.afters, ins.after) in s.entries <==> ins.anchor in s.entries
    ensures Applies(ins, ins.anchor, s.entries) ==> Target(ins.anchor, s.afters, ins.after) != ins.section
  {
    if Applies(ins, ins.anchor, s.entries) {
      ReadyToMove(s, pending, ins, inserted, anchors);
    }
    var t := Target(ins.anchor, s.afters, ins.after);
    if t != ins.anchor {
      RecordedPresent(s.base, ins.anchor, ins.anchor, s.befores, s.afters);
      RecordedPresent(s.base, ins.anchor, t, s.befores, s.afters);
    }
  }

  lemma {:induction false} NothingArranged(base: seq<Name>)
    ensures Arranged(base, map[], map[]) == base
  {
    if base != [] {
      NothingArranged(base[..|base| - 1]);
    }
  }

  /** Part of the way through a list of pending insertions. */
  ghost predicate Progress(was: State, s: State, pending: seq<Insertion>, i: nat, remaining: seq<Insertion>,
                           anchor: Name, inserted: set<Name>, anchors: set<Name>)
    requires i <= |pending|
  {
    && Consistent(s, remaining + pending[i..], inserted, anchors)
    && s == After(was, pending[..i], anchor) && remaining == Kept(pending[..i], anchor, was.entries)
    && forall y :: y in s.entries <==> y in was.entries
  }

  lemma NothingTakenUp(was: State, pending: seq<Insertion>, anchor: Name, inserted: set<Name>, anchors: set<Name>)
    requires Consistent(was, pending, inserted, anchors)
    ensures Progress(was, was, pending, 0, [], anchor, inserted, anchors)
  {
    assert [] + pending[0..] == pending && pending[..0] == [];
  }

  lemma TakenUp(was: State, s: State, pending: seq<Insertion>, i: nat, remaining: seq<Insertion>, anchor: Name,
                inserted: set<Name>, anchors: set<Name>)
    requires i < |pending| && Progress(was, s, pending, i, remaining, anchor, inserted, anchors)
    requires Applies(pending[i], anchor, s.entries)
    ensures Progress(was, Next(s, pending[i]), pending, i + 1, remaining, anchor, inserted, anchors)
  {
    assert remaining + pending[i..] == remaining + [pending[i]] + pending[i + 1..];
    NextConsistent(s, remaining, pending[i], pending[i + 1..], inserted, anchors);
    OneMore(was, s, pending, i, remaining, anchor);
  }

  lemma OneMore(was: State, s: State, pending: seq<Insertion>, i: nat, remaining: seq<Insertion>, anchor: Name)
    requires i < |pending| && Applies(pending[i], anchor, was.entries)
    requires s == After(was, pending[..i], anchor) && remaining == Kept(pending[..i], anchor, was.entries)
    ensures Next(s, pending[i]) == After(was, pending[..i + 1], anchor) &&
      remaining == Kept(pending[..i + 1], anchor, was.entries)
  {
    assert pending[..i + 1][..i] == pending[..i];
  }

  lemma LeftPending(was: State, s: State, pending: seq<Insertion>, i: nat, remaining: seq<Insertion>, anchor: Name,
                    inserted: set<Name>, anchors: set<Name>)
    requires i < |pending| && Progress(was, s, pending, i, remaining, anchor, inserted, anchors)
    requires !Applies(pending[i], anchor, s.entries)
    ensures Progress(was, s, pending, i + 1, remaining + [pending[i]], anchor, inserted, anchors)
  {
    assert pending[..i + 1][..i] == pending[..i];
    assert remaining + pending[i..] == remaining + [pending[i]] + pending[i + 1..];
  }

  /** Carrying the insertions out one by one comes to what After and Kept say. */
  ghost predicate Follows(s: State, pending: seq<Insertion>, anchor: Name) {
    && Run(Placement(s.entries, s.tails), pending, anchor) ==
         Placement(After(s, pending, anchor).entries, After(s, pending, anchor).tails)
    && Left(Placement(s.entries, s.tails), pending, anchor) == Kept(pending, anchor, s.entries)
  }

  lemma {:induction false} ProgressTo(was: State, pending: seq<Insertion>, i: nat, anchor: Name, inserted: set<Name>,
                                      anchors: set<Name>)
    returns (s: State, remaining: seq<Insertion>)
    requires Consistent(was, pending, inserted, anchors) && i <= |pending|
    ensures Progress(was, s, pending, i, remaining, anchor, inserted, anchors) && Follows(was, pending[..i], anchor)
  {
    if i == 0 {
      NothingTakenUp(was, pending, anchor, inserted, anchors);
      s, remaining := was, [];
    } else {
      s, remaining := ProgressTo(was, pending, i - 1, anchor, inserted, anchors);
      StepFollows(was, s, pending, i - 1, remaining, anchor, inserted, anchors);
      if Applies(pending[i - 1], anchor, s.entries) {
        TakenUp(was, s, pending, i - 1, remaining, anchor, inserted, anchors);
        s := Next(s, pending[i - 1]);
      } else {
        LeftPending(was, s, pending, i - 1, remaining, anchor, inserted, anchors);
        remaining := remaining + [pending[i - 1]];
      }
    }
  }

  lemma PlaceIsNext(s: State, pending: seq<Insertion>, ins: Insertion, inserted: set<Name>, anchors: set<Name>)
    requires Consistent(s, pending, inserted, anchors) && ins in pending
    ensures CanPlace(Placement(s.entries, s.tails), ins) <==> Applies(ins, ins.anchor, s.entries)
    ensures Applies(ins, ins.anchor, s.entries) ==>
      Place(Placement(s.entries, s.tails), ins) == Placement(Next(s, ins).entries, Next(s, ins).tails)
  {
    TargetExists(s, pending, ins, inserted, anchors);
    assert TailOf(Placement(s.entries, s.tails), ins.anchor) == Target(ins.anchor, s.afters, true);
  }

  lemma StepFollows(was: State, s: State, pending: seq<Insertion>, i: nat, remaining: seq<Insertion>, anchor: Name,
                    inserted: set<Name>, anchors: set<Name>)
    requires i < |pending| && Progress(was, s, pending, i, remaining, anchor, inserted, anchors)
    requires Follows(was, pending[..i], anchor)
    ensures Follows(was, pending[..i + 1], anchor)
  {
    assert pending[..i + 1][..i] == pending[..i];
    assert (remaining + pending[i..])[|remaining|] == pending[i];
    PlaceIsNext(s, remaining + pending[i..], pending[i], inserted, anchors);
  }

  /** For a consistent state, carrying insertions out one by one gives the arrangement described by After. */
  lemma RunArranged(s: State, pending: seq<Insertion>, anchor: Name, inserted: set<Name>, anchors: set<Name>)
    requires Consistent(s, pending, inserted, anchors)
    ensures Consistent(After(s, pending, anchor), Kept(pending, anchor, s.entries), inserted, anchors)
    ensures Follows(s, pending, anchor)
  {
    var now, remaining := ProgressTo(s, pending, |pending|, anchor, inserted, anchors);
    assert pending[..|pending|] == pending && remaining + pending[|pending|..] == remaining;
  }

  class LinkerScript {
    var pendingInsertions: seq<Insertion>
    var insertAfterTail: map<Name, Name>
    /** The order and how it came about, as long as the script stays orderly. */
    ghost var state: State
    ghost var inserted: set<Name>
    ghost var anchors: set<Name>

    constructor (sections: SectionMap)
      requires NoRepeats(sections.entries)
      ensures Valid(sections) && pendingInsertions == [] && inserted == {} && anchors == {}
      ensures state == State(sections.entries, sections.entries, map[], map[], map[])
    {
      pendingInsertions, insertAfterTail, inserted, anchors := [], map[], {}, {};
      state := State(sections.entries, sections.entries, map[], map[], map[]);
      NothingArranged(sections.entries);
    }

    /** The order is the base with every moved section next to its anchor; no section was asked to move
        twice, and none that was asked to move is an anchor. */
    ghost predicate Valid(sections: SectionMap)
      reads this, sections
    {
      && state.entries == sections.entries && state.tails == insertAfterTail
      && Consistent(state, pendingInsertions, inserted, anchors)
    }

    /** The section was not asked to move before and is not an anchor, and the anchor was not asked to move. */
    ghost predicate Orderly(section: Name, anchor: Name)
      reads this
    {
      section != anchor && section !in inserted && section !in anchors && anchor !in inserted
    }

    /** Any insertion is accepted. */
    method AddPendingOutputSectionInsertion(section: Name, anchor: Name, after: bool, ghost sections: SectionMap)
      modifies this`pendingInsertions, this`inserted, this`anchors
      ensures pendingInsertions == old(pendingInsertions) + [Insertion(section, anchor, after)]
      ensures inserted == old(inserted) + {section} && anchors == old(anchors) + {anchor}
      ensures old(Valid(sections) && Orderly(section, anchor)) ==> Valid(sections)
    {
      if Valid(sections) && Orderly(section, anchor) {
        AskedFor(state, pendingInsertions, Insertion(section, anchor, after), inserted, anchors);
      }
      pendingInsertions := pendingInsertions + [Insertion(section, anchor, after)];
      inserted, anchors := inserted + {section}, anchors + {anchor};
    }

    /** A new output section, at the end. */
    method AppendOutputSection(section: Name, sections: SectionMap)
      requires section !in sections.entries
      modifies this`state, sections
      ensures sections.entries == old(sections.entries) + [section]
      ensures state == old(state).(entries := sections.entries, base := old(state).base + [section])
      ensures old(Valid(sections)) ==> Valid(sections)
    {
      if Valid(sections) {
        Appended(state, pendingInsertions, section, inserted, anchors);
      }
      sections.entries := sections.entries + [section];
      state := state.(entries := sections.entries, base := state.base + [section]);
    }

    /** Carries out, in order, every pending insertion at the anchor that can be, and keeps the rest. In an
        orderly script those are the ones whose section exists, if the anchor does, and the anchor's block
        grows by them in that order. */
    method ApplyPendingForAnchor(sections: SectionMap, anchor: Name) returns (applied: bool)
      modifies this`pendingInsertions, this`insertAfterTail, this`state, sections
      ensures Here(sections) == Run(old(Here(sections)), old(pendingInsertions), anchor)
      ensures pendingInsertions == Left(old(Here(sections)), old(pendingInsertions), anchor)
      ensures applied <==> pendingInsertions != old(pendingInsertions)
      ensures old(Valid(sections)) ==> Valid(sections) && state == After(old(state), old(pendingInsertions), anchor)
      ensures old(Valid(sections)) ==> pendingInsertions == Kept(old(pendingInsertions), anchor, old(sections.entries))
    {
      if pendingInsertions == [] {
        return false;
      }
      ghost var next := After(state, pendingInsertions, anchor);
      if Valid(sections) {
        RunArranged(state, pendingInsertions, anchor, inserted, anchors);
      }
      LeftShorter(Here(sections), pendingInsertions, anchor);
      var remaining;
      remaining, applied := ApplyAll(sections, anchor);
      assert old(Valid(sections)) ==> Consistent(next, remaining, inserted, anchors);
      pendingInsertions, state := remaining, next;
    }

    ghost function Here(sections: SectionMap): Placement
      reads this`insertAfterTail, sections
    {
      Placement(sections.entries, insertAfterTail)
    }

    method ApplyAll(sections: SectionMap, anchor: Name) returns (remaining: seq<Insertion>, applied: bool)
      modifies this`insertAfterTail, sections
      ensures Here(sections) == Run(old(Here(sections)), pendingInsertions, anchor)
      ensures remaining == Left(old(Here(sections)), pendingInsertions, anchor)
      ensures applied <==> |remaining| < |pendingInsertions|
    {
      var pending := pendingInsertions;
      ghost var was := Here(sections);
      var afterAnchor := if anchor in insertAfterTail then insertAfterTail[anchor] else anchor;
      remaining, applied := [], false;
      ghost var seen: seq<Insertion> := [];
      for i := 0 to |pending|
        invariant seen == pending[..i]
        invariant Here(sections) == Run(was, seen, anchor) && remaining == Left(was, seen, anchor)
        invariant afterAnchor == TailOf(Here(sections), anchor)
        invariant |remaining| <= i && (applied <==> |remaining| < i)
      {
        var done;
        done, afterAnchor := ApplyIth(sections, seen, pending[i], anchor, afterAnchor, was);
        if done {
          applied := true;
        } else {
          remaining := remaining + [pending[i]];
        }
        seen := seen + [pending[i]];
      }
      assert seen == pending;
    }

    /** One more pending insertion, if it is for the anchor. */
    method ApplyIth(sections: SectionMap, ghost seen: seq<Insertion>, ins: Insertion, anchor: Name, afterAnchor: Name,
                    ghost was: Placement)
      returns (done: bool, newAfterAnchor: Name)
      requires Here(sections) == Run(was, seen, anchor) && afterAnchor == TailOf(Here(sections), anchor)
      modifies this`insertAfterTail, sections
      ensures Here(sections) == Run(was, seen + [ins], anchor) && newAfterAnchor == TailOf(Here(sections), anchor)
      ensures Left(was, seen + [ins], anchor) == Left(was, seen, anchor) + if done then [] else [ins]
    {
      assert (seen + [ins])[..|seen|] == seen;
      if anchor != ins.anchor {
        return false, afterAnchor;
      }
      done, newAfterAnchor := ApplyOne(sections, ins, afterAnchor);
    }

    /** One pending insertion at its anchor. */
    method ApplyOne(sections: SectionMap, ins: Insertion, afterAnchor: Name) returns (done: bool, newAfterAnchor: Name)
      requires afterAnchor == TailOf(Here(sections), ins.anchor)
      modifies this`insertAfterTail, sections
      ensures done <==> CanPlace(old(Here(sections)), ins)
      ensures Here(sections) == if done then Place(old(Here(sections)), ins) else old(Here(sections))
      ensures newAfterAnchor == TailOf(Here(sections), ins.anchor)
    {
      var target := if ins.after then afterAnchor else ins.anchor;
      if ins.section !in sections.entries {
        return false, afterAnchor;
      }
      done := sections.MoveOutputSection(ins.section, target, ins.after);
      newAfterAnchor := afterAnchor;
      if done && ins.after {
        newAfterAnchor := ins.section;
        insertAfterTail := insertAfterTail[ins.anchor := ins.section];
      }
    }
  }

  lemma AskedFor(s: State, pending: seq<Insertion>, ins: Insertion, inserted: set<Name>, anchors: set<Name>)
    requires Consistent(s, pending, inserted, anchors) && ins.section != ins.anchor
    requires ins.section !in inserted && ins.section !in anchors && ins.anchor !in inserted
    ensures Consistent(s, pending + [ins], inserted + {ins.section}, anchors + {ins.anchor})
  {
    if ins.section in s.entries {
      UnmovedOrInserted(s.base, s.befores, s.afters, inserted, anchors, s.base, ins.section);
    }
    forall other | other in pending + [ins]
      ensures Waiting(other, s.base, s.entries, inserted + {ins.section}, anchors + {ins.anchor})
    {
      assert other in pending ==> Waiting(other, s.base, s.entries, inserted, anchors);
    }
    forall i | 0 <= i < |pending| ensures pending[i].section != ins.section {
      assert Waiting(pending[i], s.base, s.entries, inserted, anchors);
    }
  }

  lemma Appended(s: State, pending: seq<Insertion>, x: Name, inserted: set<Name>, anchors: set<Name>)
    requires Consistent(s, pending, inserted, anchors) && x !in s.entries
    ensures Consistent(s.(entries := s.entries + [x], base := s.base + [x]), pending, inserted, anchors)
  {
    if x in s.base {
      BaseArranged(s.base, x, s.befores, s.afters);
    }
    ArrangedConcat(s.base, [x], s.befores, s.afters);
    ArrangedOne(x, s.befores, s.afters);
    forall other | other in pending ensures Waiting(other, s.base + [x], s.entries + [x], inserted, anchors) {
      assert Waiting(other, s.base, s.entries, inserted, anchors);
    }
  }
}
