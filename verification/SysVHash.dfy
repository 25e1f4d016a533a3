/** The System V hash section: the emitter that threads every symbol into its bucket's chain, and
    the loader's walk that must agree with a linear scan of the dynamic symbol table. */
module SysVHash {
  import opened Wrappers
  import opened Words

  type Hasher = string -> word

  /** The bucket of symbol i. */
  function Class(names: seq<string>, hash: Hasher, i: nat): nat
    requires i < |names|
  {
    hash(names[i]) % |names|
  }

  /** The last symbol of class h among the first k, or 0 when there is none but the null entry. */
  function Last(names: seq<string>, hash: Hasher, h: nat, k: nat): (r: nat)
    requires k <= |names|
    ensures r < k || r == 0
  {
    if k == 0 then 0 else if Class(names, hash, k - 1) == h then k - 1 else Last(names, hash, h, k - 1)
  }

  lemma {:induction false} LastIsGreatest(names: seq<string>, hash: Hasher, h: nat, k: nat)
    requires k <= |names|
    ensures var r := Last(names, hash, h, k);
      && (r != 0 ==> Class(names, hash, r) == h)
      && forall i | r < i < k :: Class(names, hash, i) != h
  {
    if k != 0 && Class(names, hash, k - 1) != h {
      LastIsGreatest(names, hash, h, k - 1);
    }
  }

  // ---- the section ----------------------------------------------------------------------------

  /** nbucket and nchain, then the buckets, then the chains. */
  ghost predicate IsTable(t: seq<word>, names: seq<string>, hash: Hasher) {
    var n := |names|;
    && |t| == 2 + 2 * n && t[0] == n && t[1] == n
    && (forall k | 2 <= k < 2 + n :: t[k] == Last(names, hash, k - 2, n))
    && (forall k | 2 + n <= k < 2 + 2 * n :: t[k] == Last(names, hash, Class(names, hash, k - 2 - n), k - 2 - n))
  }

  class SysVHashFragment {
    var dynamicSymbols: seq<string>

    constructor (dynamicSymbols: seq<string>)
      ensures this.dynamicSymbols == dynamicSymbols
    {
      this.dynamicSymbols := dynamicSymbols;
    }

    method Size() returns (bytes: nat)
      ensures bytes == 4 * (2 + 2 * |dynamicSymbols|)
    {
      var numEntries := 2;
      numEntries := numEntries + 2 * |dynamicSymbols|;
      return numEntries * 4;
    }

    /** Fills a zeroed section of Size() bytes with a table for the symbols. */
    method Emit(section: array<word>, hash: Hasher)
      requires |dynamicSymbols| < 0x1_0000_0000
      requires section.Length == 2 + 2 * |dynamicSymbols|
      requires forall k | 0 <= k < section.Length :: section[k] == 0
      modifies section
      ensures IsTable(section[..], dynamicSymbols, hash)
    {
      var n := |dynamicSymbols|;
      section[0], section[1] := n, n;
      for i := 0 to n
        invariant section[0] == n && section[1] == n
        invariant forall k | 2 <= k < 2 + n :: section[k] == Last(dynamicSymbols, hash, k - 2, i)
        invariant forall k | 2 + n <= k < 2 + n + i ::
          section[k] == Last(dynamicSymbols, hash, Class(dynamicSymbols, hash, k - 2 - n), k - 2 - n)
      {
        var h := hash(dynamicSymbols[i]) % n;
        section[2 + n + i] := section[2 + h];
        section[2 + h] := i;
      }
    }
  }

  // ---- the loader -----------------------------------------------------------------------------

  /** A table a loader can walk: every link leads to an earlier entry. */
  ghost predicate Descends(t: seq<word>) {
    |t| >= 2 &&
    var n: nat := t[0];
    && |t| == 2 + 2 * n
    && (forall k | 2 <= k < 2 + n :: t[k] < n)
    && (forall k | 2 + n < k < 2 + 2 * n :: t[k] < k - 2 - n)
  }

  /** chain[y] */
  function Next(t: seq<word>, y: nat): (r: nat)
    requires Descends(t) && 0 < y < t[0]
    ensures r < y
  {
    var n: nat := t[0];
    t[2 + n + y]
  }

  /** The indices a loader visits from link y on. */
  function Walk(t: seq<word>, y: nat): seq<nat>
    requires Descends(t) && (y == 0 || y < t[0])
    decreases y
  {
    if y == 0 then [] else [y] + Walk(t, Next(t, y))
  }

  /** The first visited symbol whose name is the query. */
  function Find(t: seq<word>, names: seq<string>, query: string, y: nat): Option<nat>
    requires Descends(t) && t[0] == |names| && (y == 0 || y < t[0])
    decreases y
  {
    if y == 0 then None else if names[y] == query then Some(y) else Find(t, names, query, Next(t, y))
  }

  function Lookup(t: seq<word>, names: seq<string>, hash: Hasher, query: string): Option<nat>
    requires Descends(t) && t[0] == |names|
  {
    if t[0] == 0 then None else Find(t, names, query, t[2 + hash(query) % t[0]])
  }

  lemma TableDescends(t: seq<word>, names: seq<string>, hash: Hasher)
    requires IsTable(t, names, hash)
    ensures Descends(t)
  {
  }

  lemma NextInTable(t: seq<word>, names: seq<string>, hash: Hasher, y: nat)
    requires IsTable(t, names, hash) && Descends(t) && 0 < y < |names|
    ensures Next(t, y) == Last(names, hash, Class(names, hash, y), y)
  {
    assert t[2 + |names| + y] == Last(names, hash, Class(names, hash, y), y);
  }

  predicate InClass(names: seq<string>, hash: Hasher, h: nat, k: nat, i: nat) {
    0 < i < k <= |names| && Class(names, hash, i) == h
  }

  lemma {:induction false} WalkDescends(t: seq<word>, y: nat)
    requires Descends(t) && (y == 0 || y < t[0])
    ensures var w := Walk(t, y);
      && (forall a | 0 <= a < |w| :: 0 < w[a] <= y)
      && (forall a, b | 0 <= a < b < |w| :: w[b] < w[a])
    decreases y
  {
    if y != 0 {
      WalkDescends(t, Next(t, y));
      assert Walk(t, y) == [y] + Walk(t, Next(t, y));
    }
  }

  lemma {:induction false} WalkMember(t: seq<word>, names: seq<string>, hash: Hasher, h: nat, k: nat, i: nat)
    requires IsTable(t, names, hash) && Descends(t) && k <= |names|
    ensures i in Walk(t, Last(names, hash, h, k)) <==> InClass(names, hash, h, k, i)
    decreases k
  {
    var y := Last(names, hash, h, k);
    LastIsGreatest(names, hash, h, k);
    if y != 0 {
      NextInTable(t, names, hash, y);
      WalkMember(t, names, hash, h, y, i);
      assert Walk(t, y) == [y] + Walk(t, Last(names, hash, h, y));
    }
  }

  /** The loader's walk from bucket h strictly descends, so it ends, and visits exactly the symbols
      of that class after the null entry. */
  lemma WalkVisitsClass(t: seq<word>, names: seq<string>, hash: Hasher, h: nat)
    requires IsTable(t, names, hash) && h < |names|
    ensures Descends(t)
    ensures var w := Walk(t, t[2 + h]);
      && (forall i: nat :: i in w <==> InClass(names, hash, h, |names|, i))
      && (forall a, b | 0 <= a < b < |w| :: w[b] < w[a])
  {
    TableDescends(t, names, hash);
    assert t[2 + h] == Last(names, hash, h, |names|);
    WalkDescends(t, t[2 + h]);
    forall i: nat ensures i in Walk(t, t[2 + h]) <==> InClass(names, hash, h, |names|, i) {
      WalkMember(t, names, hash, h, |names|, i);
    }
  }

  lemma {:induction false} FindIsLast(t: seq<word>, names: seq<string>, hash: Hasher, query: string, k: nat)
    requires IsTable(t, names, hash) && Descends(t) && 0 < |names| && k <= |names|
    ensures var r := Find(t, names, query, Last(names, hash, hash(query) % |names|, k));
      && (r.Some? ==> 0 < r.value < k && names[r.value] == query && forall i | r.value < i < k :: names[i] != query)
      && (r.None? ==> forall i | 0 < i < k :: names[i] != query)
    decreases k
  {
    var h := hash(query) % |names|;
    var y := Last(names, hash, h, k);
    LastIsGreatest(names, hash, h, k);
    forall i | y < i < k ensures names[i] != query {
      assert Class(names, hash, i) != h;
    }
    if y != 0 && names[y] != query {
      FindIsLast(t, names, hash, query, y);
      NextInTable(t, names, hash, y);
    }
  }

  /** Hash lookup agrees with the linear scan: it finds the last symbol of that name after the null
      entry, and nothing exactly when there is none. */
  lemma LookupRefinesScan(t: seq<word>, names: seq<string>, hash: Hasher, query: string)
    requires IsTable(t, names, hash)
    ensures Descends(t)
    ensures var r := Lookup(t, names, hash, query);
      && (r.Some? <==> exists i :: 0 < i < |names| && names[i] == query)
      && (r.Some? ==>
           0 < r.value < |names| && names[r.value] == query && forall i | r.value < i < |names| :: names[i] != query)
  {
    TableDescends(t, names, hash);
    if names != [] {
      var h := hash(query) % |names|;
      assert t[2 + h] == Last(names, hash, h, |names|);
      FindIsLast(t, names, hash, query, |names|);
    }
  }
}
