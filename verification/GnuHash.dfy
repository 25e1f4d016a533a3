/** The GNU hash section: the symbol order it imposes, the filter, bucket and value words it emits,
    and the loader's lookup, proved against a linear scan. The section's consecutive windows (header,
    filter words, buckets, values) are separate arrays; a filter word is the set of its set bits. */
module GnuHash {
  import opened Wrappers
  import opened Words
  import opened Sorting
  import opened GnuHashSizing

  datatype ResolveInfo = ResolveInfo(id: nat, name: string, isDyn: bool, isUndef: bool)
  datatype SymbolData = SymbolData(r: ResolveInfo, dynSymIndex: word, hash: word)
  type Hasher = string -> word

  // ---- the order ------------------------------------------------------------------------------

  predicate Unhashed(s: ResolveInfo) { s.isDyn || s.isUndef }

  function Select(s: seq<ResolveInfo>, unhashed: bool): seq<ResolveInfo> {
    if s == [] then [] else
      Select(s[..|s| - 1], unhashed) + if Unhashed(s[|s| - 1]) == unhashed then [s[|s| - 1]] else []
  }

  function Infos(s: seq<SymbolData>): (r: seq<ResolveInfo>)
    ensures |r| == |s|
    ensures forall i | 0 <= i < |s| :: r[i] == s[i].r
  {
    if s == [] then [] else Infos(s[..|s| - 1]) + [s[|s| - 1].r]
  }

  /** The bucket number of each symbol. */
  function BucketsOf(s: seq<SymbolData>, nBuckets: nat): (r: seq<nat>)
    requires nBuckets > 0
    ensures |r| == |s|
    ensures forall i | 0 <= i < |s| :: r[i] == Remainder(s[i].hash, nBuckets)
  {
    seq(|s|, i requires 0 <= i < |s| => Remainder(s[i].hash, nBuckets))
  }

  function BucketKey(nBuckets: nat): SymbolData -> int
    requires nBuckets > 0
  {
    (s: SymbolData) => Remainder(s.hash, nBuckets)
  }

  ghost predicate NonDecreasing(bs: seq<nat>) {
    forall i, j | 0 <= i < j < |bs| :: bs[i] <= bs[j]
  }

  lemma {:induction false} SelectSplits(s: seq<ResolveInfo>)
    ensures multiset(Select(s, true)) + multiset(Select(s, false)) == multiset(s)
    ensures forall x | x in Select(s, false) :: !Unhashed(x)
    ensures forall x | x in Select(s, true) :: Unhashed(x)
    ensures |Select(s, true)| + |Select(s, false)| == |s|
  {
    if s != [] {
      SelectSplits(s[..|s| - 1]);
      assert s == s[..|s| - 1] + [s[|s| - 1]];
    }
  }

  /** The partition: the symbols of either kind in their order, each as often as it occurs. */
  lemma {:induction false} SelectPicks(s: seq<ResolveInfo>, unhashed: bool) returns (idx: seq<nat>)
    ensures Picks(s, Select(s, unhashed), idx)
    ensures forall i {:trigger i in idx} | 0 <= i < |s| :: i in idx <==> unhashed == (s[i].isDyn || s[i].isUndef)
    decreases |s|
  {
    if s == [] {
      idx := [];
    } else {
      var n := |s| - 1;
      var before := SelectPicks(s[..n], unhashed);
      idx := PickNext(s, Select(s[..n], unhashed), before, Unhashed(s[n]) == unhashed);
    }
  }

  lemma InfosSnoc(s: seq<SymbolData>, x: SymbolData)
    ensures Infos(s + [x]) == Infos(s) + [x.r]
  {
    assert (s + [x])[..|s|] == s;
  }

  lemma {:induction false} InsertInfos(s: seq<SymbolData>, x: SymbolData, key: SymbolData -> int)
    ensures multiset(Infos(Insert(s, x, key))) == multiset(Infos(s)) + multiset{x.r}
  {
    if s == [] || key(s[|s| - 1]) <= key(x) {
      InfosSnoc(s, x);
    } else {
      InsertInfos(s[..|s| - 1], x, key);
      InfosSnoc(Insert(s[..|s| - 1], x, key), s[|s| - 1]);
    }
  }

  lemma {:induction false} SortInfos(s: seq<SymbolData>, key: SymbolData -> int)
    ensures multiset(Infos(StableSort(s, key))) == multiset(Infos(s))
  {
    if s != [] {
      SortInfos(s[..|s| - 1], key);
      InsertInfos(StableSort(s[..|s| - 1], key), s[|s| - 1], key);
    }
  }

  /** No symbol is listed twice. */
  ghost predicate Once(s: seq<ResolveInfo>) {
    forall x :: multiset(s)[x] <= 1
  }

  lemma OnceDistinct(s: seq<ResolveInfo>, i: nat, j: nat)
    requires Once(s) && i < j < |s|
    ensures s[i] != s[j]
  {
    assert s == s[..j] + [s[j]] + s[j + 1..];
    assert s[..j] == s[..i] + [s[i]] + s[i + 1..j];
    assert multiset(s)[s[j]] <= 1;
  }

  // ---- the emitted words ----------------------------------------------------------------------

  /** The hash value with its low bit cleared or, at the end of a chain, set. */
  function ValueWord(hash: word, last: bool): word {
    hash / 2 * 2 + if last then 1 else 0
  }

  /** v | 1 */
  function SetLowBit(v: word): word { v / 2 * 2 + 1 }

  lemma ChainEnd(hash: word)
    ensures SetLowBit(ValueWord(hash, false)) == ValueWord(hash, true)
  {
  }

  predicate LastOfBucket(bs: seq<nat>, i: nat)
    requires i < |bs|
  {
    i + 1 == |bs| || bs[i + 1] != bs[i]
  }

  /** The first of the first k symbols in bucket b. */
  function FirstOf(bs: seq<nat>, b: nat, k: nat): (r: Option<nat>)
    requires k <= |bs|
    ensures r.Some? ==> r.value < k && bs[r.value] == b && forall j | 0 <= j < r.value :: bs[j] != b
    ensures r.None? ==> forall j | 0 <= j < k :: bs[j] != b
  {
    if k == 0 then None else
      var r := FirstOf(bs, b, k - 1);
      if r.None? && bs[k - 1] == b then Some(k - 1) else r
  }

  /** The symbols of a bucket are neighbours: one that differs from its predecessor opens a new bucket. */
  ghost predicate Grouped(bs: seq<nat>) {
    forall i {:trigger FirstOf(bs, bs[i], i)} | 0 <= i < |bs| ::
      FirstOf(bs, bs[i], i).None? <==> i == 0 || bs[i - 1] != bs[i]
  }

  lemma OrderedGrouped(bs: seq<nat>)
    requires NonDecreasing(bs)
    ensures Grouped(bs)
  {
    forall i | 0 <= i < |bs| ensures FirstOf(bs, bs[i], i).None? <==> i == 0 || bs[i - 1] != bs[i] {
      var first := FirstOf(bs, bs[i], i);
      if first.Some? && first.value < i - 1 {
        assert bs[first.value] <= bs[i - 1] <= bs[i];
      }
    }
  }

  function BucketWord(s: seq<SymbolData>, first: Option<nat>): word
    requires first.Some? ==> first.value < |s|
  {
    if first.None? then 0 else s[first.value].dynSymIndex
  }

  ghost predicate IsTable(s: seq<SymbolData>, bs: seq<nat>, buckets: seq<word>, values: seq<word>) {
    && |bs| == |values| == |s|
    && (forall b {:trigger buckets[b]} | 0 <= b < |buckets| :: buckets[b] == BucketWord(s, FirstOf(bs, b, |s|)))
    && (forall i {:trigger values[i]} | 0 <= i < |s| :: values[i] == ValueWord(s[i].hash, LastOfBucket(bs, i)))
  }

  // ---- the filter -----------------------------------------------------------------------------

  function ShiftRight(x: nat, k: nat): nat {
    if k == 0 then x else ShiftRight(x / 2, k - 1)
  }

  lemma {:induction false} ShiftRightDivides(x: nat, k: nat)
    ensures ShiftRight(x, k) == x / Pow2(k)
    decreases k
  {
    if k > 0 {
      ShiftRightDivides(x / 2, k - 1);
      HalvedFirst(x, Pow2(k - 1));
    }
  }

  lemma HalvedFirst(x: nat, n: nat)
    requires n > 0
    ensures x / 2 / n == x / (2 * n)
  {
    var q, r := x / 2 / n, x / 2 % n;
    assert x / 2 == q * n + r;
    assert x == q * (2 * n) + (2 * r + x % 2);
    QuotientUnique(x, 2 * n, q, 2 * r + x % 2);
  }

  lemma QuotientUnique(x: nat, n: nat, q: nat, r: nat)
    requires x == q * n + r && r < n
    ensures x / n == q
  {
    var p, t := x / n, x % n;
    assert x == p * n + t;
    if p < q {
      assert (q - p) * n == t - r;
      MultipleBound(q - p, n);
    } else if q < p {
      assert (p - q) * n == r - t;
      MultipleBound(p - q, n);
    }
  }

  /** The filter word a hash picks, masked as the emitter does it, and the bits it sets there. */
  function MaskPos(hash: word, is64: bool, maskWords: nat): (p: nat)
    requires maskWords > 0
    ensures p < maskWords
  {
    var wordNo := if is64 then hash / 64 else hash / 32;
    BitAndBelow(wordNo, maskWords - 1);
    BitAnd(wordNo, maskWords - 1)
  }

  function MaskBits(hash: word, is64: bool, shift2: nat): set<nat> {
    if is64 then {hash % 64, ShiftRight(hash, shift2) % 64} else {hash % 32, ShiftRight(hash, shift2) % 32}
  }

  /** For the number of words the section is sized with, the word picked is the hash's word number modulo
      that number, as the format defines it. */
  lemma MaskPosIsModulo(hash: word, is64: bool, numHashed: nat)
    ensures var n := CalcMaskWords(numHashed, if is64 then 8 else 4);
      n > 0 && MaskPos(hash, is64, n) == (if is64 then hash / 64 % n else hash / 32 % n)
  {
    var offSize := if is64 then 8 else 4;
    var k := MaskWordsBounds(numHashed, offSize);
    var wordNo := if is64 then hash / 64 else hash / 32;
    BitAndIsRemainder(wordNo, k);
    RemainderIsModulo(wordNo, Pow2(k));
  }

  /** A hash sets bit b of filter word p of n: its own low bits and those of the hash shifted say which bit,
      the bits above which word. Words have 64 bits or 32. */
  predicate SetsBit(hash: word, is64: bool, shift2: nat, n: nat, p: nat, b: nat)
    requires n > 0
  {
    if is64 then hash / 64 % n == p && (b == hash % 64 || b == hash / Pow2(shift2) % 64)
    else hash / 32 % n == p && (b == hash % 32 || b == hash / Pow2(shift2) % 32)
  }

  lemma EmitterSets(hash: word, is64: bool, shift2: nat, numHashed: nat, p: nat, b: nat)
    ensures var n := CalcMaskWords(numHashed, if is64 then 8 else 4);
      n > 0 && (p == MaskPos(hash, is64, n) && b in MaskBits(hash, is64, shift2) <==>
                SetsBit(hash, is64, shift2, n, p, b))
  {
    MaskPosIsModulo(hash, is64, numHashed);
    ShiftRightDivides(hash, shift2);
  }

  /** Bit b of filter word p is set by one of the first k symbols. */
  ghost predicate SetAmong(s: seq<SymbolData>, is64: bool, shift2: nat, n: nat, p: nat, b: nat, k: nat)
    requires n > 0 && k <= |s|
  {
    exists i :: 0 <= i < k && SetsBit(s[i].hash, is64, shift2, n, p, b)
  }

  /** The filter holds exactly the bits of the first k symbols. */
  ghost predicate IsFilterOf(s: seq<SymbolData>, is64: bool, shift2: nat, masks: seq<set<nat>>, k: nat)
    requires |masks| > 0 && k <= |s|
  {
    forall p, b {:trigger b in masks[p]} | 0 <= p < |masks| && 0 <= b ::
      b in masks[p] <==> SetAmong(s, is64, shift2, |masks|, p, b, k)
  }

  ghost predicate IsFilter(s: seq<SymbolData>, is64: bool, shift2: nat, masks: seq<set<nat>>)
    requires |masks| > 0
  {
    IsFilterOf(s, is64, shift2, masks, |s|)
  }

  lemma FilterNext(s: seq<SymbolData>, is64: bool, shift2: nat, was: seq<set<nat>>, now: seq<set<nat>>, k: nat)
    requires k < |s| && |was| == CalcMaskWords(|s|, if is64 then 8 else 4) > 0
    requires IsFilterOf(s, is64, shift2, was, k)
    requires var p := MaskPos(s[k].hash, is64, |was|);
      now == was[p := was[p] + MaskBits(s[k].hash, is64, shift2)]
    ensures IsFilterOf(s, is64, shift2, now, k + 1)
  {
    forall p, b | 0 <= p < |now| && 0 <= b ensures b in now[p] <==> SetAmong(s, is64, shift2, |now|, p, b, k + 1) {
      EmitterSets(s[k].hash, is64, shift2, |s|, p, b);
      assert b in was[p] <==> SetAmong(s, is64, shift2, |was|, p, b, k);
    }
  }

  /** The loader's filter test: both bits of the hash are set in its word. */
  predicate MayContain(masks: seq<set<nat>>, hash: word, is64: bool, shift2: nat)
    requires |masks| > 0
  {
    if is64 then
      hash % 64 in masks[hash / 64 % |masks|] && hash / Pow2(shift2) % 64 in masks[hash / 64 % |masks|]
    else
      hash % 32 in masks[hash / 32 % |masks|] && hash / Pow2(shift2) % 32 in masks[hash / 32 % |masks|]
  }

  /** No hashed symbol is ever rejected. */
  lemma FilterAccepts(s: seq<SymbolData>, is64: bool, shift2: nat, masks: seq<set<nat>>, i: nat)
    requires |masks| > 0 && IsFilter(s, is64, shift2, masks) && i < |s|
    ensures MayContain(masks, s[i].hash, is64, shift2)
  {
    var h, n := s[i].hash, |masks|;
    var p := if is64 then h / 64 % n else h / 32 % n;
    var low := if is64 then h % 64 else h % 32;
    var high := if is64 then h / Pow2(shift2) % 64 else h / Pow2(shift2) % 32;
    assert SetsBit(h, is64, shift2, n, p, low) && SetsBit(h, is64, shift2, n, p, high);
    assert SetAmong(s, is64, shift2, n, p, low, |s|) && SetAmong(s, is64, shift2, n, p, high, |s|);
  }

  // ---- the loader -----------------------------------------------------------------------------

  /** What a loader reads: the section's windows and the dynamic symbol table it indexes. */
  datatype Section = Section(symOffset: nat, shift2: nat, is64: bool, masks: seq<set<nat>>, buckets: seq<word>,
                             values: seq<word>)

  /** Reads values from index i up to the first odd one; the last value is odd, so no read is out of range. */
  function ChainFind(values: seq<word>, names: seq<ResolveInfo>, symOffset: nat, hash: word, query: string,
                     i: nat): Option<nat>
    requires i < |values| && values[|values| - 1] % 2 == 1 && symOffset + |values| == |names|
    decreases |values| - i
  {
    if values[i] / 2 == hash / 2 && names[symOffset + i].name == query then Some(symOffset + i)
    else if values[i] % 2 == 1 then None
    else ChainFind(values, names, symOffset, hash, query, i + 1)
  }

  ghost predicate Loadable(t: Section, names: seq<ResolveInfo>) {
    && |t.masks| > 0
    && t.symOffset + |t.values| == |names|
    && (|t.values| > 0 ==> t.values[|t.values| - 1] % 2 == 1)
    && (forall b | 0 <= b < |t.buckets| :: t.buckets[b] == 0 || t.symOffset <= t.buckets[b] < |names|)
  }

  function Lookup(t: Section, names: seq<ResolveInfo>, hash: Hasher, query: string): Option<nat>
    requires Loadable(t, names)
  {
    var h := hash(query);
    if |t.buckets| == 0 || !MayContain(t.masks, h, t.is64, t.shift2) then None else
      var first := t.buckets[Remainder(h, |t.buckets|)];
      if first == 0 then None else ChainFind(t.values, names, t.symOffset, h, query, first - t.symOffset)
  }

  /** The table describes the symbols behind symOffset in names. */
  ghost predicate Describes(s: seq<SymbolData>, t: Section, names: seq<ResolveInfo>, hash: Hasher) {
    && t.symOffset + |s| == |names|
    && forall k | 0 <= k < |s| ::
      names[t.symOffset + k] == s[k].r && s[k].hash == hash(s[k].r.name) && s[k].dynSymIndex == t.symOffset + k
  }

  lemma {:induction false} ChainFindSound(values: seq<word>, names: seq<ResolveInfo>, symOffset: nat, hash: word,
                                          query: string, i: nat)
    requires i < |values| && values[|values| - 1] % 2 == 1 && symOffset + |values| == |names|
    ensures var r := ChainFind(values, names, symOffset, hash, query, i);
      r.Some? ==> symOffset <= r.value < |names| && names[r.value].name == query
    decreases |values| - i
  {
    if !(values[i] / 2 == hash / 2 && names[symOffset + i].name == query) && values[i] % 2 != 1 {
      ChainFindSound(values, names, symOffset, hash, query, i + 1);
    }
  }

  /** The chain of i's bucket reaches every later symbol j of that bucket. */
  lemma {:induction false} ChainFindComplete(s: seq<SymbolData>, bs: seq<nat>, t: Section, names: seq<ResolveInfo>,
                                             hash: Hasher, i: nat, j: nat)
    requires IsTable(s, bs, t.buckets, t.values) && NonDecreasing(bs) && Describes(s, t, names, hash)
    requires i <= j < |s| && bs[i] == bs[j] && t.values[|s| - 1] % 2 == 1
    ensures ChainFind(t.values, names, t.symOffset, s[j].hash, s[j].r.name, i).Some?
    decreases j - i
  {
    assert t.values[i] == ValueWord(s[i].hash, LastOfBucket(bs, i));
    if i == j {
      assert names[t.symOffset + j] == s[j].r;
    } else {
      assert bs[i] <= bs[i + 1] && (i + 1 == j || bs[i + 1] <= bs[j]);
      ChainFindComplete(s, bs, t, names, hash, i + 1, j);
    }
  }

  lemma TableLoadable(s: seq<SymbolData>, bs: seq<nat>, t: Section, names: seq<ResolveInfo>, hash: Hasher)
    requires IsTable(s, bs, t.buckets, t.values) && Describes(s, t, names, hash)
    requires |t.masks| > 0
    ensures Loadable(t, names)
  {
    if s != [] {
      assert t.values[|s| - 1] == ValueWord(s[|s| - 1].hash, true);
    }
    forall b | 0 <= b < |t.buckets| ensures t.buckets[b] == 0 || t.symOffset <= t.buckets[b] < |names| {
      assert t.buckets[b] == BucketWord(s, FirstOf(bs, b, |s|));
    }
  }

  lemma LookupSound(t: Section, names: seq<ResolveInfo>, hash: Hasher, query: string)
    requires Loadable(t, names)
    ensures var r := Lookup(t, names, hash, query);
      r.Some? ==> t.symOffset <= r.value < |names| && names[r.value].name == query
  {
    if |t.buckets| > 0 && t.buckets[Remainder(hash(query), |t.buckets|)] != 0 {
      ChainFindSound(t.values, names, t.symOffset, hash(query), query,
                     t.buckets[Remainder(hash(query), |t.buckets|)] - t.symOffset);
    }
  }

  lemma BucketLeads(s: seq<SymbolData>, bs: seq<nat>, t: Section, names: seq<ResolveInfo>, hash: Hasher, j: nat)
    returns (i: nat)
    requires IsTable(s, bs, t.buckets, t.values) && Describes(s, t, names, hash)
    requires |t.buckets| > 0 && bs == BucketsOf(s, |t.buckets|) && j < |s|
    ensures i <= j && bs[i] == bs[j] && t.buckets[Remainder(s[j].hash, |t.buckets|)] == t.symOffset + i
  {
    var first := FirstOf(bs, bs[j], |s|);
    assert t.buckets[bs[j]] == BucketWord(s, first);
    i := first.value;
  }

  lemma LookupComplete(s: seq<SymbolData>, bs: seq<nat>, t: Section, names: seq<ResolveInfo>, hash: Hasher, j: nat)
    requires IsTable(s, bs, t.buckets, t.values) && NonDecreasing(bs) && Describes(s, t, names, hash) &&
      Loadable(t, names)
    requires |t.buckets| > 0 && bs == BucketsOf(s, |t.buckets|) && IsFilter(s, t.is64, t.shift2, t.masks)
    requires t.symOffset > 0 && j < |s|
    ensures Lookup(t, names, hash, s[j].r.name).Some?
  {
    FilterAccepts(s, t.is64, t.shift2, t.masks, j);
    var i := BucketLeads(s, bs, t, names, hash, j);
    ChainFindComplete(s, bs, t, names, hash, i, j);
  }

  lemma LookupCompleteAt(s: seq<SymbolData>, bs: seq<nat>, t: Section, names: seq<ResolveInfo>, hash: Hasher, k: nat)
    requires IsTable(s, bs, t.buckets, t.values) && NonDecreasing(bs) && Describes(s, t, names, hash) &&
      Loadable(t, names)
    requires |t.buckets| > 0 && bs == BucketsOf(s, |t.buckets|) && IsFilter(s, t.is64, t.shift2, t.masks)
    requires 0 < t.symOffset <= k < |names|
    ensures Lookup(t, names, hash, names[k].name).Some?
  {
    var j := k - t.symOffset;
    assert names[t.symOffset + j] == s[j].r;
    LookupComplete(s, bs, t, names, hash, j);
  }

  /** Hash lookup agrees with the linear scan of the hashed symbols, as long as index 0 is not one of them. */
  lemma LookupRefinesScan(s: seq<SymbolData>, bs: seq<nat>, t: Section, names: seq<ResolveInfo>, hash: Hasher,
                          query: string)
    requires IsTable(s, bs, t.buckets, t.values) && NonDecreasing(bs) && Describes(s, t, names, hash)
    requires |t.buckets| > 0 && bs == BucketsOf(s, |t.buckets|)
    requires |t.masks| > 0 && IsFilter(s, t.is64, t.shift2, t.masks)
    requires t.symOffset > 0
    ensures Loadable(t, names)
    ensures var r := Lookup(t, names, hash, query);
      && (r.Some? <==> exists k :: t.symOffset <= k < |names| && names[k].name == query)
      && (r.Some? ==> t.symOffset <= r.value < |names| && names[r.value].name == query)
  {
    TableLoadable(s, bs, t, names, hash);
    LookupSound(t, names, hash, query);
    forall k | t.symOffset <= k < |names| && names[k].name == query
      ensures Lookup(t, names, hash, query).Some?
    {
      LookupCompleteAt(s, bs, t, names, hash, k);
    }
  }

  lemma OnceSelected(was: seq<ResolveInfo>, rs: seq<ResolveInfo>)
    requires Once(was) && multiset(rs) == multiset(Select(was, false))
    ensures Once(rs)
  {
    SelectSplits(was);
    forall x ensures multiset(rs)[x] <= 1 {
      assert multiset(was)[x] <= 1;
    }
  }

  // ---- the emitter ----------------------------------------------------------------------------

  /** A permutation with the undefined and shared symbols first, in their order, and each of the
      others knowing its index. */
  ghost predicate Placed(was: seq<ResolveInfo>, now: seq<ResolveInfo>, s: seq<SymbolData>, hash: Hasher) {
    && multiset(now) == multiset(was)
    && now == Select(was, true) + Infos(s)
    && |s| == |Select(was, false)|
    && (forall k | 0 <= k < |s| :: s[k].hash == hash(s[k].r.name) && s[k].dynSymIndex == |Select(was, true)| + k)
  }

  /** What sorting the symbols promises: they are placed, and the hashed ones are in bucket order. */
  ghost predicate Ordered(was: seq<ResolveInfo>, now: seq<ResolveInfo>, s: seq<SymbolData>, hash: Hasher) {
    && Placed(was, now, s, hash)
    && (s != [] ==> CalcNBuckets(|s|) > 0 && NonDecreasing(BucketsOf(s, CalcNBuckets(|s|))))
  }

  /** Assigning indices changes neither the symbols nor their buckets. */
  lemma SameOrder(s: seq<SymbolData>, t: seq<SymbolData>, n: nat)
    requires n > 0 && |s| == |t|
    requires forall k | 0 <= k < |s| :: t[k].r == s[k].r && t[k].hash == s[k].hash
    ensures Infos(t) == Infos(s) && BucketsOf(t, n) == BucketsOf(s, n)
  {
  }

  lemma Permuted(was: seq<ResolveInfo>, rs: seq<ResolveInfo>)
    requires multiset(rs) == multiset(Select(was, false))
    ensures multiset(Select(was, true) + rs) == multiset(was)
    ensures |Select(was, true)| + |Select(was, false)| == |was|
  {
    SelectSplits(was);
  }

  lemma HashedSymbol(was: seq<ResolveInfo>, s: seq<SymbolData>, x: ResolveInfo)
    requires multiset(Select(was, true) + Infos(s)) == multiset(was)
    ensures x in Infos(s) <==> x in was && !Unhashed(x)
  {
    SelectSplits(was);
    var a, b := Select(was, true), Infos(s);
    assert multiset(a + b)[x] == multiset(a)[x] + multiset(b)[x];
    assert multiset(was)[x] == multiset(a)[x] + multiset(Select(was, false))[x];
    assert x in b <==> multiset(b)[x] > 0;
    assert x in was <==> multiset(was)[x] > 0;
  }

  lemma OrderedDescribes(was: seq<ResolveInfo>, s: seq<SymbolData>, t: Section, names: seq<ResolveInfo>, hash: Hasher)
    requires Placed(was, names, s, hash) && t.symOffset == |names| - |s|
    ensures Describes(s, t, names, hash)
  {
    forall k | 0 <= k < |s| ensures names[t.symOffset + k] == s[k].r {
      assert names[t.symOffset + k] == Infos(s)[k];
    }
  }

  lemma TailHolds(was: seq<ResolveInfo>, s: seq<SymbolData>, names: seq<ResolveInfo>, hash: Hasher, x: ResolveInfo)
    returns (k: nat)
    requires Placed(was, names, s, hash) && x in was && !x.isDyn && !x.isUndef
    ensures |names| - |s| <= k < |names| && names[k] == x
  {
    HashedSymbol(was, s, x);
    var j :| 0 <= j < |s| && Infos(s)[j] == x;
    k := |Select(was, true)| + j;
    assert (Select(was, true) + Infos(s))[k] == Infos(s)[j];
  }

  lemma TailDefined(was: seq<ResolveInfo>, s: seq<SymbolData>, names: seq<ResolveInfo>, hash: Hasher, k: nat)
    requires Placed(was, names, s, hash) && |names| - |s| <= k < |names|
    ensures names[k] in was && !names[k].isDyn && !names[k].isUndef
  {
    assert names[k] == Infos(s)[k - |Select(was, true)|];
    HashedSymbol(was, s, names[k]);
  }

  /** The tail of the ordered symbols holds a name iff some defined, unshared symbol has it. */
  lemma TailNames(was: seq<ResolveInfo>, s: seq<SymbolData>, names: seq<ResolveInfo>, hash: Hasher, query: string)
    requires Placed(was, names, s, hash)
    ensures (exists k :: |names| - |s| <= k < |names| && names[k].name == query)
       <==> exists x :: x in was && !x.isDyn && !x.isUndef && x.name == query
  {
    if x :| x in was && !x.isDyn && !x.isUndef && x.name == query {
      var k := TailHolds(was, s, names, hash, x);
    }
    if k :| |names| - |s| <= k < |names| && names[k].name == query {
      TailDefined(was, s, names, hash, k);
    }
  }

  /** From the unsorted symbols to the loader: a name is found iff some defined, unshared symbol has it. */
  lemma LookupFindsDefined(was: seq<ResolveInfo>, s: seq<SymbolData>, t: Section, names: seq<ResolveInfo>, hash: Hasher,
                           query: string)
    requires Ordered(was, names, s, hash) && s != [] && t.symOffset == |names| - |s| > 0
    requires |t.buckets| == CalcNBuckets(|s|) > 0 && IsTable(s, BucketsOf(s, |t.buckets|), t.buckets, t.values)
    requires |t.masks| > 0 && IsFilter(s, t.is64, t.shift2, t.masks)
    ensures Loadable(t, names)
    ensures Lookup(t, names, hash, query).Some? <==>
      exists x :: x in was && !x.isDyn && !x.isUndef && x.name == query
  {
    OrderedDescribes(was, s, t, names, hash);
    LookupRefinesScan(s, BucketsOf(s, |t.buckets|), t, names, hash, query);
    TailNames(was, s, names, hash, query);
  }

  /** Without an unhashed symbol in front, index 0 is taken for an empty bucket and its symbol is lost. */
  lemma LookupMissesIndexZero(s: seq<SymbolData>, bs: seq<nat>, t: Section, names: seq<ResolveInfo>, hash: Hasher)
    requires IsTable(s, bs, t.buckets, t.values) && Describes(s, t, names, hash) && Loadable(t, names)
    requires |t.buckets| > 0 && bs == BucketsOf(s, |t.buckets|) && s != [] && t.symOffset == 0
    ensures Lookup(t, names, hash, names[0].name).None?
  {
    assert names[t.symOffset + 0] == s[0].r;
    assert t.buckets[bs[0]] == BucketWord(s, FirstOf(bs, bs[0], |s|));
  }

  /** So every defined, unshared symbol is found exactly when some symbol is not hashed, which then takes
      index 0. */
  lemma AllFoundIff(was: seq<ResolveInfo>, s: seq<SymbolData>, t: Section, names: seq<ResolveInfo>, hash: Hasher)
    requires Ordered(was, names, s, hash) && s != [] && t.symOffset == |names| - |s|
    requires |t.buckets| == CalcNBuckets(|s|) > 0 && IsTable(s, BucketsOf(s, |t.buckets|), t.buckets, t.values)
    requires |t.masks| > 0 && IsFilter(s, t.is64, t.shift2, t.masks)
    ensures Loadable(t, names)
    ensures (forall x | x in was && !x.isDyn && !x.isUndef :: Lookup(t, names, hash, x.name).Some?)
       <==> exists x :: x in was && (x.isDyn || x.isUndef)
  {
    OrderedDescribes(was, s, t, names, hash);
    TableLoadable(s, BucketsOf(s, |t.buckets|), t, names, hash);
    UnhashedInFront(was);
    if t.symOffset > 0 {
      forall x | x in was && !x.isDyn && !x.isUndef ensures Lookup(t, names, hash, x.name).Some? {
        LookupFindsDefined(was, s, t, names, hash, x.name);
      }
    } else {
      LookupMissesIndexZero(s, BucketsOf(s, |t.buckets|), t, names, hash);
      TailDefined(was, s, names, hash, 0);
    }
  }

  lemma UnhashedInFront(was: seq<ResolveInfo>)
    ensures Select(was, true) != [] <==> exists x :: x in was && (x.isDyn || x.isUndef)
  {
    var idx := SelectPicks(was, true);
    if x :| x in was && (x.isDyn || x.isUndef) {
      var i :| 0 <= i < |was| && was[i] == x;
      assert i in idx;
    }
    if idx != [] {
      assert PickedAt(was, Select(was, true), idx, 0) && idx[0] in idx;
    }
  }

  lemma OrderedSizes(was: seq<ResolveInfo>, now: seq<ResolveInfo>, s: seq<SymbolData>, hash: Hasher)
    requires Ordered(was, now, s, hash)
    ensures multiset(now) == multiset(was) && |s| <= |now|
    ensures s != [] ==> CalcNBuckets(|s|) > 0 && NonDecreasing(BucketsOf(s, CalcNBuckets(|s|)))
  {
  }

  lemma ReadSection(was: seq<ResolveInfo>, s: seq<SymbolData>, t: Section, names: seq<ResolveInfo>, hash: Hasher)
    requires Ordered(was, names, s, hash) && t.symOffset == |names| - |s|
    requires |t.buckets| == CalcNBuckets(|s|) && |t.masks| > 0 && |t.values| == |s|
    requires s == [] ==> t.buckets == []
    requires s != [] ==> |t.buckets| > 0 && IsFilter(s, t.is64, t.shift2, t.masks)
    requires s != [] ==> IsTable(s, BucketsOf(s, |t.buckets|), t.buckets, t.values)
    ensures Loadable(t, names)
    ensures (exists x :: x in was && (x.isDyn || x.isUndef)) ==> forall query ::
      Lookup(t, names, hash, query).Some? <==> exists x :: x in was && !x.isDyn && !x.isUndef && x.name == query
    ensures forall query :: var found := Lookup(t, names, hash, query);
      found.Some? ==> t.symOffset <= found.value < |names| && names[found.value].name == query
  {
    OrderedDescribes(was, s, t, names, hash);
    UnhashedInFront(was);
    if s != [] {
      TableLoadable(s, BucketsOf(s, |t.buckets|), t, names, hash);
    }
    forall query ensures var found := Lookup(t, names, hash, query);
      found.Some? ==> t.symOffset <= found.value < |names| && names[found.value].name == query
    {
      LookupSound(t, names, hash, query);
    }
    if exists x :: x in was && (x.isDyn || x.isUndef) {
      forall query ensures Lookup(t, names, hash, query).Some? <==>
        exists x :: x in was && !x.isDyn && !x.isUndef && x.name == query
      {
        if s != [] {
          LookupFindsDefined(was, s, t, names, hash, query);
        } else {
          TailNames(was, s, names, hash, query);
        }
      }
    }
  }

  /** s holds the symbols from lo up to hi, with their hashes. */
  ghost predicate CollectedTo(s: seq<SymbolData>, names: seq<ResolveInfo>, lo: nat, hi: nat, hash: Hasher) {
    lo <= hi <= |names| && Infos(s) == names[lo..hi] && forall k | 0 <= k < |s| :: s[k].hash == hash(s[k].r.name)
  }

  lemma CollectNext(s: seq<SymbolData>, names: seq<ResolveInfo>, lo: nat, hi: nat, hash: Hasher)
    requires CollectedTo(s, names, lo, hi, hash) && hi < |names| < 0x1_0000_0000
    ensures CollectedTo(s + [SymbolData(names[hi], hi, hash(names[hi].name))], names, lo, hi + 1, hash)
  {
    InfosSnoc(s, SymbolData(names[hi], hi, hash(names[hi].name)));
  }

  /** Each bucket holds the index of the first of the first n symbols in it. */
  ghost predicate BucketsTo(s: seq<SymbolData>, bs: seq<nat>, buckets: seq<word>, n: nat)
    requires n <= |s| == |bs|
  {
    forall b {:trigger buckets[b]} | 0 <= b < |buckets| :: buckets[b] == BucketWord(s, FirstOf(bs, b, n))
  }

  /** The values of the first n symbols, those odd behind which another bucket starts. */
  ghost predicate ValuesTo(s: seq<SymbolData>, bs: seq<nat>, values: seq<word>, n: nat)
    requires n <= |s| == |bs| == |values|
  {
    forall k {:trigger values[k]} | 0 <= k < n :: values[k] == ValueWord(s[k].hash, k + 1 < n && bs[k + 1] != bs[k])
  }

  lemma BucketsNext(s: seq<SymbolData>, bs: seq<nat>, was: seq<word>, now: seq<word>, i: nat)
    requires i < |s| == |bs| && bs[i] < |was| && BucketsTo(s, bs, was, i)
    requires now == if FirstOf(bs, bs[i], i).None? then was[bs[i] := s[i].dynSymIndex] else was
    ensures BucketsTo(s, bs, now, i + 1)
  {
  }

  lemma ValuesNext(s: seq<SymbolData>, bs: seq<nat>, was: seq<word>, now: seq<word>, i: nat)
    requires i < |s| == |bs| == |was| && ValuesTo(s, bs, was, i)
    requires now ==
      (if i > 0 && bs[i - 1] != bs[i] then was[i - 1 := SetLowBit(was[i - 1])] else was)
      [i := ValueWord(s[i].hash, false)]
    ensures ValuesTo(s, bs, now, i + 1)
  {
    if i > 0 {
      ChainEnd(s[i - 1].hash);
    }
  }

  class GNUHashFragment {
    const is64: bool
    var dynamicSymbols: seq<ResolveInfo>
    var symbols: seq<SymbolData>
    var nBuckets: nat
    var maskWords: nat
    var shift2: nat

    constructor (is64: bool, r: seq<ResolveInfo>, hash: Hasher)
      requires Once(r) && |r| < 0x1_0000_0000
      ensures this.is64 == is64 && Ordered(r, dynamicSymbols, symbols, hash)
    {
      this.is64 := is64;
      dynamicSymbols, symbols := r, [];
      nBuckets, maskWords, shift2 := 0, 0, 0;
      new;
      SortSymbols(hash);
    }

    function OffSize(): (r: nat)
      ensures r == 4 || r == 8
    {
      if is64 then 8 else 4
    }

    method SortSymbols(hash: Hasher)
      requires Once(dynamicSymbols) && |dynamicSymbols| < 0x1_0000_0000 && symbols == []
      modifies this
      ensures Ordered(old(dynamicSymbols), dynamicSymbols, symbols, hash)
    {
      ghost var was := dynamicSymbols;
      var unhashed, hashed := Select(dynamicSymbols, true), Select(dynamicSymbols, false);
      SelectSplits(was);
      dynamicSymbols := unhashed + hashed;
      if hashed == [] {
        return;
      }
      SortHashed(|unhashed|, was, hash);
    }

    /** Orders the symbols from mid on, those behind the partition point. */
    method SortHashed(mid: nat, ghost was: seq<ResolveInfo>, hash: Hasher)
      requires Once(was) && |was| < 0x1_0000_0000 && symbols == [] && Select(was, false) != []
      requires dynamicSymbols == Select(was, true) + Select(was, false) && mid == |Select(was, true)|
      modifies this
      ensures Ordered(was, dynamicSymbols, symbols, hash)
    {
      SelectSplits(was);
      CollectSorted(mid, hash);
      assert dynamicSymbols[mid..] == Select(was, false);
      dynamicSymbols := dynamicSymbols[..mid];
      assert dynamicSymbols == Select(was, true);
      AppendSorted(was, hash);
    }

    method AppendSorted(ghost was: seq<ResolveInfo>, hash: Hasher)
      requires Once(was) && |was| < 0x1_0000_0000 && dynamicSymbols == Select(was, true)
      requires multiset(Infos(symbols)) == multiset(Select(was, false)) && |symbols| == |Select(was, false)|
      requires CalcNBuckets(|symbols|) > 0 && NonDecreasing(BucketsOf(symbols, CalcNBuckets(|symbols|)))
      requires forall k | 0 <= k < |symbols| :: symbols[k].hash == hash(symbols[k].r.name)
      modifies this`dynamicSymbols, this`symbols
      ensures Ordered(was, dynamicSymbols, symbols, hash)
    {
      ghost var sorted := symbols;
      OnceSelected(was, Infos(sorted));
      Permuted(was, Infos(sorted));
      AssignIndices();
      SameOrder(sorted, symbols, CalcNBuckets(|symbols|));
    }

    method CollectSorted(mid: nat, hash: Hasher)
      requires mid < |dynamicSymbols| < 0x1_0000_0000 && symbols == []
      modifies this`symbols
      ensures multiset(Infos(symbols)) == multiset(dynamicSymbols[mid..]) && |symbols| == |dynamicSymbols| - mid
      ensures CalcNBuckets(|symbols|) > 0 && NonDecreasing(BucketsOf(symbols, CalcNBuckets(|symbols|)))
      ensures forall k | 0 <= k < |symbols| :: symbols[k].hash == hash(symbols[k].r.name)
    {
      CollectSymbols(mid, hash);
      assert |Infos(symbols)| == |symbols| && dynamicSymbols[mid..|dynamicSymbols|] == dynamicSymbols[mid..];
      NBucketsBounds(|symbols|);
      SortByBucket(CalcNBuckets(|symbols|), hash);
    }

    method SortByBucket(n: nat, hash: Hasher)
      requires n > 0 && forall k | 0 <= k < |symbols| :: symbols[k].hash == hash(symbols[k].r.name)
      modifies this`symbols
      ensures |symbols| == old(|symbols|) && NonDecreasing(BucketsOf(symbols, n))
      ensures multiset(Infos(symbols)) == multiset(old(Infos(symbols)))
      ensures forall k | 0 <= k < |symbols| :: symbols[k].hash == hash(symbols[k].r.name)
    {
      ghost var was := symbols;
      symbols := StableSort(symbols, BucketKey(n));
      StableSortSorts(was, BucketKey(n));
      SortInfos(was, BucketKey(n));
      forall k | 0 <= k < |symbols| ensures symbols[k].hash == hash(symbols[k].r.name) {
        assert symbols[k] in multiset(was);
      }
      forall i, j | 0 <= i < j < |symbols| ensures BucketsOf(symbols, n)[i] <= BucketsOf(symbols, n)[j] {
        assert BucketKey(n)(symbols[i]) <= BucketKey(n)(symbols[j]);
      }
    }

    method CollectSymbols(mid: nat, hash: Hasher)
      requires mid <= |dynamicSymbols| < 0x1_0000_0000 && symbols == []
      modifies this`symbols
      ensures CollectedTo(symbols, dynamicSymbols, mid, |dynamicSymbols|, hash)
    {
      for i := mid to |dynamicSymbols|
        invariant CollectedTo(symbols, dynamicSymbols, mid, i, hash)
      {
        CollectNext(symbols, dynamicSymbols, mid, i, hash);
        symbols := symbols + [SymbolData(dynamicSymbols[i], i, hash(dynamicSymbols[i].name))];
      }
    }

    /** Appends the sorted symbols to the dynamic symbols and gives each its position there. */
    method AssignIndices()
      requires |dynamicSymbols| + |symbols| < 0x1_0000_0000 && Once(Infos(symbols))
      modifies this`dynamicSymbols, this`symbols
      ensures dynamicSymbols == old(dynamicSymbols) + Infos(old(symbols))
      ensures |symbols| == |old(symbols)|
      ensures forall k | 0 <= k < |symbols| :: symbols[k] == old(symbols)[k].(dynSymIndex := |old(dynamicSymbols)| + k)
    {
      forall i, j | 0 <= i < j < |symbols| ensures symbols[i].r != symbols[j].r {
        OnceDistinct(Infos(symbols), i, j);
      }
      ghost var was, sorted := dynamicSymbols, symbols;
      var count := |dynamicSymbols|;
      var dynSymToIndex: map<ResolveInfo, nat> := map[];
      for i := 0 to |symbols|
        invariant symbols == sorted
        invariant dynamicSymbols == was + Infos(sorted)[..i] && count == |was| + i
        invariant forall k | 0 <= k < i :: symbols[k].r in dynSymToIndex && dynSymToIndex[symbols[k].r] == |was| + k
      {
        dynSymToIndex := dynSymToIndex[symbols[i].r := count];
        count := count + 1;
        dynamicSymbols := dynamicSymbols + [symbols[i].r];
      }
      assert Infos(sorted)[..|sorted|] == Infos(sorted);
      for i := 0 to |symbols|
        invariant dynamicSymbols == was + Infos(sorted) && |symbols| == |sorted|
        invariant forall k | 0 <= k < i :: symbols[k] == sorted[k].(dynSymIndex := |was| + k)
        invariant forall k | i <= k < |symbols| :: symbols[k] == sorted[k]
      {
        symbols := symbols[i := symbols[i].(dynSymIndex := dynSymToIndex[symbols[i].r])];
      }
    }

    /** Sizes the section; the words written by Emit fill exactly this many bytes. */
    method Size() returns (bytes: nat)
      modifies this`nBuckets, this`maskWords, this`shift2
      ensures Sized()
      ensures bytes == 4 * 4 + OffSize() * maskWords + 4 * nBuckets + 4 * |symbols|
    {
      nBuckets := CalcNBuckets(|symbols|);
      maskWords := CalcMaskWords(|symbols|, OffSize());
      shift2 := if is64 then 6 else 5;
      var _ := MaskWordsBounds(|symbols|, OffSize());
      return 4 * 4 + OffSize() * maskWords + 4 * nBuckets + 4 * |symbols|;
    }

    ghost predicate Sized()
      reads this
    {
      && nBuckets == CalcNBuckets(|symbols|)
      && maskWords == CalcMaskWords(|symbols|, OffSize()) > 0
      && shift2 == if is64 then 6 else 5
    }

    method WriteBloomFilter(masks: array<set<nat>>)
      requires Sized() && masks.Length == maskWords
      requires forall p | 0 <= p < masks.Length :: masks[p] == {}
      modifies masks
      ensures IsFilter(symbols, is64, shift2, masks[..])
    {
      for i := 0 to |symbols|
        invariant IsFilterOf(symbols, is64, shift2, masks[..], i)
      {
        ghost var was := masks[..];
        var pos := MaskPos(symbols[i].hash, is64, maskWords);
        masks[pos] := masks[pos] + MaskBits(symbols[i].hash, is64, shift2);
        FilterNext(symbols, is64, shift2, was, masks[..], i);
      }
    }

    /** One more symbol: its value, and, if it opens a bucket, that bucket and the end of the chain before it. */
    method WriteSymbol(i: nat, prevBucket: int, buckets: array<word>, values: array<word>, ghost bs: seq<nat>)
      returns (bucket: nat)
      requires nBuckets > 0 && bs == BucketsOf(symbols, nBuckets) && Grouped(bs) && i < |symbols|
      requires buckets.Length == nBuckets && values.Length == |symbols| && buckets != values
      requires prevBucket == if i == 0 then -1 else bs[i - 1]
      requires BucketsTo(symbols, bs, buckets[..], i) && ValuesTo(symbols, bs, values[..], i)
      modifies buckets, values
      ensures bucket == bs[i] && BucketsTo(symbols, bs, buckets[..], i + 1) && ValuesTo(symbols, bs, values[..], i + 1)
    {
      ghost var wasBuckets, wasValues := buckets[..], values[..];
      bucket := Remainder(symbols[i].hash, nBuckets);
      assert bucket == bs[i];
      assert FirstOf(bs, bs[i], i).None? <==> i == 0 || bs[i - 1] != bs[i];
      if bucket != prevBucket {
        buckets[bucket] := symbols[i].dynSymIndex;
        if i > 0 {
          values[i - 1] := SetLowBit(values[i - 1]);
        }
      }
      values[i] := ValueWord(symbols[i].hash, false);
      BucketsNext(symbols, bs, wasBuckets, buckets[..], i);
      ValuesNext(symbols, bs, wasValues, values[..], i);
    }

    method WriteChains(buckets: array<word>, values: array<word>, ghost bs: seq<nat>)
      requires Sized() && nBuckets > 0 && bs == BucketsOf(symbols, nBuckets) && Grouped(bs)
      requires buckets.Length == nBuckets && values.Length == |symbols| && buckets != values
      requires forall b | 0 <= b < buckets.Length :: buckets[b] == 0
      modifies buckets, values
      ensures BucketsTo(symbols, bs, buckets[..], |symbols|) && ValuesTo(symbols, bs, values[..], |symbols|)
    {
      var prevBucket: int := -1;
      for i := 0 to |symbols|
        invariant prevBucket == if i == 0 then -1 else bs[i - 1]
        invariant BucketsTo(symbols, bs, buckets[..], i) && ValuesTo(symbols, bs, values[..], i)
      {
        prevBucket := WriteSymbol(i, prevBucket, buckets, values, bs);
      }
    }

    method WriteHashTable(buckets: array<word>, values: array<word>, ghost bs: seq<nat>)
      requires Sized() && symbols != [] && nBuckets > 0
      requires bs == BucketsOf(symbols, nBuckets) && NonDecreasing(bs)
      requires buckets.Length == nBuckets && values.Length == |symbols| && buckets != values
      requires forall b | 0 <= b < buckets.Length :: buckets[b] == 0
      modifies buckets, values
      ensures IsTable(symbols, bs, buckets[..], values[..])
    {
      OrderedGrouped(bs);
      WriteChains(buckets, values, bs);
      ChainEnd(symbols[|symbols| - 1].hash);
      values[|symbols| - 1] := SetLowBit(values[|symbols| - 1]);
    }

    /** Fills zeroed windows of the sizes Size() adds up. */
    method Emit(header: array<nat>, masks: array<set<nat>>, buckets: array<word>, values: array<word>)
      requires Sized() && |symbols| <= |dynamicSymbols|
      requires symbols != [] ==> nBuckets > 0 && NonDecreasing(BucketsOf(symbols, nBuckets))
      requires header.Length == 4 && masks.Length == maskWords && buckets.Length == nBuckets &&
        values.Length == |symbols|
      requires buckets != values
      requires (forall p | 0 <= p < masks.Length :: masks[p] == {}) &&
        (forall b | 0 <= b < buckets.Length :: buckets[b] == 0)
      modifies header, masks, buckets, values
      ensures header[..] == [nBuckets, |dynamicSymbols| - |symbols|, maskWords, shift2]
      ensures symbols != [] ==> IsFilter(symbols, is64, shift2, masks[..])
      ensures symbols != [] ==> IsTable(symbols, BucketsOf(symbols, nBuckets), buckets[..], values[..])
    {
      header[0], header[1], header[2], header[3] := nBuckets, |dynamicSymbols| - |symbols|, maskWords, shift2;
      if symbols == [] {
        return;
      }
      WriteBloomFilter(masks);
      WriteHashTable(buckets, values, BucketsOf(symbols, nBuckets));
    }
  }

  /** From the dynamic symbols to the loader: what is read back from the windows, each header word in its
      role, finds exactly the names of the symbols that are neither shared nor undefined, if some symbol is. */
  method LinkGnuHash(r: seq<ResolveInfo>, hash: Hasher, is64: bool) returns (t: Section, names: seq<ResolveInfo>)
    requires Once(r) && |r| < 0x1_0000_0000
    ensures multiset(names) == multiset(r) && Loadable(t, names) && t.is64 == is64
    ensures (exists x :: x in r && (x.isDyn || x.isUndef)) ==> forall query ::
      Lookup(t, names, hash, query).Some? <==> exists x :: x in r && !x.isDyn && !x.isUndef && x.name == query
    ensures forall query :: var found := Lookup(t, names, hash, query);
      found.Some? ==> t.symOffset <= found.value < |names| && names[found.value].name == query
  {
    var frag := new GNUHashFragment(is64, r, hash);
    OrderedSizes(r, frag.dynamicSymbols, frag.symbols, hash);
    names := frag.dynamicSymbols;
    t := EmitWindows(frag);
    ReadSection(r, frag.symbols, t, names, hash);
  }

  /** Emits into zeroed windows; what a reader of the header takes for the section. */
  method EmitWindows(frag: GNUHashFragment) returns (t: Section)
    requires |frag.symbols| <= |frag.dynamicSymbols|
    requires frag.symbols != [] ==>
      CalcNBuckets(|frag.symbols|) > 0 && NonDecreasing(BucketsOf(frag.symbols, CalcNBuckets(|frag.symbols|)))
    modifies frag`nBuckets, frag`maskWords, frag`shift2
    ensures t.is64 == frag.is64 && t.symOffset == |frag.dynamicSymbols| - |frag.symbols|
    ensures |t.buckets| == CalcNBuckets(|frag.symbols|) && |t.masks| > 0 && |t.values| == |frag.symbols|
    ensures frag.symbols != [] ==> |t.buckets| > 0 && IsFilter(frag.symbols, t.is64, t.shift2, t.masks)
    ensures frag.symbols != [] ==> IsTable(frag.symbols, BucketsOf(frag.symbols, |t.buckets|), t.buckets, t.values)
  {
    var _ := frag.Size();
    var header, masks := new nat[4], new set<nat>[frag.maskWords](_ => {});
    var buckets, values := new word[frag.nBuckets](_ => 0), new word[|frag.symbols|](_ => 0);
    frag.Emit(header, masks, buckets, values);
    t := Section(header[1], header[3], frag.is64, masks[..], buckets[..], values[..]);
  }
}
