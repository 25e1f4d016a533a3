/** The table of needed versions: one record for each library, each with a list of the versions needed
    from it, threaded by byte distances that a loader follows. */
module VersionNeeds {
  import opened Wrappers
  import opened Words
  import opened Sums
  import opened Buffers
  import opened DynStr
  import opened VersionRecords

  const NEED_SIZE := 16
  const AUX_SIZE := 16

  datatype VernAuxInfo = VernAuxInfo(nameOffset: word, id: half, hash: word)
  datatype VerNeedInfo = VerNeedInfo(soNameOffset: word, auxs: seq<VernAuxInfo>)

  /** The records as stored. */
  datatype Verneed = Verneed(version: half, cnt: half, file: word, aux: word, next: word)
  datatype Vernaux = Vernaux(hash: word, flags: half, other: half, name: word, next: word)

  function NeedBytes(r: Verneed): (s: seq<byte>)
    ensures |s| == NEED_SIZE
  {
    LittleEndian(r.version, 2) + LittleEndian(r.cnt, 2) + LittleEndian(r.file, 4) + LittleEndian(r.aux, 4) +
      LittleEndian(r.next, 4)
  }

  function AuxBytes(r: Vernaux): (s: seq<byte>)
    ensures |s| == AUX_SIZE
  {
    LittleEndian(r.hash, 4) + LittleEndian(r.flags, 2) + LittleEndian(r.other, 2) + LittleEndian(r.name, 4) +
      LittleEndian(r.next, 4)
  }

  /** How many versions each library needs. */
  function Counts(list: seq<VerNeedInfo>): (r: seq<nat>)
    ensures |r| == |list|
  {
    seq(|list|, i requires 0 <= i < |list| => |list[i].auxs|)
  }

  /** Where the versions of library i start; they lie behind all libraries. */
  function AuxStart(list: seq<VerNeedInfo>, i: nat): nat
    requires i <= |list|
  {
    NEED_SIZE * |list| + AUX_SIZE * Before(Counts(list), i)
  }

  function NeedRecord(list: seq<VerNeedInfo>, i: nat): Verneed
    requires i < |list|
  {
    Verneed(1, Half(|list[i].auxs|), list[i].soNameOffset,
            Word(AuxStart(list, i) - NEED_SIZE * i), if i + 1 == |list| then 0 else NEED_SIZE)
  }

  function AuxRecord(info: VernAuxInfo, last: bool): Vernaux {
    Vernaux(info.hash, 0, info.id, info.nameOffset, if last then 0 else AUX_SIZE)
  }

  ghost predicate NeedHeld(t: seq<byte>, list: seq<VerNeedInfo>, i: nat)
    requires i < |list|
  {
    Holds(t, NEED_SIZE * i, NeedBytes(NeedRecord(list, i)))
  }

  ghost predicate AuxHeld(t: seq<byte>, infos: seq<VernAuxInfo>, at: nat, j: nat)
    requires j < |infos|
  {
    Holds(t, at + AUX_SIZE * j, AuxBytes(AuxRecord(infos[j], j + 1 == |infos|)))
  }

  ghost predicate AuxsAt(t: seq<byte>, infos: seq<VernAuxInfo>, at: nat) {
    forall j {:trigger AuxHeld(t, infos, at, j)} | 0 <= j < |infos| :: AuxHeld(t, infos, at, j)
  }

  ghost predicate GroupAt(t: seq<byte>, list: seq<VerNeedInfo>, i: nat)
    requires i < |list|
  {
    AuxsAt(t, list[i].auxs, AuxStart(list, i))
  }

  /** t is the section for the list. */
  ghost predicate IsTable(t: seq<byte>, list: seq<VerNeedInfo>) {
    && |t| == AuxStart(list, |list|)
    && (forall i {:trigger NeedHeld(t, list, i)} | 0 <= i < |list| :: NeedHeld(t, list, i))
    && (forall i {:trigger GroupAt(t, list, i)} | 0 <= i < |list| :: GroupAt(t, list, i))
  }

  /** Every library in the table needs a version. */
  ghost predicate NoneEmpty(list: seq<VerNeedInfo>) {
    forall i | 0 <= i < |list| :: list[i].auxs != []
  }

  // ---- emission -------------------------------------------------------------------------------

  method Size(list: seq<VerNeedInfo>) returns (bytes: nat)
    ensures bytes == AuxStart(list, |list|)
  {
    var auxBytes := 0;
    for i := 0 to |list|
      invariant auxBytes == AUX_SIZE * Before(Counts(list), i)
    {
      auxBytes := auxBytes + |list[i].auxs| * AUX_SIZE;
    }
    return |list| * NEED_SIZE + auxBytes;
  }

  /** Record j leads on, or else it is the last and leads nowhere. */
  ghost predicate AuxLinked(t: seq<byte>, infos: seq<VernAuxInfo>, at: nat, j: nat)
    requires j < |infos|
  {
    Holds(t, at + AUX_SIZE * j, AuxBytes(AuxRecord(infos[j], false)))
  }

  lemma AuxPatched(r: Vernaux)
    ensures Overwrite(AuxBytes(r), 12, LittleEndian(0, 4)) == AuxBytes(r.(next := 0))
  {
  }

  lemma NeedPatched(r: Verneed)
    ensures Overwrite(NeedBytes(r), 12, LittleEndian(0, 4)) == NeedBytes(r.(next := 0))
  {
  }

  method EmitAux(infos: seq<VernAuxInfo>, j: nat, out: array<byte>, at: nat)
    requires j < |infos| && at + AUX_SIZE * |infos| <= out.Length
    requires forall k {:trigger AuxLinked(out[..], infos, at, k)} | 0 <= k < j :: AuxLinked(out[..], infos, at, k)
    modifies out
    ensures forall k {:trigger AuxLinked(out[..], infos, at, k)} | 0 <= k < j + 1 :: AuxLinked(out[..], infos, at, k)
    ensures SameOutside(old(out[..]), out[..], at + AUX_SIZE * j, at + AUX_SIZE * (j + 1))
  {
    ghost var was := out[..];
    Write(out, at + AUX_SIZE * j, AuxBytes(Vernaux(infos[j].hash, 0, infos[j].id, infos[j].nameOffset, AUX_SIZE)));
    AuxWritten(was, out[..], infos, at, j);
  }

  lemma AuxWritten(was: seq<byte>, now: seq<byte>, infos: seq<VernAuxInfo>, at: nat, j: nat)
    requires j < |infos| && at + AUX_SIZE * |infos| <= |was|
    requires forall k {:trigger AuxLinked(was, infos, at, k)} | 0 <= k < j :: AuxLinked(was, infos, at, k)
    requires now == Overwrite(was, at + AUX_SIZE * j, AuxBytes(AuxRecord(infos[j], false)))
    ensures forall k {:trigger AuxLinked(now, infos, at, k)} | 0 <= k < j + 1 :: AuxLinked(now, infos, at, k)
    ensures SameOutside(was, now, at + AUX_SIZE * j, at + AUX_SIZE * (j + 1))
  {
    OverwriteHolds(was, at + AUX_SIZE * j, AuxBytes(AuxRecord(infos[j], false)));
    forall k | 0 <= k < j ensures AuxLinked(now, infos, at, k) {
      assert AuxLinked(was, infos, at, k);
      HoldsApart(was, now, at + AUX_SIZE * j, at + AUX_SIZE * (j + 1), at + AUX_SIZE * k,
                 AuxBytes(AuxRecord(infos[k], false)));
    }
  }

  lemma LastUnlinked(was: seq<byte>, now: seq<byte>, infos: seq<VernAuxInfo>, at: nat)
    requires infos != [] && at + AUX_SIZE * |infos| <= |was|
    requires forall k {:trigger AuxLinked(was, infos, at, k)} | 0 <= k < |infos| :: AuxLinked(was, infos, at, k)
    requires now == Overwrite(was, at + AUX_SIZE * (|infos| - 1) + 12, LittleEndian(0, 4))
    ensures AuxsAt(now, infos, at)
  {
    var last := at + AUX_SIZE * (|infos| - 1);
    OverwriteHolds(was, last + 12, LittleEndian(0, 4));
    forall k | 0 <= k < |infos| ensures AuxHeld(now, infos, at, k) {
      assert AuxLinked(was, infos, at, k);
      var r := AuxRecord(infos[k], false);
      if k + 1 == |infos| {
        HoldsPatched(was, last, AuxBytes(r), 12, LittleEndian(0, 4));
        AuxPatched(r);
      } else {
        HoldsApart(was, now, last + 12, last + 16, at + AUX_SIZE * k, AuxBytes(r));
      }
    }
  }

  /** One library's versions, each leading on to the next; the last link is taken back at the end. */
  method EmitAuxs(infos: seq<VernAuxInfo>, out: array<byte>, at: nat)
    requires infos != [] && at + AUX_SIZE * |infos| <= out.Length
    modifies out
    ensures AuxsAt(out[..], infos, at)
    ensures SameOutside(old(out[..]), out[..], at, at + AUX_SIZE * |infos|)
  {
    for j := 0 to |infos|
      invariant forall k {:trigger AuxLinked(out[..], infos, at, k)} | 0 <= k < j :: AuxLinked(out[..], infos, at, k)
      invariant SameOutside(old(out[..]), out[..], at, at + AUX_SIZE * |infos|)
    {
      EmitAux(infos, j, out, at);
    }
    ghost var was := out[..];
    var last := at + AUX_SIZE * (|infos| - 1);
    Write(out, last + 12, LittleEndian(0, 4));
    LastUnlinked(was, out[..], infos, at);
    OverwriteHolds(was, last + 12, LittleEndian(0, 4));
  }

  ghost predicate NeedLinked(t: seq<byte>, list: seq<VerNeedInfo>, i: nat)
    requires i < |list|
  {
    Holds(t, NEED_SIZE * i, NeedBytes(NeedRecord(list, i).(next := NEED_SIZE)))
  }

  /** The first n libraries and their versions are written; every library still leads on to the next. */
  ghost predicate Written(t: seq<byte>, list: seq<VerNeedInfo>, n: nat)
    requires n <= |list|
  {
    && |t| == AuxStart(list, |list|)
    && (forall i {:trigger NeedLinked(t, list, i)} | 0 <= i < n :: NeedLinked(t, list, i))
    && (forall i {:trigger GroupAt(t, list, i)} | 0 <= i < n :: GroupAt(t, list, i))
  }

  /** The versions of library i end where those of the next start. */
  lemma GroupEnds(list: seq<VerNeedInfo>, i: nat, j: nat)
    requires i < j <= |list|
    ensures NEED_SIZE * |list| <= AuxStart(list, i) &&
      AuxStart(list, i) + AUX_SIZE * |list[i].auxs| == AuxStart(list, i + 1) <= AuxStart(list, j)
  {
    BeforeMonotone(Counts(list), i + 1, j);
  }

  lemma GroupStays(was: seq<byte>, now: seq<byte>, list: seq<VerNeedInfo>, i: nat, lo: nat, hi: nat)
    requires i < |list| && GroupAt(was, list, i) && SameOutside(was, now, lo, hi)
    requires AuxStart(list, i + 1) <= lo || hi <= AuxStart(list, i)
    ensures GroupAt(now, list, i)
  {
    GroupEnds(list, i, i + 1);
    var infos, at := list[i].auxs, AuxStart(list, i);
    forall j | 0 <= j < |infos| ensures AuxHeld(now, infos, at, j) {
      assert AuxHeld(was, infos, at, j);
      HoldsApart(was, now, lo, hi, at + AUX_SIZE * j, AuxBytes(AuxRecord(infos[j], j + 1 == |infos|)));
    }
  }

  lemma NeedStays(was: seq<byte>, now: seq<byte>, list: seq<VerNeedInfo>, i: nat, lo: nat, hi: nat)
    requires i < |list| && NeedLinked(was, list, i) && SameOutside(was, now, lo, hi)
    requires NEED_SIZE * (i + 1) <= lo || hi <= NEED_SIZE * i
    ensures NeedLinked(now, list, i)
  {
    HoldsApart(was, now, lo, hi, NEED_SIZE * i, NeedBytes(NeedRecord(list, i).(next := NEED_SIZE)));
  }

  /** Writing the next library's record disturbs nothing written. */
  lemma HeadWritten(was: seq<byte>, now: seq<byte>, list: seq<VerNeedInfo>, n: nat)
    requires n < |list| && Written(was, list, n)
    requires now == Overwrite(was, NEED_SIZE * n, NeedBytes(NeedRecord(list, n).(next := NEED_SIZE)))
    ensures Written(now, list, n) && NeedLinked(now, list, n)
  {
    OverwriteHolds(was, NEED_SIZE * n, NeedBytes(NeedRecord(list, n).(next := NEED_SIZE)));
    forall i | 0 <= i < n ensures NeedLinked(now, list, i) {
      NeedStays(was, now, list, i, NEED_SIZE * n, NEED_SIZE * (n + 1));
    }
    forall i | 0 <= i < n ensures GroupAt(now, list, i) {
      GroupEnds(list, i, n);
      GroupStays(was, now, list, i, NEED_SIZE * n, NEED_SIZE * (n + 1));
    }
  }

  /** Nor does writing its versions. */
  lemma GroupWritten(was: seq<byte>, now: seq<byte>, list: seq<VerNeedInfo>, n: nat)
    requires n < |list| && Written(was, list, n) && NeedLinked(was, list, n)
    requires SameOutside(was, now, AuxStart(list, n), AuxStart(list, n + 1)) && GroupAt(now, list, n)
    ensures Written(now, list, n + 1)
  {
    GroupEnds(list, n, |list|);
    forall i | 0 <= i < n + 1 ensures NeedLinked(now, list, i) {
      NeedStays(was, now, list, i, AuxStart(list, n), AuxStart(list, n + 1));
    }
    forall i | 0 <= i < n + 1 ensures GroupAt(now, list, i) {
      if i < n {
        GroupEnds(list, i, n);
        GroupStays(was, now, list, i, AuxStart(list, n), AuxStart(list, n + 1));
      }
    }
  }

  method EmitNeed(list: seq<VerNeedInfo>, i: nat, out: array<byte>, aux: nat)
    requires i < |list| && list[i].auxs != [] && aux == AuxStart(list, i) && Written(out[..], list, i)
    modifies out
    ensures Written(out[..], list, i + 1)
  {
    ghost var was := out[..];
    GroupEnds(list, i, |list|);
    Write(out, NEED_SIZE * i,
          NeedBytes(Verneed(1, Half(|list[i].auxs|), list[i].soNameOffset, Word(aux - NEED_SIZE * i), NEED_SIZE)));
    HeadWritten(was, out[..], list, i);
    was := out[..];
    EmitAuxs(list[i].auxs, out, aux);
    GroupWritten(was, out[..], list, i);
  }

  lemma RecordPatched(was: seq<byte>, at: nat, r: Verneed)
    requires Holds(was, at, NeedBytes(r))
    ensures Holds(Overwrite(was, at + 12, LittleEndian(0, 4)), at, NeedBytes(r.(next := 0)))
  {
    HoldsPatched(was, at, NeedBytes(r), 12, LittleEndian(0, 4));
    NeedPatched(r);
  }

  lemma NeedUnlinked(was: seq<byte>, now: seq<byte>, list: seq<VerNeedInfo>, i: nat)
    requires i < |list| && NeedLinked(was, list, i) && NEED_SIZE * |list| <= |was|
    requires now == Overwrite(was, NEED_SIZE * (|list| - 1) + 12, LittleEndian(0, 4))
    ensures NeedHeld(now, list, i)
  {
    var last := NEED_SIZE * (|list| - 1);
    if i + 1 == |list| {
      RecordPatched(was, last, NeedRecord(list, i).(next := NEED_SIZE));
    } else {
      OverwriteHolds(was, last + 12, LittleEndian(0, 4));
      NeedStays(was, now, list, i, last + 12, last + 16);
    }
  }

  lemma GroupBehind(was: seq<byte>, now: seq<byte>, list: seq<VerNeedInfo>, i: nat)
    requires i < |list| && GroupAt(was, list, i) && NEED_SIZE * |list| <= |was|
    requires now == Overwrite(was, NEED_SIZE * (|list| - 1) + 12, LittleEndian(0, 4))
    ensures GroupAt(now, list, i)
  {
    var last := NEED_SIZE * (|list| - 1);
    OverwriteHolds(was, last + 12, LittleEndian(0, 4));
    GroupEnds(list, i, |list|);
    GroupStays(was, now, list, i, last + 12, last + 16);
  }

  lemma LastNeedUnlinked(was: seq<byte>, now: seq<byte>, list: seq<VerNeedInfo>)
    requires list != [] && Written(was, list, |list|)
    requires now == Overwrite(was, NEED_SIZE * (|list| - 1) + 12, LittleEndian(0, 4))
    ensures IsTable(now, list)
  {
    GroupEnds(list, 0, |list|);
    forall i | 0 <= i < |list| ensures NeedHeld(now, list, i) && GroupAt(now, list, i) {
      assert NeedLinked(was, list, i) && GroupAt(was, list, i);
      NeedUnlinked(was, now, list, i);
      GroupBehind(was, now, list, i);
    }
  }

  /** Writes the whole table, filling it exactly. An empty list would patch the bytes before the table. */
  method Emit(list: seq<VerNeedInfo>, out: array<byte>)
    requires list != [] && NoneEmpty(list) && out.Length == AuxStart(list, |list|)
    modifies out
    ensures IsTable(out[..], list)
  {
    var aux := NEED_SIZE * |list|;
    for i := 0 to |list|
      invariant aux == AuxStart(list, i) && Written(out[..], list, i)
    {
      EmitNeed(list, i, out, aux);
      aux := aux + AUX_SIZE * |list[i].auxs|;
    }
    ghost var was := out[..];
    Write(out, NEED_SIZE * (|list| - 1) + 12, LittleEndian(0, 4));
    LastNeedUnlinked(was, out[..], list);
  }

  // ---- the loader -----------------------------------------------------------------------------

  /** The record of a library at a byte position. */
  function NeedAt(t: seq<byte>, at: nat): Option<Verneed> {
    if at + NEED_SIZE > |t| then None else
      Some(Verneed(HalfAt(t, at), HalfAt(t, at + 2), WordAt(t, at + 4), WordAt(t, at + 8), WordAt(t, at + 12)))
  }

  function AuxAt(t: seq<byte>, at: nat): Option<Vernaux> {
    if at + AUX_SIZE > |t| then None else
      Some(Vernaux(WordAt(t, at), HalfAt(t, at + 4), HalfAt(t, at + 6), WordAt(t, at + 8), WordAt(t, at + 12)))
  }

  function AuxLink(t: seq<byte>, at: nat): Option<Link<VernAuxInfo>> {
    var a := AuxAt(t, at);
    if a.None? || a.value.flags != 0 then None
    else Some(Link(VernAuxInfo(a.value.name, a.value.other, a.value.hash), a.value.next))
  }

  function AuxLinks(t: seq<byte>): nat -> Option<Link<VernAuxInfo>> { (at: nat) => AuxLink(t, at) }

  /** The versions from a byte position on, following the links. */
  function ReadAuxs(t: seq<byte>, at: nat): Option<seq<VernAuxInfo>> {
    Follow(AuxLinks(t), |t|, at)
  }

  /** One library with all its versions. A record must be of the format's version 1 and announce as many versions
      as it leads to; none of those may have flags. */
  function NeedLink(t: seq<byte>, at: nat): Option<Link<VerNeedInfo>> {
    var need := NeedAt(t, at);
    if need.None? then None else
      var auxs := ReadAuxs(t, at + need.value.aux);
      if need.value.version != 1 || auxs.None? || Half(|auxs.value|) != need.value.cnt then None
      else Some(Link(VerNeedInfo(need.value.file, auxs.value), need.value.next))
  }

  function NeedLinks(t: seq<byte>): nat -> Option<Link<VerNeedInfo>> { (at: nat) => NeedLink(t, at) }

  /** The libraries from a byte position on, each with its versions. */
  function ReadNeeds(t: seq<byte>, at: nat): Option<seq<VerNeedInfo>> {
    Follow(NeedLinks(t), |t|, at)
  }

  lemma NeedReadBack(t: seq<byte>, at: nat, r: Verneed)
    requires Holds(t, at, NeedBytes(r))
    ensures NeedAt(t, at) == Some(r)
  {
    var a := LittleEndian(r.version, 2);
    var b := a + LittleEndian(r.cnt, 2);
    var c := b + LittleEndian(r.file, 4);
    var d := c + LittleEndian(r.aux, 4);
    LastWord(t, at, d, r.next);
    LastWord(t, at, c, r.aux);
    LastWord(t, at, b, r.file);
    LastHalf(t, at, a, r.cnt);
    assert a == [] + LittleEndian(r.version, 2);
    LastHalf(t, at, [], r.version);
  }

  lemma AuxReadBack(t: seq<byte>, at: nat, r: Vernaux)
    requires Holds(t, at, AuxBytes(r))
    ensures AuxAt(t, at) == Some(r)
  {
    var a := LittleEndian(r.hash, 4);
    var b := a + LittleEndian(r.flags, 2);
    var c := b + LittleEndian(r.other, 2);
    var d := c + LittleEndian(r.name, 4);
    LastWord(t, at, d, r.next);
    LastWord(t, at, c, r.name);
    LastHalf(t, at, b, r.other);
    LastHalf(t, at, a, r.flags);
    assert a == [] + LittleEndian(r.hash, 4);
    LastWord(t, at, [], r.hash);
  }

  /** Following the links from the first version recovers the versions. */
  lemma AuxsReadBack(t: seq<byte>, infos: seq<VernAuxInfo>, at: nat)
    requires AuxsAt(t, infos, at) && infos != []
    ensures ReadAuxs(t, at) == Some(infos)
  {
    var places := seq(|infos|, k requires 0 <= k < |infos| => at + AUX_SIZE * k);
    forall k | 0 <= k < |infos| ensures Linked(AuxLinks(t), |t|, infos, places, k) {
      assert AuxHeld(t, infos, at, k);
      AuxReadBack(t, places[k], AuxRecord(infos[k], k + 1 == |infos|));
      assert AuxLinks(t)(places[k]) == AuxLink(t, places[k]);
    }
    FollowReads(AuxLinks(t), |t|, infos, places, 0);
    assert infos[0..] == infos;
  }

  /** Every distance from a library's record to its versions fits its 32-bit field. */
  ghost predicate LinksFit(list: seq<VerNeedInfo>) {
    forall i {:trigger AuxStart(list, i)} | 0 <= i < |list| :: AuxStart(list, i) - NEED_SIZE * i < 0x1_0000_0000
  }

  /** The links lead to the versions exactly if the distances fit. */
  lemma LinksLead(list: seq<VerNeedInfo>)
    ensures LinksFit(list) <==>
            forall i {:trigger NeedRecord(list, i)} | 0 <= i < |list| ::
              NEED_SIZE * i + NeedRecord(list, i).aux == AuxStart(list, i)
  {
    forall i | 0 <= i < |list|
      ensures NEED_SIZE * i + NeedRecord(list, i).aux == AuxStart(list, i) <==>
        AuxStart(list, i) - NEED_SIZE * i < 0x1_0000_0000
    {
    }
    if LinksFit(list) {
      forall i | 0 <= i < |list| ensures NEED_SIZE * i + NeedRecord(list, i).aux == AuxStart(list, i) {
        assert AuxStart(list, i) - NEED_SIZE * i < 0x1_0000_0000;
      }
    }
  }

  /** The way from one library's record to its versions. */
  lemma NeedAuxsRead(t: seq<byte>, list: seq<VerNeedInfo>, i: nat)
    requires i < |list| && list[i].auxs != [] && GroupAt(t, list, i) && LinksFit(list)
    ensures ReadAuxs(t, NEED_SIZE * i + NeedRecord(list, i).aux) == Some(list[i].auxs)
  {
    assert NEED_SIZE * i + NeedRecord(list, i).aux == AuxStart(list, i);
    AuxsReadBack(t, list[i].auxs, AuxStart(list, i));
  }

  lemma NeedReads(t: seq<byte>, list: seq<VerNeedInfo>, places: seq<nat>, k: nat)
    requires IsTable(t, list) && NoneEmpty(list) && LinksFit(list) && k < |list| == |places|
    requires forall k | 0 <= k < |places| :: places[k] == NEED_SIZE * k
    ensures Linked(NeedLinks(t), |t|, list, places, k)
  {
    assert NeedHeld(t, list, k) && GroupAt(t, list, k);
    NeedReadBack(t, NEED_SIZE * k, NeedRecord(list, k));
    NeedAuxsRead(t, list, k);
    assert NeedLinks(t)(places[k]) == NeedLink(t, places[k]);
  }

  /** Following the links from the start of the section recovers the whole list. */
  lemma NeedsReadBack(t: seq<byte>, list: seq<VerNeedInfo>)
    requires IsTable(t, list) && list != [] && NoneEmpty(list) && LinksFit(list)
    ensures ReadNeeds(t, 0) == Some(list)
  {
    var places := seq(|list|, k requires 0 <= k < |list| => NEED_SIZE * k);
    forall k | 0 <= k < |list| ensures Linked(NeedLinks(t), |t|, list, places, k) {
      NeedReads(t, list, places, k);
    }
    FollowReads(NeedLinks(t), |t|, list, places, 0);
    assert list[0..] == list;
  }

  // ---- building the list ----------------------------------------------------------------------

  /** A version a library defines; number 0 means nothing needs it. */
  datatype VersionUse = VersionUse(id: half, name: seq<byte>, hash: word)
  datatype Library = Library(soName: seq<byte>, versions: seq<VersionUse>)

  function Used(versions: seq<VersionUse>): seq<VersionUse> {
    if versions == [] then [] else
      var n := |versions| - 1;
      Used(versions[..n]) + if versions[n].id == 0 then [] else [versions[n]]
  }

  /** The libraries some version of which is needed. */
  function Needed(libraries: seq<Library>): seq<Library> {
    if libraries == [] then [] else
      var n := |libraries| - 1;
      Needed(libraries[..n]) + if Used(libraries[n].versions) == [] then [] else [libraries[n]]
  }

  /** These are the uses with a number other than 0, in order, each as often as it occurs. */
  lemma {:induction false} UsedPicked(versions: seq<VersionUse>) returns (idx: seq<nat>)
    ensures Picks(versions, Used(versions), idx)
    ensures forall i {:trigger i in idx} | 0 <= i < |versions| :: i in idx <==> versions[i].id != 0
    decreases |versions|
  {
    if versions == [] {
      idx := [];
    } else {
      var n := |versions| - 1;
      var before := UsedPicked(versions[..n]);
      idx := PickNext(versions, Used(versions[..n]), before, versions[n].id != 0);
    }
  }

  lemma NoneUsedIff(versions: seq<VersionUse>)
    ensures Used(versions) != [] <==> exists u :: u in versions && u.id != 0
  {
    var idx := UsedPicked(versions);
    if u :| u in versions && u.id != 0 {
      var i :| 0 <= i < |versions| && versions[i] == u;
      assert i in idx;
    }
    if idx != [] {
      assert PickedAt(versions, Used(versions), idx, 0) && idx[0] in idx;
    }
  }

  /** These are the libraries that have such a use, in order, each as often as it occurs. */
  lemma {:induction false} NeededPicked(libraries: seq<Library>) returns (idx: seq<nat>)
    ensures Picks(libraries, Needed(libraries), idx)
    ensures forall i {:trigger i in idx} | 0 <= i < |libraries| ::
      i in idx <==> exists u :: u in libraries[i].versions && u.id != 0
    decreases |libraries|
  {
    if libraries == [] {
      idx := [];
    } else {
      var n := |libraries| - 1;
      var before := NeededPicked(libraries[..n]);
      NoneUsedIff(libraries[n].versions);
      idx := PickNext(libraries, Needed(libraries[..n]), before, Used(libraries[n].versions) != []);
    }
  }

  ghost predicate AuxNamed(contents: seq<byte>, use: VersionUse, info: VernAuxInfo) {
    info.id == use.id && info.hash == use.hash && Named(contents, info.nameOffset, use.name)
  }

  ghost predicate AuxsNamed(contents: seq<byte>, uses: seq<VersionUse>, infos: seq<VernAuxInfo>) {
    |infos| == |uses| && forall j | 0 <= j < |uses| :: AuxNamed(contents, uses[j], infos[j])
  }

  /** The entry is for the library, and all its names are in the string table. */
  ghost predicate NeedNamed(contents: seq<byte>, lib: Library, info: VerNeedInfo) {
    Named(contents, info.soNameOffset, lib.soName) && AuxsNamed(contents, Used(lib.versions), info.auxs)
  }

  ghost predicate NeedsNamed(contents: seq<byte>, libs: seq<Library>, list: seq<VerNeedInfo>) {
    |list| == |libs| && forall i | 0 <= i < |libs| :: NeedNamed(contents, libs[i], list[i])
  }

  lemma AuxsStayNamed(contents: seq<byte>, more: seq<byte>, uses: seq<VersionUse>, infos: seq<VernAuxInfo>)
    requires AuxsNamed(contents, uses, infos) && contents <= more
    ensures AuxsNamed(more, uses, infos)
  {
    forall j | 0 <= j < |uses| ensures AuxNamed(more, uses[j], infos[j]) {
      assert AuxNamed(contents, uses[j], infos[j]);
      NameStays(contents, more, infos[j].nameOffset, uses[j].name);
    }
  }

  /** Every name still reads back after any later additions to the string table. */
  lemma NeedsStayNamed(contents: seq<byte>, more: seq<byte>, libs: seq<Library>, list: seq<VerNeedInfo>)
    requires NeedsNamed(contents, libs, list) && contents <= more
    ensures NeedsNamed(more, libs, list)
  {
    forall i | 0 <= i < |libs| ensures NeedNamed(more, libs[i], list[i]) {
      assert NeedNamed(contents, libs[i], list[i]);
      NameStays(contents, more, list[i].soNameOffset, libs[i].soName);
      AuxsStayNamed(contents, more, Used(libs[i].versions), list[i].auxs);
    }
  }

  method ComputeAuxs(versions: seq<VersionUse>, dynStr: DynStrFragment) returns (infos: seq<VernAuxInfo>)
    requires dynStr.Valid()
    modifies dynStr
    ensures dynStr.Valid() && old(dynStr.contents) <= dynStr.contents
    ensures AuxsNamed(dynStr.contents, Used(versions), infos)
  {
    infos := [];
    for i := 0 to |versions|
      invariant dynStr.Valid() && old(dynStr.contents) <= dynStr.contents
      invariant AuxsNamed(dynStr.contents, Used(versions[..i]), infos)
    {
      assert versions[..i + 1][..i] == versions[..i];
      var use := versions[i];
      if use.id != 0 {
        ghost var was := dynStr.contents;
        var offset := dynStr.AddString(use.name);
        AuxsStayNamed(was, dynStr.contents, Used(versions[..i]), infos);
        infos := infos + [VernAuxInfo(Word(offset), use.id, use.hash)];
      }
    }
    assert versions[..|versions|] == versions;
  }

  /** Lists the libraries some version of which is needed, in order, and enters all names. */
  method ComputeVersionNeeds(libraries: seq<Library>, dynStr: DynStrFragment) returns (list: seq<VerNeedInfo>)
    requires dynStr.Valid()
    modifies dynStr
    ensures dynStr.Valid() && old(dynStr.contents) <= dynStr.contents
    ensures NoneEmpty(list) && NeedsNamed(dynStr.contents, Needed(libraries), list)
  {
    list := [];
    for i := 0 to |libraries|
      invariant dynStr.Valid() && old(dynStr.contents) <= dynStr.contents
      invariant NoneEmpty(list) && NeedsNamed(dynStr.contents, Needed(libraries[..i]), list)
    {
      assert libraries[..i + 1][..i] == libraries[..i];
      ghost var before := dynStr.contents;
      var soName := dynStr.AddString(libraries[i].soName);
      ghost var was := dynStr.contents;
      var infos := ComputeAuxs(libraries[i].versions, dynStr);
      StaysStored(was, dynStr.contents, soName, libraries[i].soName);
      NeedsStayNamed(before, dynStr.contents, Needed(libraries[..i]), list);
      if infos != [] {
        assert NeedNamed(dynStr.contents, libraries[i], VerNeedInfo(Word(soName), infos));
        list := list + [VerNeedInfo(Word(soName), infos)];
      }
    }
    assert libraries[..|libraries|] == libraries;
  }

  /** From the libraries to the loader and back: following the links of the emitted table leads to every
      needed library, in order, with its name and exactly its needed versions. */
  method EmitVersionNeeds(libraries: seq<Library>, dynStr: DynStrFragment)
    returns (table: Option<array<byte>>, list: seq<VerNeedInfo>)
    requires dynStr.Valid()
    modifies dynStr
    ensures dynStr.Valid() && NeedsNamed(dynStr.contents, Needed(libraries), list)
    ensures table.None? <==> Needed(libraries) == []
    ensures table.Some? && LinksFit(list) ==> ReadNeeds(table.value[..], 0) == Some(list)
  {
    list := ComputeVersionNeeds(libraries, dynStr);
    if list == [] {
      return None, list;
    }
    var size := Size(list);
    var out := new byte[size];
    Emit(list, out);
    if LinksFit(list) {
      NeedsReadBack(out[..], list);
    }
    return Some(out), list;
  }
}
