/** The table of defined versions: one record for each version, with its name and those of the versions
    it depends on, threaded by byte distances that a loader follows. */
module VersionDefs {
  import opened Wrappers
  import opened Words
  import opened Sums
  import opened Buffers
  import opened DynStr
  import opened VersionRecords

  const DEF_SIZE := 20
  const AUX_SIZE := 8

  datatype VerDefInfo = VerDefInfo(id: half, nameOffset: word, hash: word, dependencies: seq<word>)

  /** The records as stored. */
  datatype Verdef = Verdef(version: half, flags: half, ndx: half, cnt: half, hash: word, aux: word, next: word)
  datatype Verdaux = Verdaux(name: word, next: word)

  function DefBytes(r: Verdef): (s: seq<byte>)
    ensures |s| == DEF_SIZE
  {
    LittleEndian(r.version, 2) + LittleEndian(r.flags, 2) + LittleEndian(r.ndx, 2) + LittleEndian(r.cnt, 2)
    + LittleEndian(r.hash, 4) + LittleEndian(r.aux, 4) + LittleEndian(r.next, 4)
  }

  function AuxBytes(r: Verdaux): (s: seq<byte>)
    ensures |s| == AUX_SIZE
  {
    LittleEndian(r.name, 4) + LittleEndian(r.next, 4)
  }

  /** A version's own name, then those it depends on. */
  function Names(info: VerDefInfo): seq<word> { [info.nameOffset] + info.dependencies }

  /** How many names each version has. */
  function Counts(list: seq<VerDefInfo>): (r: seq<nat>)
    ensures |r| == |list|
  {
    seq(|list|, i requires 0 <= i < |list| => |Names(list[i])|)
  }

  /** Where the names of version i start; they lie behind all versions. */
  function AuxStart(list: seq<VerDefInfo>, i: nat): nat
    requires i <= |list|
  {
    DEF_SIZE * |list| + AUX_SIZE * Before(Counts(list), i)
  }

  function DefRecord(list: seq<VerDefInfo>, i: nat): Verdef
    requires i < |list|
  {
    Verdef(1, if list[i].id == 1 then 1 else 0, list[i].id, Half(|Names(list[i])|), list[i].hash,
           Word(AuxStart(list, i) - DEF_SIZE * i), if i + 1 == |list| then 0 else DEF_SIZE)
  }

  function AuxRecord(name: word, last: bool): Verdaux { Verdaux(name, if last then 0 else AUX_SIZE) }

  ghost predicate DefHeld(t: seq<byte>, list: seq<VerDefInfo>, i: nat)
    requires i < |list|
  {
    Holds(t, DEF_SIZE * i, DefBytes(DefRecord(list, i)))
  }

  ghost predicate AuxHeld(t: seq<byte>, names: seq<word>, at: nat, j: nat)
    requires j < |names|
  {
    Holds(t, at + AUX_SIZE * j, AuxBytes(AuxRecord(names[j], j + 1 == |names|)))
  }

  ghost predicate AuxsAt(t: seq<byte>, names: seq<word>, at: nat) {
    forall j {:trigger AuxHeld(t, names, at, j)} | 0 <= j < |names| :: AuxHeld(t, names, at, j)
  }

  ghost predicate GroupAt(t: seq<byte>, list: seq<VerDefInfo>, i: nat)
    requires i < |list|
  {
    AuxsAt(t, Names(list[i]), AuxStart(list, i))
  }

  /** The first n versions and their names are written. */
  ghost predicate Written(t: seq<byte>, list: seq<VerDefInfo>, n: nat)
    requires n <= |list|
  {
    && |t| == AuxStart(list, |list|)
    && (forall i {:trigger DefHeld(t, list, i)} | 0 <= i < n :: DefHeld(t, list, i))
    && (forall i {:trigger GroupAt(t, list, i)} | 0 <= i < n :: GroupAt(t, list, i))
  }

  /** t is the section for the list. */
  ghost predicate IsTable(t: seq<byte>, list: seq<VerDefInfo>) {
    Written(t, list, |list|)
  }

  // ---- emission -------------------------------------------------------------------------------

  method Size(list: seq<VerDefInfo>) returns (bytes: nat)
    ensures bytes == AuxStart(list, |list|)
  {
    var auxBytes := 0;
    for i := 0 to |list|
      invariant auxBytes == AUX_SIZE * Before(Counts(list), i)
    {
      auxBytes := auxBytes + (1 + |list[i].dependencies|) * AUX_SIZE;
    }
    return |list| * DEF_SIZE + auxBytes;
  }

  method EmitAux(names: seq<word>, j: nat, out: array<byte>, at: nat)
    requires j < |names| && at + AUX_SIZE * |names| <= out.Length
    requires forall k {:trigger AuxHeld(out[..], names, at, k)} | 0 <= k < j :: AuxHeld(out[..], names, at, k)
    modifies out
    ensures forall k {:trigger AuxHeld(out[..], names, at, k)} | 0 <= k < j + 1 :: AuxHeld(out[..], names, at, k)
    ensures SameOutside(old(out[..]), out[..], at + AUX_SIZE * j, at + AUX_SIZE * (j + 1))
  {
    ghost var was := out[..];
    var bytes := AuxBytes(Verdaux(names[j], if j + 1 == |names| then 0 else AUX_SIZE));
    Write(out, at + AUX_SIZE * j, bytes);
    OverwriteHolds(was, at + AUX_SIZE * j, bytes);
    forall k | 0 <= k < j ensures AuxHeld(out[..], names, at, k) {
      assert AuxHeld(was, names, at, k);
      HoldsApart(was, out[..], at + AUX_SIZE * j, at + AUX_SIZE * (j + 1), at + AUX_SIZE * k,
                 AuxBytes(AuxRecord(names[k], k + 1 == |names|)));
    }
  }

  /** One version's own name, then those it depends on. */
  method EmitAuxs(info: VerDefInfo, out: array<byte>, at: nat)
    requires at + AUX_SIZE * |Names(info)| <= out.Length
    modifies out
    ensures AuxsAt(out[..], Names(info), at)
    ensures SameOutside(old(out[..]), out[..], at, at + AUX_SIZE * |Names(info)|)
  {
    var names := [info.nameOffset] + info.dependencies;
    EmitAux(names, 0, out, at);
    for j := 0 to |info.dependencies|
      invariant forall k {:trigger AuxHeld(out[..], names, at, k)} | 0 <= k < j + 1 :: AuxHeld(out[..], names, at, k)
      invariant SameOutside(old(out[..]), out[..], at, at + AUX_SIZE * |names|)
    {
      EmitAux(names, j + 1, out, at);
    }
  }

  /** The names of version i end where those of the next start. */
  lemma GroupEnds(list: seq<VerDefInfo>, i: nat, j: nat)
    requires i < j <= |list|
    ensures DEF_SIZE * |list| <= AuxStart(list, i)
    ensures AuxStart(list, i) + AUX_SIZE * |Names(list[i])| == AuxStart(list, i + 1) <= AuxStart(list, j)
  {
    BeforeMonotone(Counts(list), i + 1, j);
  }

  lemma GroupStays(was: seq<byte>, now: seq<byte>, list: seq<VerDefInfo>, i: nat, lo: nat, hi: nat)
    requires i < |list| && GroupAt(was, list, i) && SameOutside(was, now, lo, hi)
    requires AuxStart(list, i + 1) <= lo || hi <= AuxStart(list, i)
    ensures GroupAt(now, list, i)
  {
    GroupEnds(list, i, i + 1);
    var names, at := Names(list[i]), AuxStart(list, i);
    forall j | 0 <= j < |names| ensures AuxHeld(now, names, at, j) {
      assert AuxHeld(was, names, at, j);
      HoldsApart(was, now, lo, hi, at + AUX_SIZE * j, AuxBytes(AuxRecord(names[j], j + 1 == |names|)));
    }
  }

  lemma DefStays(was: seq<byte>, now: seq<byte>, list: seq<VerDefInfo>, i: nat, lo: nat, hi: nat)
    requires i < |list| && DefHeld(was, list, i) && SameOutside(was, now, lo, hi)
    requires DEF_SIZE * (i + 1) <= lo || hi <= DEF_SIZE * i
    ensures DefHeld(now, list, i)
  {
    HoldsApart(was, now, lo, hi, DEF_SIZE * i, DefBytes(DefRecord(list, i)));
  }

  /** Writing the next version's record disturbs nothing written. */
  lemma HeadWritten(was: seq<byte>, now: seq<byte>, list: seq<VerDefInfo>, n: nat)
    requires n < |list| && Written(was, list, n)
    requires now == Overwrite(was, DEF_SIZE * n, DefBytes(DefRecord(list, n)))
    ensures Written(now, list, n) && DefHeld(now, list, n)
  {
    OverwriteHolds(was, DEF_SIZE * n, DefBytes(DefRecord(list, n)));
    forall i | 0 <= i < n ensures DefHeld(now, list, i) {
      DefStays(was, now, list, i, DEF_SIZE * n, DEF_SIZE * (n + 1));
    }
    forall i | 0 <= i < n ensures GroupAt(now, list, i) {
      GroupEnds(list, i, n);
      GroupStays(was, now, list, i, DEF_SIZE * n, DEF_SIZE * (n + 1));
    }
  }

  /** Nor does writing its names. */
  lemma GroupWritten(was: seq<byte>, now: seq<byte>, list: seq<VerDefInfo>, n: nat)
    requires n < |list| && Written(was, list, n) && DefHeld(was, list, n)
    requires SameOutside(was, now, AuxStart(list, n), AuxStart(list, n + 1)) && GroupAt(now, list, n)
    ensures Written(now, list, n + 1)
  {
    GroupEnds(list, n, |list|);
    forall i | 0 <= i < n + 1 ensures DefHeld(now, list, i) {
      DefStays(was, now, list, i, AuxStart(list, n), AuxStart(list, n + 1));
    }
    forall i | 0 <= i < n + 1 ensures GroupAt(now, list, i) {
      if i < n {
        GroupEnds(list, i, n);
        GroupStays(was, now, list, i, AuxStart(list, n), AuxStart(list, n + 1));
      }
    }
  }

  method EmitDef(list: seq<VerDefInfo>, i: nat, out: array<byte>, aux: nat)
    requires i < |list| && aux == AuxStart(list, i) && Written(out[..], list, i)
    modifies out
    ensures Written(out[..], list, i + 1)
  {
    ghost var was := out[..];
    GroupEnds(list, i, |list|);
    var def := Verdef(1, if list[i].id == 1 then 1 else 0, list[i].id,
                      Half(1 + |list[i].dependencies|), list[i].hash, Word(aux - DEF_SIZE * i),
                      if i + 1 == |list| then 0 else DEF_SIZE);
    Write(out, DEF_SIZE * i, DefBytes(def));
    HeadWritten(was, out[..], list, i);
    was := out[..];
    EmitAuxs(list[i], out, aux);
    GroupWritten(was, out[..], list, i);
  }

  /** Writes the whole table, filling it exactly. */
  method Emit(list: seq<VerDefInfo>, out: array<byte>)
    requires out.Length == AuxStart(list, |list|)
    modifies out
    ensures IsTable(out[..], list)
  {
    var aux := DEF_SIZE * |list|;
    for i := 0 to |list|
      invariant aux == AuxStart(list, i) && Written(out[..], list, i)
    {
      EmitDef(list, i, out, aux);
      aux := aux + AUX_SIZE * (1 + |list[i].dependencies|);
    }
  }

  // ---- the loader -----------------------------------------------------------------------------

  /** The record of a version at a byte position. */
  function DefAt(t: seq<byte>, at: nat): Option<Verdef> {
    if at + DEF_SIZE > |t| then None else
      Some(Verdef(HalfAt(t, at), HalfAt(t, at + 2), HalfAt(t, at + 4), HalfAt(t, at + 6),
                  WordAt(t, at + 8), WordAt(t, at + 12), WordAt(t, at + 16)))
  }

  function AuxAt(t: seq<byte>, at: nat): Option<Verdaux> {
    if at + AUX_SIZE > |t| then None else Some(Verdaux(WordAt(t, at), WordAt(t, at + 4)))
  }

  function AuxLink(t: seq<byte>, at: nat): Option<Link<word>> {
    var a := AuxAt(t, at);
    if a.None? then None else Some(Link(a.value.name, a.value.next))
  }

  function AuxLinks(t: seq<byte>): nat -> Option<Link<word>> { (at: nat) => AuxLink(t, at) }

  /** The names from a byte position on, following the links. */
  function ReadNames(t: seq<byte>, at: nat): Option<seq<word>> {
    Follow(AuxLinks(t), |t|, at)
  }

  /** One version with all its names. A record must be of the format's version 1, announce as many names as it
      leads to, and have the base flag 1 if its number is 1 and no flag otherwise. */
  function DefLink(t: seq<byte>, at: nat): Option<Link<VerDefInfo>> {
    var def := DefAt(t, at);
    if def.None? then None else
      var names := ReadNames(t, at + def.value.aux);
      if names.None? || names.value == [] || Half(|names.value|) != def.value.cnt then None
      else if def.value.version != 1 || def.value.flags != (if def.value.ndx == 1 then 1 else 0) then None
      else Some(Link(VerDefInfo(def.value.ndx, names.value[0], def.value.hash, names.value[1..]), def.value.next))
  }

  function DefLinks(t: seq<byte>): nat -> Option<Link<VerDefInfo>> { (at: nat) => DefLink(t, at) }

  /** The versions from a byte position on, each with its names. */
  function ReadDefs(t: seq<byte>, at: nat): Option<seq<VerDefInfo>> {
    Follow(DefLinks(t), |t|, at)
  }

  lemma DefReadBack(t: seq<byte>, at: nat, r: Verdef)
    requires Holds(t, at, DefBytes(r))
    ensures DefAt(t, at) == Some(r)
  {
    var a := LittleEndian(r.version, 2);
    var b := a + LittleEndian(r.flags, 2);
    var c := b + LittleEndian(r.ndx, 2);
    var d := c + LittleEndian(r.cnt, 2);
    var e := d + LittleEndian(r.hash, 4);
    var f := e + LittleEndian(r.aux, 4);
    LastWord(t, at, f, r.next);
    LastWord(t, at, e, r.aux);
    LastWord(t, at, d, r.hash);
    LastHalf(t, at, c, r.cnt);
    LastHalf(t, at, b, r.ndx);
    LastHalf(t, at, a, r.flags);
    assert a == [] + LittleEndian(r.version, 2);
    LastHalf(t, at, [], r.version);
  }

  lemma AuxReadBack(t: seq<byte>, at: nat, r: Verdaux)
    requires Holds(t, at, AuxBytes(r))
    ensures AuxAt(t, at) == Some(r)
  {
    var a := LittleEndian(r.name, 4);
    LastWord(t, at, a, r.next);
    assert a == [] + LittleEndian(r.name, 4);
    LastWord(t, at, [], r.name);
  }

  /** Following the links from the first name recovers the names. */
  lemma NamesReadBack(t: seq<byte>, names: seq<word>, at: nat)
    requires AuxsAt(t, names, at) && names != []
    ensures ReadNames(t, at) == Some(names)
  {
    var places := seq(|names|, k requires 0 <= k < |names| => at + AUX_SIZE * k);
    forall k | 0 <= k < |names| ensures Linked(AuxLinks(t), |t|, names, places, k) {
      assert AuxHeld(t, names, at, k);
      AuxReadBack(t, places[k], AuxRecord(names[k], k + 1 == |names|));
      assert AuxLinks(t)(places[k]) == AuxLink(t, places[k]);
    }
    FollowReads(AuxLinks(t), |t|, names, places, 0);
    assert names[0..] == names;
  }

  /** Every distance from a version's record to its names fits its 32-bit field. */
  ghost predicate LinksFit(list: seq<VerDefInfo>) {
    forall i {:trigger AuxStart(list, i)} | 0 <= i < |list| :: AuxStart(list, i) - DEF_SIZE * i < 0x1_0000_0000
  }

  /** The links lead to the names exactly if the distances fit. */
  lemma LinksLead(list: seq<VerDefInfo>)
    ensures LinksFit(list) <==>
            forall i {:trigger DefRecord(list, i)} | 0 <= i < |list| ::
              DEF_SIZE * i + DefRecord(list, i).aux == AuxStart(list, i)
  {
    forall i | 0 <= i < |list|
      ensures DEF_SIZE * i + DefRecord(list, i).aux == AuxStart(list, i) <==>
        AuxStart(list, i) - DEF_SIZE * i < 0x1_0000_0000
    {
    }
    if LinksFit(list) {
      forall i | 0 <= i < |list| ensures DEF_SIZE * i + DefRecord(list, i).aux == AuxStart(list, i) {
        assert AuxStart(list, i) - DEF_SIZE * i < 0x1_0000_0000;
      }
    }
  }

  /** The way from one version's record to its names. */
  lemma DefNamesRead(t: seq<byte>, list: seq<VerDefInfo>, i: nat)
    requires i < |list| && GroupAt(t, list, i) && LinksFit(list)
    ensures ReadNames(t, DEF_SIZE * i + DefRecord(list, i).aux) == Some(Names(list[i]))
  {
    assert DEF_SIZE * i + DefRecord(list, i).aux == AuxStart(list, i);
    NamesReadBack(t, Names(list[i]), AuxStart(list, i));
  }

  lemma DefReads(t: seq<byte>, list: seq<VerDefInfo>, places: seq<nat>, k: nat)
    requires IsTable(t, list) && LinksFit(list) && k < |list| == |places|
    requires forall k | 0 <= k < |places| :: places[k] == DEF_SIZE * k
    ensures Linked(DefLinks(t), |t|, list, places, k)
  {
    assert DefHeld(t, list, k) && GroupAt(t, list, k);
    DefReadBack(t, DEF_SIZE * k, DefRecord(list, k));
    DefNamesRead(t, list, k);
    assert Names(list[k])[1..] == list[k].dependencies;
    assert DefLinks(t)(places[k]) == DefLink(t, places[k]);
  }

  /** Following the links from the start of the section recovers the whole list. */
  lemma DefsReadBack(t: seq<byte>, list: seq<VerDefInfo>)
    requires IsTable(t, list) && list != [] && LinksFit(list)
    ensures ReadDefs(t, 0) == Some(list)
  {
    var places := seq(|list|, k requires 0 <= k < |list| => DEF_SIZE * k);
    forall k | 0 <= k < |list| ensures Linked(DefLinks(t), |t|, list, places, k) {
      DefReads(t, list, places, k);
    }
    FollowReads(DefLinks(t), |t|, list, places, 0);
    assert list[0..] == list;
  }

  // ---- building the list ----------------------------------------------------------------------

  type Hasher = seq<byte> -> word

  /** A node of the version script; an anonymous one has no name. */
  datatype Node = Node(name: Option<seq<byte>>, dependency: Option<seq<byte>>)

  /** The named nodes, which define versions. */
  function NamedNodes(nodes: seq<Node>): (r: seq<Node>)
    ensures forall n | n in r :: n.name.Some?
  {
    if nodes == [] then [] else
      var n := |nodes| - 1;
      NamedNodes(nodes[..n]) + if nodes[n].name.None? then [] else [nodes[n]]
  }

  /** These are the nodes that have a name, in order, each as often as it occurs. */
  lemma {:induction false} NamedPicked(nodes: seq<Node>) returns (idx: seq<nat>)
    ensures Picks(nodes, NamedNodes(nodes), idx)
    ensures forall i {:trigger i in idx} | 0 <= i < |nodes| :: i in idx <==> nodes[i].name.Some?
    decreases |nodes|
  {
    if nodes == [] {
      idx := [];
    } else {
      var n := |nodes| - 1;
      var before := NamedPicked(nodes[..n]);
      idx := PickNext(nodes, NamedNodes(nodes[..n]), before, nodes[n].name.Some?);
    }
  }

  ghost predicate DependencyNamed(contents: seq<byte>, dependency: Option<seq<byte>>, offsets: seq<word>) {
    if dependency.None? then offsets == []
    else |offsets| == 1 && Named(contents, offsets[0], dependency.value)
  }

  ghost predicate DefNamed(contents: seq<byte>, node: Node, hash: Hasher, id: half, info: VerDefInfo)
    requires node.name.Some?
  {
    && info.id == id && info.hash == hash(node.name.value)
    && Named(contents, info.nameOffset, node.name.value)
    && DependencyNamed(contents, node.dependency, info.dependencies)
  }

  /** The base version has number 1; the others are numbered from 2 on, in 16 bits. */
  ghost predicate DefsNamed(contents: seq<byte>, base: seq<byte>, nodes: seq<Node>, hash: Hasher,
                            list: seq<VerDefInfo>) {
    && |list| == |nodes| + 1
    && list[0].id == 1 && list[0].hash == hash(base) && list[0].dependencies == []
    && Named(contents, list[0].nameOffset, base)
    && forall i | 0 <= i < |nodes| ::
         nodes[i].name.Some? && DefNamed(contents, nodes[i], hash, Half(i + 2), list[i + 1])
  }

  lemma DefStaysNamed(contents: seq<byte>, more: seq<byte>, node: Node, hash: Hasher, id: half, info: VerDefInfo)
    requires node.name.Some? && DefNamed(contents, node, hash, id, info) && contents <= more
    ensures DefNamed(more, node, hash, id, info)
  {
    NameStays(contents, more, info.nameOffset, node.name.value);
    if node.dependency.Some? {
      NameStays(contents, more, info.dependencies[0], node.dependency.value);
    }
  }

  /** Every name still reads back after any later additions to the string table. */
  lemma DefsStayNamed(contents: seq<byte>, more: seq<byte>, base: seq<byte>, nodes: seq<Node>, hash: Hasher,
                      list: seq<VerDefInfo>)
    requires DefsNamed(contents, base, nodes, hash, list) && contents <= more
    ensures DefsNamed(more, base, nodes, hash, list)
  {
    NameStays(contents, more, list[0].nameOffset, base);
    forall i | 0 <= i < |nodes| ensures DefNamed(more, nodes[i], hash, Half(i + 2), list[i + 1]) {
      DefStaysNamed(contents, more, nodes[i], hash, Half(i + 2), list[i + 1]);
    }
  }

  lemma DefsGrow(contents: seq<byte>, more: seq<byte>, base: seq<byte>, nodes: seq<Node>, hash: Hasher,
                 list: seq<VerDefInfo>, node: Node, info: VerDefInfo)
    requires DefsNamed(contents, base, nodes, hash, list) && contents <= more
    requires node.name.Some? && DefNamed(more, node, hash, Half(|nodes| + 2), info)
    ensures DefsNamed(more, base, nodes + [node], hash, list + [info])
  {
    DefsStayNamed(contents, more, base, nodes, hash, list);
  }

  lemma HalfNext(x: nat)
    ensures (Half(x) + 1) % 0x1_0000 == Half(x + 1)
  {
  }

  method ComputeDef(node: Node, id: half, hash: Hasher, dynStr: DynStrFragment) returns (info: VerDefInfo)
    requires dynStr.Valid() && node.name.Some?
    modifies dynStr
    ensures dynStr.Valid() && old(dynStr.contents) <= dynStr.contents
    ensures DefNamed(dynStr.contents, node, hash, id, info)
  {
    var nameOffset := dynStr.AddString(node.name.value);
    var dependencies: seq<word> := [];
    if node.dependency.Some? {
      ghost var was := dynStr.contents;
      var offset := dynStr.AddString(node.dependency.value);
      StaysStored(was, dynStr.contents, nameOffset, node.name.value);
      dependencies := [Word(offset)];
    }
    return VerDefInfo(id, Word(nameOffset), hash(node.name.value), dependencies);
  }

  /** Lists the base version and those of the named nodes, in order, and enters all names. */
  method ComputeVersionDefs(base: seq<byte>, nodes: seq<Node>, hash: Hasher, dynStr: DynStrFragment)
    returns (list: seq<VerDefInfo>)
    requires dynStr.Valid()
    modifies dynStr
    ensures dynStr.Valid() && old(dynStr.contents) <= dynStr.contents
    ensures if nodes == [] then list == [] && dynStr.contents == old(dynStr.contents)
            else DefsNamed(dynStr.contents, base, NamedNodes(nodes), hash, list)
  {
    if nodes == [] {
      return [];
    }
    var baseOffset := dynStr.AddString(base);
    list := [VerDefInfo(1, Word(baseOffset), hash(base), [])];
    var verID: half := 2;
    for i := 0 to |nodes|
      invariant dynStr.Valid() && old(dynStr.contents) <= dynStr.contents
      invariant DefsNamed(dynStr.contents, base, NamedNodes(nodes[..i]), hash, list)
      invariant verID == Half(|NamedNodes(nodes[..i])| + 2)
    {
      assert nodes[..i + 1][..i] == nodes[..i] && nodes[..i + 1][i] == nodes[i];
      if nodes[i].name.Some? {
        ghost var was := dynStr.contents;
        var info := ComputeDef(nodes[i], verID, hash, dynStr);
        DefsGrow(was, dynStr.contents, base, NamedNodes(nodes[..i]), hash, list, nodes[i], info);
        list := list + [info];
        HalfNext(|NamedNodes(nodes[..i])| + 2);
        verID := (verID + 1) % 0x1_0000;
      }
    }
    assert nodes[..|nodes|] == nodes;
  }

  // ---- numbers --------------------------------------------------------------------------------

  /** The numbers, as far as a field keeps them, tell the versions apart and leave out 0. */
  ghost predicate NumbersApart(list: seq<VerDefInfo>, range: nat)
    requires range > 0
  {
    && (forall i | 0 <= i < |list| :: Remainder(list[i].id, range) != 0)
    && (forall i, j | 0 <= i < j < |list| :: Remainder(list[i].id, range) != Remainder(list[j].id, range))
  }

  /** Numbering goes on past the end of its field: the numbers of the records tell the versions apart, and from
      the reserved ones, exactly up to 65534 named nodes, and those of symbol entries, whose top bit marks
      hidden symbols, exactly up to 32766. */
  lemma NumbersApartIff(contents: seq<byte>, base: seq<byte>, nodes: seq<Node>, hash: Hasher, list: seq<VerDefInfo>)
    requires DefsNamed(contents, base, nodes, hash, list)
    ensures NumbersApart(list, 0x1_0000) <==> |nodes| <= 65534
    ensures NumbersApart(list, 0x8000) <==> |nodes| <= 32766
  {
    NumbersApartBelow(contents, base, nodes, hash, list, 0x1_0000);
    NumbersApartBelow(contents, base, nodes, hash, list, 0x8000);
  }

  lemma NumbersApartBelow(contents: seq<byte>, base: seq<byte>, nodes: seq<Node>, hash: Hasher, list: seq<VerDefInfo>,
                          range: nat)
    requires DefsNamed(contents, base, nodes, hash, list) && (range == 0x8000 || range == 0x1_0000)
    ensures NumbersApart(list, range) <==> |nodes| + 2 <= range
  {
    if |nodes| + 2 <= range {
      forall i | 0 <= i < |list| ensures Remainder(list[i].id, range) == i + 1 {
        assert i > 0 ==> DefNamed(contents, nodes[i - 1], hash, Half(i - 1 + 2), list[i]);
      }
    } else {
      assert DefNamed(contents, nodes[range - 2], hash, Half(range - 2 + 2), list[range - 1]);
      assert Remainder(0, range) == 0 && Remainder(range, range) == Remainder(0, range);
      assert Remainder(list[range - 1].id, range) == 0;
    }
  }

  /** From the version script to the loader and back: following the links of the emitted table leads to
      the base version and every named one, in order, with their names and dependencies. */
  method EmitVersionDefs(base: seq<byte>, nodes: seq<Node>, hash: Hasher, dynStr: DynStrFragment)
    returns (table: array<byte>, list: seq<VerDefInfo>)
    requires dynStr.Valid() && nodes != []
    modifies dynStr
    ensures dynStr.Valid() && DefsNamed(dynStr.contents, base, NamedNodes(nodes), hash, list)
    ensures LinksFit(list) ==> ReadDefs(table[..], 0) == Some(list)
  {
    list := ComputeVersionDefs(base, nodes, hash, dynStr);
    var size := Size(list);
    table := new byte[size];
    Emit(list, table);
    if LinksFit(list) {
      DefsReadBack(table[..], list);
    }
  }
}
