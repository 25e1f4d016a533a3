/** The exception frame header: a search table from function addresses to their frame descriptions. */
module EhFrameHdr {
  import opened Wrappers
  import opened Words
  import opened Buffers
  import opened Sorting

  /** A frame description: the address of its function and its own. */
  datatype Fde = Fde(pc: nat, va: nat)

  // ---- function addresses ---------------------------------------------------------------------

  const WRAP := 0x1_0000_0000_0000_0000

  /** How many bytes an address field has, and whether the number in it is signed. */
  datatype Format = Format(bytes: nat, signed: bool)

  /** The low four bits of a DW_EH_PE encoding; those the linker does not read have no format. */
  function FormatOf(enc: byte, is64: bool): (r: Option<Format>)
    ensures r.Some? ==> r.value.bytes in {2, 4, 8}
  {
    match enc % 16
    case 0x00 => Some(Format(if is64 then 8 else 4, false))
    case 0x02 => Some(Format(2, false))
    case 0x03 => Some(Format(4, false))
    case 0x04 => Some(Format(8, false))
    case 0x0A => Some(Format(2, true))
    case 0x0B => Some(Format(4, true))
    case 0x0C => Some(Format(8, true))
    case _ => None
  }

  /** A field's value in 64 bits. */
  function Extended(v: nat, f: Format): nat {
    if f == Format(2, true) && v >= 0x8000 then v + WRAP - 0x1_0000
    else if f == Format(4, true) && v >= 0x8000_0000 then v + WRAP - 0x1_0000_0000
    else v
  }

  predicate FieldIn(data: seq<byte>, at: nat, enc: byte, is64: bool) {
    FormatOf(enc, is64).Some? ==> at + FormatOf(enc, is64).value.bytes <= |data|
  }

  function ReadFdeAddr(data: seq<byte>, at: nat, enc: byte, is64: bool): nat
    requires FieldIn(data, at, enc, is64)
  {
    var f := FormatOf(enc, is64);
    if f.None? then 0 else Extended(Value(data[at..at + f.value.bytes]), f.value)
  }

  /** The address a frame description applies to: the field at a position of the file whose own address is
      place, absolute or relative to that place. */
  function FdePc(data: seq<byte>, at: nat, enc: byte, is64: bool, place: nat): nat
    requires FieldIn(data, at, enc, is64)
  {
    var addr := ReadFdeAddr(data, at, enc, is64);
    match enc / 16 % 8
    case 0 => addr
    case 1 => (if is64 then addr + place else Extended(addr % 0x1_0000_0000, Format(4, true)) + place) % WRAP
    case _ => 0
  }

  /** What each encoding makes of the bytes of a field, in plain numbers. */
  lemma AddressFields(data: seq<byte>, at: nat, enc: byte, is64: bool)
    requires FieldIn(data, at, enc, is64)
    ensures var low, r := enc % 16, ReadFdeAddr(data, at, enc, is64);
      && (low in {0x02, 0x0A} ==> at + 2 <= |data|)
      && (low in {0x03, 0x0B} || (low == 0 && !is64) ==> at + 4 <= |data|)
      && (low in {0x04, 0x0C} || (low == 0 && is64) ==> at + 8 <= |data|)
      && (low == 0x02 ==> r == HalfAt(data, at))
      && (low == 0x0A ==> r == if HalfAt(data, at) < 0x8000 then HalfAt(data, at)
                               else HalfAt(data, at) + 0xFFFF_FFFF_FFFF_0000)
      && (low == 0x03 || (low == 0 && !is64) ==> r == WordAt(data, at))
      && (low == 0x0B ==> r == if WordAt(data, at) < 0x8000_0000 then WordAt(data, at)
                               else WordAt(data, at) + 0xFFFF_FFFF_0000_0000)
      && (low in {0x04, 0x0C} || (low == 0 && is64) ==> r == Value(data[at..at + 8]))
      && (low !in {0x00, 0x02, 0x03, 0x04, 0x0A, 0x0B, 0x0C} ==> r == 0)
  {
  }

  /** A field is in the data exactly if the bytes its encoding names are. */
  lemma FieldInIff(data: seq<byte>, at: nat, enc: byte, is64: bool)
    ensures var low := enc % 16;
      FieldIn(data, at, enc, is64) <==>
        at + (if low in {0x02, 0x0A} then 2
              else if low in {0x03, 0x0B} || (low == 0 && !is64) then 4
              else if low in {0x04, 0x0C} || (low == 0 && is64) then 8 else 0) <= |data| ||
        low !in {0x00, 0x02, 0x03, 0x04, 0x0A, 0x0B, 0x0C}
  {
  }

  /** How the field is taken: absolute, or relative to its own address, by a 32-bit reader as a signed word. */
  lemma AddressPlaces(data: seq<byte>, at: nat, enc: byte, is64: bool, place: nat)
    requires FieldIn(data, at, enc, is64)
    ensures var how, addr, pc := enc / 16 % 8, ReadFdeAddr(data, at, enc, is64), FdePc(data, at, enc, is64, place);
      && (how == 0 ==> pc == addr)
      && (how == 1 && is64 ==> pc == (place + addr) % 0x1_0000_0000_0000_0000)
      && (how == 1 && !is64 && addr % 0x1_0000_0000 < 0x8000_0000 ==>
            pc == (place + addr % 0x1_0000_0000) % 0x1_0000_0000_0000_0000)
      && (how == 1 && !is64 && addr % 0x1_0000_0000 >= 0x8000_0000 ==>
            pc == (place + addr % 0x1_0000_0000 + 0xFFFF_FFFF_0000_0000) % 0x1_0000_0000_0000_0000)
      && (how > 1 ==> pc == 0)
  {
  }

  /** The number the field has to hold for a function at pc. */
  function Wanted(pc: nat, enc: byte, place: nat): nat {
    if enc / 16 % 8 == 0 then pc else (pc - place) % WRAP
  }

  /** What a reader makes of a field: a 32-bit reader takes what is relative for signed words. */
  function ReadAs(f: Format, enc: byte, is64: bool): Format {
    if enc / 16 % 8 == 1 && !is64 && f.bytes > 2 then Format(4, true) else f
  }

  /** A 64-bit number that survives being cut to the format and extended again. */
  predicate Fits(d: nat, f: Format) {
    if f.bytes == 2 then if f.signed then d < 0x8000 || d >= WRAP - 0x8000 else d < 0x1_0000
    else if f.bytes == 4 then if f.signed then d < 0x8000_0000 || d >= WRAP - 0x8000_0000 else d < 0x1_0000_0000
    else true
  }

  lemma CutToTwo(d: nat, signed: bool)
    requires d < WRAP
    ensures Extended(d % 0x1_0000, Format(2, signed)) < WRAP
    ensures Extended(d % 0x1_0000, Format(2, signed)) == d <==> Fits(d, Format(2, signed))
  {
    var q, v := d / 0x1_0000, d % 0x1_0000;
    assert d == 0x1_0000 * q + v && q < 0x1_0000_0000_0000;
  }

  lemma CutToFour(d: nat, signed: bool)
    requires d < WRAP
    ensures Extended(d % 0x1_0000_0000, Format(4, signed)) < WRAP
    ensures Extended(d % 0x1_0000_0000, Format(4, signed)) == d <==> Fits(d, Format(4, signed))
  {
    var q, v := d / 0x1_0000_0000, d % 0x1_0000_0000;
    assert d == 0x1_0000_0000 * q + v && q < 0x1_0000_0000;
  }

  lemma CutAndExtended(d: nat, f: Format)
    requires d < WRAP && f.bytes in {2, 4, 8}
    ensures Extended(d % Range(f.bytes), f) < WRAP
    ensures Extended(d % Range(f.bytes), f) == d <==> Fits(d, f)
  {
    FieldRanges();
    LongRange();
    if f.bytes == 2 {
      CutToTwo(d, f.signed);
    } else if f.bytes == 4 {
      CutToFour(d, f.signed);
    }
  }

  lemma PlaceTakenBack(pc: nat, place: nat, e: nat)
    requires pc < WRAP && e < WRAP
    ensures (e + place) % WRAP == pc <==> e == (pc - place) % WRAP
  {
  }

  lemma NarrowedOnce(d: nat, f: Format)
    requires d < WRAP && f.bytes in {2, 4, 8}
    ensures Extended(Extended(d % Range(f.bytes), f) % 0x1_0000_0000, Format(4, true)) ==
            if f.bytes == 2 then Extended(d % Range(2), f) else Extended(d % Range(4), Format(4, true))
  {
    FieldRanges();
    LongRange();
    if f.bytes == 4 {
      var v := d % 0x1_0000_0000;
      assert Extended(v, f) % 0x1_0000_0000 == v;
    }
  }

  /** The field holds the low bytes of the number wanted: the function's address is read back exactly if
      that number fits what the reader takes the field for. */
  lemma FdePcReadsBack(data: seq<byte>, at: nat, enc: byte, is64: bool, place: nat, pc: nat)
    requires FormatOf(enc, is64).Some? && FieldIn(data, at, enc, is64) && enc / 16 % 8 < 2 && pc < WRAP
    requires var n := FormatOf(enc, is64).value.bytes;
      Value(data[at..at + n]) == Wanted(pc, enc, place) % Range(n)
    ensures FdePc(data, at, enc, is64, place) == pc <==>
      Fits(Wanted(pc, enc, place), ReadAs(FormatOf(enc, is64).value, enc, is64))
  {
    var f, d := FormatOf(enc, is64).value, Wanted(pc, enc, place);
    CutAndExtended(d, f);
    CutAndExtended(d, Format(4, true));
    NarrowedOnce(d, f);
    PlaceTakenBack(pc, place, Extended(d % Range(f.bytes), f));
    PlaceTakenBack(pc, place, Extended(d % Range(4), Format(4, true)));
  }

  /** A frame description in the output: where its section lies in the file and in memory, where it lies in
      the section, and how its CIE says addresses are encoded. */
  datatype FdeSite = FdeSite(fileOffset: nat, sectionAddress: nat, off: nat, enc: byte)

  predicate SiteIn(data: seq<byte>, s: FdeSite, is64: bool) {
    FieldIn(data, s.fileOffset + s.off + 8, s.enc, is64)
  }

  function FdeOf(data: seq<byte>, s: FdeSite, is64: bool): Fde
    requires SiteIn(data, s, is64)
  {
    Fde(FdePc(data, s.fileOffset + s.off + 8, s.enc, is64, s.sectionAddress + s.off + 8), s.sectionAddress + s.off)
  }

  function FdesOf(data: seq<byte>, sites: seq<FdeSite>, is64: bool): (r: seq<Fde>)
    requires forall i | 0 <= i < |sites| :: SiteIn(data, sites[i], is64)
    ensures |r| == |sites|
  {
    seq(|sites|, i requires 0 <= i < |sites| => FdeOf(data, sites[i], is64))
  }

  // ---- the table ------------------------------------------------------------------------------

  /** Both relative to the header, in 32 bits. */
  datatype FdeData = FdeData(pcRel: word, fdeVARel: word)

  function Rel(address: nat, base: nat): word { (address - base) % 0x1_0000_0000 }

  function DataOf(f: Fde, base: nat): FdeData { FdeData(Rel(f.pc, base), Rel(f.va, base)) }

  const PcRel: FdeData -> int := (d: FdeData) => d.pcRel

  ghost predicate StrictlyIncreasing(s: seq<FdeData>) {
    forall i, j | 0 <= i < j < |s| :: s[i].pcRel < s[j].pcRel
  }

  /** e is the first of s with its address. */
  ghost predicate FirstWithPc(e: FdeData, s: seq<FdeData>) {
    exists i :: 0 <= i < |s| && s[i] == e && forall j | 0 <= j < i :: s[j].pcRel != e.pcRel
  }

  ghost predicate HasPc(s: seq<FdeData>, pc: word) {
    exists i :: 0 <= i < |s| && s[i].pcRel == pc
  }

  /** std::unique by address: an entry is dropped if the one kept before it has its address. */
  function UniqueOf(s: seq<FdeData>): seq<FdeData> {
    if s == [] then [] else
      var n := |s| - 1;
      var kept := UniqueOf(s[..n]);
      if kept != [] && kept[|kept| - 1].pcRel == s[n].pcRel then kept else kept + [s[n]]
  }

  method Unique(s: seq<FdeData>) returns (r: seq<FdeData>)
    ensures r == UniqueOf(s)
  {
    r := [];
    for i := 0 to |s|
      invariant r == UniqueOf(s[..i])
    {
      assert s[..i + 1][..i] == s[..i];
      if r == [] || r[|r| - 1].pcRel != s[i].pcRel {
        r := r + [s[i]];
      }
    }
    assert s[..|s|] == s;
  }

  lemma FirstSnoc(e: FdeData, s: seq<FdeData>, x: FdeData)
    requires FirstWithPc(e, s)
    ensures FirstWithPc(e, s + [x])
  {
    var i :| 0 <= i < |s| && s[i] == e && forall j | 0 <= j < i :: s[j].pcRel != e.pcRel;
    assert (s + [x])[i] == e;
    assert forall j | 0 <= j < i :: (s + [x])[j] == s[j];
  }

  ghost predicate ByPc(s: seq<FdeData>) {
    forall i, j | 0 <= i < j < |s| :: s[i].pcRel <= s[j].pcRel
  }

  lemma UniqueLast(s: seq<FdeData>)
    requires s != []
    ensures UniqueOf(s) != [] && UniqueOf(s)[|UniqueOf(s)| - 1].pcRel == s[|s| - 1].pcRel
  {
  }

  /** Of sorted entries exactly the first of every address is kept, in order. */
  lemma {:induction false} UniqueOfSorted(s: seq<FdeData>)
    requires ByPc(s)
    ensures StrictlyIncreasing(UniqueOf(s))
    ensures s != [] ==> UniqueOf(s) != [] && UniqueOf(s)[|UniqueOf(s)| - 1].pcRel == s[|s| - 1].pcRel
  {
    if s != [] {
      var n := |s| - 1;
      UniqueOfSorted(s[..n]);
      UniqueLast(s);
      if n > 0 {
        assert s[n - 1].pcRel <= s[n].pcRel && s[..n][n - 1] == s[n - 1];
      }
    }
  }

  lemma {:induction false} UniqueCovers(s: seq<FdeData>, i: nat)
    requires ByPc(s) && i < |s|
    ensures HasPc(UniqueOf(s), s[i].pcRel)
    decreases |s|
  {
    var n := |s| - 1;
    if i < n {
      UniqueCovers(s[..n], i);
      var k :| 0 <= k < |UniqueOf(s[..n])| && UniqueOf(s[..n])[k].pcRel == s[i].pcRel;
      assert UniqueOf(s)[k] == UniqueOf(s[..n])[k];
    } else {
      UniqueOfSorted(s);
      assert UniqueOf(s)[|UniqueOf(s)| - 1].pcRel == s[i].pcRel;
    }
  }

  lemma {:induction false} UniqueIsFirst(s: seq<FdeData>, e: FdeData)
    requires ByPc(s) && e in UniqueOf(s)
    ensures FirstWithPc(e, s)
    decreases |s|
  {
    var n := |s| - 1;
    assert s == s[..n] + [s[n]];
    if e in UniqueOf(s[..n]) {
      UniqueIsFirst(s[..n], e);
      FirstSnoc(e, s[..n], s[n]);
    } else {
      UniqueOfSorted(s[..n]);
      assert e == s[n];
      forall j | 0 <= j < n ensures s[j].pcRel != e.pcRel {
        assert s[..n][n - 1].pcRel != e.pcRel;
      }
    }
  }

  /** Sorting stably keeps the first of every address first. */
  lemma FirstSurvivesSort(e: FdeData, s: seq<FdeData>)
    requires FirstWithPc(e, StableSort(s, PcRel))
    ensures FirstWithPc(e, s)
  {
    StableSortKeeps(s, PcRel, e.pcRel);
    FirstIsHead(e, StableSort(s, PcRel));
    HeadIsFirst(s, e.pcRel);
  }

  lemma {:induction false} FirstIsHead(e: FdeData, s: seq<FdeData>)
    requires FirstWithPc(e, s)
    ensures WithKey(s, PcRel, e.pcRel) != [] && WithKey(s, PcRel, e.pcRel)[0] == e
  {
    var n := |s| - 1;
    var i :| 0 <= i < |s| && s[i] == e && forall j | 0 <= j < i :: s[j].pcRel != e.pcRel;
    if i < n {
      assert s[..n][i] == e && forall j | 0 <= j < i :: s[..n][j].pcRel != e.pcRel;
      FirstIsHead(e, s[..n]);
    } else {
      NoneWithKey(s[..n], e.pcRel);
    }
  }

  lemma {:induction false} NoneWithKey(s: seq<FdeData>, v: int)
    requires forall i | 0 <= i < |s| :: s[i].pcRel != v
    ensures WithKey(s, PcRel, v) == []
  {
    if s != [] {
      NoneWithKey(s[..|s| - 1], v);
    }
  }

  lemma {:induction false} HeadIsFirst(s: seq<FdeData>, v: int)
    requires WithKey(s, PcRel, v) != []
    ensures WithKey(s, PcRel, v)[0].pcRel == v && FirstWithPc(WithKey(s, PcRel, v)[0], s)
  {
    var n := |s| - 1;
    if WithKey(s[..n], PcRel, v) != [] {
      HeadIsFirst(s[..n], v);
      assert s == s[..n] + [s[n]];
      FirstSnoc(WithKey(s[..n], PcRel, v)[0], s[..n], s[n]);
    } else {
      forall j | 0 <= j < n ensures s[j].pcRel != v {
        if s[j].pcRel == v {
          InWithKey(s[..n], j);
        }
      }
      assert s[n].pcRel == v && FirstWithPc(s[n], s);
    }
  }

  lemma {:induction false} InWithKey(s: seq<FdeData>, j: nat)
    requires j < |s|
    ensures WithKey(s, PcRel, s[j].pcRel) != []
  {
    if j < |s| - 1 {
      InWithKey(s[..|s| - 1], j);
    }
  }

  /** The table: sorted, one entry for every function address, that of the first description there. */
  ghost predicate IsTable(table: seq<FdeData>, data: seq<FdeData>) {
    && StrictlyIncreasing(table)
    && (forall e | e in table :: FirstWithPc(e, data))
    && (forall i | 0 <= i < |data| :: HasPc(table, data[i].pcRel))
  }

  lemma SortedUniqueIsTable(data: seq<FdeData>)
    ensures IsTable(UniqueOf(StableSort(data, PcRel)), data)
  {
    var sorted := StableSort(data, PcRel);
    StableSortSorts(data, PcRel);
    assert forall i, j | 0 <= i < j < |sorted| :: PcRel(sorted[i]) <= PcRel(sorted[j]);
    UniqueOfSorted(sorted);
    forall e | e in UniqueOf(sorted) ensures FirstWithPc(e, data) {
      UniqueIsFirst(sorted, e);
      FirstSurvivesSort(e, data);
    }
    forall i | 0 <= i < |data| ensures HasPc(UniqueOf(sorted), data[i].pcRel) {
      assert data[i] in multiset(sorted);
      var j :| 0 <= j < |sorted| && sorted[j] == data[i];
      UniqueCovers(sorted, j);
    }
  }

  lemma {:induction false} UniqueShorter(s: seq<FdeData>)
    ensures |UniqueOf(s)| <= |s|
  {
    if s != [] {
      UniqueShorter(s[..|s| - 1]);
    }
  }

  /** data holds the descriptions relative to the header. */
  ghost predicate RelativeTo(data: seq<FdeData>, fdes: seq<Fde>, base: nat) {
    |data| == |fdes| && forall i | 0 <= i < |fdes| :: data[i] == DataOf(fdes[i], base)
  }

  /** Reads where every frame description applies and lists the functions in order. */
  method GetFdeData(data: seq<byte>, sites: seq<FdeSite>, base: nat, is64: bool)
    returns (table: seq<FdeData>, ghost all: seq<FdeData>)
    requires forall i | 0 <= i < |sites| :: SiteIn(data, sites[i], is64)
    ensures RelativeTo(all, FdesOf(data, sites, is64), base) && IsTable(table, all) && |table| <= |sites|
  {
    var ret := [];
    for i := 0 to |sites|
      invariant |ret| == i && forall j | 0 <= j < i :: ret[j] == DataOf(FdeOf(data, sites[j], is64), base)
    {
      ret := ret + [DataOf(FdeOf(data, sites[i], is64), base)];
    }
    all := ret;
    table := Unique(StableSort(ret, PcRel));
    SortedUniqueIsTable(ret);
    UniqueShorter(StableSort(ret, PcRel));
  }

  // ---- looking up -----------------------------------------------------------------------------

  /** The value a reader of signed words sees, as the table's encoding announces. */
  function Signed(w: word): int { if w < 0x8000_0000 then w else w - 0x1_0000_0000 }

  lemma InTable(table: seq<FdeData>, data: seq<FdeData>, fdes: seq<Fde>, base: nat, f: Fde) returns (k: nat)
    requires IsTable(table, data) && RelativeTo(data, fdes, base) && f in fdes
    ensures k < |table| && table[k].pcRel == Rel(f.pc, base)
  {
    var i :| 0 <= i < |fdes| && fdes[i] == f;
    assert HasPc(table, data[i].pcRel);
    k :| 0 <= k < |table| && table[k].pcRel == data[i].pcRel;
  }

  ghost predicate SignedOrder(table: seq<FdeData>) {
    forall i, j | 0 <= i < j < |table| :: Signed(table[i].pcRel) < Signed(table[j].pcRel)
  }

  lemma OneSideOrder(table: seq<FdeData>)
    requires StrictlyIncreasing(table)
    ensures SignedOrder(table) <==>
            ((forall i | 0 <= i < |table| :: table[i].pcRel < 0x8000_0000) ||
             (forall i | 0 <= i < |table| :: table[i].pcRel >= 0x8000_0000))
  {
    forall i, j | 0 <= i < |table| && 0 <= j < |table| && table[i].pcRel < 0x8000_0000 <= table[j].pcRel
      ensures i < j && Signed(table[i].pcRel) > Signed(table[j].pcRel)
    {
    }
  }

  lemma FromFdes(table: seq<FdeData>, data: seq<FdeData>, fdes: seq<Fde>, base: nat, k: nat) returns (f: Fde)
    requires IsTable(table, data) && RelativeTo(data, fdes, base) && k < |table|
    ensures f in fdes && table[k].pcRel == Rel(f.pc, base)
  {
    assert FirstWithPc(table[k], data);
    var i :| 0 <= i < |data| && data[i] == table[k];
    f := fdes[i];
  }

  lemma SidesMatch(table: seq<FdeData>, data: seq<FdeData>, fdes: seq<Fde>, base: nat)
    requires IsTable(table, data) && RelativeTo(data, fdes, base)
    ensures (forall k | 0 <= k < |table| :: table[k].pcRel < 0x8000_0000) <==>
            (forall f | f in fdes :: Rel(f.pc, base) < 0x8000_0000)
    ensures (forall k | 0 <= k < |table| :: table[k].pcRel >= 0x8000_0000) <==>
            (forall f | f in fdes :: Rel(f.pc, base) >= 0x8000_0000)
  {
    forall f | f in fdes ensures exists k :: 0 <= k < |table| && table[k].pcRel == Rel(f.pc, base) {
      var k := InTable(table, data, fdes, base, f);
    }
    forall k | 0 <= k < |table| ensures exists f :: f in fdes && Rel(f.pc, base) == table[k].pcRel {
      var f := FromFdes(table, data, fdes, base, k);
    }
  }

  /** The table is sorted as unsigned words. For a reader of signed words it is sorted exactly when all
      functions are on one side of the header. */
  lemma SortedForSigned(table: seq<FdeData>, data: seq<FdeData>, fdes: seq<Fde>, base: nat)
    requires IsTable(table, data) && RelativeTo(data, fdes, base)
    ensures SignedOrder(table) <==>
            ((forall f | f in fdes :: Rel(f.pc, base) < 0x8000_0000) ||
              (forall f | f in fdes :: Rel(f.pc, base) >= 0x8000_0000))
  {
    OneSideOrder(table);
    SidesMatch(table, data, fdes, base);
  }

  /** One function four bytes below the header and one four bytes above: the entry of the lower one, which
      a signed reader takes for the smaller, comes behind the other. */
  lemma SidesMisordered(table: seq<FdeData>, data: seq<FdeData>)
    requires RelativeTo(data, [Fde(0xFFC, 0x2000), Fde(0x1004, 0x2010)], 0x1000) && IsTable(table, data)
    ensures exists i, j :: 0 <= i < j < |table| && Signed(table[i].pcRel) == 4 && Signed(table[j].pcRel) == -4
    ensures !SignedOrder(table)
  {
    var fdes := [Fde(0xFFC, 0x2000), Fde(0x1004, 0x2010)];
    var below := InTable(table, data, fdes, 0x1000, fdes[0]);
    var above := InTable(table, data, fdes, 0x1000, fdes[1]);
    assert Signed(table[above].pcRel) == 4 && Signed(table[below].pcRel) == -4;
  }

  /** What a reader of signed or unsigned words makes of one. */
  function Seen(w: word, signed: bool): int { if signed then Signed(w) else w }

  /** The addresses a reader finds in the table. */
  function Values(table: seq<FdeData>, signed: bool): (r: seq<int>)
    ensures |r| == |table|
  {
    seq(|table|, i requires 0 <= i < |table| => Seen(table[i].pcRel, signed))
  }

  /** An unwinder's binary search: how many of the values it takes to be at or below the key. */
  function Probe(values: seq<int>, key: int, lo: nat, hi: nat): (r: nat)
    requires lo <= hi <= |values|
    ensures lo <= r <= hi
    decreases hi - lo
  {
    if lo == hi then lo else
      var mid := (lo + hi) / 2;
      if values[mid] <= key then Probe(values, key, mid + 1, hi) else Probe(values, key, lo, mid)
  }

  method CountBelow(values: seq<int>, key: int) returns (lo: nat)
    ensures lo == Probe(values, key, 0, |values|)
  {
    var hi;
    lo, hi := 0, |values|;
    ghost var end := Probe(values, key, 0, |values|);
    while lo < hi
      invariant lo <= hi <= |values| && Probe(values, key, lo, hi) == end
    {
      var mid := (lo + hi) / 2;
      if values[mid] <= key {
        lo := mid + 1;
      } else {
        hi := mid;
      }
    }
  }

  /** The entry the search ends at, if there is one at or below the key. */
  function Found(table: seq<FdeData>, signed: bool, key: int): Option<FdeData> {
    var r := Probe(Values(table, signed), key, 0, |table|);
    if r == 0 then None else Some(table[r - 1])
  }

  method Search(table: seq<FdeData>, signed: bool, key: int) returns (r: Option<FdeData>)
    ensures r == Found(table, signed, key)
  {
    var n := CountBelow(Values(table, signed), key);
    r := if n == 0 then None else Some(table[n - 1]);
  }

  ghost predicate Increasing(values: seq<int>) {
    forall i, j | 0 <= i < j < |values| :: values[i] < values[j]
  }

  /** On increasing values the search splits them at the key. */
  lemma {:induction false} ProbeSplits(values: seq<int>, key: int, lo: nat, hi: nat)
    requires Increasing(values) && lo <= hi <= |values|
    requires forall i | 0 <= i < lo :: values[i] <= key
    requires forall i | hi <= i < |values| :: key < values[i]
    ensures forall i | 0 <= i < Probe(values, key, lo, hi) :: values[i] <= key
    ensures forall i | Probe(values, key, lo, hi) <= i < |values| :: key < values[i]
    decreases hi - lo
  {
    if lo < hi {
      var mid := (lo + hi) / 2;
      if values[mid] <= key {
        ProbeSplits(values, key, mid + 1, hi);
      } else {
        ProbeSplits(values, key, lo, mid);
      }
    }
  }

  /** In any order, a key above all values makes the search end behind the last. */
  lemma {:induction false} ProbeEnds(values: seq<int>, key: int, lo: nat, hi: nat)
    requires lo <= hi <= |values| && forall i | 0 <= i < |values| :: values[i] <= key
    ensures Probe(values, key, lo, hi) == hi
    decreases hi - lo
  {
    if lo < hi {
      ProbeEnds(values, key, (lo + hi) / 2 + 1, hi);
    }
  }

  /** Description i is the first one of the last function starting at or below the address. */
  ghost predicate FoundAt(fdes: seq<Fde>, i: nat, address: nat)
    requires i < |fdes|
  {
    && fdes[i].pc <= address
    && (forall j | 0 <= j < |fdes| && fdes[j].pc <= address :: fdes[j].pc <= fdes[i].pc)
    && (forall j | 0 <= j < i :: fdes[j].pc != fdes[i].pc)
  }

  /** In 32 bits the entry says how far the function is from the header, and leads from the header to the
      description. */
  predicate LeadsTo(e: FdeData, f: Fde, base: nat) {
    e.pcRel == (f.pc - base) % 0x1_0000_0000 && (base + e.fdeVARel) % 0x1_0000_0000 == f.va % 0x1_0000_0000
  }

  lemma DataLeads(f: Fde, base: nat)
    ensures LeadsTo(DataOf(f, base), f, base)
  {
    DistanceTaken(f.va, base);
  }

  lemma DistanceTaken(address: nat, base: nat)
    ensures (base + Rel(address, base)) % 0x1_0000_0000 == address % 0x1_0000_0000
  {
    SameWord(base + Rel(address, base), address, (address - base) / 0x1_0000_0000);
  }

  ghost predicate LeadsToFound(e: FdeData, fdes: seq<Fde>, i: nat, base: nat, address: nat) {
    i < |fdes| && FoundAt(fdes, i, address) && LeadsTo(e, fdes[i], base)
  }

  /** None if every function is above the address, and otherwise an entry for the first description of the last function
      at or below it. */
  ghost predicate Right(r: Option<FdeData>, fdes: seq<Fde>, base: nat, address: nat) {
    && (r.None? <==> forall f | f in fdes :: address < f.pc)
    && (r.Some? ==> exists i: nat :: LeadsToFound(r.value, fdes, i, base, address))
  }

  /** The search for an address gives the right description. */
  ghost predicate Answers(table: seq<FdeData>, signed: bool, fdes: seq<Fde>, base: nat, address: nat) {
    Right(Found(table, signed, address - base), fdes, base, address)
  }

  /** The reader sees how far each function is from the header. */
  ghost predicate SeesDistances(fdes: seq<Fde>, base: nat, signed: bool) {
    forall f | f in fdes :: Seen(Rel(f.pc, base), signed) == f.pc - base
  }

  lemma EntryFound(table: seq<FdeData>, data: seq<FdeData>, fdes: seq<Fde>, base: nat, signed: bool, address: nat,
                   k: nat)
    requires RelativeTo(data, fdes, base) && IsTable(table, data) && SeesDistances(fdes, base, signed)
    requires k < |table| && Values(table, signed)[k] <= address - base
    requires forall j | k < j < |table| :: address - base < Values(table, signed)[j]
    requires forall j | 0 <= j < k :: Values(table, signed)[j] <= Values(table, signed)[k]
    ensures Right(Some(table[k]), fdes, base, address)
  {
    assert FirstWithPc(table[k], data);
    var i :| 0 <= i < |data| && data[i] == table[k] && forall j | 0 <= j < i :: data[j].pcRel != table[k].pcRel;
    assert fdes[i] in fdes;
    forall j | 0 <= j < |fdes| && fdes[j].pc <= address ensures fdes[j].pc <= fdes[i].pc {
      var l := InTable(table, data, fdes, base, fdes[j]);
      assert Values(table, signed)[l] == fdes[j].pc - base;
    }
    DataLeads(fdes[i], base);
    assert LeadsToFound(table[k], fdes, i, base, address);
  }

  lemma NoneFound(table: seq<FdeData>, data: seq<FdeData>, fdes: seq<Fde>, base: nat, signed: bool, address: nat)
    requires RelativeTo(data, fdes, base) && IsTable(table, data) && SeesDistances(fdes, base, signed)
    requires forall j | 0 <= j < |table| :: address - base < Values(table, signed)[j]
    ensures Right(None, fdes, base, address)
  {
    forall f | f in fdes ensures address < f.pc {
      var l := InTable(table, data, fdes, base, f);
      assert Values(table, signed)[l] == f.pc - base;
    }
  }

  /** A reader that sees the distances in order finds the right description for every address. */
  lemma OrderFinds(table: seq<FdeData>, data: seq<FdeData>, fdes: seq<Fde>, base: nat, signed: bool, address: nat)
    requires RelativeTo(data, fdes, base) && IsTable(table, data) && SeesDistances(fdes, base, signed)
    requires Increasing(Values(table, signed))
    ensures Answers(table, signed, fdes, base, address)
  {
    var values := Values(table, signed);
    ProbeSplits(values, address - base, 0, |values|);
    var r := Probe(values, address - base, 0, |values|);
    assert Found(table, signed, address - base) == if r == 0 then None else Some(table[r - 1]);
    if r == 0 {
      NoneFound(table, data, fdes, base, signed, address);
    } else {
      EntryFound(table, data, fdes, base, signed, address, r - 1);
    }
  }

  /** Functions within 2 GiB of the header, beyond which the linker warns. */
  ghost predicate Near(fdes: seq<Fde>, base: nat) {
    forall f | f in fdes :: -0x8000_0000 <= f.pc - base < 0x8000_0000
  }

  /** No function on one side of the header. */
  ghost predicate OneSide(fdes: seq<Fde>, base: nat) {
    (forall f | f in fdes :: f.pc >= base) || (forall f | f in fdes :: f.pc < base)
  }

  lemma RelOfNear(f: Fde, base: nat)
    requires -0x8000_0000 <= f.pc - base < 0x8000_0000
    ensures Signed(Rel(f.pc, base)) == f.pc - base && (Rel(f.pc, base) < 0x8000_0000 <==> f.pc >= base)
  {
  }

  lemma NearDistances(fdes: seq<Fde>, base: nat)
    requires Near(fdes, base)
    ensures SeesDistances(fdes, base, true)
    ensures OneSide(fdes, base) <==>
      ((forall f | f in fdes :: Rel(f.pc, base) < 0x8000_0000) ||
        (forall f | f in fdes :: Rel(f.pc, base) >= 0x8000_0000))
  {
    forall f | f in fdes
      ensures Signed(Rel(f.pc, base)) == f.pc - base && (Rel(f.pc, base) < 0x8000_0000 <==> f.pc >= base)
    {
      RelOfNear(f, base);
    }
  }

  lemma OneSideFinds(table: seq<FdeData>, data: seq<FdeData>, fdes: seq<Fde>, base: nat, address: nat)
    requires RelativeTo(data, fdes, base) && IsTable(table, data) && Near(fdes, base) && OneSide(fdes, base)
    ensures Answers(table, true, fdes, base, address)
  {
    NearDistances(fdes, base);
    SortedForSigned(table, data, fdes, base);
    OrderFinds(table, data, fdes, base, true, address);
  }

  /** With functions on both sides the last entry is that of one below the header, and an address above all
      functions is sent there. */
  lemma BothSidesMislead(table: seq<FdeData>, data: seq<FdeData>, fdes: seq<Fde>, base: nat, f: Fde, g: Fde)
    requires RelativeTo(data, fdes, base) && IsTable(table, data) && Near(fdes, base)
    requires f in fdes && g in fdes && g.pc < base <= f.pc
    ensures !Answers(table, true, fdes, base, base + 0x8000_0000)
  {
    var k := InTable(table, data, fdes, base, g);
    RelOfNear(g, base);
    ProbeEnds(Values(table, true), 0x8000_0000, 0, |table|);
    var last := table[|table| - 1];
    assert last.pcRel >= table[k].pcRel >= 0x8000_0000;
    forall i | 0 <= i < |fdes| && LeadsTo(last, fdes[i], base)
      ensures !LeadsToFound(last, fdes, i, base, base + 0x8000_0000)
    {
      assert fdes[i] in fdes;
      RelOfNear(fdes[i], base);
      var j :| 0 <= j < |fdes| && fdes[j] == f;
    }
  }

  /** For functions near the header, a reader of signed words finds the right description for every address
      exactly when no function is on one of its sides. */
  lemma SignedSearchIff(table: seq<FdeData>, data: seq<FdeData>, fdes: seq<Fde>, base: nat)
    requires RelativeTo(data, fdes, base) && IsTable(table, data) && Near(fdes, base)
    ensures (forall address: nat :: Answers(table, true, fdes, base, address)) <==> OneSide(fdes, base)
  {
    if OneSide(fdes, base) {
      forall address: nat ensures Answers(table, true, fdes, base, address) {
        OneSideFinds(table, data, fdes, base, address);
      }
    } else {
      var f :| f in fdes && f.pc >= base;
      var g :| g in fdes && g.pc < base;
      BothSidesMislead(table, data, fdes, base, f, g);
    }
  }

  /** A reader of unsigned words finds it for all functions within 4 GiB above the header. */
  lemma UnsignedSearch(table: seq<FdeData>, data: seq<FdeData>, fdes: seq<Fde>, base: nat, address: nat)
    requires RelativeTo(data, fdes, base) && IsTable(table, data)
    requires forall f | f in fdes :: base <= f.pc < base + 0x1_0000_0000
    ensures Answers(table, false, fdes, base, address)
  {
    OrderFinds(table, data, fdes, base, false, address);
  }

  /** The search as the table's encoding announces it: right for every address unless functions lie on both
      sides of the header. */
  method FindFde(table: seq<FdeData>, ghost data: seq<FdeData>, ghost fdes: seq<Fde>, base: nat, address: nat)
    returns (r: Option<FdeData>)
    requires RelativeTo(data, fdes, base) && IsTable(table, data)
    ensures r == Found(table, true, address - base)
    ensures Near(fdes, base) && OneSide(fdes, base) ==> Right(r, fdes, base, address)
  {
    r := Search(table, true, address - base);
    if Near(fdes, base) && OneSide(fdes, base) {
      OneSideFinds(table, data, fdes, base, address);
    }
  }

  // ---- emission -------------------------------------------------------------------------------

  const HEADER_SIZE := 12

  function EntryBytes(e: FdeData): (r: seq<byte>)
    ensures |r| == 8
  {
    LittleEndian(e.pcRel, 4) + LittleEndian(e.fdeVARel, 4)
  }

  /** Version, then how the pointer, the count and the table are encoded. */
  function Encodings(createTable: bool): (r: seq<byte>)
    ensures |r| == 4
  {
    if createTable then [1, 0x1B, 0x03, 0x3B] else [1, 0x1B, 0xFF, 0xFF]
  }

  function Head(createTable: bool, framePtr: word, count: nat): (r: seq<byte>)
    ensures |r| == HEADER_SIZE
  {
    Encodings(createTable) + LittleEndian(framePtr, 4) + LittleEndian(count, 4)
  }

  ghost predicate EntryPart(parts: seq<seq<byte>>, table: seq<FdeData>, i: nat)
    requires i < |table| && i + 1 < |parts|
  {
    parts[i + 1] == EntryBytes(table[i])
  }

  /** The header and the entries behind it. */
  ghost predicate HdrParts(parts: seq<seq<byte>>, head: seq<byte>, table: seq<FdeData>) {
    && |parts| == |table| + 1 && parts[0] == head
    && forall i {:trigger EntryPart(parts, table, i)} | 0 <= i < |table| :: EntryPart(parts, table, i)
  }

  ghost predicate HdrImage(image: seq<byte>, head: seq<byte>, table: seq<FdeData>) {
    exists parts {:trigger HdrParts(parts, head, table)} ::
      HdrParts(parts, head, table) && image == Flat(parts, |parts|)
  }

  lemma {:induction false} HdrLength(parts: seq<seq<byte>>, head: seq<byte>, table: seq<FdeData>, k: nat)
    requires HdrParts(parts, head, table) && k <= |table|
    ensures |Flat(parts, k + 1)| == |head| + 8 * k
  {
    if k > 0 {
      HdrLength(parts, head, table, k - 1);
      assert EntryPart(parts, table, k - 1);
    } else {
      assert Flat(parts, 0) == [];
    }
  }

  lemma {:induction false} PartsExist(head: seq<byte>, table: seq<FdeData>, k: nat) returns (parts: seq<seq<byte>>)
    requires k <= |table|
    ensures |parts| == k + 1 && parts[0] == head
    ensures forall i {:trigger EntryPart(parts, table, i)} | 0 <= i < k :: EntryPart(parts, table, i)
  {
    if k == 0 {
      parts := [head];
    } else {
      var before := PartsExist(head, table, k - 1);
      parts := before + [EntryBytes(table[k - 1])];
      forall i | 0 <= i < k ensures EntryPart(parts, table, i) {
        assert i < k - 1 ==> EntryPart(before, table, i);
      }
    }
  }

  method WriteHead(out: array<byte>, at: nat, createTable: bool, framePtr: word, count: nat)
    requires at + HEADER_SIZE <= out.Length
    modifies out
    ensures out[..] == Overwrite(old(out[..]), at, Head(createTable, framePtr, count))
  {
    Write(out, at, Encodings(createTable));
    Write(out, at + 4, LittleEndian(framePtr, 4));
    OverwriteBehind(old(out[..]), at, Encodings(createTable), LittleEndian(framePtr, 4));
    Write(out, at + 8, LittleEndian(count, 4));
    OverwriteBehind(old(out[..]), at, Encodings(createTable) + LittleEndian(framePtr, 4), LittleEndian(count, 4));
  }

  method WriteEntry(out: array<byte>, at: nat, e: FdeData)
    requires at + 8 <= out.Length
    modifies out
    ensures out[..] == Overwrite(old(out[..]), at, EntryBytes(e))
  {
    Write(out, at, LittleEndian(e.pcRel, 4));
    Write(out, at + 4, LittleEndian(e.fdeVARel, 4));
    OverwriteBehind(old(out[..]), at, LittleEndian(e.pcRel, 4), LittleEndian(e.fdeVARel, 4));
  }

  method WriteTable(out: array<byte>, at: nat, table: seq<FdeData>,
                    ghost head: seq<byte>, ghost parts: seq<seq<byte>>, ghost was: seq<byte>)
    requires HdrParts(parts, head, table) && |head| == HEADER_SIZE &&
      at + HEADER_SIZE + 8 * |table| <= out.Length == |was|
    requires out[..] == Overwrite(was, at, head)
    modifies out
    ensures |Flat(parts, |parts|)| == |head| + 8 * |table| && out[..] == Overwrite(was, at, Flat(parts, |parts|))
  {
    var buf := at + HEADER_SIZE;
    assert Flat(parts, 1) == parts[0];
    for i := 0 to |table|
      invariant buf == at + HEADER_SIZE + 8 * i && |Flat(parts, i + 1)| == |head| + 8 * i
      invariant out[..] == Overwrite(was, at, Flat(parts, i + 1))
    {
      WriteEntry(out, buf, table[i]);
      assert EntryPart(parts, table, i);
      OverwriteBehind(was, at, Flat(parts, i + 1), parts[i + 1]);
      buf := buf + 8;
    }
  }

  class EhFrameHdrFragment {
    const createTable: bool
    const is64: bool
    const sites: seq<FdeSite>
    const numCIE: nat

    constructor (createTable: bool, is64: bool, sites: seq<FdeSite>, numCIE: nat)
      ensures this.createTable == createTable && this.is64 == is64 && this.sites == sites && this.numCIE == numCIE
    {
      this.createTable, this.is64, this.sites, this.numCIE := createTable, is64, sites, numCIE;
    }

    /** Every frame description's address field is in the output. */
    ghost predicate SitesIn(data: seq<byte>) {
      forall i | 0 <= i < |sites| :: SiteIn(data, sites[i], is64)
    }

    function Size(): nat {
      if createTable then HEADER_SIZE + 8 * |sites| else HEADER_SIZE
    }

    /** Writes the header and the table for all frame descriptions, within Size() bytes. Without CIEs only
        the encodings are written. */
    method Emit(out: array<byte>, at: nat, base: nat, ehFrameAddress: nat)
      returns (ghost table: seq<FdeData>, ghost image: seq<byte>)
      requires at + Size() <= out.Length && SitesIn(out[..])
      modifies out
      ensures |image| <= Size() && out[..] == Overwrite(old(out[..]), at, image)
      ensures !createTable ==> table == []
      ensures createTable ==> exists all: seq<FdeData> :: IsTableOf(table, all, old(out[..]), base)
      ensures if numCIE == 0 then image == Encodings(createTable)
        else HdrImage(image, Head(createTable, Rel(ehFrameAddress, base + 4), |table|), table)
    {
      var entries: seq<FdeData> := [];
      if createTable {
        ghost var all;
        entries, all := GetFdeData(out[..], sites, base, is64);
        assert IsTableOf(entries, all, out[..], base);
      }
      table := entries;
      if numCIE == 0 {
        Write(out, at, Encodings(createTable));
        image := Encodings(createTable);
        return;
      }
      ghost var was := out[..];
      ghost var head := Head(createTable, Rel(ehFrameAddress, base + 4), |entries|);
      ghost var parts := PartsExist(head, entries, |entries|);
      WriteHead(out, at, createTable, Rel(ehFrameAddress, base + 4), |entries|);
      WriteTable(out, at, entries, head, parts, was);
      image := Flat(parts, |parts|);
      assert HdrParts(parts, head, entries);
    }

    /** The table of the frame descriptions found in the output. */
    ghost predicate IsTableOf(table: seq<FdeData>, all: seq<FdeData>, data: seq<byte>, base: nat)
      requires SitesIn(data)
    {
      RelativeTo(all, FdesOf(data, sites, is64), base) && IsTable(table, all)
    }
  }

  /** A reader finds in the emitted header the count, the way to the frame section, and every entry. */
  lemma HdrReadsBack(out: seq<byte>, at: nat, image: seq<byte>, createTable: bool, framePtr: word, table: seq<FdeData>,
                     i: nat)
    requires HdrImage(image, Head(createTable, framePtr, |table|), table) && Holds(out, at, image)
    requires |table| < 0x1_0000_0000
    ensures at + HEADER_SIZE + 8 * |table| <= |out|
    ensures WordAt(out, at + 4) == framePtr && WordAt(out, at + 8) == |table|
    ensures out[at] == 1 && out[at + 1] == 0x1B
    ensures if createTable then out[at + 2] == 0x03 && out[at + 3] == 0x3B
            else out[at + 2] == 0xFF && out[at + 3] == 0xFF
    ensures i < |table| ==> WordAt(out, at + HEADER_SIZE + 8 * i) == table[i].pcRel
    ensures i < |table| ==> WordAt(out, at + HEADER_SIZE + 8 * i + 4) == table[i].fdeVARel
  {
    var head := Head(createTable, framePtr, |table|);
    var parts :| HdrParts(parts, head, table) && image == Flat(parts, |parts|);
    HdrLength(parts, head, table, |table|);
    HeadHeld(out, at, parts, head, table);
    HeadReads(out, at, createTable, framePtr, |table|);
    if i < |table| {
      EntryHeld(out, at, parts, head, table, i);
      EntryReads(out, at + HEADER_SIZE + 8 * i, table[i]);
    }
  }

  lemma HeadHeld(out: seq<byte>, at: nat, parts: seq<seq<byte>>, head: seq<byte>, table: seq<FdeData>)
    requires HdrParts(parts, head, table) && Holds(out, at, Flat(parts, |parts|))
    ensures Holds(out, at, head)
  {
    FlatAt(parts, 0, |parts|);
    assert Flat(parts, 0) == [];
    HoldsWithin(out, at, Flat(parts, |parts|), 0, head);
  }

  lemma EntryHeld(out: seq<byte>, at: nat, parts: seq<seq<byte>>, head: seq<byte>, table: seq<FdeData>, i: nat)
    requires HdrParts(parts, head, table) && Holds(out, at, Flat(parts, |parts|)) && i < |table|
    ensures Holds(out, at + |head| + 8 * i, EntryBytes(table[i]))
  {
    HdrLength(parts, head, table, i);
    FlatAt(parts, i + 1, |parts|);
    assert EntryPart(parts, table, i);
    HoldsWithin(out, at, Flat(parts, |parts|), |head| + 8 * i, parts[i + 1]);
  }

  lemma EntryReads(out: seq<byte>, at: nat, e: FdeData)
    requires Holds(out, at, EntryBytes(e))
    ensures WordAt(out, at) == e.pcRel && WordAt(out, at + 4) == e.fdeVARel
  {
    ReadBack4(e.pcRel);
    ReadBack4(e.fdeVARel);
    SliceOfSlice(out, at, at + 8, 0, 4);
    SliceOfSlice(out, at, at + 8, 4, 8);
    assert EntryBytes(e)[0..4] == LittleEndian(e.pcRel, 4) && EntryBytes(e)[4..8] == LittleEndian(e.fdeVARel, 4);
  }

  lemma HeadReads(out: seq<byte>, at: nat, createTable: bool, framePtr: word, count: nat)
    requires count < 0x1_0000_0000 && Holds(out, at, Head(createTable, framePtr, count))
    ensures WordAt(out, at + 4) == framePtr && WordAt(out, at + 8) == count
    ensures out[at] == 1 && out[at + 1] == 0x1B
    ensures if createTable then out[at + 2] == 0x03 && out[at + 3] == 0x3B
            else out[at + 2] == 0xFF && out[at + 3] == 0xFF
  {
    var head := Head(createTable, framePtr, count);
    ReadBack4(framePtr);
    ReadBack4(count);
    SliceOfSlice(out, at, at + HEADER_SIZE, 4, 8);
    SliceOfSlice(out, at, at + HEADER_SIZE, 8, 12);
    assert head[4..8] == LittleEndian(framePtr, 4) && head[8..12] == LittleEndian(count, 4);
    assert head[..4] == Encodings(createTable);
    HoldsPrefix(out, at, head, 4);
    EncodingsRead(out, at, createTable);
  }

  /** The version, and how the pointer (relative to its place, four bytes, signed), the count (four bytes) and the
      table (relative to the header, four bytes, signed) are encoded; 0xFF says there is none. */
  lemma EncodingsRead(out: seq<byte>, at: nat, createTable: bool)
    requires Holds(out, at, Encodings(createTable))
    ensures out[at] == 1 && out[at + 1] == 0x1B
    ensures if createTable then out[at + 2] == 0x03 && out[at + 3] == 0x3B
            else out[at + 2] == 0xFF && out[at + 3] == 0xFF
  {
    assert forall k | 0 <= k < 4 :: out[at + k] == out[at..at + 4][k] == Encodings(createTable)[k];
    assert out[at + 0] == out[at];
  }

  // ---- an unwinder on the emitted bytes -------------------------------------------------------

  /** The table an unwinder reads behind a header: as many entries of two words as the count says. */
  function ReadTable(out: seq<byte>, at: nat): seq<FdeData>
    requires at + 12 <= |out| && at + 12 + 8 * WordAt(out, at + 8) <= |out|
  {
    seq(WordAt(out, at + 8), k requires 0 <= k < WordAt(out, at + 8) =>
      FdeData(WordAt(out, at + 12 + 8 * k), WordAt(out, at + 16 + 8 * k)))
  }

  lemma TableReadBack(out: seq<byte>, at: nat, image: seq<byte>, framePtr: word, table: seq<FdeData>)
    requires HdrImage(image, Head(true, framePtr, |table|), table) && Holds(out, at, image)
    requires |table| < 0x1_0000_0000
    ensures at + 12 + 8 * |table| <= |out| && WordAt(out, at + 8) == |table| && ReadTable(out, at) == table
  {
    HdrReadsBack(out, at, image, true, framePtr, table, 0);
    forall k | 0 <= k < |table| ensures ReadTable(out, at)[k] == table[k] {
      HdrReadsBack(out, at, image, true, framePtr, table, k);
    }
  }

  /** The pointer to the frame section is relative to its own place, a signed word as its encoding says. */
  lemma PointerLeads(ehFrameAddress: nat, base: nat)
    ensures (base + 4 + Rel(ehFrameAddress, base + 4)) % 0x1_0000_0000 == ehFrameAddress % 0x1_0000_0000
  {
    DistanceTaken(ehFrameAddress, base + 4);
  }

  /** Entry e is that of a description in the output: it says how far the function is whose address is in the
      description's field, and leads from the header to where the description lies in memory. */
  predicate EntryOfSite(e: FdeData, data: seq<byte>, s: FdeSite, base: nat, is64: bool) {
    && FieldIn(data, s.fileOffset + s.off + 8, s.enc, is64)
    && e.pcRel ==
      (FdePc(data, s.fileOffset + s.off + 8, s.enc, is64, s.sectionAddress + s.off + 8) - base) % 0x1_0000_0000
    && (base + e.fdeVARel) % 0x1_0000_0000 == (s.sectionAddress + s.off) % 0x1_0000_0000
  }

  /** Every entry of the table is that of some description; and every description has an entry that says how far
      its function is. */
  lemma TableOfSites(table: seq<FdeData>, all: seq<FdeData>, data: seq<byte>, sites: seq<FdeSite>, base: nat,
                     is64: bool)
    requires forall i | 0 <= i < |sites| :: SiteIn(data, sites[i], is64)
    requires RelativeTo(all, FdesOf(data, sites, is64), base) && IsTable(table, all)
    ensures forall e | e in table :: exists i :: 0 <= i < |sites| && EntryOfSite(e, data, sites[i], base, is64)
    ensures forall i | 0 <= i < |all| :: HasPc(table, all[i].pcRel)
    ensures |all| == |sites| && forall i | 0 <= i < |sites| :: EntryOfSite(all[i], data, sites[i], base, is64)
  {
    forall i | 0 <= i < |sites| ensures EntryOfSite(all[i], data, sites[i], base, is64) {
      DataLeads(FdeOf(data, sites[i], is64), base);
    }
    forall e | e in table ensures exists i :: 0 <= i < |sites| && EntryOfSite(e, data, sites[i], base, is64) {
      assert FirstWithPc(e, all);
      var i :| 0 <= i < |all| && all[i] == e;
      assert EntryOfSite(all[i], data, sites[i], base, is64);
    }
  }

  lemma SignedTable(out: seq<byte>, at: nat, image: seq<byte>, framePtr: word, table: seq<FdeData>)
    requires HdrImage(image, Head(true, framePtr, |table|), table) && Holds(out, at, image)
    requires |table| < 0x1_0000_0000
    ensures at + 12 <= |out| && out[at + 3] == 0x3B && out[at + 3] % 16 >= 8
  {
    HdrReadsBack(out, at, image, true, framePtr, table, 0);
  }

  /** An unwinder that reads the emitted bytes as they announce themselves, entries of signed words relative to the
      header, is led from any address to the first description of the last function at or below it, for functions
      near the header and all on one side of it. */
  lemma UnwinderFinds(out: seq<byte>, at: nat, image: seq<byte>, framePtr: word, table: seq<FdeData>,
                      all: seq<FdeData>, fdes: seq<Fde>, base: nat, address: nat)
    requires HdrImage(image, Head(true, framePtr, |table|), table) && Holds(out, at, image)
    requires |table| < 0x1_0000_0000 && RelativeTo(all, fdes, base) && IsTable(table, all)
    requires Near(fdes, base) && OneSide(fdes, base)
    ensures at + 12 + 8 * |table| <= |out| && WordAt(out, at + 8) == |table| && out[at + 3] == 0x3B
    ensures Answers(ReadTable(out, at), out[at + 3] % 16 >= 8, fdes, base, address)
  {
    OneSideFinds(table, all, fdes, base, address);
    TableReadBack(out, at, image, framePtr, table);
    SignedTable(out, at, image, framePtr, table);
  }
}
