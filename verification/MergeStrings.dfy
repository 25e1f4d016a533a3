/** String merging: split a section at its NULs, keep the first copy of each string of an output
    section, and redirect every reference to the copy that was kept. */
module MergeStrings {
  import opened Wrappers
  import opened Words
  import opened MergePieces
  import opened Buffers

  lemma FoundString(s: seq<byte>, at: nat)
    requires at < |s| && FindNul(s, at).Some?
    ensures IsString(s[at..FindNul(s, at).value + 1])
  {
  }

  class MergeStringFragment {
    const contents: seq<byte>
    var strings: seq<Piece>

    constructor (contents: seq<byte>)
      ensures this.contents == contents && strings == []
    {
      this.contents, this.strings := contents, [];
    }

    /** The section was read: its strings, in order, are the whole contents. */
    ghost predicate Read()
      reads this
    {
      Tiles(contents, strings) && NoRepeats(strings) && forall i | 0 <= i < |strings| :: IsString(strings[i].data)
    }

    /** Splits the contents; fails exactly when they are not empty and do not end in a NUL. */
    method ReadStrings() returns (ok: bool)
      requires strings == []
      modifies this
      ensures !ok <==> contents != [] && contents[|contents| - 1] != 0
      ensures ok ==> Read()
      ensures forall p | p in strings :: fresh(p) && !p.exclude && p.outputOffset == UNASSIGNED
    {
      var offset := 0;
      while offset < |contents|
        invariant TilesTo(contents, strings, offset) && NoRepeats(strings)
        invariant forall i | 0 <= i < |strings| :: IsString(strings[i].data)
        invariant forall p | p in strings :: fresh(p) && !p.exclude && p.outputOffset == UNASSIGNED
        invariant offset > 0 ==> contents[offset - 1] == 0
      {
        var end := FindNul(contents, offset);
        if end.None? {
          return false;
        }
        var size := end.value + 1 - offset;
        FoundString(contents, offset);
        var piece := new Piece(contents[offset..offset + size], offset, 1);
        TilesSnoc(contents, strings, offset, piece);
        strings := strings + [piece];
        offset := offset + size;
      }
      return true;
    }

    /** partition_point: the string containing the offset. */
    method FindString(offset: nat) returns (r: nat)
      requires Read() && offset < |contents|
      ensures r < |strings| && Covers(strings[r], offset)
    {
      var lo, hi := 0, |strings|;
      assert strings != [] && TileStart(strings, 0) == 0;
      while lo < hi
        invariant 0 <= lo <= hi <= |strings|
        invariant forall k | 0 <= k < lo :: strings[k].inputOffset <= offset
        invariant forall k | hi <= k < |strings| :: strings[k].inputOffset > offset
      {
        var mid := (lo + hi) / 2;
        if strings[mid].inputOffset <= offset {
          forall k | 0 <= k < mid ensures strings[k].inputOffset <= offset {
            TilesOrdered(contents, strings, |contents|, k, mid);
          }
          lo := mid + 1;
        } else {
          forall k | mid < k < |strings| ensures strings[k].inputOffset > offset {
            TilesOrdered(contents, strings, |contents|, mid, k);
          }
          hi := mid;
        }
      }
      assert strings[0].inputOffset == 0;
      r := lo - 1;
      assert lo < |strings| ==> strings[lo].inputOffset == TileStart(strings, lo);
    }
  }

  /** The string tables of one output section. */
  class StringTable {
    var uniqueStrings: map<seq<byte>, Piece>
    var allStrings: seq<Piece>

    constructor ()
      ensures Valid() && allStrings == []
    {
      uniqueStrings, allStrings := map[], [];
    }

    /** Each content has one canonical string, which is kept; all others with it are excluded. */
    ghost predicate Valid()
      reads this, allStrings
    {
      && (forall d | d in uniqueStrings :: uniqueStrings[d] in allStrings && uniqueStrings[d].data == d)
      && (forall s | s in allStrings :: s.data in uniqueStrings && (s.exclude <==> uniqueStrings[s.data] != s))
    }

    method GetMergedString(s: Piece) returns (r: Piece?)
      ensures r == if s.data in uniqueStrings && uniqueStrings[s.data] != s then uniqueStrings[s.data] else null
    {
      if s.data !in uniqueStrings {
        return null;
      }
      var merged := uniqueStrings[s.data];
      if merged == s {
        return null;
      }
      return merged;
    }

    method AddString(s: Piece)
      modifies this
      ensures allStrings == old(allStrings) + [s]
      ensures uniqueStrings ==
        if s.data in old(uniqueStrings) then old(uniqueStrings) else old(uniqueStrings)[s.data := s]
    {
      allStrings := allStrings + [s];
      if s.data !in uniqueStrings {
        uniqueStrings := uniqueStrings[s.data := s];
      }
    }

    /** Merges a string into the section and returns its canonical copy, the first one added. */
    method MergeString(s: Piece) returns (canonical: Piece)
      requires Valid() && (s in allStrings || !s.exclude)
      modifies this, s`exclude
      ensures Valid() && allStrings == old(allStrings) + [s]
      ensures uniqueStrings ==
        if s.data in old(uniqueStrings) then old(uniqueStrings) else old(uniqueStrings)[s.data := s]
      ensures canonical == uniqueStrings[s.data]
    {
      var merged := GetMergedString(s);
      AddString(s);
      if merged == null {
        return s;
      }
      s.exclude := true;
      return merged;
    }

    /** Merges every string of a section, in order; strings are merged once, before any is laid out. */
    method MergeStringsOf(strings: seq<Piece>)
      requires Valid() && forall p | p in strings :: p !in allStrings && !p.exclude
      requires NoRepeats(strings)
      modifies this, (set p | p in strings)`exclude
      ensures Valid() && allStrings == old(allStrings) + strings
      ensures forall d | d in old(uniqueStrings) :: d in uniqueStrings && uniqueStrings[d] == old(uniqueStrings)[d]
    {
      for i := 0 to |strings|
        invariant Valid() && allStrings == old(allStrings) + strings[..i]
        invariant forall j | i <= j < |strings| :: !strings[j].exclude
        invariant forall d | d in old(uniqueStrings) :: d in uniqueStrings && uniqueStrings[d] == old(uniqueStrings)[d]
      {
        var _ := MergeString(strings[i]);
        assert strings[..i + 1] == strings[..i] + [strings[i]];
      }
      assert strings[..|strings|] == strings;
    }
  }

  /** Where a reference into a string section points in the output section. The output then holds,
      from there up to the NUL, exactly the bytes the input section holds from the offset on. */
  method GetOutputOffset(frag: MergeStringFragment, offset: nat, table: StringTable, sectionSize: nat,
                         ghost out: seq<byte>)
    returns (r: nat)
    requires frag.Read() && table.Valid() && forall p | p in frag.strings :: p in table.allStrings
    requires forall p | p in table.allStrings && !p.exclude :: Emitted(out, p)
    ensures offset >= |frag.contents| ==> r == sectionSize
    ensures offset < |frag.contents| ==> r < |out| && CString(out, r) == CString(frag.contents, offset)
  {
    if offset >= |frag.contents| {
      return sectionSize;
    }
    var i := frag.FindString(offset);
    var s := frag.strings[i];
    var offsetInString := offset - s.inputOffset;
    ghost var tail := s.data[offsetInString..];
    assert frag.contents[offset..offset + |tail|] == tail;
    CStringIs(frag.contents, offset, tail);
    var merged := table.GetMergedString(s);
    var kept := if merged != null then merged else s;
    assert Emitted(out, kept) && kept.data == s.data;
    r := kept.outputOffset + offsetInString;
    assert out[r..r + |tail|] == out[kept.outputOffset..kept.outputOffset + |kept.data|][offsetInString..] == tail;
    CStringIs(out, r, tail);
  }

  function StringsOf(frags: seq<MergeStringFragment>): (r: seq<seq<Piece>>)
    reads frags
    ensures |r| == |frags|
    ensures forall f | 0 <= f < |frags| :: r[f] == frags[f].strings
  {
    if frags == [] then [] else StringsOf(frags[..|frags| - 1]) + [frags[|frags| - 1].strings]
  }

  /** Merges the strings of every fragment of an output section, in order. */
  method MergeAll(frags: seq<seq<Piece>>, table: StringTable)
    requires table.Valid() && table.allStrings == []
    requires forall f | 0 <= f < |frags| :: NoRepeats(frags[f])
    requires forall f, g | 0 <= f < g < |frags| :: Apart(frags[f], frags[g])
    requires forall f, p | 0 <= f < |frags| && p in frags[f] :: !p.exclude
    modifies table, AllPieces(frags)`exclude
    ensures table.Valid() && forall p | p in table.allStrings :: p in AllPieces(frags)
    ensures forall f, p | 0 <= f < |frags| && p in frags[f] :: p in table.allStrings
  {
    for f := 0 to |frags|
      invariant table.Valid() && forall p | p in table.allStrings :: p in AllPieces(frags)
      invariant forall g, p | 0 <= g < f && p in frags[g] :: p in table.allStrings
      invariant forall g, p | f <= g < |frags| && p in frags[g] :: p !in table.allStrings && !p.exclude
    {
      assert forall p | p in frags[f] :: p in AllPieces(frags);
      table.MergeStringsOf(frags[f]);
      forall g, p | f < g < |frags| && p in frags[g] ensures p !in table.allStrings && !p.exclude {
        assert Apart(frags[f], frags[g]);
      }
    }
  }

  method LinkPieces(frags: seq<seq<Piece>>) returns (table: StringTable, out: array<byte>)
    requires forall f | 0 <= f < |frags| :: NoRepeats(frags[f])
    requires forall f, g | 0 <= f < g < |frags| :: Apart(frags[f], frags[g])
    requires forall f, p | 0 <= f < |frags| && p in frags[f] :: !p.exclude
    modifies AllPieces(frags)
    ensures table.Valid() && forall f, p | 0 <= f < |frags| && p in frags[f] :: p in table.allStrings
    ensures forall p | p in table.allStrings && !p.exclude :: Emitted(out[..], p)
  {
    table := new StringTable();
    MergeAll(frags, table);
    var starts;
    out, starts := LayOutNew(frags, seq(|frags|, _ => 1), 0);
    forall p | p in table.allStrings && !p.exclude ensures Emitted(out[..], p) {
      assert p in AllPieces(frags);
      var f :| 0 <= f < |frags| && p in frags[f];
      var j :| 0 <= j < |frags[f]| && frags[f][j] == p;
      assert Emitted(out[..], frags[f][j]);
    }
  }

  /** The whole of string merging for one output section: merge, lay out, emit. Afterwards every
      reference into any of the fragments meets GetOutputOffset's demands. */
  method LinkStrings(frags: seq<MergeStringFragment>) returns (table: StringTable, out: array<byte>)
    requires forall f | 0 <= f < |frags| :: frags[f].Read()
    requires forall f, g | 0 <= f < g < |frags| :: Apart(frags[f].strings, frags[g].strings)
    requires forall f, p | 0 <= f < |frags| && p in frags[f].strings :: !p.exclude
    modifies AllPieces(StringsOf(frags))
    ensures forall f | 0 <= f < |frags| :: frags[f].Read()
    ensures table.Valid() && forall f, p | 0 <= f < |frags| && p in frags[f].strings :: p in table.allStrings
    ensures forall p | p in table.allStrings && !p.exclude :: Emitted(out[..], p)
  {
    table, out := LinkPieces(StringsOf(frags));
  }
}
