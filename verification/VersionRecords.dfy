/** What the two version tables share: the widths of their fields, and names held by 32-bit offsets. */
module VersionRecords {
  import opened Wrappers
  import opened Words
  import opened Buffers
  import opened DynStr

  /** What a 16-bit and a 32-bit field keep of a number. */
  function Half(x: nat): half { x % 0x1_0000 }

  function Word(x: nat): word { x % 0x1_0000_0000 }

  /** The last field of a record that is held, and what is before it. */
  lemma LastHalf(t: seq<byte>, at: nat, s: seq<byte>, v: half)
    requires Holds(t, at, s + LittleEndian(v, 2))
    ensures Holds(t, at, s) && HalfAt(t, at + |s|) == v
  {
    HoldsSplit(t, at, s, LittleEndian(v, 2));
    ReadBack2(v);
  }

  lemma LastWord(t: seq<byte>, at: nat, s: seq<byte>, v: word)
    requires Holds(t, at, s + LittleEndian(v, 4))
    ensures Holds(t, at, s) && WordAt(t, at + |s|) == v
  {
    HoldsSplit(t, at, s, LittleEndian(v, 4));
    ReadBack4(v);
  }

  // ---- following links ------------------------------------------------------------------------

  /** An item read at some position, and how far on the next one is; 0 ends the list. */
  datatype Link<T> = Link(item: T, next: nat)

  /** The items from a position on, following the links of a section that ends at end. */
  function Follow<T>(linkAt: nat -> Option<Link<T>>, end: nat, at: nat): Option<seq<T>>
    decreases end - at
  {
    if at >= end || linkAt(at).None? then None else
      var link := linkAt(at).value;
      if link.next == 0 then Some([link.item]) else
        var rest := Follow(linkAt, end, at + link.next);
        if rest.None? then None else Some([link.item] + rest.value)
  }

  /** Item k is read at its place and leads on to the next one, the last one nowhere. */
  ghost predicate Linked<T>(linkAt: nat -> Option<Link<T>>, end: nat, items: seq<T>, places: seq<nat>, k: nat)
    requires k < |items| == |places|
  {
    && places[k] < end && linkAt(places[k]).Some? && linkAt(places[k]).value.item == items[k]
    && if k + 1 == |items| then linkAt(places[k]).value.next == 0
       else places[k] < places[k + 1] == places[k] + linkAt(places[k]).value.next
  }

  /** Following such links gives all the items. */
  lemma {:induction false} FollowReads<T>(linkAt: nat -> Option<Link<T>>, end: nat, items: seq<T>, places: seq<nat>,
                                          i: nat)
    requires i < |items| == |places|
    requires forall k {:trigger Linked(linkAt, end, items, places, k)} | 0 <= k < |items| ::
      Linked(linkAt, end, items, places, k)
    ensures Follow(linkAt, end, places[i]) == Some(items[i..])
    decreases |items| - i
  {
    assert Linked(linkAt, end, items, places, i);
    if i + 1 < |items| {
      FollowReads(linkAt, end, items, places, i + 1);
      assert items[i..] == [items[i]] + items[i + 1..];
    } else {
      assert items[i..] == [items[i]];
    }
  }

  // ---- names ----------------------------------------------------------------------------------

  /** The offset is what 32 bits keep of a place where the name is stored. */
  ghost predicate Named(contents: seq<byte>, offset: word, name: seq<byte>) {
    exists at: nat :: StoredAt(contents, at, name) && offset == Word(at)
  }

  lemma NameStays(contents: seq<byte>, more: seq<byte>, offset: word, name: seq<byte>)
    requires Named(contents, offset, name) && contents <= more
    ensures Named(more, offset, name)
  {
    var at: nat :| StoredAt(contents, at, name) && offset == Word(at);
    StaysStored(contents, more, at, name);
  }

  /** In a string table that 32-bit offsets can reach, the name is stored at the offset itself. */
  lemma NameFound(contents: seq<byte>, offset: word, name: seq<byte>)
    requires |contents| <= 0x1_0000_0000
    ensures Named(contents, offset, name) <==> StoredAt(contents, offset, name)
  {
    if StoredAt(contents, offset, name) {
      assert offset == Word(offset);
    }
  }
}
