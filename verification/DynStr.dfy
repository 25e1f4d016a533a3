/** The dynamic string table: names are appended once each, and every offset handed out keeps reading
    back its name. */
module DynStr {
  import opened Wrappers
  import opened Words
  import opened Buffers

  predicate NulFree(s: seq<byte>) {
    forall i | 0 <= i < |s| :: s[i] != 0
  }

  /** The name and its NUL are stored at the offset. */
  predicate StoredAt(contents: seq<byte>, at: nat, s: seq<byte>) {
    Holds(contents, at, s + [0])
  }

  /** What is stored stays stored as the table grows. */
  lemma StaysStored(contents: seq<byte>, more: seq<byte>, at: nat, s: seq<byte>)
    requires StoredAt(contents, at, s) && contents <= more
    ensures StoredAt(more, at, s)
  {
    StillHolds(contents, more, at, s + [0]);
  }

  /** A stored name reads back exactly if it has no NUL inside. */
  lemma ReadsBack(contents: seq<byte>, at: nat, s: seq<byte>)
    requires StoredAt(contents, at, s)
    ensures CString(contents, at) == s + [0] <==> NulFree(s)
  {
    if NulFree(s) {
      CStringIs(contents, at, s + [0]);
    } else {
      var i :| 0 <= i < |s| && s[i] == 0;
      assert contents[at + i] == contents[at..at + |s| + 1][i] == 0;
      var nul := FindNul(contents, at);
      assert nul.Some? && nul.value <= at + i;
    }
  }

  class DynStrFragment {
    var contents: seq<byte>
    var offsets: map<seq<byte>, nat>

    /** Offset 0 is the empty name. */
    constructor ()
      ensures Valid() && contents == [0] && offsets == map[]
    {
      contents, offsets := [0], map[];
    }

    ghost predicate Valid()
      reads this
    {
      |contents| > 0 && contents[0] == 0 && forall s | s in offsets ::
        0 < offsets[s] && StoredAt(contents, offsets[s], s)
    }

    /** Adds a name, once. */
    method AddString(s: seq<byte>) returns (offset: nat)
      requires Valid()
      modifies this
      ensures Valid() && old(contents) <= contents && offsets == old(offsets)[s := offset]
      ensures StoredAt(contents, offset, s)
      ensures if s in old(offsets) then contents == old(contents) && offset == old(offsets)[s]
              else contents == old(contents) + s + [0] && offset == |old(contents)|
    {
      if s in offsets {
        assert offsets == offsets[s := offsets[s]];
        return offsets[s];
      }
      offset := |contents|;
      ghost var was := contents;
      contents := contents + s;
      contents := contents + [0];
      offsets := offsets[s := offset];
      assert contents[offset..offset + |s| + 1] == s + [0];
      forall d | d in offsets ensures StoredAt(contents, offsets[d], d) {
        if d != s {
          StaysStored(was, contents, offsets[d], d);
        }
      }
    }

    method GetStringOffset(s: seq<byte>) returns (r: Option<nat>)
      requires Valid()
      ensures r == (if s in offsets then Some(offsets[s]) else None)
      ensures r.Some? ==> StoredAt(contents, r.value, s)
    {
      if s in offsets {
        return Some(offsets[s]);
      }
      return None;
    }
  }
}
