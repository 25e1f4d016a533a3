/** Output buffers: writing bytes, and what readers find in them. */
module Buffers {
  import opened Wrappers
  import opened Words

  predicate Holds(out: seq<byte>, at: nat, bytes: seq<byte>) {
    at + |bytes| <= |out| && out[at..at + |bytes|] == bytes
  }

  lemma StillHolds(was: seq<byte>, now: seq<byte>, at: nat, bytes: seq<byte>)
    requires Holds(was, at, bytes) && |was| <= |now| && now[..|was|] == was
    ensures Holds(now, at, bytes)
  {
    assert now[at..at + |bytes|] == now[..|was|][at..at + |bytes|];
  }

  lemma HoldsBehind(was: seq<byte>, bytes: seq<byte>)
    ensures Holds(was + bytes, |was|, bytes) && (was + bytes)[..|was|] == was
  {
  }

  method CopyBytes(out: array<byte>, at: nat, bytes: seq<byte>)
    requires at + |bytes| <= out.Length
    modifies out
    ensures out[at..at + |bytes|] == bytes
    ensures forall k | 0 <= k < at || at + |bytes| <= k < out.Length :: out[k] == old(out[k])
  {
    for i := 0 to |bytes|
      invariant out[at..at + i] == bytes[..i]
      invariant forall k | 0 <= k < at || at + i <= k < out.Length :: out[k] == old(out[k])
    {
      out[at + i] := bytes[i];
    }
  }

  /** The buffer s with the bytes written at a position. */
  function Overwrite(s: seq<byte>, at: nat, bytes: seq<byte>): (r: seq<byte>)
    requires at + |bytes| <= |s|
    ensures |r| == |s|
  {
    s[..at] + bytes + s[at + |bytes|..]
  }

  /** Writing on behind what was written. */
  lemma OverwriteBehind(s: seq<byte>, at: nat, a: seq<byte>, b: seq<byte>)
    requires at + |a| + |b| <= |s|
    ensures Overwrite(Overwrite(s, at, a), at + |a|, b) == Overwrite(s, at, a + b)
  {
  }

  /** Writing over part of what was written. */
  lemma OverwriteInside(s: seq<byte>, at: nat, a: seq<byte>, k: nat, b: seq<byte>)
    requires at + |a| <= |s| && k + |b| <= |a|
    ensures Overwrite(Overwrite(s, at, a), at + k, b) == Overwrite(s, at, Overwrite(a, k, b))
  {
  }

  /** now is was but for the positions from lo up to hi. */
  ghost predicate SameOutside(was: seq<byte>, now: seq<byte>, lo: nat, hi: nat) {
    |now| == |was| && forall k | 0 <= k < |was| && (k < lo || hi <= k) :: now[k] == was[k]
  }

  lemma OverwriteHolds(s: seq<byte>, at: nat, bytes: seq<byte>)
    requires at + |bytes| <= |s|
    ensures Holds(Overwrite(s, at, bytes), at, bytes) && SameOutside(s, Overwrite(s, at, bytes), at, at + |bytes|)
  {
  }

  lemma HoldsApart(was: seq<byte>, now: seq<byte>, lo: nat, hi: nat, at: nat, bytes: seq<byte>)
    requires SameOutside(was, now, lo, hi) && Holds(was, at, bytes) && (at + |bytes| <= lo || hi <= at)
    ensures Holds(now, at, bytes)
  {
    assert now[at..at + |bytes|] == was[at..at + |bytes|];
  }

  /** A change inside a wider stretch, after changes within that stretch. */
  lemma SameOutsideWider(was: seq<byte>, before: seq<byte>, now: seq<byte>, lo: nat, hi: nat, low: nat, high: nat)
    requires SameOutside(was, before, low, high) && SameOutside(before, now, lo, hi) && low <= lo && hi <= high
    ensures SameOutside(was, now, low, high)
  {
  }

  lemma HoldsJoined(out: seq<byte>, at: nat, a: seq<byte>, b: seq<byte>)
    requires Holds(out, at, a) && Holds(out, at + |a|, b)
    ensures Holds(out, at, a + b)
  {
    var end := at + |a| + |b|;
    assert out[at..end] == out[at..at + |a|] + out[at + |a|..end];
  }

  lemma HoldsSplit(out: seq<byte>, at: nat, a: seq<byte>, b: seq<byte>)
    requires Holds(out, at, a + b)
    ensures Holds(out, at, a) && Holds(out, at + |a|, b)
  {
    assert out[at..at + |a|] == out[at..at + |a + b|][..|a|] == (a + b)[..|a|];
    assert out[at + |a|..at + |a| + |b|] == out[at..at + |a + b|][|a|..] == (a + b)[|a|..];
  }

  lemma HoldsPrefix(out: seq<byte>, at: nat, bytes: seq<byte>, n: nat)
    requires Holds(out, at, bytes) && n <= |bytes|
    ensures Holds(out, at, bytes[..n])
  {
    assert out[at..at + n] == out[at..at + |bytes|][..n];
  }

  /** Where one stretch and what is behind it are known, a longer one is there exactly if the rest agrees. */
  lemma HoldsInTwo(out: seq<byte>, at: nat, a: seq<byte>, b: seq<byte>, behind: seq<byte>)
    requires Holds(out, at, a) && Holds(out, at + |a|, behind) && |b| == |behind|
    ensures Holds(out, at, a + b) <==> b == behind
  {
    if Holds(out, at, a + b) {
      assert out[at..at + |a + b|][|a|..] == out[at + |a|..at + |a| + |b|];
      assert (a + b)[|a|..] == b;
    }
    if b == behind {
      HoldsJoined(out, at, a, b);
    }
  }

  lemma OverwrittenBy(was: seq<byte>, now: seq<byte>, at: nat, bytes: seq<byte>)
    requires SameOutside(was, now, at, at + |bytes|) && Holds(now, at, bytes)
    ensures now == Overwrite(was, at, bytes)
  {
    forall k | 0 <= k < |now| ensures now[k] == Overwrite(was, at, bytes)[k] {
      if at <= k < at + |bytes| {
        assert now[at..at + |bytes|][k - at] == bytes[k - at];
      }
    }
  }

  lemma HoldsPatched(s: seq<byte>, at: nat, a: seq<byte>, k: nat, b: seq<byte>)
    requires Holds(s, at, a) && k + |b| <= |a|
    ensures Holds(Overwrite(s, at + k, b), at, Overwrite(a, k, b))
  {
    var r := Overwrite(s, at + k, b);
    forall m | 0 <= m < |a| ensures r[at..at + |a|][m] == Overwrite(a, k, b)[m] {
      assert s[at..at + |a|][m] == a[m];
    }
  }

  method Write(out: array<byte>, at: nat, bytes: seq<byte>)
    requires at + |bytes| <= out.Length
    modifies out
    ensures out[..] == Overwrite(old(out[..]), at, bytes)
  {
    CopyBytes(out, at, bytes);
  }

  lemma SliceOfSlice<T>(s: seq<T>, i: nat, j: nat, k: nat, l: nat)
    requires i <= j <= |s| && k <= l <= j - i
    ensures s[i..j][k..l] == s[i + k..i + l]
  {
    assert forall m | 0 <= m < l - k :: s[i..j][k..l][m] == s[i..j][k + m] == s[i + k..i + l][m];
  }

  lemma HoldsWithin(out: seq<byte>, at: nat, a: seq<byte>, k: nat, b: seq<byte>)
    requires Holds(out, at, a) && Holds(a, k, b)
    ensures Holds(out, at + k, b)
  {
    SliceOfSlice(out, at, at + |a|, k, k + |b|);
  }

  function WordAt(data: seq<byte>, at: nat): word
    requires at + 4 <= |data|
  {
    ValueInRange(data[at..at + 4]);
    FieldRanges();
    Value(data[at..at + 4])
  }

  function HalfAt(data: seq<byte>, at: nat): half
    requires at + 2 <= |data|
  {
    ValueInRange(data[at..at + 2]);
    FieldRanges();
    Value(data[at..at + 2])
  }

  /** The first k of some stretches of bytes, one behind the other. */
  function Flat(parts: seq<seq<byte>>, k: nat): seq<byte>
    requires k <= |parts|
  {
    if k == 0 then [] else Flat(parts, k - 1) + parts[k - 1]
  }

  lemma {:induction false} FlatMonotone(parts: seq<seq<byte>>, j: nat, k: nat)
    requires j <= k <= |parts|
    ensures |Flat(parts, j)| <= |Flat(parts, k)|
    decreases k
  {
    if j < k {
      FlatMonotone(parts, j, k - 1);
    }
  }

  lemma {:induction false} FlatAt(parts: seq<seq<byte>>, i: nat, n: nat)
    requires i < n <= |parts|
    ensures Holds(Flat(parts, n), |Flat(parts, i)|, parts[i])
    decreases n
  {
    if i < n - 1 {
      FlatAt(parts, i, n - 1);
      StillHolds(Flat(parts, n - 1), Flat(parts, n), |Flat(parts, i)|, parts[i]);
    }
  }

  /** A string with its terminating NUL, and no other. */
  predicate IsString(s: seq<byte>) {
    s != [] && s[|s| - 1] == 0 && forall i | 0 <= i < |s| - 1 :: s[i] != 0
  }

  /** StringRef::find of a NUL. */
  function FindNul(s: seq<byte>, from: nat): (r: Option<nat>)
    requires from <= |s|
    ensures r.Some? ==> from <= r.value < |s| && s[r.value] == 0 && forall i | from <= i < r.value :: s[i] != 0
    ensures r.None? ==> forall i | from <= i < |s| :: s[i] != 0
    decreases |s| - from
  {
    if from == |s| then None else if s[from] == 0 then Some(from) else FindNul(s, from + 1)
  }

  /** The bytes from an offset up to and including the next NUL. */
  function CString(s: seq<byte>, at: nat): seq<byte>
    requires at <= |s|
  {
    var nul := FindNul(s, at);
    if nul.None? then s[at..] else s[at..nul.value + 1]
  }

  lemma CStringIs(s: seq<byte>, at: nat, str: seq<byte>)
    requires IsString(str) && at + |str| <= |s| && s[at..at + |str|] == str
    ensures CString(s, at) == str
  {
    var nul := FindNul(s, at);
    var last := at + |str| - 1;
    assert s[last] == s[at..at + |str|][|str| - 1] == 0;
    forall i | at <= i < last ensures s[i] != 0 {
      assert s[i] == s[at..at + |str|][i - at];
    }
  }
}
