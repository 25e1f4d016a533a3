/** Bytes and little-endian words, as the section writers store and the loaders read them. */
module Words {

  type byte = x: int | 0 <= x < 0x100
  type half = x: int | 0 <= x < 0x1_0000
  type word = x: int | 0 <= x < 0x1_0000_0000

  /** The n low bytes of v, least significant first. */
  function LittleEndian(v: nat, n: nat): (s: seq<byte>)
    ensures |s| == n
  {
    if n == 0 then [] else [v % 0x100] + LittleEndian(v / 0x100, n - 1)
  }

  /** What a little-endian reader makes of the bytes s. */
  function Value(s: seq<byte>): nat {
    if s == [] then 0 else s[0] + 0x100 * Value(s[1..])
  }

  /** Two, four and eight bytes as numbers, the first byte being the least. */
  lemma TwoBytes(a: byte, b: byte)
    ensures Value([a, b]) == a + 0x100 * b
  {
    assert [a, b][1..] == [b] && [b][1..] == [];
    assert Value([b]) == b;
  }

  lemma FourBytes(a: byte, b: byte, c: byte, d: byte)
    ensures Value([a, b, c, d]) == a + 0x100 * b + 0x1_0000 * c + 0x100_0000 * d
  {
    assert [a, b, c, d][1..] == [b, c, d] && [b, c, d][1..] == [c, d];
    TwoBytes(c, d);
  }

  lemma EightBytes(s: seq<byte>)
    requires |s| == 8
    ensures Value(s) == Value(s[..4]) + 0x1_0000_0000 * Value(s[4..])
  {
    assert s[1..][1..][1..][1..] == s[4..];
    assert s == [s[0]] + ([s[1]] + ([s[2]] + ([s[3]] + s[4..])));
    assert s[..4] == [s[0], s[1], s[2], s[3]];
    FourBytes(s[0], s[1], s[2], s[3]);
    assert s[1..] == [s[1]] + s[2..] && s[2..] == [s[2]] + s[3..] && s[3..] == [s[3]] + s[4..];
  }

  function Range(n: nat): (r: nat)
    ensures r > 0
  {
    if n == 0 then 1 else 0x100 * Range(n - 1)
  }

  /** Reading back n written bytes gives the value, if it fits in n bytes. */
  lemma {:induction false} ReadBack(v: nat, n: nat)
    requires v < Range(n)
    ensures Value(LittleEndian(v, n)) == v
  {
    if n != 0 {
      ReadBack(v / 0x100, n - 1);
      assert LittleEndian(v, n)[1..] == LittleEndian(v / 0x100, n - 1);
    }
  }

  lemma FieldRanges()
    ensures Range(2) == 0x1_0000 && Range(4) == 0x1_0000_0000
  {
    assert Range(4) == 0x100 * Range(3) && Range(3) == 0x100 * Range(2) && Range(2) == 0x100 * Range(1);
  }

  lemma LongRange()
    ensures Range(8) == 0x1_0000_0000_0000_0000
  {
    FieldRanges();
    assert Range(8) == 0x100 * Range(7) && Range(7) == 0x100 * Range(6) && Range(6) == 0x100 * Range(5) &&
      Range(5) == 0x100 * Range(4);
  }

  lemma ReadBack2(v: half)
    ensures Value(LittleEndian(v, 2)) == v
  {
    FieldRanges();
    ReadBack(v, 2);
  }

  lemma ReadBack4(v: nat)
    requires v < 0x1_0000_0000
    ensures Value(LittleEndian(v, 4)) == v
  {
    FieldRanges();
    ReadBack(v, 4);
  }

  lemma {:induction false} ValueInRange(s: seq<byte>)
    ensures Value(s) < Range(|s|)
  {
    if s != [] {
      ValueInRange(s[1..]);
    }
  }

  /** h % n, by subtraction. */
  function Remainder(h: nat, n: nat): (r: nat)
    requires n > 0
    ensures r < n
    decreases h
  {
    if h < n then h else Remainder(h - n, n)
  }

  lemma {:induction false} RemainderOf(h: nat, n: nat) returns (q: nat)
    requires n > 0
    ensures h == q * n + Remainder(h, n)
    decreases h
  {
    if h < n {
      q := 0;
    } else {
      var p := RemainderOf(h - n, n);
      q := p + 1;
      assert (p + 1) * n == p * n + n;
    }
  }

  lemma RemainderIsModulo(h: nat, n: nat)
    requires n > 0
    ensures Remainder(h, n) == h % n
  {
    var q := RemainderOf(h, n);
    var q', r' := h / n, h % n;
    assert h == q' * n + r';
    assert (q' - q) * n == Remainder(h, n) - r';
    assert (q - q') * n == r' - Remainder(h, n);
    if q < q' {
      MultipleBound(q' - q, n);
    } else if q' < q {
      MultipleBound(q - q', n);
    }
  }

  lemma MultipleBound(a: nat, n: nat)
    requires a > 0
    ensures a * n >= n
  {
    assert a * n == n + (a - 1) * n;
  }

  lemma {:induction false} RemainderUnique(h: nat, n: nat, q: nat, r: nat)
    requires h == q * n + r && r < n
    ensures Remainder(h, n) == r
    decreases q
  {
    if q > 0 {
      assert q * n == (q - 1) * n + n;
      RemainderUnique(h - n, n, q - 1, r);
    }
  }

  lemma Regroup(q: nat, k: nat, p: nat, a: nat)
    ensures q * (k * a) + p * a == (q * k + p) * a
  {
    assert q * (k * a) == (q * k) * a;
  }

  /** Taking remainders by a multiple first changes nothing. */
  lemma RemainderOfMultiple(x: nat, a: nat, k: nat)
    requires a > 0 && k * a > 0
    ensures Remainder(Remainder(x, k * a), a) == Remainder(x, a)
  {
    var q := RemainderOf(x, k * a);
    var r := Remainder(x, k * a);
    var p := RemainderOf(r, a);
    Regroup(q, k, p, a);
    RemainderUnique(x, a, q * k + p, Remainder(r, a));
  }

  /** Adding y keeps the remainder exactly when y is a multiple. */
  lemma RemainderAfterAdding(x: nat, y: nat, a: nat)
    requires a > 0
    ensures Remainder(x + y, a) == Remainder(x, a) <==> Remainder(y, a) == 0
  {
    var p := RemainderOf(x, a);
    var q := RemainderOf(y, a);
    var r, s := Remainder(x, a), Remainder(y, a);
    assert (p + q) * a == p * a + q * a;
    if r + s < a {
      RemainderUnique(x + y, a, p + q, r + s);
    } else {
      assert (p + q + 1) * a == (p + q) * a + a;
      RemainderUnique(x + y, a, p + q + 1, r + s - a);
    }
  }

  function Pow2(k: nat): (r: nat)
    ensures r > 0
  {
    if k == 0 then 1 else 2 * Pow2(k - 1)
  }

  lemma {:induction false} Pow2Grows(a: nat, b: nat)
    requires a <= b
    ensures Pow2(a) <= Pow2(b)
    decreases b
  {
    if a < b {
      Pow2Grows(a, b - 1);
    }
  }

  lemma DoubleProduct(x: int, y: int)
    ensures x * (2 * y) == 2 * (x * y)
  {
  }

  lemma {:induction false} Pow2Product(i: nat, j: nat)
    ensures Pow2(i + j) == Pow2(i) * Pow2(j)
    decreases j
  {
    if j > 0 {
      Pow2Product(i, j - 1);
      DoubleProduct(Pow2(i), Pow2(j - 1));
    }
  }

  /** Numbers a multiple of 2^32 apart are the same in 32 bits. */
  lemma SameWord(x: int, y: int, d: int)
    requires y == x + 0x1_0000_0000 * d
    ensures x % 0x1_0000_0000 == y % 0x1_0000_0000
  {
    var q, r := x / 0x1_0000_0000, x % 0x1_0000_0000;
    assert y == 0x1_0000_0000 * (q + d) + r;
  }
}
