/** Bytes, C strings and the little-endian integers of the wire formats. */
module Bytes {
  type byte = x: int | 0 <= x < 256
  type bytes = seq<byte>

  /** A NUL-terminated C string, without its terminator. */
  type cstring = s: seq<byte> | forall i :: 0 <= i < |s| ==> s[i] != 0

  function Concat<T>(chunks: seq<seq<T>>): seq<T> {
    if chunks == [] then [] else chunks[0] + Concat(chunks[1..])
  }

  lemma {:induction false} ConcatSnoc<T>(chunks: seq<seq<T>>, c: seq<T>)
    ensures Concat(chunks + [c]) == Concat(chunks) + c
  {
    if chunks == [] {
      assert chunks + [c] == [c] && Concat([c]) == c + Concat([]);
    } else {
      assert (chunks + [c])[1..] == chunks[1..] + [c];
      ConcatSnoc(chunks[1..], c);
    }
  }

  const INT_MAX: int := 0x7FFF_FFFF
  const INT_MIN: int := -0x8000_0000

  type int32 = x: int | -0x8000_0000 <= x <= 0x7FFF_FFFF
  type int64 = x: int | -0x8000_0000_0000_0000 <= x <= 0x7FFF_FFFF_FFFF_FFFF
  type word = x: int | 0 <= x < 0x1_0000_0000

  function Pow256(k: nat): (p: int)
    ensures p >= 1
  {
    if k == 0 then 1 else 256 * Pow256(k - 1)
  }

  /** The k low-order bytes of x in two's complement, least significant first. */
  function LittleEndian(x: int, k: nat): (s: bytes)
    ensures |s| == k
    decreases k
  {
    if k == 0 then [] else [x % 256] + LittleEndian(x / 256, k - 1)
  }

  /** The unsigned number that s spells, least significant byte first. */
  function Unsigned(s: bytes): (n: nat)
    ensures n < Pow256(|s|)
  {
    if s == [] then 0 else s[0] + 256 * Unsigned(s[1..])
  }

  /** The two's complement number that s spells. */
  function Signed(s: bytes): (n: int)
    requires s != []
  {
    if s[|s| - 1] < 128 then Unsigned(s) else Unsigned(s) - Pow256(|s|)
  }

  lemma DivMod256(x: int, p: int)
    requires p > 0
    ensures x % 256 + 256 * ((x / 256) % p) == x % (256 * p)
  {
    var r := x % 256 + 256 * ((x / 256) % p);
    var q := (x / 256) / p;
    assert x / 256 == p * q + (x / 256) % p;
    assert x == (256 * p) * q + r;
    ModUnique(x, 256 * p, q, r);
  }

  lemma ModUnique(x: int, m: int, q: int, r: int)
    requires m > 0 && 0 <= r < m && x == m * q + r
    ensures x % m == r
  {
    var d := x / m - q;
    assert m * d == r - x % m;
    assert d >= 1 ==> m * d >= m;
    assert d <= -1 ==> m * d <= -m;
  }

  /** Writing then reading k bytes gives the number modulo 256^k. */
  lemma {:induction false} UnsignedLittleEndian(x: int, k: nat)
    ensures Unsigned(LittleEndian(x, k)) == x % Pow256(k)
    decreases k
  {
    if k > 0 {
      UnsignedLittleEndian(x / 256, k - 1);
      assert LittleEndian(x, k)[1..] == LittleEndian(x / 256, k - 1);
      DivMod256(x, Pow256(k - 1));
    }
  }

  /** The top byte carries the sign. */
  lemma {:induction false} UnsignedTop(s: bytes)
    requires s != []
    ensures s[|s| - 1] < 128 <==> 2 * Unsigned(s) < Pow256(|s|)
    decreases |s|
  {
    if |s| > 1 {
      UnsignedTop(s[1..]);
      assert s[1..][|s| - 2] == s[|s| - 1];
      assert Pow256(|s|) == 256 * Pow256(|s| - 1);
      PowEven(|s| - 1);
    }
  }

  lemma PowEven(k: nat)
    requires k > 0
    ensures Pow256(k) % 2 == 0
  {
    assert Pow256(k) == 2 * (128 * Pow256(k - 1));
  }

  /** Two's complement round trip for every number that fits k bytes. */
  lemma SignedLittleEndian(x: int, k: nat)
    requires k > 0 && -Pow256(k) <= 2 * x < Pow256(k)
    ensures Signed(LittleEndian(x, k)) == x
  {
    var p := Pow256(k);
    UnsignedLittleEndian(x, k);
    UnsignedTop(LittleEndian(x, k));
    if x >= 0 {
      ModUnique(x, p, 0, x);
    } else {
      ModUnique(x, p, -1, x + p);
    }
  }

  lemma Signed32(x: int32)
    ensures Signed(LittleEndian(x, 4)) == x
  {
    Pow256Values();
    SignedLittleEndian(x, 4);
  }

  lemma Signed64(x: int64)
    ensures Signed(LittleEndian(x, 8)) == x
  {
    Pow256Values();
    SignedLittleEndian(x, 8);
  }

  lemma Pow256Values()
    ensures Pow256(4) == 0x1_0000_0000
    ensures Pow256(8) == 0x1_0000_0000_0000_0000
  {
    assert Pow256(2) == 0x1_0000;
    assert Pow256(4) == 256 * (256 * Pow256(2));
    assert Pow256(6) == 256 * (256 * Pow256(4));
    assert Pow256(8) == 256 * (256 * Pow256(6));
  }

  /** Only the value modulo 256^k matters. */
  lemma {:induction false} LittleEndianCongruent(x: int, y: int, k: nat)
    requires x % Pow256(k) == y % Pow256(k)
    ensures LittleEndian(x, k) == LittleEndian(y, k)
    decreases k
  {
    if k > 0 {
      var p := Pow256(k - 1);
      DivMod256(x, p);
      DivMod256(y, p);
      LittleEndianCongruent(x / 256, y / 256, k - 1);
    }
  }

  lemma {:induction false} LittleEndianSplit(x: int, k: nat, j: nat)
    ensures LittleEndian(x, k + j) == LittleEndian(x, k) + LittleEndian(x / Pow256(k), j)
    decreases k
  {
    if k > 0 {
      LittleEndianSplit(x / 256, k - 1, j);
      DivDiv(x, 256, Pow256(k - 1));
    }
  }

  lemma DivDiv(x: int, a: int, b: int)
    requires a > 0 && b > 0
    ensures a * b > 0 && (x / a) / b == x / (a * b)
  {
    var q := (x / a) / b;
    var r := a * ((x / a) % b) + x % a;
    assert x == (a * b) * q + r;
    assert a * ((x / a) % b) <= a * (b - 1);
    DivUnique(x, a * b, q, r);
  }

  lemma DivUnique(x: int, m: int, q: int, r: int)
    requires m > 0 && 0 <= r < m && x == m * q + r
    ensures x / m == q
  {
    ModUnique(x, m, q, r);
    assert m * (x / m - q) == 0;
  }

  /** Spelled out, low-order byte first. */
  lemma FourBytes(x: int, n: nat)
    requires n == 4
    ensures LittleEndian(x, n) == [x % 256, (x / 256) % 256, (x / 256 / 256) % 256, (x / 256 / 256 / 256) % 256]
  {
    assert LittleEndian(x / 256 / 256 / 256 / 256, n - 4) == [];
  }

  lemma EightBytes(x: int, n: nat)
    requires n == 8 && 0 <= x < 256
    ensures LittleEndian(x, n) == [x, 0, 0, 0, 0, 0, 0, 0]
  {
    FourBytes(0, n - 4);
    assert LittleEndian(x, n) == [x] + LittleEndian(0, n - 1);
    assert LittleEndian(0, n - 1) == [0, 0, 0] + LittleEndian(0, n - 4);
  }
}
