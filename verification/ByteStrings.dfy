/** Byte strings, little-endian fixed-width fields and Go's 64-bit integer conversions. */
module ByteStrings {
  type byte = x: int | 0 <= x < 256
  type bytes = seq<byte>

  const TWO_63: int := 0x8000_0000_0000_0000
  const TWO_64: int := 0x1_0000_0000_0000_0000

  function Pow256(k: nat): (p: nat)
    ensures p > 0
  {
    if k == 0 then 1 else 256 * Pow256(k - 1)
  }

  lemma Pow256Values()
    ensures Pow256(1) == 0x100
    ensures Pow256(2) == 0x1_0000
    ensures Pow256(4) == 0x1_0000_0000
    ensures Pow256(6) == 0x1_0000_0000_0000
    ensures Pow256(8) == TWO_64
  {
    assert Pow256(2) == 0x1_0000;
    assert Pow256(4) == 256 * 256 * Pow256(2);
    assert Pow256(6) == 256 * 256 * Pow256(4);
    assert Pow256(8) == 256 * 256 * Pow256(6);
  }

  /** binary.LittleEndian.PutUintN for a field of k bytes: the value is truncated to k bytes. */
  function LittleEndian(n: nat, k: nat): (s: bytes)
    ensures |s| == k
    decreases k
  {
    if k == 0 then [] else [n % 256] + LittleEndian(n / 256, k - 1)
  }

  /** binary.LittleEndian.UintN. */
  function FromLittleEndian(s: bytes): (n: nat)
    ensures n < Pow256(|s|)
  {
    if s == [] then 0 else s[0] + 256 * FromLittleEndian(s[1..])
  }

  lemma {:induction false} LittleEndianRoundTrip(n: nat, k: nat)
    requires n < Pow256(k)
    ensures FromLittleEndian(LittleEndian(n, k)) == n
    decreases k
  {
    if k > 0 {
      var s := LittleEndian(n, k);
      assert s[1..] == LittleEndian(n / 256, k - 1);
      LittleEndianRoundTrip(n / 256, k - 1);
    }
  }

  lemma LowestByte(b: byte, n: nat)
    ensures (b + 256 * n) % 256 == b && (b + 256 * n) / 256 == n
  {
  }

  /** ... and back: a field of k bytes is the encoding of the number it holds. */
  lemma {:induction false} FromLittleEndianRoundTrip(s: bytes)
    ensures LittleEndian(FromLittleEndian(s), |s|) == s
  {
    hide Pow256;
    if s != [] {
      var n := FromLittleEndian(s[1..]);
      FromLittleEndianRoundTrip(s[1..]);
      LowestByte(s[0], n);
      assert s == [s[0]] + s[1..];
    }
  }

  lemma {:induction false} ZeroBytes(s: bytes)
    requires forall i :: 0 <= i < |s| ==> s[i] == 0
    ensures FromLittleEndian(s) == 0
  {
    if s != [] { ZeroBytes(s[1..]); }
  }

  /** All bytes but the last are zero. */
  lemma {:induction false} TopByte(s: bytes)
    requires s != [] && forall i :: 0 <= i < |s| - 1 ==> s[i] == 0
    ensures FromLittleEndian(s) == s[|s| - 1] * Pow256(|s| - 1)
  {
    if |s| > 1 {
      TopByte(s[1..]);
      assert Pow256(|s| - 1) == 256 * Pow256(|s| - 2);
    } else {
      assert s[1..] == [];
    }
  }

  /** A value below 256^j has zero bytes from position j on. */
  lemma {:induction false} LittleEndianHighBytesZero(n: nat, k: nat, j: nat, i: nat)
    requires n < Pow256(j) && j <= i < k
    ensures LittleEndian(n, k)[i] == 0
    decreases k
  {
    if j == 0 {
      if i > 0 { LittleEndianHighBytesZero(n / 256, k - 1, 0, i - 1); }
    } else {
      LittleEndianHighBytesZero(n / 256, k - 1, j - 1, i - 1);
    }
  }

  /** Go's int(u) for a uint64 u on a 64-bit platform. */
  function AsInt64(u: nat): (i: int)
    requires u < TWO_64
  {
    if u < TWO_63 then u else u - TWO_64
  }

  /** Go's wrap-around of a signed 64-bit sum whose exact value is x. */
  function WrapInt64(x: int): (i: int)
    ensures -TWO_63 <= i < TWO_63
    ensures -TWO_63 <= x < TWO_63 ==> i == x
  {
    (x + TWO_63) % TWO_64 - TWO_63
  }

  /** bytes.HasPrefix / strings.HasPrefix. */
  predicate HasPrefix<T(==)>(s: seq<T>, p: seq<T>) {
    |p| <= |s| && s[..|p|] == p
  }

  predicate HasSuffix<T(==)>(s: seq<T>, p: seq<T>) {
    |p| <= |s| && s[|s| - |p|..] == p
  }

  /** Two concatenations with right parts of equal length are equal only part by part. */
  lemma SplitRight<T>(a: seq<T>, b: seq<T>, c: seq<T>, d: seq<T>)
    requires a + b == c + d && |b| == |d|
    ensures a == c && b == d
  {
    assert |a| == |c|;
    assert a == (a + b)[..|a|] && c == (c + d)[..|c|];
    assert b == (a + b)[|a|..] && d == (c + d)[|c|..];
  }

  lemma SplitLeft<T>(a: seq<T>, b: seq<T>, c: seq<T>, d: seq<T>)
    requires a + b == c + d && |a| == |c|
    ensures a == c && b == d
  {
    SplitRight(a, b, c, d);
  }
}
