/** Hexadecimal text as bytes (encoding/hex): lower case on encoding, both cases on decoding. */
module Hex {
  import opened Outcomes
  import opened ByteStrings

  function Digit(n: nat): (d: byte)
    requires n < 16
  {
    if n < 10 then 48 + n else 87 + n
  }

  predicate IsHex(d: byte) {
    48 <= d <= 57 || 97 <= d <= 102 || 65 <= d <= 70
  }

  function Value(d: byte): (n: nat)
    requires IsHex(d)
    ensures n < 16
  {
    if d <= 57 then d - 48 else if d <= 70 then d - 55 else d - 87
  }

  function Encode(s: bytes): (t: bytes)
    ensures |t| == 2 * |s|
    ensures forall i :: 0 <= i < |t| ==> IsHex(t[i]) && (t[i] <= 57 || t[i] >= 97)
  {
    if s == [] then [] else [Digit(s[0] / 16), Digit(s[0] % 16)] + Encode(s[1..])
  }

  /** hex.Decode: None for an odd length or a byte that is no digit. */
  function Decode(t: bytes): (s: Option<bytes>)
    ensures s.Some? ==> |t| == 2 * |s.value|
  {
    if t == [] then Some([])
    else if |t| == 1 || !IsHex(t[0]) || !IsHex(t[1]) then None
    else match Decode(t[2..])
      case None => None
      case Some(rest) => Some([16 * Value(t[0]) + Value(t[1])] + rest)
  }

  /** bytes.ToUpper on ASCII text. */
  function Upper(t: bytes): (u: bytes)
    ensures |u| == |t|
  {
    seq(|t|, i requires 0 <= i < |t| => if 97 <= t[i] <= 122 then t[i] - 32 else t[i])
  }

  lemma {:induction false} RoundTrip(s: bytes)
    ensures Decode(Encode(s)) == Some(s)
  {
    if s != [] {
      RoundTrip(s[1..]);
      assert Encode(s)[2..] == Encode(s[1..]) && s == [s[0]] + s[1..];
    }
  }

  lemma {:induction false} UpperRoundTrip(s: bytes)
    ensures Decode(Upper(Encode(s))) == Some(s)
  {
    if s != [] {
      UpperRoundTrip(s[1..]);
      assert Upper(Encode(s))[2..] == Upper(Encode(s[1..])) && s == [s[0]] + s[1..];
    }
  }
}
