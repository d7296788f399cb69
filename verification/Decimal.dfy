/** Decimal numerals: strconv.FormatInt and strconv.ParseInt in base 10. */
module Decimal {
  import opened Outcomes
  import opened ByteStrings

  type digit = d: int | 0 <= d < 10

  function Digits(n: nat): (ds: seq<digit>)
    ensures ds != []
  {
    if n < 10 then [n] else Digits(n / 10) + [n % 10]
  }

  function FromDigits(ds: seq<digit>): nat {
    if ds == [] then 0 else 10 * FromDigits(ds[..|ds| - 1]) + ds[|ds| - 1]
  }

  lemma {:induction false} DigitsRoundTrip(n: nat)
    ensures FromDigits(Digits(n)) == n
  {
    if n >= 10 {
      DigitsRoundTrip(n / 10);
      assert Digits(n)[..|Digits(n)| - 1] == Digits(n / 10);
    } else {
      assert Digits(n)[..0] == [];
    }
  }

  /** Decimal numerals as text of the SQL layer. */
  function DecimalString(n: nat): (s: string)
    ensures |s| == |Digits(n)|
  {
    seq(|Digits(n)|, i requires 0 <= i < |Digits(n)| => (48 + Digits(n)[i] as int) as char)
  }

  lemma DecimalStringInjective(m: nat, n: nat)
    requires DecimalString(m) == DecimalString(n)
    ensures m == n
  {
    forall i | 0 <= i < |Digits(m)| ensures Digits(m)[i] == Digits(n)[i] {
      assert DecimalString(m)[i] == DecimalString(n)[i];
    }
    assert Digits(m) == Digits(n);
    DigitsRoundTrip(m);
    DigitsRoundTrip(n);
  }

  function FromText(s: bytes): seq<digit>
    requires forall i :: 0 <= i < |s| ==> 48 <= s[i] <= 57
  {
    seq(|s|, i requires 0 <= i < |s| => s[i] - 48)
  }

  function ToText(ds: seq<digit>): (s: bytes)
    ensures |s| == |ds| && forall i :: 0 <= i < |s| ==> 48 <= s[i] <= 57
  {
    seq(|ds|, i requires 0 <= i < |ds| => 48 + ds[i] as int)
  }

  const MINUS: byte := 45
  const PLUS: byte := 43

  /** strconv.FormatInt(i, 10). */
  function FormatInt(i: int): bytes {
    if i < 0 then [MINUS] + ToText(Digits(-i)) else ToText(Digits(i))
  }

  /** A nonempty run of digits. */
  function ParseNat(s: bytes): Option<nat> {
    if s == [] || exists i :: 0 <= i < |s| && !(48 <= s[i] <= 57) then None else Some(FromDigits(FromText(s)))
  }

  /** strconv.ParseInt(s, 10, 64): an optional sign and digits, within the 64-bit range. */
  function ParseInt(s: bytes): (r: Option<int>)
    ensures r.Some? ==> -TWO_63 <= r.value < TWO_63
  {
    var signed := s != [] && (s[0] == MINUS || s[0] == PLUS);
    match ParseNat(if signed then s[1..] else s)
    case None => None
    case Some(n) =>
      var v: int := if signed && s[0] == MINUS then 0 - n else n;
      if -TWO_63 <= v < TWO_63 then Some(v) else None
  }

  lemma ParseDigits(n: nat)
    ensures ParseNat(ToText(Digits(n))) == Some(n)
  {
    DigitsRoundTrip(n);
    assert FromText(ToText(Digits(n))) == Digits(n);
  }

  lemma ParseFormat(i: int)
    requires -TWO_63 <= i < TWO_63
    ensures ParseInt(FormatInt(i)) == Some(i)
  {
    hide ParseNat, Digits;
    var n := if i < 0 then -i else i;
    ParseDigits(n);
    var t := ToText(Digits(n));
    if i < 0 { assert FormatInt(i)[1..] == t; }
  }

  /** A plus sign is accepted, and numbers out of range are refused. */
  lemma ParsePlus(n: nat)
    ensures ParseInt([PLUS] + FormatInt(n)) == if n < TWO_63 then Some(n) else None
  {
    hide Digits, ParseNat;
    ParseDigits(n);
    assert ([PLUS] + FormatInt(n))[1..] == FormatInt(n);
  }

  lemma ParseOutOfRange(i: int)
    requires !(-TWO_63 <= i < TWO_63)
    ensures ParseInt(FormatInt(i)) == None
  {
    hide Digits, ParseNat;
    var n := if i < 0 then -i else i;
    ParseDigits(n);
    if i < 0 { assert FormatInt(i)[1..] == ToText(Digits(n)); }
  }

  /** Texts without digits, or with anything else behind the first character, are refused. */
  lemma ParseRefuses(s: bytes)
    requires s == [] || s == [PLUS] || s == [MINUS] || exists i :: 1 <= i < |s| && !(48 <= s[i] <= 57)
    ensures ParseInt(s) == None
  {
    if s != [] {
      if i :| 1 <= i < |s| && !(48 <= s[i] <= 57) {
        assert s[1..][i - 1] == s[i];
      } else {
        assert s[1..] == [];
      }
    }
  }

  /** No sign but a minus, no leading zero, no negative zero. */
  predicate CanonicalNumeral(s: bytes) {
    if s != [] && s[0] == MINUS then |s| > 1 && 49 <= s[1] else s != [] && s[0] != PLUS && (s[0] == 48 ==> |s| == 1)
  }

  lemma {:induction false} DigitsUnique(ds: seq<digit>)
    requires ds != [] && (ds[0] == 0 ==> |ds| == 1)
    ensures Digits(FromDigits(ds)) == ds
    ensures |ds| > 1 ==> FromDigits(ds) >= 10
    ensures ds[0] > 0 ==> FromDigits(ds) > 0
    decreases |ds|
  {
    var n := |ds| - 1;
    if n == 0 {
      assert ds[..0] == [];
    } else {
      DigitsUnique(ds[..n]);
      assert ds == ds[..n] + [ds[n]];
    }
  }

  /** Digits never start with a zero, except for zero itself. */
  lemma {:induction false} DigitsLead(n: nat)
    ensures Digits(n)[0] == 0 <==> n == 0
    ensures n == 0 ==> |Digits(n)| == 1
  {
    if n >= 10 { DigitsLead(n / 10); }
  }

  /** FormatInt undoes ParseInt exactly on canonical numerals. */
  lemma FormatParse(s: bytes)
    requires ParseInt(s).Some?
    ensures FormatInt(ParseInt(s).value) == s <==> CanonicalNumeral(s)
  {
    hide Digits, FromDigits;
    var i := ParseInt(s).value;
    DigitsLead(if i < 0 then -i else i);
    if CanonicalNumeral(s) {
      var t := if s[0] == MINUS then s[1..] else s;
      DigitsUnique(FromText(t));
      assert ToText(FromText(t)) == t;
      assert s[0] == MINUS ==> s == [MINUS] + t;
    }
  }
}
