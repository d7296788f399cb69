/** SQL literals and their binary contents: escape and hex formats, and the coders of MySQL and PostgreSQL. */
module LiteralCodec {
  import opened Outcomes
  import opened ByteStrings
  import Hex

  const BACKSLASH: byte := 92

  // ---- octal escapes (bytea escape format, section 8.4.2 of the PostgreSQL documentation) ------------------

  predicate IsPrintable(c: byte) { 32 <= c <= 126 }

  predicate IsOctal(c: byte) { 48 <= c <= 55 }

  function OctalDigit(c: byte): nat
    requires IsOctal(c)
  {
    c - 48
  }

  /** Three octal digits, shifted into one byte. */
  function OctalByte(d1: byte, d2: byte, d3: byte): byte
    requires IsOctal(d1) && IsOctal(d2) && IsOctal(d3)
  {
    (OctalDigit(d1) * 64 + OctalDigit(d2) * 8 + OctalDigit(d3)) % 256
  }

  function OctalOf(c: byte): (t: bytes) {
    if c == BACKSLASH then [BACKSLASH, BACKSLASH]
    else if !IsPrintable(c) then [BACKSLASH, 48 + c / 64, 48 + c / 8 % 8, 48 + c % 8]
    else [c]
  }

  function Octal(s: bytes): bytes {
    if s == [] then [] else Octal(s[..|s| - 1]) + OctalOf(s[|s| - 1])
  }

  /** One escape or plain character at the start of t: the byte it stands for and its length. */
  function Unescape(t: bytes): (r: Option<(byte, nat)>)
    requires t != []
    ensures r.Some? ==> 1 <= r.value.1 <= 4 && r.value.1 <= |t|
    ensures r.Some? ==> (r.value.1 == 1 <==> t[0] != BACKSLASH) && (r.value.1 == 1 ==> r.value.0 == t[0])
  {
    if !IsPrintable(t[0]) then None
    else if t[0] != BACKSLASH then Some((t[0], 1))
    else if |t| < 2 then None
    else if t[1] == BACKSLASH then Some((BACKSLASH, 2))
    else if |t| < 4 || !IsOctal(t[1]) || !IsOctal(t[2]) || !IsOctal(t[3]) then None
    else Some((OctalByte(t[1], t[2], t[3]), 4))
  }

  function Unoctal(t: bytes): (r: Option<bytes>)
    ensures r.Some? ==> |r.value| <= |t|
    ensures r.Some? ==> (BACKSLASH in t <==> |r.value| < |t|)
    ensures r.Some? && BACKSLASH !in t ==> r.value == t
    decreases |t|
  {
    if t == [] then Some([])
    else match Unescape(t)
      case None => None
      case Some((b, n)) =>
        assert t == t[..n] + t[n..] && (n == 1 ==> t[..n] == [t[0]]);
        match Unoctal(t[n..])
        case None => None
        case Some(rest) => Some([b] + rest)
  }

  method EncodeToOctal(data: bytes) returns (res: bytes)
    ensures res == Octal(data)
  {
    res := [];
    for i := 0 to |data|
      invariant res == Octal(data[..i])
    {
      var c := data[i];
      assert data[..i + 1][..i] == data[..i];
      if c == BACKSLASH {
        res := res + [BACKSLASH, BACKSLASH];
      } else if !IsPrintable(c) {
        res := res + [BACKSLASH, 48 + c / 64, 48 + c / 8 % 8, 48 + c % 8];
      } else {
        res := res + [c];
      }
    }
    assert data[..|data|] == data;
  }

  /** The digits after a backslash: the inner loop of DecodeOctal. */
  method DecodeDigits(ds: bytes) returns (b: Option<byte>)
    requires |ds| == 3
    ensures b == if IsOctal(ds[0]) && IsOctal(ds[1]) && IsOctal(ds[2]) then Some(OctalByte(ds[0], ds[1], ds[2]))
                 else None
  {
    var acc: nat := 0;
    for j := 0 to 3
      invariant forall m :: 0 <= m < j ==> IsOctal(ds[m])
      invariant j == 0 ==> acc == 0
      invariant j == 1 ==> acc == OctalDigit(ds[0])
      invariant j == 2 ==> acc == OctalDigit(ds[0]) * 8 + OctalDigit(ds[1])
      invariant j == 3 ==> acc == OctalByte(ds[0], ds[1], ds[2])
    {
      if ds[j] < 48 || ds[j] > 55 { return None; }
      acc := (acc * 8 + OctalDigit(ds[j])) % 256;
    }
    b := Some(acc);
  }

  lemma UnoctalStep(t: bytes, done: bytes, b: byte, n: nat)
    requires t != [] && Unescape(t) == Some((b, n))
    ensures Joined(done, Unoctal(t)) == Joined(done + [b], Unoctal(t[n..]))
  {
    var rest := Unoctal(t[n..]);
    if rest.Some? { assert done + ([b] + rest.value) == done + [b] + rest.value; }
  }

  function Joined(done: bytes, r: Option<bytes>): Option<bytes> {
    match r case None => None case Some(rest) => Some(done + rest)
  }

  method DecodeOctal(data: bytes) returns (output: Option<bytes>)
    ensures output == Unoctal(data)
  {
    hide Unoctal;
    var i, out: bytes := 0, [];
    assert data[0..] == data;
    UnoctalEnds(data);
    while i < |data|
      invariant 0 <= i <= |data|
      invariant Unoctal(data) == Joined(out, Unoctal(data[i..]))
    {
      ghost var rest := data[i..];
      UnoctalFails(rest);
      var ch := data[i];
      if !IsPrintable(ch) { return None; }
      var b, n := ch, 1;
      if ch == BACKSLASH {
        if i >= |data| - 1 { return None; }
        if data[i + 1] == BACKSLASH {
          b, n := BACKSLASH, 2;
        } else {
          if i + 3 >= |data| { return None; }
          var decoded := DecodeDigits(data[i + 1..i + 4]);
          if decoded.None? { return None; }
          b, n := decoded.value, 4;
        }
      }
      UnoctalStep(rest, out, b, n);
      assert rest[n..] == data[i + n..];
      out, i := out + [b], i + n;
    }
    assert data[|data|..] == [];
    output := Some(out);
  }

  lemma UnoctalFails(t: bytes)
    requires t != []
    ensures Unescape(t).None? ==> Unoctal(t).None?
  {
  }

  lemma UnoctalEnds(t: bytes)
    ensures Unoctal([]) == Some([]) && Joined([], Unoctal(t)) == Unoctal(t)
    ensures forall s: bytes :: Joined(s, Some([])) == Some(s)
  {
    if Unoctal(t).Some? { assert [] + Unoctal(t).value == Unoctal(t).value; }
    forall s: bytes ensures Joined(s, Some([])) == Some(s) { assert s + [] == s; }
  }

  // ---- round trips -----------------------------------------------------------------------------------------

  lemma UnescapeOctalOf(c: byte, tail: bytes)
    ensures Unescape(OctalOf(c) + tail) == Some((c, |OctalOf(c)|))
  {
    hide OctalByte, IsOctal;
    OctalDigits(c);
    var t := OctalOf(c) + tail;
    assert t[0] == OctalOf(c)[0];
    if c != BACKSLASH && !IsPrintable(c) {
      assert t[1] == 48 + c / 64 && t[2] == 48 + c / 8 % 8 && t[3] == 48 + c % 8;
    }
  }

  lemma OctalDigits(c: byte)
    ensures IsOctal(48 + c / 64) && IsOctal(48 + c / 8 % 8) && IsOctal(48 + c % 8)
    ensures OctalByte(48 + c / 64, 48 + c / 8 % 8, 48 + c % 8) == c
    ensures 48 + c / 64 != BACKSLASH
  {
    var q := c / 8;
    assert c == q * 8 + c % 8 && q == c / 64 * 8 + q % 8;
  }

  lemma {:induction false} OctalSplit(s: bytes)
    requires s != []
    ensures Octal(s) == OctalOf(s[0]) + Octal(s[1..])
    decreases |s|
  {
    var n := |s| - 1;
    if n > 0 {
      OctalSplit(s[..n]);
      assert s[..n][1..] == s[1..][..n - 1] && s[1..][n - 1] == s[n];
    } else {
      assert s[..0] == [] && s[1..] == [];
    }
  }

  /** Octal text decodes to the original bytes. */
  lemma {:induction false} OctalRoundTrip(s: bytes)
    ensures Unoctal(Octal(s)) == Some(s)
  {
    if s != [] {
      OctalSplit(s);
      UnescapeOctalOf(s[0], Octal(s[1..]));
      OctalRoundTrip(s[1..]);
      assert Octal(s)[|OctalOf(s[0])|..] == Octal(s[1..]);
      assert s == [s[0]] + s[1..];
    }
  }

  /** "\x" */
  const HEX_PREFIX: bytes := [92, 120]

  /** PgEncodeToHex, PgEncodeToHexString. */
  function PgHex(s: bytes): bytes { HEX_PREFIX + Hex.Encode(s) }

  datatype CodeError = Unsupported | HexError | OctalError

  /** DecodeEscaped: hex if the prefix says so, octal otherwise. */
  function DecodeEscaped(t: bytes): Result<bytes, CodeError> {
    if HasPrefix(t, HEX_PREFIX) then
      match Hex.Decode(t[2..]) case Some(s) => Ok(s) case None => Err(HexError)
    else
      match Unoctal(t) case Some(s) => Ok(s) case None => Err(OctalError)
  }

  /** Octal text never looks like hex text, and both forms decode to the bytes they were made from. */
  lemma EscapedRoundTrip(s: bytes)
    ensures !HasPrefix(Octal(s), HEX_PREFIX)
    ensures DecodeEscaped(Octal(s)) == Ok(s) && DecodeEscaped(PgHex(s)) == Ok(s)
  {
    hide Octal, Unoctal, Hex.Encode, Hex.Decode;
    OctalRoundTrip(s);
    Hex.RoundTrip(s);
    OctalIsNotHex(s);
    assert PgHex(s)[..2] == HEX_PREFIX && PgHex(s)[2..] == Hex.Encode(s);
  }

  lemma OctalIsNotHex(s: bytes)
    ensures !HasPrefix(Octal(s), HEX_PREFIX)
  {
    if s != [] {
      OctalSplit(s);
      var t := OctalOf(s[0]);
      if t[0] == BACKSLASH { assert Octal(s)[1] == t[1] != 120; } else { assert Octal(s)[0] == t[0]; }
    }
  }

  // ---- the coders ------------------------------------------------------------------------------------------

  datatype ValType = StrVal | IntVal | FloatVal | HexNum | HexVal | ValArg | BitVal | PgEscapeString | PgPlaceholder
                   | UnknownVal

  datatype Database = MySQL | PostgreSQL

  /** A coder; `isInt` is the success of strconv.Atoi and `utf8Valid` is utf8.Valid. */
  datatype Coder = Coder(db: Database, isInt: bytes -> bool, utf8Valid: bytes -> bool) {
    predicate Supports(ty: ValType) {
      if db.MySQL? then ty in {IntVal, StrVal, HexVal, HexNum} else ty in {IntVal, HexVal, StrVal, PgEscapeString}
    }
  }

  /** "0x" */
  const HEX_NUM_PREFIX: bytes := [48, 120]

  function FromHex(t: bytes): Result<bytes, CodeError> {
    match Hex.Decode(t) case Some(s) => Ok(s) case None => Err(HexError)
  }

  /** Decode of both coders. */
  function Decode(c: Coder, ty: ValType, val: bytes): Result<bytes, CodeError> {
    if !c.Supports(ty) then Err(Unsupported)
    else match ty
      case IntVal => Ok(val)
      case HexVal => FromHex(val)
      case HexNum => if HasPrefix(val, HEX_NUM_PREFIX) then FromHex(val[2..]) else Ok(val)
      case _ =>
        if c.db.MySQL? then Ok(val)
        else
          // a text that is neither hex nor octal is taken as it is
          match DecodeEscaped(val) case Ok(s) => Ok(s) case Err(OctalError) => Ok(val) case Err(e) => Err(e)
  }

  /** The type and text that Encode gives a literal of type ty for new contents. */
  function Encode(c: Coder, ty: ValType, data: bytes): Result<(ValType, bytes), CodeError> {
    if !c.Supports(ty) then Err(Unsupported)
    else if ty.IntVal? && c.isInt(data) then Ok((IntVal, data))
    else if c.db.MySQL? then
      if ty.StrVal? && c.utf8Valid(data) then Ok((StrVal, data))
      else if ty.HexNum? then Ok((HexNum, HEX_NUM_PREFIX + Hex.Upper(Hex.Encode(data))))
      else Ok((HexVal, Hex.Encode(data)))
    else if ty.HexVal? then Ok((HexVal, Hex.Encode(data)))
    else if ty.PgEscapeString? then
      Ok((PgEscapeString, if data == [] || c.utf8Valid(data) then data else PgHex(data)))
    else
      Ok((if ty.IntVal? then PgEscapeString else StrVal, if DecodeEscaped(data) == Ok(data) then data else PgHex(data)))
  }

  /** The text does not read as an escaped form of other bytes. */
  predicate ReadsAsItself(data: bytes) {
    !HasPrefix(data, HEX_PREFIX) && (BACKSLASH !in data || Unoctal(data).None?)
  }

  /**
   Valid UTF-8 goes into a PostgreSQL escape string as it is; all other contents are safe in every kind of literal.
   */
  predicate Legible(c: Coder, ty: ValType, data: bytes) {
    c.db.PostgreSQL? && ty.PgEscapeString? && c.utf8Valid(data) ==> data == [] || ReadsAsItself(data)
  }

  /**
   Encoding succeeds for every supported type, and the literal then decodes to the new data, with one exact exception.
   */
  lemma EncodeThenDecode(c: Coder, ty: ValType, data: bytes)
    requires c.Supports(ty)
    ensures Encode(c, ty, data).Ok?
    ensures var (ty', val) := Encode(c, ty, data).value;
            Decode(c, ty', val) == Ok(data) <==> Legible(c, ty, data)
  {
    hide Hex.Encode, Hex.Decode, Octal, HasPrefix, Unoctal;
    EscapedRoundTrip(data);
    Hex.RoundTrip(data);
    HexNumRoundTrip(data);
    DecodesToItself(data);
  }

  /** The forms in which the contents of a literal are written, and read. */
  lemma DecodeForms(c: Coder, s: bytes)
    ensures Decode(c, IntVal, s) == Ok(s) && Decode(c, HexVal, Hex.Encode(s)) == Ok(s)
    ensures c.db.MySQL? ==>
              && Decode(c, StrVal, s) == Ok(s) && Decode(c, HexNum, HEX_NUM_PREFIX + Hex.Encode(s)) == Ok(s)
              && (!HasPrefix(s, HEX_NUM_PREFIX) ==> Decode(c, HexNum, s) == Ok(s))
    ensures c.db.PostgreSQL? ==>
              forall ty :: ty in {StrVal, PgEscapeString} ==>
                && Decode(c, ty, PgHex(s)) == Ok(s) && Decode(c, ty, Octal(s)) == Ok(s)
                && (!HasPrefix(s, HEX_PREFIX) && Unoctal(s).None? ==> Decode(c, ty, s) == Ok(s))
  {
    hide Hex.Encode, Hex.Decode, Octal, Unoctal;
    Hex.RoundTrip(s);
    EscapedRoundTrip(s);
    var t := HEX_NUM_PREFIX + Hex.Encode(s);
    assert t[..2] == HEX_NUM_PREFIX && t[2..] == Hex.Encode(s);
  }

  /** The four characters \\x41 in a PostgreSQL escape string read as the letter A. */
  lemma EscapeStringExample(c: Coder)
    requires c.db.PostgreSQL? && c.utf8Valid([92, 120, 52, 49])
    ensures var data := [92, 120, 52, 49];
            && !Legible(c, PgEscapeString, data) && Encode(c, PgEscapeString, data) == Ok((PgEscapeString, data))
            && Decode(c, PgEscapeString, data) == Ok([65])
  {
    var data: bytes := [92, 120, 52, 49];
    assert data[..2] == HEX_PREFIX && data[2..] == [52, 49];
    assert Hex.Encode([65]) == [52, 49] by { assert [65][1..] == []; }
    Hex.RoundTrip([65]);
  }

  lemma HexNumRoundTrip(data: bytes)
    ensures var t := HEX_NUM_PREFIX + Hex.Upper(Hex.Encode(data));
            HasPrefix(t, HEX_NUM_PREFIX) && Hex.Decode(t[2..]) == Some(data)
  {
    var t := HEX_NUM_PREFIX + Hex.Upper(Hex.Encode(data));
    Hex.UpperRoundTrip(data);
    assert t[..2] == HEX_NUM_PREFIX && t[2..] == Hex.Upper(Hex.Encode(data));
  }

  /** DecodeEscaped, with octal errors read as "take the text as it is", is the identity exactly on such texts. */
  lemma DecodesToItself(data: bytes)
    ensures (DecodeEscaped(data) in {Ok(data), Err(OctalError)}) <==> ReadsAsItself(data)
    ensures DecodeEscaped([]) == Ok([])
  {
  }

  // ---- literals in place -----------------------------------------------------------------------------------

  class SQLVal {
    var Type: ValType
    var Val: bytes

    constructor (ty: ValType, val: bytes)
      ensures Type == ty && Val == val
    {
      Type, Val := ty, val;
    }
  }

  /** DBDataCoder.Encode on a literal: it may change the literal's type, not its text. */
  method EncodeInto(c: Coder, val: SQLVal, data: bytes) returns (r: Result<bytes, CodeError>)
    modifies val`Type
    ensures Encode(c, old(val.Type), data) == if r.Ok? then Ok((val.Type, r.value)) else Err(r.error)
    ensures r.Err? ==> val.Type == old(val.Type)
  {
    if !c.Supports(val.Type) { return Err(Unsupported); }
    if val.Type == IntVal && c.isInt(data) { return Ok(data); }
    if c.db.MySQL? {
      if val.Type == StrVal && c.utf8Valid(data) { return Ok(data); }
      if val.Type == HexNum { return Ok(HEX_NUM_PREFIX + Hex.Upper(Hex.Encode(data))); }
      val.Type := HexVal;
      return Ok(Hex.Encode(data));
    }
    if val.Type == HexVal { return Ok(Hex.Encode(data)); }
    if val.Type == PgEscapeString {
      if data == [] || c.utf8Valid(data) { return Ok(data); }
      return Ok(PgHex(data));
    }
    if val.Type == IntVal { val.Type := PgEscapeString; }
    if DecodeEscaped(data) != Ok(data) { return Ok(PgHex(data)); }
    r := Ok(data);
  }

  /** An expression that UpdateExpressionValue looks into: parentheses, the _binary introducer, literals. */
  datatype Expr = Literal(val: SQLVal) | Paren(expr: Expr) | Unary(operator: string, inner: Expr) | OtherExpr

  /** The literal an update of the expression reaches, if any. */
  function Target(e: Expr): Option<SQLVal> {
    match e
    case Literal(val) => Some(val)
    case Paren(inner) => Target(inner)
    case Unary(op, Literal(val)) => if op == "_binary" then Some(val) else None
    case _ => None
  }

  datatype UpdateError = Unchanged | Coding(code: CodeError) | UpdateFailed(reason: int)

  type Updater = bytes -> Result<bytes, int>

  /** The literal types UpdateExpressionValue handles; literals of other types are left alone without an error. */
  predicate Updatable(ty: ValType) { ty in {StrVal, HexVal, PgEscapeString, IntVal, HexNum} }

  /**
   What an update of a literal does to its type and text. A successful update stores exactly the new data, unless the
   literal is a PostgreSQL escape string and the data, being valid UTF-8, reads as an escaped form. An error changes
   nothing.
   */
  ghost predicate Updated(c: Coder, update: Updater, ty: ValType, text: bytes, ty': ValType, text': bytes,
                          error: Option<UpdateError>)
  {
    if !Updatable(ty) then error.None? && ty' == ty && text' == text
    else
      var raw := Decode(c, ty, text);
      if raw.Err? || update(raw.value).Err? || update(raw.value).value == raw.value then
        && ty' == ty && text' == text
        && error == Some(if raw.Err? then (if raw.error == Unsupported then Unchanged else Coding(raw.error))
                         else if update(raw.value).Err? then UpdateFailed(update(raw.value).error)
                         else Unchanged)
      else
        var data := update(raw.value).value;
        && error.None? && Encode(c, ty, data) == Ok((ty', text'))
        && (Decode(c, ty', text') == Ok(data) <==> Legible(c, ty, data))
  }

  /** The literals whose contents can be read and replaced, in each database. */
  predicate Encryptable(db: Database, ty: ValType) {
    match ty
    case StrVal => true
    case IntVal => true
    case HexVal => true
    case HexNum => db.MySQL?
    case PgEscapeString => db.PostgreSQL?
    case FloatVal => false case ValArg => false case BitVal => false
    case PgPlaceholder => false case UnknownVal => false
  }

  /**
   Every such literal that can be read is updated, with new contents that differ from the old ones; a literal of the
   other database's own type is an error, and any other literal is left alone without one.
   */
  lemma UpdatedTypes(c: Coder, update: Updater, ty: ValType, text: bytes, ty': ValType, text': bytes,
                     error: Option<UpdateError>)
    requires Updated(c, update, ty, text, ty', text', error)
    ensures Decode(c, ty, text) == Err(Unsupported) <==> !Encryptable(c.db, ty)
    ensures Encryptable(c.db, ty) && Decode(c, ty, text).Ok? && update(Decode(c, ty, text).value).Ok?
            && update(Decode(c, ty, text).value) != Ok(Decode(c, ty, text).value) ==>
              error.None? && Encode(c, ty, update(Decode(c, ty, text).value).value) == Ok((ty', text'))
    ensures !Encryptable(c.db, ty) ==>
              ty' == ty && text' == text && (error == Some(Unchanged) <==> ty.HexNum? || ty.PgEscapeString?)
  {
    hide Hex.Decode, Unoctal, Legible;
  }

  /** UpdateExpressionValue: it reaches at most one literal. */
  method UpdateExpressionValue(c: Coder, e: Expr, update: Updater) returns (error: Option<UpdateError>)
    modifies if Target(e).Some? then {Target(e).value} else {}
    ensures Target(e).None? ==> error.None?
    ensures Target(e).Some? ==> Updated(c, update, old(Target(e).value.Type), old(Target(e).value.Val),
                                        Target(e).value.Type, Target(e).value.Val, error)
    decreases e
  {
    hide Updated;
    match e
    case Literal(val) => error := UpdateLiteral(c, val, update);
    case Paren(inner) => error := UpdateExpressionValue(c, inner, update);
    case Unary(op, Literal(val)) =>
      if op == "_binary" { error := UpdateLiteral(c, val, update); } else { error := None; }
    case _ => error := None;
  }

  method UpdateLiteral(c: Coder, val: SQLVal, update: Updater) returns (error: Option<UpdateError>)
    modifies val
    ensures Updated(c, update, old(val.Type), old(val.Val), val.Type, val.Val, error)
  {
    hide ReadsAsItself;
    if !Updatable(val.Type) { return None; }
    var rawData := Decode(c, val.Type, val.Val);
    if rawData.Err? {
      return Some(if rawData.error == Unsupported then Unchanged else Coding(rawData.error));
    }
    var newData := update(rawData.value);
    if newData.Err? { return Some(UpdateFailed(newData.error)); }
    if newData.value == rawData.value { return Some(Unchanged); }
    EncodeThenDecode(c, val.Type, newData.value);
    var coded := EncodeInto(c, val, newData.value);
    val.Val := coded.value;
    error := None;
  }
}
