/** Token types, values, their byte encodings and the digests that name store entries (package pseudonymization). */
module TokenValues {
  import opened Outcomes
  import opened ByteStrings
  import Decimal

  const TWO_31: int := 0x8000_0000
  const TWO_32: int := 0x1_0000_0000

  type int32 = x: int | -0x8000_0000 <= x < 0x8000_0000
  type int64 = x: int | -0x8000_0000_0000_0000 <= x < 0x8000_0000_0000_0000

  datatype TokenType = Unknown | Int32 | Int64 | String | Bytes | Email | Int32Str | Int64Str {
    function Number(): nat {
      match this
      case Unknown => 0 case Int32 => 1 case Int64 => 2 case String => 3
      case Bytes => 4 case Email => 5 case Int32Str => 6 case Int64Str => 7
    }
  }

  /** A Go value of one of the five supported dynamic types; strings are byte strings. */
  datatype Value = Int32Value(i32: int32) | Int64Value(i64: int64) | StringValue(str: bytes) | BytesValue(data: bytes)
                 | EmailValue(email: bytes)

  datatype TokenError = UnknownTokenType | DataTypeMismatch | ShortData | GenerationLimitExceeded | TokenExists
                      | Unavailable
                      | NotANumber

  /** The token type under which a value can be encoded. */
  function TypeOf(v: Value): TokenType {
    match v
    case Int32Value(_) => Int32 case Int64Value(_) => Int64 case StringValue(_) => String
    case BytesValue(_) => Bytes case EmailValue(_) => Email
  }

  /** uint32(v) and uint64(v): two's complement. */
  function Unsigned(i: int, modulus: nat): nat
    requires modulus > 0
  {
    i % modulus
  }

  function Signed(u: nat, modulus: nat): int {
    if u < modulus / 2 then u else u - modulus
  }

  function Encoding(v: Value): bytes {
    match v
    case Int32Value(i) => LittleEndian(Unsigned(i, TWO_32), 4)
    case Int64Value(i) => LittleEndian(Unsigned(i, TWO_64), 8)
    case StringValue(s) => s
    case BytesValue(b) => b
    case EmailValue(e) => e
  }

  /** encodeToBytes. */
  function EncodeToBytes(v: Value, ty: TokenType): Result<bytes, TokenError> {
    if TypeOf(v) != ty then Err(DataTypeMismatch) else Ok(Encoding(v))
  }

  /** bytesToGolangValue; a fixed-width field that is too short is an error here. */
  function BytesToValue(data: bytes, ty: TokenType): Result<Value, TokenError> {
    match ty
    case Bytes => Ok(BytesValue(data))
    case String => Ok(StringValue(data))
    case Email => Ok(EmailValue(data))
    case Int32 => if |data| < 4 then Err(ShortData) else Ok(Int32Value(DecodeInt32(data)))
    case Int64 => if |data| < 8 then Err(ShortData) else Ok(Int64Value(DecodeInt64(data)))
    case Int32Str => if |data| < 4 then Err(ShortData) else Ok(StringValue(Decimal.FormatInt(DecodeInt32(data))))
    case Int64Str => if |data| < 8 then Err(ShortData) else Ok(StringValue(Decimal.FormatInt(DecodeInt64(data))))
    case Unknown => Err(UnknownTokenType)
  }

  function DecodeInt32(data: bytes): int32
    requires |data| >= 4
  {
    Pow256Values();
    Signed(FromLittleEndian(data[..4]), TWO_32)
  }

  function DecodeInt64(data: bytes): int64
    requires |data| >= 8
  {
    Pow256Values();
    Signed(FromLittleEndian(data[..8]), TWO_64)
  }

  /** A value survives encoding and decoding under its type. */
  lemma EncodingRoundTrip(v: Value)
    ensures BytesToValue(Encoding(v), TypeOf(v)) == Ok(v)
  {
    hide LittleEndian, FromLittleEndian, Pow256;
    Pow256Values();
    match v
    case Int32Value(i) =>
      LittleEndianRoundTrip(Unsigned(i, TWO_32), 4);
      assert Encoding(v)[..4] == Encoding(v);
    case Int64Value(i) =>
      LittleEndianRoundTrip(Unsigned(i, TWO_64), 8);
      assert Encoding(v)[..8] == Encoding(v);
    case _ =>
  }

  /** The two types for numbers kept as text read the encoding of a number as its decimal text. */
  lemma NumbersAsText(i: int32, j: int64)
    ensures BytesToValue(Encoding(Int32Value(i)), Int32Str) == Ok(StringValue(Decimal.FormatInt(i)))
    ensures BytesToValue(Encoding(Int64Value(j)), Int64Str) == Ok(StringValue(Decimal.FormatInt(j)))
  {
    hide LittleEndian, FromLittleEndian, Pow256, Decimal.FormatInt;
    EncodingRoundTrip(Int32Value(i));
    EncodingRoundTrip(Int64Value(j));
  }

  /** Values of one type with the same encoding are the same. */
  lemma EncodingInjective(v: Value, w: Value)
    requires TypeOf(v) == TypeOf(w) && Encoding(v) == Encoding(w)
    ensures v == w
  {
    EncodingRoundTrip(v);
    EncodingRoundTrip(w);
  }

  // ---- digests ---------------------------------------------------------------------------------------------

  datatype TokenContext = TokenContext(clientID: bytes, additionalContext: bytes)

  /** "tokenizator hash delimiter" */
  const DELIMITER: bytes := [116, 111, 107, 101, 110, 105, 122, 97, 116, 111, 114, 32, 104, 97, 115, 104, 32,
                             100, 101, 108, 105, 109, 105, 116, 101, 114]
  const ZONE: bytes := [122, 111, 110, 101]
  const CLIENT: bytes := [99, 108, 105, 101, 110, 116]

  /** The part of the context that names it, both in digests and in the storage. */
  function ContextKey(ctx: TokenContext): bytes {
    if ctx.additionalContext != [] then ZONE + ctx.additionalContext else CLIENT + ctx.clientID
  }

  /** Contexts are told apart by their additional context or, without one, by their client. */
  lemma ContextsApart(a: TokenContext, b: TokenContext)
    ensures ContextKey(a) == ContextKey(b) <==>
              || (a.additionalContext == b.additionalContext != [])
              || (a.additionalContext == b.additionalContext == [] && a.clientID == b.clientID)
  {
    assert ContextKey(a)[0] == if a.additionalContext != [] then ZONE[0] else CLIENT[0];
    assert ContextKey(b)[0] == if b.additionalContext != [] then ZONE[0] else CLIENT[0];
    if ContextKey(a) == ContextKey(b) {
      if a.additionalContext != [] {
        SplitLeft(ZONE, a.additionalContext, ZONE, b.additionalContext);
      } else {
        SplitLeft(CLIENT, a.clientID, CLIENT, b.clientID);
      }
    }
  }

  /** What generateDataID hashes. */
  function Preimage(data: bytes, ctx: bytes, ty: TokenType): bytes {
    DELIMITER + data + (ctx + DELIMITER + Decimal.FormatInt(ty.Number()))
  }

  /** In one context the preimage determines the data and the type. */
  lemma PreimageDetermines(data: bytes, ty: TokenType, data': bytes, ty': TokenType, ctx: bytes)
    requires Preimage(data, ctx, ty) == Preimage(data', ctx, ty')
    ensures data == data' && ty == ty'
  {
    var n, n' := Decimal.FormatInt(ty.Number()), Decimal.FormatInt(ty'.Number());
    assert |n| == 1 && |n'| == 1 by { OneDigit(ty); OneDigit(ty'); }
    SplitRight(DELIMITER + data, ctx + DELIMITER + n, DELIMITER + data', ctx + DELIMITER + n');
    SplitRight(ctx + DELIMITER, n, ctx + DELIMITER, n');
    SplitLeft(DELIMITER, data, DELIMITER, data');
    OneDigit(ty);
    OneDigit(ty');
  }

  /** The preimages of one datum and type are equal in equal contexts only. */
  lemma PreimageOfContexts(data: bytes, ty: TokenType, ctx: bytes, ctx': bytes)
    requires Preimage(data, ctx, ty) == Preimage(data, ctx', ty)
    ensures ctx == ctx'
  {
    var n := Decimal.FormatInt(ty.Number());
    SplitLeft(DELIMITER + data, ctx + DELIMITER + n, DELIMITER + data, ctx' + DELIMITER + n);
    assert ctx + DELIMITER + n == ctx + (DELIMITER + n) && ctx' + DELIMITER + n == ctx' + (DELIMITER + n);
    SplitRight(ctx, DELIMITER + n, ctx', DELIMITER + n);
  }

  lemma OneDigit(ty: TokenType)
    ensures Decimal.FormatInt(ty.Number()) == [48 + ty.Number()]
  {
    assert Decimal.Digits(ty.Number()) == [ty.Number()];
  }

  /** "h." and "t." prefixes of the storage keys. */
  const HASH_PREFIX: bytes := [104, 46]
  const TOKEN_PREFIX: bytes := [116, 46]

  type Hash = bytes -> bytes

  /** The storage key of the token of a datum, and of the source of a token; the second part is the context. */
  function HashKey(hash: Hash, data: bytes, ctx: bytes, ty: TokenType): (bytes, bytes) {
    (HASH_PREFIX + hash(Preimage(data, ctx, ty)), ctx)
  }

  function TokenKey(hash: Hash, token: bytes, ctx: bytes, ty: TokenType): (bytes, bytes) {
    (TOKEN_PREFIX + hash(Preimage(token, ctx, ty)), ctx)
  }

  lemma KeysDisjoint(hash: Hash, data: bytes, ctx: bytes, ty: TokenType, token: bytes, ctx': bytes, ty': TokenType)
    ensures HashKey(hash, data, ctx, ty) != TokenKey(hash, token, ctx', ty')
  {
    assert HashKey(hash, data, ctx, ty).0[0] != TokenKey(hash, token, ctx', ty').0[0];
  }

  /** Clients have storage entries of their own. */
  lemma KeysOfClients(hash: Hash, data: bytes, data': bytes, ty: TokenType, ty': TokenType, a: bytes, b: bytes)
    requires a != b
    ensures var ctx, ctx' := ContextKey(TokenContext(a, [])), ContextKey(TokenContext(b, []));
            HashKey(hash, data, ctx, ty) != HashKey(hash, data', ctx', ty')
            && TokenKey(hash, data, ctx, ty) != TokenKey(hash, data', ctx', ty')
  {
    ContextsApart(TokenContext(a, []), TokenContext(b, []));
  }

  /** Two different preimages with one digest. */
  ghost predicate Collide(hash: Hash, x: bytes, y: bytes) {
    x != y && hash(x) == hash(y)
  }

  /** Equal hash keys in one context mean equal data and type, or a collision of the two preimages. */
  lemma SameHashKey(hash: Hash, data: bytes, ty: TokenType, data': bytes, ty': TokenType, ctx: bytes)
    requires HashKey(hash, data, ctx, ty) == HashKey(hash, data', ctx, ty')
    ensures (data == data' && ty == ty') || Collide(hash, Preimage(data, ctx, ty), Preimage(data', ctx, ty'))
  {
    SplitLeft(HASH_PREFIX, hash(Preimage(data, ctx, ty)), HASH_PREFIX, hash(Preimage(data', ctx, ty')));
    if Preimage(data, ctx, ty) == Preimage(data', ctx, ty') {
      PreimageDetermines(data, ty, data', ty', ctx);
    }
  }
}
