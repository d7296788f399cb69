/** The serialized container that wraps AcraBlocks and AcraStructs, and the registry of handlers (package crypto). */
module Envelope {
  import opened Outcomes
  import opened ByteStrings
  import AcraBlock
  import AcraStruct

  const TAG: bytes := [37, 37, 37]
  const MIN_SIZE := 12
  const LENGTH_AT := 3
  const ID_AT := 11

  const ACRA_BLOCK_ID: byte := 0xF0
  const ACRA_STRUCT_ID: byte := 0xF1

  datatype Handler = AcraBlockHandler | AcraStructHandler {
    function Id(): byte { if AcraBlockHandler? then ACRA_BLOCK_ID else ACRA_STRUCT_ID }

    /** MatchDataSignature. An overlong AcraBlock is not rejected: cutting it out of the data indexes out of range. */
    function Match(data: bytes): (r: Result<bool, Error>)
      ensures r.Err? ==> r.error == IndexOutOfRange
    {
      if AcraStructHandler? then Ok(AcraStruct.Valid(data))
      else if AcraBlock.Overlong(data) then Err(IndexOutOfRange)
      else Ok(AcraBlock.Extract(data).Some?)
    }

    predicate Matches(data: bytes) { Match(data) == Ok(true) }
  }

  function HandlerById(id: byte): Option<Handler> {
    if id == ACRA_BLOCK_ID then Some(AcraBlockHandler)
    else if id == ACRA_STRUCT_ID then Some(AcraStructHandler)
    else None
  }

  /** IndexOutOfRange stands for a slice past the end of the data, which stops the original with a runtime panic. */
  datatype Error = EmptyEncryptedData | IncorrectSerializedContainer | HandlerNotFound | InvalidInternalContainer
                 | NoOldContainerMatched | NoSerializedContainerExtracted | KeysNotFound | DecryptionError
                 | IndexOutOfRange

  /** SerializeEncryptedData. */
  function Serialize(encrypted: bytes, id: byte): Result<bytes, Error> {
    if encrypted == [] then Err(EmptyEncryptedData)
    else Ok(TAG + LittleEndian(MIN_SIZE + |encrypted|, 8) + [id] + encrypted)
  }

  /** validateSerializedContainer. */
  function Validate(data: bytes): (r: Result<byte, Error>)
    ensures r.Ok? <==> |data| > MIN_SIZE && HasPrefix(data, TAG) && HandlerById(data[ID_AT]).Some?
    ensures r.Ok? ==> r.value == data[ID_AT]
    ensures r == Err(HandlerNotFound) <==> |data| > MIN_SIZE && HasPrefix(data, TAG) && HandlerById(data[ID_AT]).None?
  {
    if |data| <= MIN_SIZE || data[..3] != TAG then Err(IncorrectSerializedContainer)
    else if HandlerById(data[ID_AT]).None? then Err(HandlerNotFound)
    else Ok(data[ID_AT])
  }

  /** The unsigned 64-bit length field of a container. */
  function DeclaredLength(data: bytes): (n: nat)
    requires |data| >= MIN_SIZE
    ensures n < TWO_64
  {
    Pow256Values();
    FromLittleEndian(data[LENGTH_AT..ID_AT])
  }

  /** matchOldContainer: the whole of data is an AcraStruct, or starts with an AcraBlock. */
  function MatchOld(data: bytes): (r: Result<(byte, int), Error>)
    ensures r != Err(NoOldContainerMatched) ==> data != [] && data[0] == 34
    ensures r.Ok? ==> HandlerById(r.value.0).Some?
  {
    if AcraStruct.Valid(data) then Ok((ACRA_STRUCT_ID, AcraStruct.DataLength(data) + AcraStruct.MIN_SIZE))
    else if AcraBlock.Overlong(data) then Err(IndexOutOfRange)
    else match AcraBlock.Extract(data)
      case Some(n) => Ok((ACRA_BLOCK_ID, n))
      case None => Err(NoOldContainerMatched)
  }

  /** The two ways getEnvelopeIDFromData succeeds: a container, or a bare envelope of the old format. */
  datatype Identified = Container(id: byte) | OldContainer(id: byte)

  function Identify(data: bytes): (r: Result<Identified, Error>)
    ensures r.Ok? ==> HandlerById(r.value.id).Some?
  {
    match Validate(data)
    case Ok(id) => Ok(Container(id))
    case Err(e) =>
      match MatchOld(data)
      case Ok((id, _)) => Ok(OldContainer(id))
      case Err(e') => Err(if e' == IndexOutOfRange then e' else e)
  }

  /** getSerializedContainerLength: an unsigned difference, so a length below 12 becomes huge and is rejected. */
  function InternalLength(data: bytes): (r: Option<nat>)
    requires |data| >= MIN_SIZE
    ensures |data| < TWO_64 ==>
              (r == if MIN_SIZE <= DeclaredLength(data) <= |data| then Some(DeclaredLength(data) - MIN_SIZE) else None)
  {
    var n := (DeclaredLength(data) - MIN_SIZE) % TWO_64;
    if n > |data| - MIN_SIZE then None else Some(n)
  }

  /** DeserializeEncryptedData. */
  function Deserialize(data: bytes): (r: Result<(bytes, byte), Error>)
  {
    match Identify(data)
    case Err(e) => Err(e)
    case Ok(OldContainer(id)) => Ok((data, id))
    case Ok(Container(id)) =>
      match InternalLength(data)
      case None => Err(IncorrectSerializedContainer)
      case Some(n) => Ok((data[MIN_SIZE..MIN_SIZE + n], id))
  }

  /**
   ExtractSerializedContainer: the length it returns is the declared one, converted to a signed int and not checked.
   */
  function ExtractContainer(data: bytes): Result<(int, bytes), Error> {
    if Validate(data).Ok? then Ok((AsInt64(DeclaredLength(data)), data))
    else match MatchOld(data)
      case Err(e) => Err(if e == IndexOutOfRange then e else NoSerializedContainerExtracted)
      case Ok((id, n)) =>
        match Serialize(data, id)
        case Ok(serialized) => Ok((n, serialized))
        case Err(e) => Err(e)
  }

  // ---- the registry handler --------------------------------------------------------------------------------

  datatype Crypto = Crypto(block: AcraBlock.Backend, struct: AcraStruct.Backend) {
    ghost predicate Sound() { block.Sound() && struct.Sound() }
    ghost predicate NeverGrows() { block.NeverGrows() && struct.NeverGrows() }
  }

  /** The keys of the client, newest first; None when the keystore has none. */
  datatype KeyStore = KeyStore(symmetric: Option<seq<bytes>>, private: Option<seq<bytes>>)

  /** RegistryHandler.MatchDataSignature. */
  function RegistryMatch(data: bytes): (r: Result<bool, Error>)
    ensures r.Err? ==> r.error == IndexOutOfRange
  {
    match Deserialize(data)
    case Err(e) => if e == IndexOutOfRange then Err(e) else Ok(false)
    case Ok((internal, id)) => match HandlerById(id) case Some(h) => h.Match(internal) case None => Ok(false)
  }

  predicate RegistryMatches(data: bytes) { RegistryMatch(data) == Ok(true) }

  /**
   DecryptWithHandler on the envelope inside a container; both handlers decrypt without a context. The key of an
   AcraBlock is cut out by its unchecked key length.
   */
  function HandlerDecrypt(h: Handler, c: Crypto, ks: KeyStore, internal: bytes): Result<bytes, Error> {
    if h.Match(internal).Err? then Err(h.Match(internal).error)
    else if !h.Matches(internal) then Err(InvalidInternalContainer)
    else if h.AcraStructHandler? then
      if ks.private.None? then Err(KeysNotFound)
      else match AcraStruct.Opened(c.struct, internal, ks.private.value, [])
        case Some(x) => Ok(x)
        case None => Err(DecryptionError)
    else
      var n := AcraBlock.Extract(internal).value;
      if ks.symmetric.None? then Err(KeysNotFound)
      else match AcraBlock.Opened(c.block, internal[..n], ks.symmetric.value, [])
        case Ok(x) => Ok(x)
        case Err(InvalidAcraBlock) => Err(DecryptionError)
        case Err(IndexOutOfRange) => Err(IndexOutOfRange)
  }

  /** RegistryHandler.Process. */
  function Process(c: Crypto, ks: KeyStore, data: bytes): Result<bytes, Error> {
    match Identify(data)
    case Err(e) => Err(e)
    case Ok(identified) =>
      match Deserialize(data)
      case Err(e) => Err(e)
      case Ok((internal, _)) => HandlerDecrypt(HandlerById(identified.id).value, c, ks, internal)
  }

  /** The random inputs of an encryption. */
  datatype Randomness = Randomness(dataKey: bytes, r1: bytes, r2: bytes, ephemeral: bytes)

  /** ContainerHandler.EncryptWithClientID with the client's current key (for AcraStruct, its key pair). */
  function HandlerEncrypt(h: Handler, c: Crypto, key: bytes, rnd: Randomness, data: bytes): bytes
    requires |c.block.keyId(key, [])| == 2
  {
    if h.Matches(data) then data else Bare(h, c, key, rnd, data)
  }

  /** A bare AcraBlock or AcraStruct of the data, as applications make them too. */
  function Bare(h: Handler, c: Crypto, key: bytes, rnd: Randomness, data: bytes): bytes
    requires |c.block.keyId(key, [])| == 2
  {
    if h.AcraBlockHandler? then AcraBlock.Sealed(c.block, data, key, [], rnd.dataKey, rnd.r1, rnd.r2)
    else AcraStruct.Sealed(c.struct, data, c.struct.publicOf(key), [], rnd.ephemeral, rnd.dataKey, rnd.r1)
  }

  /** RegistryHandler.EncryptWithClientID. */
  function Encrypt(h: Handler, c: Crypto, key: bytes, rnd: Randomness, data: bytes): Result<bytes, Error>
    requires |c.block.keyId(key, [])| == 2
  {
    match h.Match(data)
    case Err(e) => Err(e)
    case Ok(matches) =>
      if matches then Ok(data)
      else match RegistryMatch(data)
        case Err(e) => Err(e)
        case Ok(matches) => if matches then Ok(data) else Serialize(HandlerEncrypt(h, c, key, rnd, data), h.Id())
  }

  // ---- properties ------------------------------------------------------------------------------------------

  /** A serialized envelope, followed by anything, deserializes to exactly what was wrapped. */
  lemma SerializedFields(encrypted: bytes, id: byte, tail: bytes)
    requires encrypted != [] && HandlerById(id).Some? && MIN_SIZE + |encrypted| + |tail| < TWO_63
    ensures var s := Serialize(encrypted, id).value + tail;
            && |s| == MIN_SIZE + |encrypted| + |tail|
            && Validate(s) == Ok(id) && DeclaredLength(s) == MIN_SIZE + |encrypted|
            && Deserialize(s) == Ok((encrypted, id))
            && ExtractContainer(s) == Ok((MIN_SIZE + |encrypted|, s))
  {
    hide LittleEndian, FromLittleEndian, Pow256;
    Pow256Values();
    LittleEndianRoundTrip(MIN_SIZE + |encrypted|, 8);
    var s := Serialize(encrypted, id).value + tail;
    assert s[..3] == TAG;
    assert s[LENGTH_AT..ID_AT] == LittleEndian(MIN_SIZE + |encrypted|, 8);
    assert s[ID_AT] == id;
    assert s[MIN_SIZE..MIN_SIZE + |encrypted|] == encrypted;
  }

  /** The sizes for which the encryption of data fits Go's length fields; AcraStruct keys have 32 bytes. */
  ghost predicate Fits(h: Handler, c: Crypto, key: bytes, rnd: Randomness, data: bytes) {
    if h.AcraBlockHandler? then
      && |c.block.seal(key, rnd.dataKey, [], rnd.r2)| < 0x1_0000
      && |c.block.seal(rnd.dataKey, data, [], rnd.r1)| + 0x2_0000 < TWO_63
    else
      && |rnd.dataKey| == AcraStruct.SYMMETRIC_KEY_LENGTH
      && |c.struct.seal(rnd.dataKey, data, [], rnd.r1)| + 0x2_0000 < TWO_63
  }

  lemma HandlerEncryptMatches(h: Handler, c: Crypto, key: bytes, rnd: Randomness, data: bytes)
    requires c.Sound() && Fits(h, c, key, rnd, data) && !h.Matches(data)
    ensures var e := HandlerEncrypt(h, c, key, rnd, data);
            e != [] && h.Matches(e) && MIN_SIZE + |e| < TWO_63
  {
    BareMatches(h, c, key, rnd, data);
  }

  lemma BareMatches(h: Handler, c: Crypto, key: bytes, rnd: Randomness, data: bytes)
    requires c.Sound() && Fits(h, c, key, rnd, data)
    ensures var e := Bare(h, c, key, rnd, data);
            && e != [] && h.Matches(e) && MIN_SIZE + |e| < TWO_63
            && if h.AcraBlockHandler? then AcraBlock.Extract(e) == Some(|e|) else AcraStruct.Valid(e)
  {
    if h.AcraBlockHandler? {
      AcraBlock.LayoutFields(c.block.keyId(key, []), c.block.seal(key, rnd.dataKey, [], rnd.r2),
                             c.block.seal(rnd.dataKey, data, [], rnd.r1));
    } else {
      AcraStruct.SealedFields(c.struct, data, c.struct.publicOf(key), [], rnd.ephemeral, rnd.dataKey, rnd.r1);
    }
  }

  /** What encryption wraps is what processing hands to the same handler. */
  lemma ProcessUnwraps(h: Handler, c: Crypto, ks: KeyStore, e: bytes)
    requires e != [] && MIN_SIZE + |e| < TWO_63
    ensures Serialize(e, h.Id()).Ok?
    ensures Process(c, ks, Serialize(e, h.Id()).value) == HandlerDecrypt(h, c, ks, e)
    ensures h.Matches(e) ==> RegistryMatches(Serialize(e, h.Id()).value)
  {
    SerializedFields(e, h.Id(), []);
    assert Serialize(e, h.Id()).value + [] == Serialize(e, h.Id()).value;
  }

  lemma HandlerRoundTrip(h: Handler, c: Crypto, ks: KeyStore, key: bytes, rnd: Randomness, data: bytes)
    requires c.Sound() && Fits(h, c, key, rnd, data) && !h.Matches(data)
    requires var keys := if h.AcraBlockHandler? then ks.symmetric else ks.private; keys.Some? && key in keys.value
    ensures HandlerDecrypt(h, c, ks, HandlerEncrypt(h, c, key, rnd, data)) == Ok(data)
  {
    BareDecrypts(h, c, ks, key, rnd, data);
  }

  lemma BareDecrypts(h: Handler, c: Crypto, ks: KeyStore, key: bytes, rnd: Randomness, data: bytes)
    requires c.Sound() && Fits(h, c, key, rnd, data)
    requires var keys := if h.AcraBlockHandler? then ks.symmetric else ks.private; keys.Some? && key in keys.value
    ensures HandlerDecrypt(h, c, ks, Bare(h, c, key, rnd, data)) == Ok(data)
  {
    hide AcraBlock.Extract, AcraStruct.Valid, AcraBlock.Opened, AcraStruct.Opened;
    BareMatches(h, c, key, rnd, data);
    var e := Bare(h, c, key, rnd, data);
    if h.AcraBlockHandler? {
      AcraBlock.SealedOpens(c.block, data, ks.symmetric.value, key, [], rnd.dataKey, rnd.r1, rnd.r2);
      assert e[..|e|] == e;
    } else {
      AcraStruct.SealedOpens(c.struct, data, ks.private.value, key, [], rnd.ephemeral, rnd.dataKey, rnd.r1);
    }
  }

  /** None of the keys at hand is the one the envelope was made with. */
  ghost predicate NoneFits(h: Handler, c: Crypto, keys: seq<bytes>, key: bytes) {
    if h.AcraBlockHandler? then key !in keys
    else forall k :: k in keys ==> c.struct.publicOf(k) != c.struct.publicOf(key)
  }

  /** Without keys, and with keys of which none fits, the envelope is not decrypted. */
  lemma WrongKeys(h: Handler, c: Crypto, ks: KeyStore, key: bytes, rnd: Randomness, data: bytes)
    requires c.Sound() && Fits(h, c, key, rnd, data)
    ensures var keys := if h.AcraBlockHandler? then ks.symmetric else ks.private;
            var r := HandlerDecrypt(h, c, ks, Bare(h, c, key, rnd, data));
            (keys.None? ==> r == Err(KeysNotFound))
            && (keys.Some? && NoneFits(h, c, keys.value, key) ==> r == Err(DecryptionError))
  {
    hide AcraBlock.Extract, AcraStruct.Valid, AcraBlock.Opened, AcraStruct.Opened, Bare;
    BareMatches(h, c, key, rnd, data);
    var e := Bare(h, c, key, rnd, data);
    if h.AcraBlockHandler? && ks.symmetric.Some? && key !in ks.symmetric.value {
      BlockStaysClosed(c, ks.symmetric.value, key, rnd, data);
      assert e[..|e|] == e;
    } else if h.AcraStructHandler? && ks.private.Some? {
      StructStaysClosed(c, ks.private.value, key, rnd, data);
    }
  }

  lemma BlockStaysClosed(c: Crypto, keys: seq<bytes>, key: bytes, rnd: Randomness, data: bytes)
    requires c.Sound() && Fits(AcraBlockHandler, c, key, rnd, data) && key !in keys
    ensures AcraBlock.Opened(c.block, Bare(AcraBlockHandler, c, key, rnd, data), keys, [])
            == Err(AcraBlock.InvalidAcraBlock)
  {
    AcraBlock.LayoutFields(c.block.keyId(key, []), c.block.seal(key, rnd.dataKey, [], rnd.r2),
                           c.block.seal(rnd.dataKey, data, [], rnd.r1));
    AcraBlock.UnsealWithWrongKeys(c.block, keys, [], key, rnd.dataKey, rnd.r2);
  }

  lemma StructStaysClosed(c: Crypto, keys: seq<bytes>, key: bytes, rnd: Randomness, data: bytes)
    requires c.Sound() && Fits(AcraStructHandler, c, key, rnd, data)
    ensures NoneFits(AcraStructHandler, c, keys, key) ==>
              AcraStruct.Opened(c.struct, Bare(AcraStructHandler, c, key, rnd, data), keys, []) == None
  {
    AcraStruct.WrongKeys(c.struct, data, keys, key, [], rnd.ephemeral, rnd.dataKey, rnd.r1);
  }

  /**
   Encrypting a value that is not an envelope yet and processing the result gives the value back, with any rotated
   key list that still holds the encrypting key. An envelope comes back from encryption unchanged, unless looking at it
   indexes out of range.
   */
  lemma EncryptThenProcess(h: Handler, c: Crypto, ks: KeyStore, key: bytes, rnd: Randomness, data: bytes)
    requires c.Sound() && Fits(h, c, key, rnd, data)
    requires var keys := if h.AcraBlockHandler? then ks.symmetric else ks.private; keys.Some? && key in keys.value
    ensures var r := Encrypt(h, c, key, rnd, data);
            if EncryptOverruns(h, data) then r == Err(IndexOutOfRange)
            else if IsEnvelope(data) then r == Ok(data)
            else r.Ok? && Process(c, ks, r.value) == Ok(data)
  {
    hide Handler.Match, RegistryMatch, HandlerEncrypt, HandlerDecrypt, Serialize, Process, EncryptOverruns, IsEnvelope;
    EncryptOutOfRange(h, c, key, rnd, data);
    if !EncryptOverruns(h, data) { EncryptKeepsEnvelopes(h, c, key, rnd, data); }
    if !h.Matches(data) && !RegistryMatches(data) && !EncryptOverruns(h, data) {
      HandlerEncryptMatches(h, c, key, rnd, data);
      HandlerRoundTrip(h, c, ks, key, rnd, data);
      ProcessUnwraps(h, c, ks, HandlerEncrypt(h, c, key, rnd, data));
    }
  }

  // ---- envelopes that come from the application ------------------------------------------------------------

  /** The bytes inside a container whose length field is right, and the handler it names. */
  function Inside(data: bytes): Option<(Handler, bytes)> {
    if Validate(data).Ok? && InternalLength(data).Some?
    then Some((HandlerById(data[ID_AT]).value, data[MIN_SIZE..MIN_SIZE + InternalLength(data).value]))
    else None
  }

  /** A whole AcraStruct, the beginning of an AcraBlock, or a container of the one or the other. */
  predicate IsEnvelope(data: bytes) {
    || AcraStruct.Valid(data) || AcraBlock.Extract(data).Some?
    || match Inside(data)
       case None => false
       case Some((h, internal)) =>
         if h.AcraStructHandler? then AcraStruct.Valid(internal) else AcraBlock.Extract(internal).Some?
  }

  /** Such a value is returned as it is, whatever the handler, and no other value is. */
  lemma EncryptKeepsEnvelopes(h: Handler, c: Crypto, key: bytes, rnd: Randomness, data: bytes)
    requires |c.block.keyId(key, [])| == 2 && !EncryptOverruns(h, data)
    ensures h.Matches(data) || RegistryMatches(data) <==> IsEnvelope(data)
    ensures IsEnvelope(data) ==> Encrypt(h, c, key, rnd, data) == Ok(data)
  {
    hide AcraBlock.Extract, AcraStruct.Valid, HandlerEncrypt, InternalLength;
    TagsDiffer(data);
  }

  /** AcraStructs and AcraBlocks made by the application are never encrypted a second time. */
  lemma BareIsKept(h: Handler, h': Handler, c: Crypto, key: bytes, key': bytes, rnd: Randomness, rnd': Randomness,
                   data: bytes)
    requires c.Sound() && Fits(h, c, key, rnd, data)
    requires h.AcraStructHandler? && h'.AcraBlockHandler? ==> !AcraBlock.Overlong(Bare(h, c, key, rnd, data))
    ensures var e := Bare(h, c, key, rnd, data); Encrypt(h', c, key', rnd', e) == Ok(e)
  {
    hide Bare, Encrypt, AcraBlock.Extract, AcraStruct.Valid, InternalLength;
    BareMatches(h, c, key, rnd, data);
    var e := Bare(h, c, key, rnd, data);
    TagsDiffer(e);
    EncryptKeepsEnvelopes(h', c, key', rnd', e);
  }

  /** Bare envelopes are decrypted like wrapped ones. A block that is an AcraStruct as well is taken for that. */
  lemma ProcessBare(h: Handler, c: Crypto, ks: KeyStore, key: bytes, rnd: Randomness, data: bytes)
    requires c.Sound() && Fits(h, c, key, rnd, data)
    requires var keys := if h.AcraBlockHandler? then ks.symmetric else ks.private; keys.Some? && key in keys.value
    requires h.AcraBlockHandler? ==> !AcraStruct.Valid(Bare(h, c, key, rnd, data))
    ensures Process(c, ks, Bare(h, c, key, rnd, data)) == Ok(data)
  {
    hide Bare, HandlerDecrypt, AcraBlock.Extract, AcraStruct.Valid;
    BareMatches(h, c, key, rnd, data);
    BareDecrypts(h, c, ks, key, rnd, data);
    TagsDiffer(Bare(h, c, key, rnd, data));
  }

  /**
   Only blocks of more than half a gigabyte can be taken for AcraStructs: their length field must hold tag symbols.
   */
  lemma ShortBlockIsNoStruct(c: Crypto, key: bytes, rnd: Randomness, data: bytes)
    requires c.Sound() && Fits(AcraBlockHandler, c, key, rnd, data)
    requires |Bare(AcraBlockHandler, c, key, rnd, data)| < 0x2222_2222
    ensures !AcraStruct.Valid(Bare(AcraBlockHandler, c, key, rnd, data))
  {
    hide AcraBlock.Extract;
    var b := Bare(AcraBlockHandler, c, key, rnd, data);
    BareMatches(AcraBlockHandler, c, key, rnd, data);
    AcraBlock.ShortBlockHeader(b);
  }

  /** A second encryption, with any handler, key and randomness, leaves an encrypted value alone. */
  lemma EncryptIsIdempotent(h: Handler, h': Handler, c: Crypto, key: bytes, key': bytes, rnd: Randomness,
                            rnd': Randomness, data: bytes)
    requires c.Sound() && Fits(h, c, key, rnd, data)
    requires !EncryptOverruns(h, data) && !IsEnvelope(data)
    ensures var once := Encrypt(h, c, key, rnd, data);
            once.Ok? && Encrypt(h', c, key', rnd', once.value) == once
  {
    hide Handler.Match, RegistryMatch, HandlerEncrypt, EncryptOverruns, IsEnvelope;
    EncryptOutOfRange(h, c, key, rnd, data);
    EncryptKeepsEnvelopes(h, c, key, rnd, data);
    HandlerEncryptMatches(h, c, key, rnd, data);
    ProcessUnwraps(h, c, KeyStore(None, None), HandlerEncrypt(h, c, key, rnd, data));
    ContainerIsNoEnvelope(h, h', HandlerEncrypt(h, c, key, rnd, data));
  }

  lemma ContainerIsNoEnvelope(h: Handler, h': Handler, e: bytes)
    requires e != [] && MIN_SIZE + |e| < TWO_63
    ensures h'.Match(Serialize(e, h.Id()).value) == Ok(false)
  {
    hide Validate, AcraStruct.Valid, AcraBlock.Extract, LittleEndian;
    SerializedFields(e, h.Id(), []);
    assert Serialize(e, h.Id()).value + [] == Serialize(e, h.Id()).value;
    TagsDiffer(Serialize(e, h.Id()).value);
  }

  /** Whatever the bytes after a container, processing it reads only the declared length. */
  lemma ProcessIgnoresTail(c: Crypto, ks: KeyStore, encrypted: bytes, id: byte, tail: bytes)
    requires encrypted != [] && HandlerById(id).Some? && MIN_SIZE + |encrypted| + |tail| < TWO_63
    ensures var container := Serialize(encrypted, id).value;
            Process(c, ks, container + tail) == Process(c, ks, container)
  {
    SerializedFields(encrypted, id, tail);
    SerializedFields(encrypted, id, []);
    assert Serialize(encrypted, id).value + [] == Serialize(encrypted, id).value;
  }

  // ---- out of range ----------------------------------------------------------------------------------------

  /** A recognised AcraBlock that is overlong, or ends before the key it announces while keys are at hand. */
  predicate BlockOverruns(ks: KeyStore, internal: bytes) {
    && AcraBlock.Extract(internal).Some?
    && (AcraBlock.Overlong(internal)
        || (ks.symmetric.Some? && AcraBlock.KeyOverruns(internal[..AcraBlock.Extract(internal).value])))
  }

  /** The bytes inside a container of AcraBlocks, as far as its length field is right. */
  function BlockInside(data: bytes): Option<bytes> {
    if Validate(data) == Ok(ACRA_BLOCK_ID) && InternalLength(data).Some?
    then Some(data[MIN_SIZE..MIN_SIZE + InternalLength(data).value])
    else None
  }

  /** Such a block inside a container, or by itself and not taken for an AcraStruct. */
  predicate ContainerOverruns(ks: KeyStore, data: bytes) {
    || (BlockInside(data).Some? && BlockOverruns(ks, BlockInside(data).value))
    || (!AcraStruct.Valid(data) && BlockOverruns(ks, data))
  }

  /** A container overruns exactly if it wraps an AcraBlock that does. */
  lemma SerializedOverruns(ks: KeyStore, h: Handler, e: bytes)
    requires e != [] && MIN_SIZE + |e| < TWO_63
    ensures Serialize(e, h.Id()).Ok?
    ensures ContainerOverruns(ks, Serialize(e, h.Id()).value) <==> h.AcraBlockHandler? && BlockOverruns(ks, e)
  {
    hide BlockOverruns, AcraStruct.Valid, AcraBlock.Extract, LittleEndian, FromLittleEndian;
    var s := Serialize(e, h.Id()).value;
    SerializedFields(e, h.Id(), []);
    assert s + [] == s;
    TagsDiffer(s);
    NoBlockNoOverrun(ks, s);
    assert h.AcraBlockHandler? ==> BlockInside(s) == Some(e);
  }

  lemma NoBlockNoOverrun(ks: KeyStore, data: bytes)
    requires AcraBlock.Extract(data).None?
    ensures !BlockOverruns(ks, data)
  {
  }

  /** An overlong AcraBlock by itself, unless it is taken for an AcraStruct first, or inside a container. */
  predicate EncryptOverruns(h: Handler, data: bytes) {
    || (AcraBlock.Overlong(data) && (h.AcraBlockHandler? || !AcraStruct.Valid(data)))
    || (BlockInside(data).Some? && AcraBlock.Overlong(BlockInside(data).value))
  }

  /** Encrypting indexes out of range on exactly those values, whatever the keys. */
  lemma EncryptOutOfRange(h: Handler, c: Crypto, key: bytes, rnd: Randomness, data: bytes)
    requires |c.block.keyId(key, [])| == 2
    ensures Encrypt(h, c, key, rnd, data) == Err(IndexOutOfRange) <==> EncryptOverruns(h, data)
  {
    hide AcraBlock.Extract, AcraStruct.Valid, HandlerEncrypt, InternalLength;
    TagsDiffer(data);
  }

  /** A container is no AcraBlock. */
  lemma TagsDiffer(data: bytes)
    ensures Validate(data).Ok? ==> AcraBlock.Extract(data).None? && !AcraStruct.Valid(data)
  {
    if Validate(data).Ok? { assert data[0] == TAG[0]; }
  }

  /** The 18 bytes of an overlong block, and a container around them: neither comes back from encryption. */
  lemma OverlongIsNotEncrypted(c: Crypto, key: bytes, rnd: Randomness)
    requires |c.block.keyId(key, [])| == 2
    ensures Encrypt(AcraBlockHandler, c, key, rnd, AcraBlock.OVERLONG) == Err(IndexOutOfRange)
    ensures Encrypt(AcraStructHandler, c, key, rnd, Serialize(AcraBlock.OVERLONG, ACRA_BLOCK_ID).value)
            == Err(IndexOutOfRange)
  {
    hide LittleEndian, FromLittleEndian, Pow256;
    var b := AcraBlock.OVERLONG;
    AcraBlock.OverlongBlock();
    EncryptOutOfRange(AcraBlockHandler, c, key, rnd, b);
    var s := Serialize(b, ACRA_BLOCK_ID).value;
    SerializedFields(b, ACRA_BLOCK_ID, []);
    assert s + [] == s;
    EncryptOutOfRange(AcraStructHandler, c, key, rnd, s);
  }

  /** Processing indexes out of range exactly on containers, and bare envelopes, that hold such an AcraBlock. */
  lemma ProcessOutOfRange(c: Crypto, ks: KeyStore, data: bytes)
    ensures Process(c, ks, data) == Err(IndexOutOfRange) <==> ContainerOverruns(ks, data)
  {
    hide AcraBlock.Extract, AcraBlock.UnsealDataKey, AcraStruct.Valid, AcraStruct.Opened, InternalLength;
    TagsDiffer(data);
  }

  /** Blocks that are long enough for their key never do, whatever else they hold. */
  lemma SealedStaysInRange(c: Crypto, ks: KeyStore, key: bytes, rnd: Randomness, data: bytes)
    requires c.Sound() && Fits(AcraBlockHandler, c, key, rnd, data)
    ensures !BlockOverruns(ks, AcraBlock.Sealed(c.block, data, key, [], rnd.dataKey, rnd.r1, rnd.r2))
  {
    var b := AcraBlock.Sealed(c.block, data, key, [], rnd.dataKey, rnd.r1, rnd.r2);
    AcraBlock.LayoutFields(c.block.keyId(key, []), c.block.seal(key, rnd.dataKey, [], rnd.r2),
                           c.block.seal(rnd.dataKey, data, [], rnd.r1));
    assert b[..|b|] == b;
  }

  /** Twelve bytes of header around the overrunning block: processing indexes out of range as soon as keys are found. */
  lemma OverrunningContainer(c: Crypto, ks: KeyStore)
    ensures Serialize(AcraBlock.OVERRUNNING, ACRA_BLOCK_ID).Ok?
    ensures Process(c, ks, Serialize(AcraBlock.OVERRUNNING, ACRA_BLOCK_ID).value)
            == Err(if ks.symmetric.Some? then IndexOutOfRange else KeysNotFound)
  {
    var b := AcraBlock.OVERRUNNING;
    ProcessUnwraps(AcraBlockHandler, c, ks, b);
    AcraBlock.OverrunningBlock(c.block, if ks.symmetric.Some? then ks.symmetric.value else [], []);
    assert b[..|b|] == b;
  }

  lemma HandlerDecryptShrinks(h: Handler, c: Crypto, ks: KeyStore, internal: bytes)
    requires c.NeverGrows()
    ensures HandlerDecrypt(h, c, ks, internal).Ok? ==> |HandlerDecrypt(h, c, ks, internal).value| < |internal|
  {
    if h.Matches(internal) {
      if h.AcraBlockHandler? && ks.symmetric.Some? {
        AcraBlock.OpenedNeverGrows(c.block, internal[..AcraBlock.Extract(internal).value], ks.symmetric.value, []);
      } else if h.AcraStructHandler? && ks.private.Some? {
        AcraStruct.OpenedNeverGrows(c.struct, internal, ks.private.value, []);
      }
    }
  }

  /**
   Processing a container succeeds only if its declared length lies in (12, length of the data], and yields fewer bytes
   than it declares. This is what keeps the detector, which trusts that length, inside its buffer.
   */
  lemma ProcessBounds(c: Crypto, ks: KeyStore, data: bytes)
    requires |data| < TWO_63 && Validate(data).Ok? && Process(c, ks, data).Ok?
    ensures MIN_SIZE < DeclaredLength(data) <= |data|
    ensures c.NeverGrows() ==> |Process(c, ks, data).value| < DeclaredLength(data) - MIN_SIZE
  {
    var internal := Deserialize(data).value.0;
    var h := HandlerById(Validate(data).value).value;
    if c.NeverGrows() { HandlerDecryptShrinks(h, c, ks, internal); }
    assert internal != [];
  }
}
