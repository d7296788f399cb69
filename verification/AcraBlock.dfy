/** AcraBlock: the symmetric envelope, its in-place construction, recognition and decryption (package acrablock). */
module AcraBlock {
  import opened Outcomes
  import opened ByteStrings
  import opened Search
  import opened Scanner

  const TAG: bytes := [34, 34, 34, 34]
  const MIN_SIZE := 18

  // positions of the fields
  const LENGTH_AT := 4
  const KEK_TYPE_AT := 12
  const KEY_ID_AT := 13
  const DATA_TYPE_AT := 15
  const KEY_LENGTH_AT := 16
  const KEY_AT := 18

  /** The only registered key and data encryption backend (Secure Cell). */
  const SECURE_CELL: byte := 0

  /** Secure Cell in seal mode and the key-id hash, taken as given functions. `r` is the randomness of a sealing. */
  datatype Backend = Backend(seal: (bytes, bytes, bytes, bytes) -> bytes,
                             open: (bytes, bytes, bytes) -> Option<bytes>,
                             keyId: (bytes, bytes) -> bytes)
  {
    ghost predicate Sound() {
      && (forall k, m, ctx, r :: open(k, seal(k, m, ctx, r), ctx) == Some(m))
      && (forall k, k', m, ctx, r :: k != k' ==> open(k', seal(k, m, ctx, r), ctx) == None)
      && NeverGrows()
      && (forall k, ctx :: |keyId(k, ctx)| == 2)
    }

    /** A ciphertext is never shorter than its plaintext. */
    ghost predicate NeverGrows() {
      forall k, c, ctx :: open(k, c, ctx).Some? ==> |open(k, c, ctx).value| <= |c|
    }
  }

  /** The bytes of an AcraBlock with the given parts. */
  function Layout(keyId: bytes, encryptedKey: bytes, encryptedData: bytes): (b: bytes)
    requires |keyId| == 2
  {
    TAG + LittleEndian(14 + |encryptedKey| + |encryptedData|, 8) + ([SECURE_CELL] + keyId + [SECURE_CELL])
    + (LittleEndian(|encryptedKey|, 2) + encryptedKey + encryptedData)
  }

  // ---- construction in place -------------------------------------------------------------------------------

  /** s with x written at position `at`. */
  function Patched(s: bytes, at: nat, x: bytes): (t: bytes)
    requires at + |x| <= |s|
    ensures |t| == |s|
  {
    s[..at] + x + s[at + |x|..]
  }

  lemma PatchedAdjacent(s: bytes, at: nat, x: bytes, y: bytes)
    requires at + |x| + |y| <= |s|
    ensures Patched(Patched(s, at, x), at + |x|, y) == Patched(s, at, x + y)
  {
    assert Patched(s, at, x)[..at + |x|] == s[..at] + x;
    assert Patched(s, at, x)[at + |x| + |y|..] == s[at + |x| + |y|..];
    assert s[..at] + x + y == s[..at] + (x + y);
  }

  /** Go's copy(b[at:at+len(x)], x). */
  method CopyInto(b: array<byte>, at: nat, x: bytes)
    requires at + |x| <= b.Length
    modifies b
    ensures b[..] == Patched(old(b[..]), at, x)
  {
    forall i | 0 <= i < |x| { b[at + i] := x[i]; }
  }

  method NewEmptyAcraBlock(length: nat) returns (b: array<byte>)
    requires length >= MIN_SIZE
    ensures fresh(b) && b.Length == length && b[..4] == TAG
  {
    b := new byte[length](_ => 0);
    CopyInto(b, 0, TAG);
    assert b[..][..4] == TAG;
  }

  /** A block whose tag and backend fields come from s, with both lengths, the key and the data filled in. */
  function Built(s: bytes, encryptedKey: bytes, encryptedData: bytes): bytes
    requires MIN_SIZE + |encryptedKey| + |encryptedData| <= |s|
  {
    s[..LENGTH_AT] + LittleEndian(|s| - 4, 8) + s[KEK_TYPE_AT..KEY_LENGTH_AT]
    + (LittleEndian(|encryptedKey|, 2) + encryptedKey + encryptedData) + s[KEY_AT + |encryptedKey| + |encryptedData|..]
  }

  lemma BuiltByPatches(s: bytes, encryptedKey: bytes, encryptedData: bytes)
    requires MIN_SIZE + |encryptedKey| + |encryptedData| <= |s|
    ensures var s1 := Patched(s, KEY_LENGTH_AT, LittleEndian(|encryptedKey|, 2));
            var s2 := Patched(s1, KEY_AT, encryptedKey);
            Patched(Patched(s2, KEY_AT + |encryptedKey|, encryptedData), LENGTH_AT, LittleEndian(|s| - 4, 8))
               == Built(s, encryptedKey, encryptedData)
  {
    var len2 := LittleEndian(|encryptedKey|, 2);
    PatchedAdjacent(s, KEY_LENGTH_AT, len2, encryptedKey);
    PatchedAdjacent(s, KEY_LENGTH_AT, len2 + encryptedKey, encryptedData);
    var s3 := Patched(s, KEY_LENGTH_AT, len2 + encryptedKey + encryptedData);
    assert s3[..LENGTH_AT] == s[..LENGTH_AT];
    assert s3[KEK_TYPE_AT..] == s[KEK_TYPE_AT..KEY_LENGTH_AT] + (len2 + encryptedKey + encryptedData)
                                + s[KEY_AT + |encryptedKey| + |encryptedData|..];
  }

  lemma PatchedFirst(s: bytes, at: nat, x: bytes, y: bytes)
    requires at + |x| + |y| <= |s|
    ensures Patched(s, at, x + y)[at..at + |x|] == x
  {
    assert (x + y)[..|x|] == x;
    assert Patched(s, at, x + y)[at..at + |x| + |y|] == x + y;
  }

  /** The key length that setEncryptedData reads is the one setEncryptedDataEncryptionKey wrote. */
  lemma KeyLengthReadBack(s: bytes, encryptedKey: bytes)
    requires KEY_AT + |encryptedKey| <= |s| && |encryptedKey| < 0x1_0000
    ensures var s2 := Patched(Patched(s, KEY_LENGTH_AT, LittleEndian(|encryptedKey|, 2)), KEY_AT, encryptedKey);
            FromLittleEndian(s2[KEY_LENGTH_AT..KEY_AT]) == |encryptedKey|
  {
    hide LittleEndian, FromLittleEndian, Pow256, Patched;
    Pow256Values();
    LittleEndianRoundTrip(|encryptedKey|, 2);
    var length := LittleEndian(|encryptedKey|, 2);
    PatchedAdjacent(s, KEY_LENGTH_AT, length, encryptedKey);
    PatchedFirst(s, KEY_LENGTH_AT, length, encryptedKey);
  }

  /** Fills in the lengths, the encrypted key and the encrypted data of a block whose other fields are set. */
  method Build(b: array<byte>, encryptedKey: bytes, encryptedData: bytes) returns (ok: bool)
    requires b.Length >= MIN_SIZE
    requires |encryptedKey| < 0x1_0000 && b.Length < TWO_64
    modifies b
    ensures ok <==> b.Length >= MIN_SIZE + |encryptedKey| + |encryptedData|
    ensures ok ==> b[..] == Built(old(b[..]), encryptedKey, encryptedData)
  {
    hide Patched, Built, LittleEndian, FromLittleEndian, Pow256;
    // setEncryptedDataEncryptionKey
    if b.Length < KEY_AT + |encryptedKey| { return false; }
    CopyInto(b, KEY_LENGTH_AT, LittleEndian(|encryptedKey|, 2));
    CopyInto(b, KEY_AT, encryptedKey);
    // setEncryptedData reads the key length back
    KeyLengthReadBack(old(b[..]), encryptedKey);
    var keySize := FromLittleEndian(b[..][KEY_LENGTH_AT..KEY_AT]);
    if b.Length < KEY_AT + keySize + |encryptedData| { return false; }
    CopyInto(b, KEY_AT + keySize, encryptedData);
    CopyInto(b, LENGTH_AT, LittleEndian(b.Length - 4, 8));
    BuiltByPatches(old(b[..]), encryptedKey, encryptedData);
    ok := true;
  }

  /** CreateAcraBlockWithBackends; the data key and the two sealing nonces are the random inputs. */
  method CreateAcraBlock(c: Backend, data: bytes, key: bytes, ctx: bytes, dataKey: bytes, r1: bytes, r2: bytes)
    returns (b: array<byte>)
    requires forall k, x :: |c.keyId(k, x)| == 2
    requires |c.seal(key, dataKey, ctx, r2)| < 0x1_0000
    requires MIN_SIZE + |c.seal(dataKey, data, ctx, r1)| + 0x1_0000 < TWO_63
    ensures fresh(b) && b[..] == Sealed(c, data, key, ctx, dataKey, r1, r2)
  {
    hide LittleEndian, FromLittleEndian, Pow256;
    var encryptedData := c.seal(dataKey, data, ctx, r1);
    var encryptedKey := c.seal(key, dataKey, ctx, r2);
    b := NewEmptyAcraBlock(MIN_SIZE + |encryptedData| + |encryptedKey|);
    ghost var s := b[..];
    CopyInto(b, KEK_TYPE_AT, [SECURE_CELL]);
    CopyInto(b, KEY_ID_AT, c.keyId(key, ctx));
    CopyInto(b, DATA_TYPE_AT, [SECURE_CELL]);
    PatchedAdjacent(s, KEK_TYPE_AT, [SECURE_CELL], c.keyId(key, ctx));
    PatchedAdjacent(s, KEK_TYPE_AT, [SECURE_CELL] + c.keyId(key, ctx), [SECURE_CELL]);
    s := b[..];
    assert s[KEK_TYPE_AT..KEY_LENGTH_AT] == [SECURE_CELL] + c.keyId(key, ctx) + [SECURE_CELL];
    assert s[..LENGTH_AT] == TAG;
    var ok := Build(b, encryptedKey, encryptedData);
    assert s[KEY_AT + |encryptedKey| + |encryptedData|..] == [];
  }

  /** The block that CreateAcraBlock leaves in its buffer. */
  function Sealed(c: Backend, data: bytes, key: bytes, ctx: bytes, dataKey: bytes, r1: bytes, r2: bytes): bytes
    requires |c.keyId(key, ctx)| == 2
  {
    Layout(c.keyId(key, ctx), c.seal(key, dataKey, ctx, r2), c.seal(dataKey, data, ctx, r1))
  }

  // ---- recognition -----------------------------------------------------------------------------------------

  /** The length field plus the tag, as ExtractAcraBlockFromData computes it: an unsigned 64-bit sum. */
  function DeclaredLength(data: bytes): (n: nat)
    requires |data| >= MIN_SIZE
  {
    (FromLittleEndian(data[LENGTH_AT..KEK_TYPE_AT]) + 4) % TWO_64
  }

  /** ExtractAcraBlockFromData: the length of the block at the start of data. The length is compared as a signed int. */
  function Extract(data: bytes): (n: Option<nat>)
    ensures n.Some? ==> |data| >= MIN_SIZE && HasPrefix(data, TAG)
  {
    if |data| < MIN_SIZE then None
    else
      LengthFitsUint64(data);
      if data[..4] == TAG && AsInt64(DeclaredLength(data)) <= |data|
         && data[KEK_TYPE_AT] == SECURE_CELL && data[DATA_TYPE_AT] == SECURE_CELL
      then Some(DeclaredLength(data))
      else None
  }

  lemma LengthFitsUint64(data: bytes)
    requires |data| >= MIN_SIZE
    ensures DeclaredLength(data) < TWO_64
    ensures FromLittleEndian(data[LENGTH_AT..KEK_TYPE_AT]) < TWO_64
  {
    Pow256Values();
  }

  /**
   A recognised block whose length is negative as a Go int. The comparison lets it pass, and the slice by the unsigned
   length stops the original with a runtime panic.
   */
  predicate Overlong(data: bytes) {
    Extract(data).Some? && Extract(data).value > |data|
  }

  function Headed(n: nat, keyId: bytes, rest: bytes): bytes {
    TAG + LittleEndian((n - 4) % TWO_64, 8) + ([SECURE_CELL] + keyId + [SECURE_CELL]) + rest
  }

  /**
   The format: the tag, the length behind the tag, the two backends with the key id between them, and at least the key
   length. A block of n bytes is recognised at the start of exactly these data.
   */
  ghost predicate Begins(data: bytes, n: nat) {
    exists keyId: bytes, rest: bytes :: |keyId| == 2 && |rest| >= 2 && data == Headed(n, keyId, rest)
  }

  /** The fields of the header, in the order of the format. */
  lemma HeaderFields(data: bytes)
    requires |data| >= MIN_SIZE
    ensures data == data[..LENGTH_AT] + data[LENGTH_AT..KEK_TYPE_AT]
                    + ([data[KEK_TYPE_AT]] + data[KEY_ID_AT..DATA_TYPE_AT] + [data[DATA_TYPE_AT]])
                    + data[KEY_LENGTH_AT..]
  {
  }

  lemma FieldsOfHeader(length: bytes, keyId: bytes, rest: bytes)
    requires |length| == 8 && |keyId| == 2 && |rest| >= 2
    ensures var data := TAG + length + ([SECURE_CELL] + keyId + [SECURE_CELL]) + rest;
            && |data| >= MIN_SIZE && data[..4] == TAG && data[LENGTH_AT..KEK_TYPE_AT] == length
            && data[KEK_TYPE_AT] == SECURE_CELL && data[DATA_TYPE_AT] == SECURE_CELL
  {
  }

  lemma ExtractBegins(data: bytes, n: nat)
    requires Extract(data) == Some(n)
    ensures Begins(data, n)
  {
    hide LittleEndian, FromLittleEndian, Pow256, HasPrefix;
    LengthFitsUint64(data);
    var field := data[LENGTH_AT..KEK_TYPE_AT];
    FromLittleEndianRoundTrip(field);
    LengthField(FromLittleEndian(field));
    var keyId, rest := data[KEY_ID_AT..DATA_TYPE_AT], data[KEY_LENGTH_AT..];
    assert data == Headed(n, keyId, rest) by { HeaderFields(data); }
    assert |keyId| == 2 && |rest| >= 2;
  }

  /** The four bytes of the tag are added and taken off in unsigned 64-bit arithmetic. */
  lemma LengthField(f: nat)
    requires f < TWO_64
    ensures ((f + 4) % TWO_64 - 4) % TWO_64 == f
  {
  }

  lemma BeginsExtracts(data: bytes, n: nat)
    requires n <= |data| < TWO_63 && Begins(data, n)
    ensures Extract(data) == Some(n)
  {
    hide LittleEndian, FromLittleEndian, Pow256, HasPrefix;
    var m := (n - 4) % TWO_64;
    var keyId, rest :| |keyId| == 2 && |rest| >= 2 && data == Headed(n, keyId, rest);
    Pow256Values();
    LittleEndianRoundTrip(m, 8);
    FieldsOfHeader(LittleEndian(m, 8), keyId, rest);
    assert (m + 4) % TWO_64 == n;
  }

  lemma ExtractExact(data: bytes, n: nat)
    requires n <= |data| < TWO_63
    ensures Extract(data) == Some(n) <==> Begins(data, n)
  {
    hide Extract, Begins;
    if Extract(data) == Some(n) { ExtractBegins(data, n); }
    if Begins(data, n) { BeginsExtracts(data, n); }
  }

  /** A recognised block is overlong exactly if its length field plus 4 lies between 2^63 and 2^64. */
  lemma OverlongExact(data: bytes)
    requires Extract(data).Some? && |data| < TWO_63
    ensures Overlong(data) <==> TWO_63 <= FromLittleEndian(data[LENGTH_AT..KEK_TYPE_AT]) + 4 < TWO_64
  {
    LengthFitsUint64(data);
  }

  /** The bytes behind the tag of a short block are not tag symbols. */
  lemma ShortBlockHeader(b: bytes)
    requires Extract(b) == Some(|b|) && |b| < 0x2222_2222
    ensures b[4..8] != [34, 34, 34, 34]
  {
    LengthFitsUint64(b);
    var f := b[LENGTH_AT..KEK_TYPE_AT];
    FromLittleEndianUnfolds(f);
    FromLittleEndianUnfolds(f[1..]);
    FromLittleEndianUnfolds(f[2..]);
    FromLittleEndianUnfolds(f[3..]);
    assert b[4..8] == f[..4];
    assert f[0] == f[..4][0] && f[1] == f[..4][1] && f[2] == f[..4][2] && f[3] == f[..4][3];
  }

  lemma FromLittleEndianUnfolds(s: bytes)
    requires s != []
    ensures FromLittleEndian(s) == s[0] + 256 * FromLittleEndian(s[1..])
  {
  }

  /** The 18 bytes of a block header with the length 2^63. */
  const OVERLONG: bytes := [34, 34, 34, 34, 0, 0, 0, 0, 0, 0, 0, 128, SECURE_CELL, 1, 2, SECURE_CELL, 0, 0]

  lemma OverlongBlock()
    ensures |OVERLONG| == MIN_SIZE && Overlong(OVERLONG)
  {
    var b := OVERLONG;
    assert b[..4] == TAG;
    TopByte(b[LENGTH_AT..KEK_TYPE_AT]);
    Pow256Values();
    assert 256 * Pow256(7) == Pow256(8);
  }

  // ---- decryption ------------------------------------------------------------------------------------------

  /** IndexOutOfRange stands for a slice past the end of the block, which stops the original with a runtime panic. */
  datatype Error = InvalidAcraBlock | IndexOutOfRange

  /** The data key that the first fitting key of the list unseals: its id must match and it must decrypt. */
  function UnsealDataKey(c: Backend, keys: seq<bytes>, ctx: bytes, keyId: bytes, encryptedKey: bytes): Option<bytes> {
    if keys == [] then None
    else if c.keyId(keys[0], ctx) == keyId && c.open(keys[0], encryptedKey, ctx).Some?
      then c.open(keys[0], encryptedKey, ctx)
    else UnsealDataKey(c, keys[1..], ctx, keyId, encryptedKey)
  }

  function KeySize(b: bytes): nat
    requires |b| >= MIN_SIZE
  {
    FromLittleEndian(b[KEY_LENGTH_AT..KEY_AT])
  }

  /** The block ends before the key that its own key-length field announces. */
  predicate KeyOverruns(b: bytes) { |b| < MIN_SIZE || |b| < KEY_AT + KeySize(b) }

  function Opened(c: Backend, b: bytes, keys: seq<bytes>, ctx: bytes): (r: Result<bytes, Error>)
  {
    if KeyOverruns(b) then Err(IndexOutOfRange)
    else
      match UnsealDataKey(c, keys, ctx, b[KEY_ID_AT..DATA_TYPE_AT], b[KEY_AT..KEY_AT + KeySize(b)])
      case None => Err(InvalidAcraBlock)
      case Some(dataKey) =>
        match c.open(dataKey, b[KEY_AT + KeySize(b)..], ctx) case Some(x) => Ok(x) case None => Err(InvalidAcraBlock)
  }

  /**
   AcraBlock.Decrypt: slice the block, then try the keys in turn. The key length is not checked before the slices are
   taken.
   */
  method Decrypt(c: Backend, b: bytes, keys: seq<bytes>, ctx: bytes) returns (r: Result<bytes, Error>)
    ensures r == Opened(c, b, keys, ctx)
    ensures r == Err(IndexOutOfRange) <==> |b| < MIN_SIZE || |b| < KEY_AT + KeySize(b)
  {
    if |b| < MIN_SIZE { return Err(IndexOutOfRange); }
    var keySize := KeySize(b);
    if KEY_AT + keySize > |b| { return Err(IndexOutOfRange); }
    var encryptedKey := b[KEY_AT..KEY_AT + keySize];
    var encryptedData := b[KEY_AT + keySize..];
    var blockKeyId := b[KEY_ID_AT..DATA_TYPE_AT];
    var dataKey: Option<bytes> := None;
    var i := 0;
    while i < |keys|
      invariant 0 <= i <= |keys| && dataKey.None?
      invariant UnsealDataKey(c, keys, ctx, blockKeyId, encryptedKey)
                == UnsealDataKey(c, keys[i..], ctx, blockKeyId, encryptedKey)
    {
      if c.keyId(keys[i], ctx) == blockKeyId {
        var decrypted := c.open(keys[i], encryptedKey, ctx);
        if decrypted.Some? {
          dataKey := decrypted;
          break;
        }
      }
      i := i + 1;
    }
    if dataKey.None? { return Err(InvalidAcraBlock); }
    var decrypted := c.open(dataKey.value, encryptedData, ctx);
    return if decrypted.Some? then Ok(decrypted.value) else Err(InvalidAcraBlock);
  }

  /** A block of 19 bytes that announces a key of 65535 bytes. */
  const OVERRUNNING: bytes := [34, 34, 34, 34, 15, 0, 0, 0, 0, 0, 0, 0, SECURE_CELL, 1, 2, SECURE_CELL, 255, 255, 7]

  /** It is recognised as a block, and decrypting it indexes out of range, whatever the keys. */
  lemma OverrunningBlock(c: Backend, keys: seq<bytes>, ctx: bytes)
    ensures Extract(OVERRUNNING) == Some(|OVERRUNNING|) && KeySize(OVERRUNNING) == 65535
    ensures Opened(c, OVERRUNNING, keys, ctx) == Err(IndexOutOfRange)
  {
    var b := OVERRUNNING;
    assert b[..4] == TAG;
    var length, keyLength := b[LENGTH_AT..KEK_TYPE_AT], b[KEY_LENGTH_AT..KEY_AT];
    ZeroBytes(length[1..]);
    assert FromLittleEndian(length) == 15;
    assert keyLength[1..] == [255] && keyLength[1..][1..] == [];
    assert FromLittleEndian(keyLength[1..]) == 255;
  }

  // ---- a built block is recognised and decrypts ------------------------------------------------------------

  /** A wrong key whose 2-byte id collides is tried and passed over. */
  lemma {:induction false} UnsealWithRotatedKeys(c: Backend, keys: seq<bytes>, ctx: bytes, key: bytes, dataKey: bytes,
                                                 r: bytes)
    requires c.Sound() && key in keys
    ensures UnsealDataKey(c, keys, ctx, c.keyId(key, ctx), c.seal(key, dataKey, ctx, r)) == Some(dataKey)
  {
    if keys[0] != key {
      assert key in keys[1..];
      UnsealWithRotatedKeys(c, keys[1..], ctx, key, dataKey, r);
    }
  }

  lemma {:induction false} UnsealWithWrongKeys(c: Backend, keys: seq<bytes>, ctx: bytes, key: bytes, dataKey: bytes,
                                               r: bytes)
    requires c.Sound() && key !in keys
    ensures UnsealDataKey(c, keys, ctx, c.keyId(key, ctx), c.seal(key, dataKey, ctx, r)) == None
  {
    if keys != [] {
      assert keys[0] != key;
      UnsealWithWrongKeys(c, keys[1..], ctx, key, dataKey, r);
    }
  }

  lemma LayoutFields(keyId: bytes, encryptedKey: bytes, encryptedData: bytes)
    requires |keyId| == 2 && |encryptedKey| < 0x1_0000 && MIN_SIZE + |encryptedKey| + |encryptedData| < TWO_63
    ensures var b := Layout(keyId, encryptedKey, encryptedData);
            && |b| == MIN_SIZE + |encryptedKey| + |encryptedData|
            && Extract(b) == Some(|b|)
            && b[KEY_ID_AT..DATA_TYPE_AT] == keyId && KeySize(b) == |encryptedKey|
            && b[KEY_AT..KEY_AT + |encryptedKey|] == encryptedKey
            && b[KEY_AT + |encryptedKey|..] == encryptedData
  {
    hide LittleEndian, FromLittleEndian, Pow256;
    Pow256Values();
    LittleEndianRoundTrip(14 + |encryptedKey| + |encryptedData|, 8);
    LittleEndianRoundTrip(|encryptedKey|, 2);
    var b := Layout(keyId, encryptedKey, encryptedData);
    assert b[LENGTH_AT..KEK_TYPE_AT] == LittleEndian(14 + |encryptedKey| + |encryptedData|, 8);
    assert b[KEY_LENGTH_AT..KEY_AT] == LittleEndian(|encryptedKey|, 2);
    assert b[..4] == TAG;
  }

  /** Sealing and opening with any rotated key list that still holds the sealing key, wherever it stands. */
  lemma SealedOpens(c: Backend, data: bytes, keys: seq<bytes>, key: bytes, ctx: bytes, dataKey: bytes, r1: bytes,
                    r2: bytes)
    requires c.Sound() && key in keys
    requires |c.seal(key, dataKey, ctx, r2)| < 0x1_0000
    requires MIN_SIZE + |c.seal(dataKey, data, ctx, r1)| + 0x1_0000 < TWO_63
    ensures var b := Sealed(c, data, key, ctx, dataKey, r1, r2);
            Extract(b) == Some(|b|) && Opened(c, b, keys, ctx) == Ok(data)
  {
    LayoutFields(c.keyId(key, ctx), c.seal(key, dataKey, ctx, r2), c.seal(dataKey, data, ctx, r1));
    UnsealWithRotatedKeys(c, keys, ctx, key, dataKey, r2);
  }

  lemma OpenedNeverGrows(c: Backend, b: bytes, keys: seq<bytes>, ctx: bytes)
    requires c.NeverGrows()
    ensures Opened(c, b, keys, ctx).Ok? ==> |Opened(c, b, keys, ctx).value| + MIN_SIZE <= |b|
  {
  }

  // ---- the scanner -----------------------------------------------------------------------------------------

  /**
   How a pass over a buffer fails: with an error of the processor, with the runtime panic of a block whose length is no
   Go int, or not at all, at a block of declared length zero that the processor accepts and the loop finds again and
   again.
   */
  datatype Failure<+E> = Failed(error: E) | OutOfRange | NeverEnds

  /** The block at the start of what the scan found goes to the processor. */
  predicate HandsOn(found: bytes) {
    |found| > MIN_SIZE && Extract(found).Some? && !Overlong(found)
  }

  /** What ProcessAcraBlocks does at a tag. */
  function Decide<E>(process: bytes -> Result<bytes, E>): bytes -> Step<Failure<E>> {
    (found: bytes) =>
      if HandsOn(found) then
        var n := Extract(found).value;
        match process(found[..n])
        case Ok(x) => if n == 0 then Abort(NeverEnds) else Replace(n, x)
        case Err(e) => Abort(Failed(e))
      else if |found| > MIN_SIZE && Overlong(found) then Abort(OutOfRange)
      else Skip
  }

  lemma DecideInBounds<E>(process: bytes -> Result<bytes, E>, s: bytes)
    ensures Bounded(TAG, Decide(process), s)
    ensures Shrinking(process) && |s| <= MAX_BUFFER ==> NonExpanding(TAG, Decide(process), s)
  {
    forall i | OccursAt(s, TAG, i) ensures StepInBounds(Decide(process)(s[i..]), s[i..]) {
      assert HandsOn(s[i..]) ==> !Overlong(s[i..]);
    }
  }

  /** Every AcraBlock of s replaced by what the processor returns for it, left to right. */
  function Processed<E>(process: bytes -> Result<bytes, E>, s: bytes): Result<bytes, Failure<E>> {
    DecideInBounds(process, s);
    Scan(TAG, Decide(process), s)
  }

  /** The suffixes of s at whose tags the pass takes a decision. */
  function Visited<E>(process: bytes -> Result<bytes, E>, s: bytes): seq<bytes> {
    DecideInBounds(process, s);
    Found(TAG, Decide(process), s)
  }

  lemma DecideFails<E>(process: bytes -> Result<bytes, E>, f: bytes)
    ensures Decide(process)(f) == Abort(OutOfRange) <==> |f| > MIN_SIZE && Overlong(f)
    ensures Decide(process)(f) == Abort(NeverEnds) <==> process([]).Ok? && |f| > MIN_SIZE && Extract(f) == Some(0)
  {
    hide Extract;
    if HandsOn(f) && Extract(f).value == 0 {
      assert f[..Extract(f).value] == [];
    }
  }

  lemma DecideFailed<E>(process: bytes -> Result<bytes, E>, f: bytes)
    ensures Decide(process)(f).Abort? && Decide(process)(f).error.Failed? <==>
            HandsOn(f) && process(f[..Extract(f).value]).Err?
    ensures HandsOn(f) && process(f[..Extract(f).value]).Err? ==>
              Decide(process)(f) == Abort(Failed(process(f[..Extract(f).value]).error))
  {
    hide Extract;
  }

  /** A pass leaves the bounds of the buffer exactly if it comes to an overlong block. */
  lemma PassOutOfRange<E>(process: bytes -> Result<bytes, E>, s: bytes)
    ensures Processed(process, s) == Err(OutOfRange)
            <==> exists f :: f in Visited(process, s) && |f| > MIN_SIZE && Overlong(f)
  {
    hide Scan, Found, Bounded, Extract, Decide;
    DecideInBounds(process, s);
    ScanAborts(TAG, Decide(process), s, OutOfRange);
    forall f { DecideFails(process, f); }
  }

  /** It never ends exactly if it comes to a block of declared length zero and the processor accepts the empty block. */
  lemma PassNeverEnds<E>(process: bytes -> Result<bytes, E>, s: bytes)
    ensures Processed(process, s) == Err(NeverEnds)
            <==> process([]).Ok? && exists f :: f in Visited(process, s) && |f| > MIN_SIZE && Extract(f) == Some(0)
  {
    hide Scan, Found, Bounded, Extract, Decide;
    DecideInBounds(process, s);
    ScanAborts(TAG, Decide(process), s, NeverEnds);
    forall f { DecideFails(process, f); }
  }

  lemma FailsAtStart<E>(process: bytes -> Result<bytes, E>, s: bytes, e: Failure<E>)
    requires HasPrefix(s, TAG) && Decide(process)(s) == Abort(e)
    ensures Processed(process, s) == Err(e)
  {
    hide Decide, Scan, Bounded;
    assert s[0..] == s && OccursAt(s, TAG, 0);
    DecideInBounds(process, s);
    ScanRound(TAG, Decide(process), s);
  }

  /** A byte after the overlong header suffices, whatever the processor. */
  lemma OverlongBuffer<E>(process: bytes -> Result<bytes, E>)
    ensures Processed(process, OVERLONG + [7]) == Err(OutOfRange)
  {
    hide Decide, Processed;
    var s := OVERLONG + [7];
    OverlongBlock();
    assert s[..4] == TAG && s[LENGTH_AT..KEK_TYPE_AT] == OVERLONG[LENGTH_AT..KEK_TYPE_AT];
    DecideFails(process, s);
    FailsAtStart(process, s, OutOfRange);
  }

  /** A length field of 2^64 - 4 declares a block of no bytes at all. */
  const ENDLESS: bytes := TAG + LittleEndian(TWO_64 - 4, 8) + [SECURE_CELL, 1, 2, SECURE_CELL, 0, 0, 7]

  /** A processor that accepts the empty block is given it for ever. */
  lemma EndlessBuffer<E>(process: bytes -> Result<bytes, E>)
    requires process([]).Ok?
    ensures Processed(process, ENDLESS) == Err(NeverEnds)
  {
    hide Decide, Processed, LittleEndian, FromLittleEndian;
    Pow256Values();
    LittleEndianRoundTrip(TWO_64 - 4, 8);
    assert ENDLESS[..4] == TAG && ENDLESS[LENGTH_AT..KEK_TYPE_AT] == LittleEndian(TWO_64 - 4, 8);
    DecideFails(process, ENDLESS);
    FailsAtStart(process, ENDLESS, NeverEnds);
  }

  lemma ExtractIgnoresTail(b: bytes, tail: bytes)
    requires Extract(b) == Some(|b|)
    ensures Extract(b + tail) == Some(|b|) && HasPrefix(b + tail, TAG)
  {
    var s := b + tail;
    assert s[..4] == b[..4] && s[LENGTH_AT..KEK_TYPE_AT] == b[LENGTH_AT..KEK_TYPE_AT];
  }

  lemma BlockIsReplaced<E>(process: bytes -> Result<bytes, E>, gap: bytes, b: bytes, x: bytes)
    requires |b| > MIN_SIZE && Extract(b) == Some(|b|) && process(b) == Ok(x)
    requires !Contains(gap, TAG) && !Ends(gap, TAG[0])
    ensures ReplacedBehind(TAG, Decide(process), gap, b, x)
  {
    hide Extract, Contains, Index;
    forall tail: bytes
      ensures Index(gap + (b + tail), TAG) == |gap| && Decide(process)(b + tail) == Replace(|b|, x)
    {
      ExtractIgnoresTail(b, tail);
      TagBehindGap(TAG, TAG[0], gap, b + tail);
      assert (b + tail)[..|b|] == b;
      assert HandsOn(b + tail);
    }
  }

  /**
   AcraBlocks between other bytes: each of them, and nothing else, is replaced by what the processor returns for it. No
   gap holds the tag, and none before a block ends in a tag symbol.
   */
  lemma BlocksReplaced<E>(process: bytes -> Result<bytes, E>, gaps: seq<bytes>, blocks: seq<bytes>, results: seq<bytes>)
    requires |gaps| == |blocks| + 1 == |results| + 1
    requires forall k :: 0 <= k < |blocks| ==>
               |blocks[k]| > MIN_SIZE && Extract(blocks[k]) == Some(|blocks[k]|) && process(blocks[k]) == Ok(results[k])
    requires forall k :: 0 <= k < |gaps| ==> !Contains(gaps[k], TAG) && (k < |blocks| ==> !Ends(gaps[k], TAG[0]))
    ensures Processed(process, Interleaved(gaps, blocks)) == Ok(Interleaved(gaps, results))
  {
    hide Extract, Contains, Decide, Scan, Bounded, Interleaved, ReplacedBehind;
    DecideInBounds(process, Interleaved(gaps, blocks));
    forall k | 0 <= k < |blocks| ensures ReplacedBehind(TAG, Decide(process), gaps[k], blocks[k], results[k]) {
      BlockIsReplaced(process, gaps[k], blocks[k], results[k]);
    }
    PartsReplaced(TAG, Decide(process), gaps, blocks, results);
  }

  function RaisedAt(raises: bytes -> bool): bytes -> bool {
    (found: bytes) => HandsOn(found) && raises(found[..Extract(found).value])
  }

  /** Of AcraBlocks between other bytes the processor is handed each one, so that any of them can raise its flag. */
  lemma BlocksRaise<E>(process: bytes -> Result<bytes, E>, gaps: seq<bytes>, blocks: seq<bytes>, results: seq<bytes>,
                       raises: bytes -> bool)
    requires |gaps| == |blocks| + 1 == |results| + 1
    requires forall k :: 0 <= k < |blocks| ==>
               |blocks[k]| > MIN_SIZE && Extract(blocks[k]) == Some(|blocks[k]|) && process(blocks[k]) == Ok(results[k])
    requires forall k :: 0 <= k < |gaps| ==> !Contains(gaps[k], TAG) && (k < |blocks| ==> !Ends(gaps[k], TAG[0]))
    ensures AnyRaised(raises, Visited(process, Interleaved(gaps, blocks))) <==>
            exists k :: 0 <= k < |blocks| && raises(blocks[k])
  {
    hide Extract, Contains, Decide, Found, Bounded, Interleaved, ReplacedBehind, Seen;
    DecideInBounds(process, Interleaved(gaps, blocks));
    forall k | 0 <= k < |blocks|
      ensures ReplacedBehind(TAG, Decide(process), gaps[k], blocks[k], results[k])
      ensures forall tail: bytes :: RaisedAt(raises)(blocks[k] + tail) <==> raises(blocks[k])
    {
      BlockIsReplaced(process, gaps[k], blocks[k], results[k]);
      forall tail: bytes ensures RaisedAt(raises)(blocks[k] + tail) <==> raises(blocks[k]) {
        ExtractIgnoresTail(blocks[k], tail);
        assert (blocks[k] + tail)[..|blocks[k]|] == blocks[k];
        assert HandsOn(blocks[k] + tail);
      }
    }
    PartsSeen(TAG, Decide(process), RaisedAt(raises), raises, gaps, blocks, results);
  }

  /** The processor raises its flag on a block that it is handed. */
  ghost predicate AnyRaised(raises: bytes -> bool, fs: seq<bytes>) {
    Seen(RaisedAt(raises), fs)
  }

  /** A buffer shorter than a block is left as it is. */
  lemma ShortBufferUnchanged<E>(process: bytes -> Result<bytes, E>, s: bytes, raises: bytes -> bool)
    requires |s| <= MIN_SIZE
    ensures Processed(process, s) == Ok(s) && !AnyRaised(raises, Visited(process, s))
  {
    DecideInBounds(process, s);
    forall i | OccursAt(s, TAG, i) ensures Decide(process)(s[i..]).Skip? {
      assert !HandsOn(s[i..]);
    }
    ScanWithoutReplacement(TAG, Decide(process), s);
    forall f | f in Visited(process, s) ensures !HandsOn(f) {
      var at := FoundStartAtTags(TAG, Decide(process), s, f);
    }
  }

  /**
   ProcessAcraBlocks(inBuffer, outBuffer, processor), where inBuffer and outBuffer are the first inLen and outLen
   bytes of two arrays that may be the same one. With one array and a processor that never lengthens a block the
   result is the one that separate buffers give, in the same array. The processor raises a flag of its own on the blocks
   that `raises` tells; `raised` says whether it did, up to the failure if there is one.
   */
  method ProcessAcraBlocks<E>(input: array<byte>, inLen: nat, out: array<byte>, outLen: nat,
                              process: bytes -> Result<bytes, E>, raises: bytes -> bool)
    returns (res: array<byte>, resLen: nat, failure: Option<Failure<E>>, raised: bool)
    requires inLen <= input.Length && outLen <= out.Length
    requires input == out ==> Shrinking(process) && outLen == inLen <= MAX_BUFFER
    modifies out
    ensures resLen <= res.Length
    ensures inLen < MIN_SIZE ==>
              && failure.None? && res == out && resLen == outLen
              && res[..resLen] == if inLen <= outLen then old(input[..inLen]) + old(out[inLen..outLen])
                                  else old(input[..outLen])
    ensures inLen >= MIN_SIZE || inLen == outLen ==>
              Processed(process, old(input[..inLen]))
              == if failure.Some? then Err(failure.value) else Ok(res[..resLen])
    ensures raised == AnyRaised(raises, Visited(process, old(input[..inLen])))
    ensures failure.Some? ==>
              res == input && resLen == inLen && IntactFrom(input, inLen, Visited(process, old(input[..inLen])))
    ensures input == out ==> res == input && resLen <= inLen
    ensures input != out ==> input[..] == old(input[..]) && (failure.Some? || res == out || fresh(res))
  {
    DecideInBounds(process, input[..inLen]);
    if inLen < MIN_SIZE {
      ShortBufferUnchanged(process, input[..inLen], raises);
      var n := if inLen <= outLen then inLen else outLen;
      forall i | 0 <= i < n { out[i] := input[i]; }
      assert inLen == outLen ==> out[..outLen] == old(input[..inLen]);
      return out, outLen, None, false;
    }
    res, resLen, failure, raised := ScanInto(input, inLen, out, TAG, Decide(process), RaisedAt(raises));
    if failure.Some? { res, resLen := input, inLen; }
  }
}
