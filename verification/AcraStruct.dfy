/**
 AcraStruct: the asymmetric envelope, its recognition and decryption, and the in-buffer processor (package acrastruct).
 */
module AcraStruct {
  import opened Outcomes
  import opened ByteStrings
  import opened Search
  import opened Scanner

  const TAG: bytes := [34, 34, 34, 34, 34, 34, 34, 34]
  const PUBLIC_KEY_LENGTH := 45
  const WRAPPED_KEY_LENGTH := 84
  const SYMMETRIC_KEY_LENGTH := 32
  /** Length of the tag, the key block and the data length field. */
  const MIN_SIZE := 145
  const LENGTH_AT := 137

  /**
   Secure Message (`wrap`, `unwrap`) and Secure Cell (`seal`, `open`), taken as given functions. An ephemeral key pair
   is named by its private half; `publicOf` is the matching public key.
   */
  datatype Backend = Backend(publicOf: bytes -> bytes,
                             wrap: (bytes, bytes, bytes) -> bytes,
                             unwrap: (bytes, bytes, bytes) -> Option<bytes>,
                             seal: (bytes, bytes, bytes, bytes) -> bytes,
                             open: (bytes, bytes, bytes) -> Option<bytes>)
  {
    ghost predicate Sound() {
      && (forall k :: |publicOf(k)| == PUBLIC_KEY_LENGTH)
      && (forall e, p, m :: |wrap(e, p, m)| == WRAPPED_KEY_LENGTH)
      && (forall e, k, m :: |m| == SYMMETRIC_KEY_LENGTH ==> unwrap(k, publicOf(e), wrap(e, publicOf(k), m)) == Some(m))
      && (forall e, k, k', m :: publicOf(k) != publicOf(k') ==>
            unwrap(k', publicOf(e), wrap(e, publicOf(k), m)) == None)
      && (forall k, m, ctx, r :: open(k, seal(k, m, ctx, r), ctx) == Some(m))
      && NeverGrows()
    }

    ghost predicate NeverGrows() {
      forall k, c, ctx :: open(k, c, ctx).Some? ==> |open(k, c, ctx).value| <= |c|
    }
  }

  /** GetDataLengthFromAcraStruct: the 64-bit field converted to a signed int. */
  function DataLength(data: bytes): (n: int)
    requires |data| >= MIN_SIZE
    ensures -TWO_63 <= n < TWO_63
  {
    Pow256Values();
    AsInt64(FromLittleEndian(data[LENGTH_AT..MIN_SIZE]))
  }

  /** The length of the AcraStruct at the start of data: a signed sum that wraps around. */
  function TotalLength(data: bytes): int
    requires |data| >= MIN_SIZE
  {
    WrapInt64(DataLength(data) + MIN_SIZE)
  }

  /** ValidateAcraStructLength. */
  predicate Valid(data: bytes) {
    |data| >= MIN_SIZE && data[..8] == TAG && DataLength(data) == |data| - MIN_SIZE
  }

  /** The format: the tag, the key block, the length of the data, the data. */
  ghost predicate Formed(data: bytes) {
    exists keys: bytes, rest: bytes :: |keys| == PUBLIC_KEY_LENGTH + WRAPPED_KEY_LENGTH
      && data == TAG + keys + LittleEndian(|rest|, 8) + rest
  }

  lemma ValidExact(data: bytes)
    requires |data| < TWO_63
    ensures Valid(data) <==> Formed(data)
  {
    hide LittleEndian, FromLittleEndian, Pow256;
    Pow256Values();
    if Valid(data) {
      FromLittleEndianRoundTrip(data[LENGTH_AT..MIN_SIZE]);
      var keys, rest := data[8..LENGTH_AT], data[MIN_SIZE..];
      assert data == data[..8] + data[8..137] + data[137..145] + data[145..];
      assert data == TAG + keys + LittleEndian(|rest|, 8) + rest;
    }
    if Formed(data) {
      var keys, rest :| |keys| == PUBLIC_KEY_LENGTH + WRAPPED_KEY_LENGTH
                        && data == TAG + keys + LittleEndian(|rest|, 8) + rest;
      LittleEndianRoundTrip(|rest|, 8);
      assert data[LENGTH_AT..MIN_SIZE] == LittleEndian(|rest|, 8) && data[..8] == TAG;
    }
  }

  datatype Error = InvalidAcraStruct | IncorrectLength | NoPrivateKeys | DecryptionFailed

  /** ExtractAcraStruct. */
  function Extract(data: bytes): (r: Result<int, Error>)
    requires |data| < TWO_63
    ensures r.Ok? ==> MIN_SIZE <= r.value <= |data| && Valid(data[..r.value])
    ensures r.Ok? <==> exists n :: MIN_SIZE <= n <= |data| && Valid(data[..n])
  {
    if |data| < MIN_SIZE then Err(InvalidAcraStruct)
    else
      var n := TotalLength(data);
      ValidPrefixLength(data);
      if n < 0 || n > |data| then Err(IncorrectLength)
      else if Valid(data[..n]) then Ok(n) else Err(InvalidAcraStruct)
  }

  /** A valid prefix can only have the length that the field declares. */
  lemma ValidPrefixLength(data: bytes)
    requires MIN_SIZE <= |data| < TWO_63
    ensures forall n :: MIN_SIZE <= n <= |data| && Valid(data[..n]) ==> n == TotalLength(data)
  {
    forall n | MIN_SIZE <= n <= |data| && Valid(data[..n]) ensures n == TotalLength(data) {
      assert data[..n][LENGTH_AT..MIN_SIZE] == data[LENGTH_AT..MIN_SIZE];
    }
  }

  // ---- creation and decryption -----------------------------------------------------------------------------

  /** CreateAcrastruct: the ephemeral key, the random symmetric key and the sealing nonce are the random inputs. */
  function Sealed(c: Backend, data: bytes, publicKey: bytes, ctx: bytes, ephemeral: bytes, key: bytes,
                  r: bytes): bytes {
    var encryptedData := c.seal(key, data, ctx, r);
    TAG + c.publicOf(ephemeral) + c.wrap(ephemeral, publicKey, key) + LittleEndian(|encryptedData|, 8) + encryptedData
  }

  /** DecryptAcrastruct with one private key. */
  function OpenedWith(c: Backend, s: bytes, privateKey: bytes, ctx: bytes): Option<bytes> {
    if !Valid(s) then None
    else
      var key := c.unwrap(privateKey, s[8..8 + PUBLIC_KEY_LENGTH], s[8 + PUBLIC_KEY_LENGTH..LENGTH_AT]);
      if key.None? then None else c.open(key.value, s[MIN_SIZE..], ctx)
  }

  function Opened(c: Backend, s: bytes, privateKeys: seq<bytes>, ctx: bytes): Option<bytes> {
    if privateKeys == [] then None
    else if OpenedWith(c, s, privateKeys[0], ctx).Some? then OpenedWith(c, s, privateKeys[0], ctx)
    else Opened(c, s, privateKeys[1..], ctx)
  }

  /** DecryptRotatedAcrastruct. */
  method DecryptRotated(c: Backend, s: bytes, privateKeys: seq<bytes>, ctx: bytes) returns (r: Result<bytes, Error>)
    ensures Opened(c, s, privateKeys, ctx) == if r.Ok? then Some(r.value) else None
    ensures r == Err(NoPrivateKeys) <==> privateKeys == []
  {
    r := Err(NoPrivateKeys);
    for i := 0 to |privateKeys|
      invariant r == if i == 0 then Err(NoPrivateKeys) else Err(DecryptionFailed)
      invariant Opened(c, s, privateKeys, ctx) == Opened(c, s, privateKeys[i..], ctx)
    {
      var decrypted := OpenedWith(c, s, privateKeys[i], ctx);
      if decrypted.Some? { return Ok(decrypted.value); }
      r := Err(DecryptionFailed);
    }
  }

  lemma SealedFields(c: Backend, data: bytes, publicKey: bytes, ctx: bytes, ephemeral: bytes, key: bytes, r: bytes)
    requires c.Sound() && |c.seal(key, data, ctx, r)| + MIN_SIZE < TWO_63
    ensures var s := Sealed(c, data, publicKey, ctx, ephemeral, key, r);
            && Valid(s) && |s| == MIN_SIZE + |c.seal(key, data, ctx, r)|
            && s[8..8 + PUBLIC_KEY_LENGTH] == c.publicOf(ephemeral)
            && s[8 + PUBLIC_KEY_LENGTH..LENGTH_AT] == c.wrap(ephemeral, publicKey, key)
            && s[MIN_SIZE..] == c.seal(key, data, ctx, r)
  {
    hide LittleEndian, FromLittleEndian, Pow256;
    Pow256Values();
    var encryptedData := c.seal(key, data, ctx, r);
    LittleEndianRoundTrip(|encryptedData|, 8);
    var s := Sealed(c, data, publicKey, ctx, ephemeral, key, r);
    assert s[LENGTH_AT..MIN_SIZE] == LittleEndian(|encryptedData|, 8);
  }

  lemma {:induction false} SealedOpens(c: Backend, data: bytes, privateKeys: seq<bytes>, privateKey: bytes, ctx: bytes,
                                       ephemeral: bytes, key: bytes, r: bytes)
    requires c.Sound() && privateKey in privateKeys && |c.seal(key, data, ctx, r)| + MIN_SIZE < TWO_63
    requires |key| == SYMMETRIC_KEY_LENGTH
    ensures Opened(c, Sealed(c, data, c.publicOf(privateKey), ctx, ephemeral, key, r), privateKeys, ctx) == Some(data)
  {
    SealedFields(c, data, c.publicOf(privateKey), ctx, ephemeral, key, r);
    var s := Sealed(c, data, c.publicOf(privateKey), ctx, ephemeral, key, r);
    if c.publicOf(privateKeys[0]) == c.publicOf(privateKey) {
      assert c.unwrap(privateKeys[0], c.publicOf(ephemeral), c.wrap(ephemeral, c.publicOf(privateKeys[0]), key))
             == Some(key);
    } else {
      assert privateKey in privateKeys[1..];
      SealedOpens(c, data, privateKeys[1..], privateKey, ctx, ephemeral, key, r);
    }
  }

  lemma {:induction false} WrongKeys(c: Backend, data: bytes, privateKeys: seq<bytes>, privateKey: bytes, ctx: bytes,
                                     ephemeral: bytes, key: bytes, r: bytes)
    requires c.Sound() && |c.seal(key, data, ctx, r)| + MIN_SIZE < TWO_63
    ensures (forall k :: k in privateKeys ==> c.publicOf(k) != c.publicOf(privateKey)) ==>
              Opened(c, Sealed(c, data, c.publicOf(privateKey), ctx, ephemeral, key, r), privateKeys, ctx) == None
  {
    SealedFields(c, data, c.publicOf(privateKey), ctx, ephemeral, key, r);
    if privateKeys != [] {
      WrongKeys(c, data, privateKeys[1..], privateKey, ctx, ephemeral, key, r);
      assert privateKeys[0] in privateKeys;
    }
  }

  lemma {:induction false} OpenedNeverGrows(c: Backend, s: bytes, privateKeys: seq<bytes>, ctx: bytes)
    requires c.NeverGrows()
    ensures Opened(c, s, privateKeys, ctx).Some? ==> |Opened(c, s, privateKeys, ctx).value| + MIN_SIZE <= |s|
  {
    if privateKeys != [] { OpenedNeverGrows(c, s, privateKeys[1..], ctx); }
  }

  // ---- the scanner -----------------------------------------------------------------------------------------

  /** The AcraStruct at the start of what the scan found goes to the processor. */
  predicate HandsOn(found: bytes) {
    |found| > MIN_SIZE && 0 < TotalLength(found) <= |found|
  }

  /** What ProcessAcraStructs does at a tag: any positive declared length that fits goes to the processor. */
  function Decide<E>(process: bytes -> Result<bytes, E>): bytes -> Step<E> {
    (found: bytes) =>
      if HandsOn(found) then
        match process(found[..TotalLength(found)])
        case Ok(x) => Replace(TotalLength(found), x)
        case Err(e) => Abort(e)
      else Skip
  }

  /** Whatever the length field holds, the scan consumes between one byte and what is left. */
  lemma DecideInBounds<E>(process: bytes -> Result<bytes, E>, s: bytes)
    ensures Bounded(TAG, Decide(process), s)
    ensures Shrinking(process) && |s| <= MAX_BUFFER ==> NonExpanding(TAG, Decide(process), s)
  {
    forall i | OccursAt(s, TAG, i) ensures StepInBounds(Decide(process)(s[i..]), s[i..]) {
      assert HandsOn(s[i..]) ==> 0 < TotalLength(s[i..]) <= |s[i..]|;
    }
  }

  function Processed<E>(process: bytes -> Result<bytes, E>, s: bytes): Result<bytes, E> {
    DecideInBounds(process, s);
    Scan(TAG, Decide(process), s)
  }

  /** The suffixes of s at whose tags the pass takes a decision. */
  function Visited<E>(process: bytes -> Result<bytes, E>, s: bytes): seq<bytes> {
    DecideInBounds(process, s);
    Found(TAG, Decide(process), s)
  }

  lemma StructIsReplaced<E>(process: bytes -> Result<bytes, E>, gap: bytes, a: bytes, x: bytes)
    requires MIN_SIZE < |a| < TWO_63 && Valid(a) && process(a) == Ok(x)
    requires !Contains(gap, TAG) && !Ends(gap, TAG[0])
    ensures ReplacedBehind(TAG, Decide(process), gap, a, x)
  {
    hide Contains, Index, FromLittleEndian;
    forall tail: bytes
      ensures Index(gap + (a + tail), TAG) == |gap| && Decide(process)(a + tail) == Replace(|a|, x)
    {
      var s := a + tail;
      assert s[..8] == a[..8] && s[LENGTH_AT..MIN_SIZE] == a[LENGTH_AT..MIN_SIZE];
      TagBehindGap(TAG, TAG[0], gap, s);
      assert s[..|a|] == a;
      assert HandsOn(s) && TotalLength(s) == |a|;
    }
  }

  /**
   AcraStructs between other bytes: each of them, and nothing else, is replaced by what the processor returns for it.
   */
  lemma StructsReplaced<E>(process: bytes -> Result<bytes, E>, gaps: seq<bytes>, structs: seq<bytes>,
                           results: seq<bytes>)
    requires |gaps| == |structs| + 1 == |results| + 1
    requires forall k :: 0 <= k < |structs| ==>
               MIN_SIZE < |structs[k]| < TWO_63 && Valid(structs[k]) && process(structs[k]) == Ok(results[k])
    requires forall k :: 0 <= k < |gaps| ==> !Contains(gaps[k], TAG) && (k < |structs| ==> !Ends(gaps[k], TAG[0]))
    ensures Processed(process, Interleaved(gaps, structs)) == Ok(Interleaved(gaps, results))
  {
    hide Valid, Contains, Decide, Scan, Bounded, Interleaved, ReplacedBehind;
    DecideInBounds(process, Interleaved(gaps, structs));
    forall k | 0 <= k < |structs| ensures ReplacedBehind(TAG, Decide(process), gaps[k], structs[k], results[k]) {
      StructIsReplaced(process, gaps[k], structs[k], results[k]);
    }
    PartsReplaced(TAG, Decide(process), gaps, structs, results);
  }

  function RaisedAt(raises: bytes -> bool): bytes -> bool {
    (found: bytes) => HandsOn(found) && raises(found[..TotalLength(found)])
  }

  lemma StructsRaise<E>(process: bytes -> Result<bytes, E>, gaps: seq<bytes>, structs: seq<bytes>, results: seq<bytes>,
                        raises: bytes -> bool)
    requires |gaps| == |structs| + 1 == |results| + 1
    requires forall k :: 0 <= k < |structs| ==>
               MIN_SIZE < |structs[k]| < TWO_63 && Valid(structs[k]) && process(structs[k]) == Ok(results[k])
    requires forall k :: 0 <= k < |gaps| ==> !Contains(gaps[k], TAG) && (k < |structs| ==> !Ends(gaps[k], TAG[0]))
    ensures AnyRaised(raises, Visited(process, Interleaved(gaps, structs))) <==>
            exists k :: 0 <= k < |structs| && raises(structs[k])
  {
    hide Valid, Contains, Decide, Found, Bounded, Interleaved, ReplacedBehind, Seen, RaisedAt;
    DecideInBounds(process, Interleaved(gaps, structs));
    forall k | 0 <= k < |structs|
      ensures ReplacedBehind(TAG, Decide(process), gaps[k], structs[k], results[k])
      ensures forall tail: bytes :: RaisedAt(raises)(structs[k] + tail) <==> raises(structs[k])
    {
      StructIsReplaced(process, gaps[k], structs[k], results[k]);
      forall tail: bytes { RaisedBehind(structs[k], tail, raises); }
    }
    PartsSeen(TAG, Decide(process), RaisedAt(raises), raises, gaps, structs, results);
  }

  lemma RaisedBehind(a: bytes, tail: bytes, raises: bytes -> bool)
    requires MIN_SIZE < |a| < TWO_63 && Valid(a)
    ensures RaisedAt(raises)(a + tail) <==> raises(a)
  {
    hide FromLittleEndian;
    var s := a + tail;
    assert s[LENGTH_AT..MIN_SIZE] == a[LENGTH_AT..MIN_SIZE] && s[..|a|] == a;
    assert HandsOn(s) && TotalLength(s) == |a|;
  }

  /** The processor raises its flag on an AcraStruct that it is handed. */
  ghost predicate AnyRaised(raises: bytes -> bool, fs: seq<bytes>) {
    Seen(RaisedAt(raises), fs)
  }

  lemma ShortBufferUnchanged<E>(process: bytes -> Result<bytes, E>, s: bytes, raises: bytes -> bool)
    requires |s| <= MIN_SIZE
    ensures Processed(process, s) == Ok(s) && !AnyRaised(raises, Visited(process, s))
  {
    DecideInBounds(process, s);
    forall i | OccursAt(s, TAG, i) ensures Decide(process)(s[i..]).Skip? {
      assert !HandsOn(s[i..]);
    }
    ScanWithoutReplacement(TAG, Decide(process), s);
    forall f | f in Visited(process, s) ensures !HandsOn(f) {
      var at := FoundStartAtTags(TAG, Decide(process), s, f);
    }
  }

  /**
   ProcessAcraStructs(inBuffer, outBuffer, processor) with separate buffers, for every content of inBuffer. `raised`
   says whether the processor raised its flag, which it does on the AcraStructs that `raises` tells.
   */
  method ProcessAcraStructs<E>(input: array<byte>, inLen: nat, out: array<byte>, outLen: nat,
                               process: bytes -> Result<bytes, E>, raises: bytes -> bool)
    returns (res: array<byte>, resLen: nat, failure: Option<E>, raised: bool)
    requires inLen <= input.Length && outLen <= out.Length && input != out
    modifies out
    ensures resLen <= res.Length && input[..] == old(input[..])
    ensures if failure.Some? then res == input && resLen == inLen else res == out || fresh(res)
    ensures inLen < MIN_SIZE ==>
              && failure.None? && res == out && resLen == outLen
              && res[..resLen] == if inLen <= outLen then input[..inLen] + old(out[inLen..outLen]) else input[..outLen]
    ensures inLen >= MIN_SIZE || inLen == outLen ==>
              Processed(process, input[..inLen]) == if failure.Some? then Err(failure.value) else Ok(res[..resLen])
    ensures raised == AnyRaised(raises, Visited(process, input[..inLen]))
  {
    hide Bounded, Scan, Found, Decide, Seen;
    ghost var s := input[..inLen];
    DecideInBounds(process, s);
    if inLen < MIN_SIZE {
      ShortBufferUnchanged(process, s, raises);
      var n := if inLen <= outLen then inLen else outLen;
      forall i | 0 <= i < n { out[i] := input[i]; }
      assert input[..inLen] == s && (inLen == outLen ==> out[..outLen] == s);
      return out, outLen, None, false;
    }
    res, resLen, failure, raised := ScanInto(input, inLen, out, TAG, Decide(process), RaisedAt(raises));
    if failure.Some? { res, resLen := input, inLen; }
  }
}
