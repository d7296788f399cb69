/** OldContainerDetectorWrapper: columns that may hold bare AcraStructs and AcraBlocks (package crypto). */
module OldContainers {
  import opened Outcomes
  import opened ByteStrings
  import opened Envelope
  import opened Detection
  import opened Scanner
  import opened Search
  import AcraBlock
  import AcraStruct

  datatype WrapperError = SerializationFailed(e: Envelope.Error) | CallbackFailed(ce: CallbackError)

  /**
   OnAcraStruct and OnAcraBlock: the bare envelope goes to the detector's callbacks as a container; if none of them
   changes it, the envelope itself is the result.
   */
  function OnEnvelope(callbacks: seq<Callback>, id: byte): bytes -> Result<bytes, WrapperError> {
    (envelope: bytes) =>
      match Serialize(envelope, id)
      case Err(e) => Err(SerializationFailed(e))
      case Ok(serialized) =>
        match FirstChange(callbacks, serialized)
        case Err(ce) => Err(CallbackFailed(ce))
        case Ok(x) => if x == serialized then Ok(envelope) else Ok(x)
  }

  /** With decrypting callbacks no bare AcraBlock is replaced by something longer. */
  lemma OnEnvelopeShrinks(callbacks: seq<Callback>, id: byte)
    requires AllShrink(callbacks) && HandlerById(id).Some?
    ensures Shrinking(OnEnvelope(callbacks, id))
  {
    hide LittleEndian, FromLittleEndian, Pow256, FirstChange, Serialize;
    forall b | |b| <= MAX_BUFFER && OnEnvelope(callbacks, id)(b).Ok?
      ensures |OnEnvelope(callbacks, id)(b).value| <= |b|
    {
      var serialized := Serialize(b, id).value;
      var r := FirstChange(callbacks, serialized);
      if r.value != serialized {
        SerializeOk(b, id);
        SerializedFields(b, id, []);
        assert serialized + [] == serialized;
        FirstChangeIsByACallback(callbacks, serialized);
        var cb :| cb in callbacks && cb.OnCryptoEnvelope(serialized) == r;
        assert cb.Shrinks();
      }
    }
  }

  lemma SerializeOk(b: bytes, id: byte)
    ensures Serialize(b, id).Ok? <==> b != []
  {
  }

  type Failure = AcraBlock.Failure<WrapperError>

  /** The AcraStruct pass followed by the AcraBlock pass, on values. */
  function OldProcessed(callbacks: seq<Callback>, s: bytes): Result<bytes, Failure> {
    match AcraStruct.Processed(OnEnvelope(callbacks, ACRA_STRUCT_ID), s)
    case Err(e) => Err(AcraBlock.Failed(e))
    case Ok(t) => AcraBlock.Processed(OnEnvelope(callbacks, ACRA_BLOCK_ID), t)
  }

  /** A column with containers is left to the detector; any other column gets the two passes for bare envelopes. */
  ghost function ColumnResult(callbacks: seq<Callback>, s: bytes): Result<bytes, Failure>
    requires AllInBounds(callbacks) && |s| < TWO_63
  {
    match Processed(callbacks, s)
    case Err(ce) => Err(AcraBlock.Failed(CallbackFailed(ce)))
    case Ok(x) =>
      if AnyNotified(callbacks, Visited(callbacks, s)) || x != s then Ok(x) else OldProcessed(callbacks, s)
  }

  // ---- out of range ----------------------------------------------------------------------------------------

  const OUT_OF_RANGE := CallbackFailed(CallbackError.IndexOutOfRange)

  /** The two ways a column ends in a runtime panic: inside a callback, or where the AcraBlock pass cuts out a block. */
  predicate LeavesRange(r: Result<bytes, Failure>) {
    r in {Err(AcraBlock.Failed(OUT_OF_RANGE)), Err(AcraBlock.OutOfRange)}
  }

  /** The callbacks index out of range on a bare envelope exactly if it is an AcraBlock that ends before its own key. */
  lemma OnEnvelopeOutOfRange(callbacks: seq<Callback>, before: seq<Callback>, after: seq<Callback>, c: Crypto,
                             ks: KeyStore, h: Handler, envelope: bytes)
    requires Decrypting(callbacks, before, after, c, ks) && |envelope| <= MAX_BUFFER
    ensures OnEnvelope(callbacks, h.Id())(envelope) == Err(OUT_OF_RANGE)
            <==> h.AcraBlockHandler? && BlockOverruns(ks, envelope)
  {
    hide FirstChange, Serialize, Decrypting, BlockOverruns, ContainerOverruns;
    SerializeOk(envelope, h.Id());
    if envelope != [] {
      SerializedOverruns(ks, h, envelope);
      CallbacksOutOfRange(callbacks, before, after, c, ks, Serialize(envelope, h.Id()).value);
    } else {
      EmptyIsNoBlock(ks);
    }
  }

  lemma EmptyIsRejected(callbacks: seq<Callback>)
    ensures OnEnvelope(callbacks, ACRA_BLOCK_ID)([]) == Err(SerializationFailed(EmptyEncryptedData))
  {
  }

  lemma EmptyIsNoBlock(ks: KeyStore)
    ensures !BlockOverruns(ks, [])
  {
  }

  /** The suffixes at whose AcraBlock tags the bare pass takes a decision. */
  function BareVisited(callbacks: seq<Callback>, t: bytes): seq<bytes> {
    AcraBlock.Visited(OnEnvelope(callbacks, ACRA_BLOCK_ID), t)
  }

  /** At the start of f stands a bare AcraBlock that is overlong or ends before its own key. */
  predicate BareOverruns(ks: KeyStore, f: bytes) {
    || (|f| > AcraBlock.MIN_SIZE && AcraBlock.Overlong(f))
    || (AcraBlock.HandsOn(f) && BlockOverruns(ks, f[..AcraBlock.Extract(f).value]))
  }

  ghost predicate AnyBareOverruns(ks: KeyStore, fs: seq<bytes>) {
    exists f :: f in fs && BareOverruns(ks, f)
  }

  /** The AcraBlock pass over a buffer leaves the bounds of a block exactly if it visits a block that overruns. */
  lemma BarePassOutOfRange(callbacks: seq<Callback>, before: seq<Callback>, after: seq<Callback>, c: Crypto,
                           ks: KeyStore, t: bytes)
    requires Decrypting(callbacks, before, after, c, ks) && |t| <= MAX_BUFFER
    ensures LeavesRange(AcraBlock.Processed(OnEnvelope(callbacks, ACRA_BLOCK_ID), t))
            <==> AnyBareOverruns(ks, BareVisited(callbacks, t))
  {
    hide OnEnvelope, Scan, Found, Bounded, Decrypting, BlockOverruns, AcraBlock.Extract, AcraBlock.Decide;
    var process := OnEnvelope(callbacks, ACRA_BLOCK_ID);
    AcraBlock.DecideInBounds(process, t);
    ScanAborts(AcraBlock.TAG, AcraBlock.Decide(process), t, AcraBlock.Failed(OUT_OF_RANGE));
    ScanAborts(AcraBlock.TAG, AcraBlock.Decide(process), t, AcraBlock.OutOfRange);
    forall f | f in BareVisited(callbacks, t)
      ensures AcraBlock.Decide(process)(f) in {Abort(AcraBlock.Failed(OUT_OF_RANGE)), Abort(AcraBlock.OutOfRange)}
              <==> BareOverruns(ks, f)
    {
      var at := FoundStartAtTags(AcraBlock.TAG, AcraBlock.Decide(process), t, f);
      AcraBlock.DecideFails(process, f);
      AcraBlock.DecideFailed(process, f);
      if AcraBlock.HandsOn(f) {
        OnEnvelopeOutOfRange(callbacks, before, after, c, ks, AcraBlockHandler, f[..AcraBlock.Extract(f).value]);
      }
    }
  }

  /** The AcraStruct pass always stays in range. */
  lemma StructPassInRange(callbacks: seq<Callback>, before: seq<Callback>, after: seq<Callback>, c: Crypto,
                          ks: KeyStore, s: bytes)
    requires Decrypting(callbacks, before, after, c, ks) && |s| <= MAX_BUFFER
    ensures AcraStruct.Processed(OnEnvelope(callbacks, ACRA_STRUCT_ID), s) != Err(OUT_OF_RANGE)
  {
    hide OnEnvelope, Scan, Found, Bounded, Decrypting, BlockOverruns;
    var process := OnEnvelope(callbacks, ACRA_STRUCT_ID);
    AcraStruct.DecideInBounds(process, s);
    ScanAborts(AcraStruct.TAG, AcraStruct.Decide(process), s, OUT_OF_RANGE);
    forall f | f in Found(AcraStruct.TAG, AcraStruct.Decide(process), s)
      ensures AcraStruct.Decide(process)(f) != Abort(OUT_OF_RANGE)
    {
      var at := FoundStartAtTags(AcraStruct.TAG, AcraStruct.Decide(process), s, f);
      if AcraStruct.HandsOn(f) {
        OnEnvelopeOutOfRange(callbacks, before, after, c, ks, AcraStructHandler, f[..AcraStruct.TotalLength(f)]);
      }
    }
  }

  /** The overrunning block by itself is such a buffer. */
  lemma OverrunningBareBlock(c: Crypto, ks: KeyStore)
    requires ks.symmetric.Some?
    ensures AcraBlock.Processed(OnEnvelope([DecryptCallback(c, ks)], ACRA_BLOCK_ID), AcraBlock.OVERRUNNING)
            == Err(AcraBlock.Failed(OUT_OF_RANGE))
  {
    hide OnEnvelope, Process, BlockOverruns, AcraBlock.Extract, AcraBlock.Processed;
    var s, callbacks := AcraBlock.OVERRUNNING, [DecryptCallback(c, ks)];
    var process := OnEnvelope(callbacks, ACRA_BLOCK_ID);
    AcraBlock.OverrunningBlock(c.block, [], []);
    OverrunningBlockOverruns(ks);
    assert s[..|s|] == s && s[..4] == AcraBlock.TAG;
    assert callbacks == [] + ([DecryptCallback(c, ks)] + []);
    OnEnvelopeOutOfRange(callbacks, [], [], c, ks, AcraBlockHandler, s);
    AcraBlock.FailsAtStart(process, s, AcraBlock.Failed(OUT_OF_RANGE));
  }

  lemma OverrunningBlockOverruns(ks: KeyStore)
    requires ks.symmetric.Some? && AcraBlock.Extract(AcraBlock.OVERRUNNING) == Some(|AcraBlock.OVERRUNNING|)
    requires AcraBlock.KeySize(AcraBlock.OVERRUNNING) == 65535
    ensures BlockOverruns(ks, AcraBlock.OVERRUNNING)
  {
    assert AcraBlock.OVERRUNNING[..|AcraBlock.OVERRUNNING|] == AcraBlock.OVERRUNNING;
  }

  /**
   A column leaves the bounds of a block exactly if the detector visits a container that overruns or, after it found
   nothing, the AcraBlock pass visits a bare block that overruns.
   */
  lemma WrapperOutOfRange(callbacks: seq<Callback>, before: seq<Callback>, after: seq<Callback>, c: Crypto,
                          ks: KeyStore, s: bytes)
    requires Decrypting(callbacks, before, after, c, ks) && AllInBounds(callbacks)
    requires |s| <= MAX_BUFFER
    requires var structs := AcraStruct.Processed(OnEnvelope(callbacks, ACRA_STRUCT_ID), s);
             structs.Ok? ==> |structs.value| <= MAX_BUFFER
    ensures var structs := AcraStruct.Processed(OnEnvelope(callbacks, ACRA_STRUCT_ID), s);
            LeavesRange(ColumnResult(callbacks, s)) <==>
            || AnyOverruns(ks, Visited(callbacks, s))
            || (Processed(callbacks, s) == Ok(s) && !AnyNotified(callbacks, Visited(callbacks, s))
                && structs.Ok? && AnyBareOverruns(ks, BareVisited(callbacks, structs.value)))
  {
    hide OnEnvelope, Processed, Visited, AnyOverruns, AnyBareOverruns, BareVisited, Decrypting, AnyNotified,
      AcraStruct.Processed, AcraBlock.Processed, AllInBounds;
    ColumnOutOfRange(callbacks, before, after, c, ks, s);
    StructPassInRange(callbacks, before, after, c, ks, s);
    var structs := AcraStruct.Processed(OnEnvelope(callbacks, ACRA_STRUCT_ID), s);
    if structs.Ok? { BarePassOutOfRange(callbacks, before, after, c, ks, structs.value); }
  }

  /** Every column comes to an end: the empty block, which would be found again and again, cannot be serialized. */
  lemma WrapperEnds(callbacks: seq<Callback>, s: bytes)
    requires AllInBounds(callbacks) && |s| < TWO_63
    ensures ColumnResult(callbacks, s) != Err(AcraBlock.NeverEnds)
  {
    hide AllInBounds, Processed, Visited, AnyNotified, OnEnvelope, AcraStruct.Processed, AcraBlock.Processed,
      AcraBlock.Visited, AcraBlock.Extract;
    EmptyIsRejected(callbacks);
    var structs := AcraStruct.Processed(OnEnvelope(callbacks, ACRA_STRUCT_ID), s);
    if structs.Ok? { AcraBlock.PassNeverEnds(OnEnvelope(callbacks, ACRA_BLOCK_ID), structs.value); }
  }

  // ---- recovery of bare envelopes --------------------------------------------------------------------------

  /** A bare envelope that the handler decrypts is replaced by its plaintext. */
  lemma OnEnvelopeDecrypts(before: seq<Callback>, after: seq<Callback>, c: Crypto, ks: KeyStore, h: Handler,
                           envelope: bytes, plain: bytes)
    requires c.NeverGrows() && forall cb, d :: cb in before ==> cb.Passes(d)
    requires envelope != [] && MIN_SIZE + |envelope| < TWO_63 && HandlerDecrypt(h, c, ks, envelope) == Ok(plain)
    ensures OnEnvelope(before + [DecryptCallback(c, ks)] + after, h.Id())(envelope) == Ok(plain)
  {
    hide Process, HandlerDecrypt, LittleEndian;
    ProcessUnwraps(h, c, ks, envelope);
    HandlerDecryptShrinks(h, c, ks, envelope);
    var serialized := Serialize(envelope, h.Id()).value;
    FirstChangeAfterPassing(before, [DecryptCallback(c, ks)] + after, serialized);
    assert before + [DecryptCallback(c, ks)] + after == before + ([DecryptCallback(c, ks)] + after);
    assert DecryptCallback(c, ks).OnCryptoEnvelope(serialized) == Ok(plain);
  }

  /** A bare envelope that an application made of a value, with a key that the rotated key lists still hold. */
  ghost predicate MadeOf(c: Crypto, ks: KeyStore, h: Handler, source: Source, envelope: bytes, value: bytes)
    requires c.Sound()
  {
    && source.h == h && source.value == value && Fits(h, c, source.key, source.rnd, value)
    && envelope == Bare(h, c, source.key, source.rnd, value)
    && |envelope| > (if h.AcraBlockHandler? then AcraBlock.MIN_SIZE else AcraStruct.MIN_SIZE)
    && var keys := if h.AcraBlockHandler? then ks.symmetric else ks.private; keys.Some? && source.key in keys.value
  }

  ghost predicate AllMadeOf(c: Crypto, ks: KeyStore, h: Handler, sources: seq<Source>, envelopes: seq<bytes>,
                            values: seq<bytes>)
    requires c.Sound()
  {
    && |sources| == |envelopes| == |values|
    && forall k :: 0 <= k < |sources| ==> MadeOf(c, ks, h, sources[k], envelopes[k], values[k])
  }

  /** No gap holds the tag, and none before an envelope ends in a tag symbol. */
  ghost predicate Separating(gaps: seq<bytes>, tag: bytes)
    requires tag != []
  {
    forall k :: 0 <= k < |gaps| ==> !Contains(gaps[k], tag) && (k < |gaps| - 1 ==> !Ends(gaps[k], tag[0]))
  }

  lemma MadeIsRecovered(before: seq<Callback>, after: seq<Callback>, c: Crypto, ks: KeyStore, h: Handler,
                        source: Source, envelope: bytes, value: bytes)
    requires c.Sound() && c.NeverGrows() && (forall cb, d :: cb in before ==> cb.Passes(d))
    requires MadeOf(c, ks, h, source, envelope, value)
    ensures OnEnvelope(before + [DecryptCallback(c, ks)] + after, h.Id())(envelope) == Ok(value)
    ensures if h.AcraBlockHandler?
            then |envelope| > AcraBlock.MIN_SIZE && AcraBlock.Extract(envelope) == Some(|envelope|)
            else AcraStruct.MIN_SIZE < |envelope| < TWO_63 && AcraStruct.Valid(envelope)
  {
    hide OnEnvelope, HandlerDecrypt, Bare, Fits, AcraBlock.Extract, AcraStruct.Valid;
    BareMatches(h, c, source.key, source.rnd, value);
    BareDecrypts(h, c, ks, source.key, source.rnd, value);
    OnEnvelopeDecrypts(before, after, c, ks, h, envelope, value);
  }

  lemma StructsRecovered(before: seq<Callback>, after: seq<Callback>, c: Crypto, ks: KeyStore, gaps: seq<bytes>,
                         sources: seq<Source>, structs: seq<bytes>, values: seq<bytes>)
    requires c.Sound() && c.NeverGrows() && (forall cb, d :: cb in before ==> cb.Passes(d))
    requires AllMadeOf(c, ks, AcraStructHandler, sources, structs, values)
    requires |gaps| == |structs| + 1 && Separating(gaps, AcraStruct.TAG)
    ensures AcraStruct.Processed(OnEnvelope(before + [DecryptCallback(c, ks)] + after, ACRA_STRUCT_ID),
                                 Interleaved(gaps, structs)) == Ok(Interleaved(gaps, values))
  {
    hide OnEnvelope, MadeOf, AcraStruct.Valid, AcraStruct.Processed, Interleaved, Contains;
    forall k | 0 <= k < |structs|
      ensures AcraStruct.MIN_SIZE < |structs[k]| < TWO_63 && AcraStruct.Valid(structs[k])
      ensures OnEnvelope(before + [DecryptCallback(c, ks)] + after, ACRA_STRUCT_ID)(structs[k]) == Ok(values[k])
    {
      MadeIsRecovered(before, after, c, ks, AcraStructHandler, sources[k], structs[k], values[k]);
    }
    AcraStruct.StructsReplaced(OnEnvelope(before + [DecryptCallback(c, ks)] + after, ACRA_STRUCT_ID), gaps, structs,
                               values);
  }

  lemma BlocksRecovered(before: seq<Callback>, after: seq<Callback>, c: Crypto, ks: KeyStore, gaps: seq<bytes>,
                        sources: seq<Source>, blocks: seq<bytes>, values: seq<bytes>)
    requires c.Sound() && c.NeverGrows() && (forall cb, d :: cb in before ==> cb.Passes(d))
    requires AllMadeOf(c, ks, AcraBlockHandler, sources, blocks, values)
    requires |gaps| == |blocks| + 1 && Separating(gaps, AcraBlock.TAG)
    ensures AcraBlock.Processed(OnEnvelope(before + [DecryptCallback(c, ks)] + after, ACRA_BLOCK_ID),
                                Interleaved(gaps, blocks)) == Ok(Interleaved(gaps, values))
  {
    hide OnEnvelope, MadeOf, AcraBlock.Extract, AcraBlock.Processed, Interleaved, Contains;
    forall k | 0 <= k < |blocks|
      ensures |blocks[k]| > AcraBlock.MIN_SIZE && AcraBlock.Extract(blocks[k]) == Some(|blocks[k]|)
      ensures OnEnvelope(before + [DecryptCallback(c, ks)] + after, ACRA_BLOCK_ID)(blocks[k]) == Ok(values[k])
    {
      MadeIsRecovered(before, after, c, ks, AcraBlockHandler, sources[k], blocks[k], values[k]);
    }
    AcraBlock.BlocksReplaced(OnEnvelope(before + [DecryptCallback(c, ks)] + after, ACRA_BLOCK_ID), gaps, blocks,
                             values);
  }

  /**
   A column without containers, with AcraStructs between other bytes and, in what is left when they are decrypted,
   AcraBlocks between other bytes: all of them come back as the values they were made of. Either kind may be missing.
   */
  lemma BareEnvelopesRecovered(before: seq<Callback>, after: seq<Callback>, c: Crypto, ks: KeyStore,
                               gaps: seq<bytes>, sources: seq<Source>, structs: seq<bytes>, values: seq<bytes>,
                               gaps': seq<bytes>, sources': seq<Source>, blocks: seq<bytes>, values': seq<bytes>)
    requires c.Sound() && c.NeverGrows() && (forall cb, d :: cb in before ==> cb.Passes(d))
    requires AllInBounds(before + [DecryptCallback(c, ks)] + after)
    requires AllMadeOf(c, ks, AcraStructHandler, sources, structs, values)
    requires AllMadeOf(c, ks, AcraBlockHandler, sources', blocks, values')
    requires |gaps| == |structs| + 1 && Separating(gaps, AcraStruct.TAG)
    requires |gaps'| == |blocks| + 1 && Separating(gaps', AcraBlock.TAG)
    requires Interleaved(gaps, values) == Interleaved(gaps', blocks)
    requires |Interleaved(gaps, structs)| < TWO_63 && !Contains(Interleaved(gaps, structs), TAG)
    ensures ColumnResult(before + [DecryptCallback(c, ks)] + after, Interleaved(gaps, structs))
            == Ok(Interleaved(gaps', values'))
  {
    hide OnEnvelope, AllMadeOf, AcraBlock.Processed, AcraStruct.Processed, Interleaved, Contains, AllInBounds,
      Processed, Visited, Separating;
    var callbacks, s := before + [DecryptCallback(c, ks)] + after, Interleaved(gaps, structs);
    NothingLeft(callbacks, s);
    StructsRecovered(before, after, c, ks, gaps, sources, structs, values);
    BlocksRecovered(before, after, c, ks, gaps', sources', blocks, values');
  }

  // ---- the wrapper's flag ----------------------------------------------------------------------------------

  /** The bare envelopes on which the wrapper's own callback runs. */
  function Raises(callbacks: seq<Callback>, id: byte): bytes -> bool {
    (envelope: bytes) => Serialize(envelope, id).Ok? && Notified(callbacks, Serialize(envelope, id).value)
  }

  /** The callback runs on every bare envelope that the callbacks before it leave alone, and on no other. */
  lemma RaisesExact(before: seq<Callback>, after: seq<Callback>, id: byte, envelope: bytes)
    requires envelope != [] && forall cb :: cb in before ==> !cb.Notify?
    ensures Raises(before + [Notify] + after, id)(envelope) <==>
            forall cb :: cb in before ==> cb.Passes(Serialize(envelope, id).value)
  {
    NotifiedBehind(before, after, Serialize(envelope, id).value);
  }

  lemma {:induction false} NotifiedBehind(before: seq<Callback>, after: seq<Callback>, container: bytes)
    requires forall cb :: cb in before ==> !cb.Notify?
    ensures Notified(before + [Notify] + after, container) <==> forall cb :: cb in before ==> cb.Passes(container)
  {
    var callbacks := before + [Notify] + after;
    if before == [] {
      assert callbacks[0] == Notify;
    } else {
      assert callbacks[0] == before[0] && callbacks[1..] == before[1..] + [Notify] + after;
      NotifiedBehind(before[1..], after, container);
      assert forall cb :: cb in before <==> cb == before[0] || cb in before[1..];
    }
  }

  /** It runs in the AcraStruct pass over s, or in the AcraBlock pass over its result. */
  ghost predicate BareNotified(callbacks: seq<Callback>, s: bytes) {
    var process := OnEnvelope(callbacks, ACRA_STRUCT_ID);
    || AcraStruct.AnyRaised(Raises(callbacks, ACRA_STRUCT_ID), AcraStruct.Visited(process, s))
    || (AcraStruct.Processed(process, s).Ok?
        && AcraBlock.AnyRaised(Raises(callbacks, ACRA_BLOCK_ID),
                               BareVisited(callbacks, AcraStruct.Processed(process, s).value)))
  }

  /** With decrypting callbacks the AcraStruct pass does not lengthen the column. */
  lemma StructPassShrinks(callbacks: seq<Callback>, s: bytes)
    requires AllShrink(callbacks) && |s| <= MAX_BUFFER
    ensures var structs := AcraStruct.Processed(OnEnvelope(callbacks, ACRA_STRUCT_ID), s);
            structs.Ok? ==> |structs.value| <= |s|
  {
    hide OnEnvelope, AllShrink, Shrinking, Bounded, NonExpanding, AcraStruct.Decide;
    var process := OnEnvelope(callbacks, ACRA_STRUCT_ID);
    OnEnvelopeShrinks(callbacks, ACRA_STRUCT_ID);
    AcraStruct.DecideInBounds(process, s);
    ScanNeverGrows(AcraStruct.TAG, AcraStruct.Decide(process), s);
  }

  /** The detector left the column to the passes for bare envelopes. */
  ghost predicate LeftToPasses(callbacks: seq<Callback>, s: bytes)
    requires AllInBounds(callbacks) && |s| < TWO_63
  {
    !AnyNotified(callbacks, Visited(callbacks, s)) && Processed(callbacks, s) == Ok(s)
  }

  class OldContainerDetectorWrapper {
    const detector: EnvelopeDetector
    var hasMatchedEnvelope: bool

    constructor (detector: EnvelopeDetector)
      modifies detector
      ensures this.detector == detector && detector.callbacks == old(detector.callbacks) + [Notify]
      ensures !hasMatchedEnvelope
    {
      this.detector := detector;
      hasMatchedEnvelope := false;
      new;
      detector.AddCallback(Notify);
    }

    /** OnColumn. The AcraBlock pass runs with one buffer as input and output; the result is as if it had two. */
    method OnColumn(inBuffer: bytes) returns (outBuffer: bytes, decrypted: bool, failure: Option<Failure>)
      requires AllInBounds(detector.callbacks) && AllShrink(detector.callbacks) && |inBuffer| <= MAX_BUFFER
      modifies this
      ensures ColumnResult(detector.callbacks, inBuffer) == if failure.Some? then Err(failure.value) else Ok(outBuffer)
      ensures failure.Some? ==> outBuffer == inBuffer && !decrypted
      ensures failure.None? ==>
                decrypted == if LeftToPasses(detector.callbacks, inBuffer) then outBuffer != inBuffer
                             else AnyReplaced(detector.callbacks, Visited(detector.callbacks, inBuffer))
      ensures hasMatchedEnvelope ==
              if LeftToPasses(detector.callbacks, inBuffer) then BareNotified(detector.callbacks, inBuffer)
              else AnyNotified(detector.callbacks, Visited(detector.callbacks, inBuffer))
    {
      hide Processed, Visited, AllInBounds, AllShrink, Shrinking, OnEnvelope, AcraStruct.AnyRaised, AcraBlock.AnyRaised,
        Raises, AcraStruct.Processed, AcraStruct.Visited, AcraBlock.Processed, AcraBlock.Visited;
      hasMatchedEnvelope := false;
      var callbacks := detector.callbacks;
      var newResult, changed, matched, callbackFailure := detector.OnColumn(inBuffer);
      hasMatchedEnvelope := matched;
      if callbackFailure.Some? {
        return inBuffer, false, Some(AcraBlock.Failed(CallbackFailed(callbackFailure.value)));
      }
      if hasMatchedEnvelope || newResult != inBuffer { return newResult, changed, None; }

      var input, out := new byte[|inBuffer|], new byte[|inBuffer|](_ => 0);
      forall i | 0 <= i < |inBuffer| { input[i] := inBuffer[i]; }
      assert input[..|inBuffer|] == inBuffer;
      var buffer, length, e, raised := AcraStruct.ProcessAcraStructs(input, |inBuffer|, out, |inBuffer|,
                                                                     OnEnvelope(callbacks, ACRA_STRUCT_ID),
                                                                     Raises(callbacks, ACRA_STRUCT_ID));
      hasMatchedEnvelope := hasMatchedEnvelope || raised;
      if e.Some? { return inBuffer, false, Some(AcraBlock.Failed(e.value)); }
      OnEnvelopeShrinks(callbacks, ACRA_BLOCK_ID);
      StructPassShrinks(callbacks, inBuffer);
      buffer, length, failure, raised := AcraBlock.ProcessAcraBlocks(buffer, length, buffer, length,
                                                                     OnEnvelope(callbacks, ACRA_BLOCK_ID),
                                                                     Raises(callbacks, ACRA_BLOCK_ID));
      hasMatchedEnvelope := hasMatchedEnvelope || raised;
      if failure.Some? { return inBuffer, false, failure; }
      outBuffer := buffer[..length];
      decrypted := inBuffer != outBuffer;
    }
  }
}
