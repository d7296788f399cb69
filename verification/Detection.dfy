/** EnvelopeDetector: finding and replacing containers inside a column (package crypto). */
module Detection {
  import opened Outcomes
  import opened ByteStrings
  import opened Search
  import opened Scanner
  import opened Envelope
  import AcraBlock

  /** IndexOutOfRange stands for a runtime panic inside a callback, which no caller handles. */
  datatype CallbackError = DecryptionFailed | OtherError(code: int) | IndexOutOfRange

  /**
   An EnvelopeCallbackHandler. `Notify` is the wrapper's own callback: it returns the container unchanged and raises the
   wrapper's flag.
   */
  datatype Callback = Notify | Transform(onEnvelope: bytes -> Result<bytes, CallbackError>) {
    function OnCryptoEnvelope(container: bytes): Result<bytes, CallbackError> {
      if Notify? then Ok(container) else onEnvelope(container)
    }

    /** This callback leaves the decision to the ones after it. */
    predicate Passes(container: bytes) {
      OnCryptoEnvelope(container) in {Ok(container), Err(DecryptionFailed)}
    }

    /** A callback that changes a container does so only if the declared length is over 12 and inside the data. */
    ghost predicate InBounds() {
      forall d :: |d| < TWO_63 && Validate(d).Ok? && OnCryptoEnvelope(d).Ok? && OnCryptoEnvelope(d).value != d ==>
                    MIN_SIZE < DeclaredLength(d) <= |d|
    }

    /** ... and what it returns is no longer than the wrapped envelope. */
    ghost predicate Shrinks() {
      forall d :: |d| < TWO_63 && Validate(d).Ok? && OnCryptoEnvelope(d).Ok? && OnCryptoEnvelope(d).value != d ==>
                    |OnCryptoEnvelope(d).value| <= DeclaredLength(d) - MIN_SIZE
    }
  }

  /** DecryptHandler: the registry's Process, with every returned error turned into "leave the container as it is". */
  function DecryptCallback(c: Crypto, ks: KeyStore): Callback {
    Transform(container =>
      match Process(c, ks, container)
      case Ok(x) => Ok(x)
      case Err(e) => if e == Error.IndexOutOfRange then Err(CallbackError.IndexOutOfRange) else Ok(container))
  }

  lemma DecryptCallbackIsSafe(c: Crypto, ks: KeyStore)
    ensures DecryptCallback(c, ks).InBounds()
    ensures c.NeverGrows() ==> DecryptCallback(c, ks).Shrinks()
  {
    forall d | |d| < TWO_63 && Validate(d).Ok? && Process(c, ks, d).Ok?
      ensures MIN_SIZE < DeclaredLength(d) <= |d|
      ensures c.NeverGrows() ==> |Process(c, ks, d).value| <= DeclaredLength(d) - MIN_SIZE
    {
      ProcessBounds(c, ks, d);
    }
  }

  /** EnvelopeDetector.OnCryptoEnvelope: the result of the first callback that changes the container or fails. */
  function FirstChange(callbacks: seq<Callback>, container: bytes): Result<bytes, CallbackError> {
    if callbacks == [] then Ok(container)
    else if callbacks[0].Passes(container) then FirstChange(callbacks[1..], container)
    else callbacks[0].OnCryptoEnvelope(container)
  }

  /** Whether the wrapper's callback is reached. */
  predicate Notified(callbacks: seq<Callback>, container: bytes) {
    callbacks != [] &&
    (callbacks[0].Notify? || (callbacks[0].Passes(container) && Notified(callbacks[1..], container)))
  }

  function ToStep(n: int, container: bytes, r: Result<bytes, CallbackError>): Step<CallbackError> {
    match r
    case Err(e) => Abort(e)
    case Ok(x) => if x == container then Skip else Replace(n, x)
  }

  /** What OnColumn does at a tag. */
  function Decide(callbacks: seq<Callback>): bytes -> Step<CallbackError> {
    (found: bytes) =>
      match ExtractContainer(found)
      case Err(e) => if e == Error.IndexOutOfRange then Abort(CallbackError.IndexOutOfRange) else Skip
      case Ok((n, container)) => ToStep(n, container, FirstChange(callbacks, container))
  }

  predicate NotifiedAt(callbacks: seq<Callback>, found: bytes) {
    ExtractContainer(found).Ok? && Notified(callbacks, ExtractContainer(found).value.1)
  }

  ghost predicate AllInBounds(callbacks: seq<Callback>) {
    forall cb :: cb in callbacks ==> cb.InBounds()
  }

  ghost predicate AllShrink(callbacks: seq<Callback>) {
    forall cb :: cb in callbacks ==> cb.Shrinks()
  }

  lemma {:induction false} FirstChangeIsByACallback(callbacks: seq<Callback>, container: bytes)
    requires FirstChange(callbacks, container).Ok? && FirstChange(callbacks, container).value != container
    ensures exists cb :: cb in callbacks && cb.OnCryptoEnvelope(container) == FirstChange(callbacks, container)
  {
    if callbacks[0].Passes(container) {
      FirstChangeIsByACallback(callbacks[1..], container);
      var cb :| cb in callbacks[1..] && cb.OnCryptoEnvelope(container) == FirstChange(callbacks[1..], container);
      assert cb in callbacks;
    }
  }

  /** Bounded progress: a replaced container is skipped by a length in (12, remaining length]. */
  lemma DecideProgresses(callbacks: seq<Callback>, found: bytes)
    requires AllInBounds(callbacks) && HasPrefix(found, TAG) && |found| < TWO_63
    ensures Decide(callbacks)(found).Replace? ==> MIN_SIZE < Decide(callbacks)(found).length <= |found|
  {
    if Decide(callbacks)(found).Replace? {
      assert found[0] == TAG[0];
      assert ExtractContainer(found).value.1 == found;
      FirstChangeIsByACallback(callbacks, found);
    }
  }

  lemma ScanIsBounded(callbacks: seq<Callback>, s: bytes)
    requires AllInBounds(callbacks) && |s| < TWO_63
    ensures Bounded(TAG, Decide(callbacks), s)
  {
    forall i | OccursAt(s, TAG, i) ensures StepInBounds(Decide(callbacks)(s[i..]), s[i..]) {
      assert s[i..][..3] == s[i..i + 3];
      DecideProgresses(callbacks, s[i..]);
    }
  }

  /** The column with every container replaced by what the callbacks make of it. */
  function Processed(callbacks: seq<Callback>, s: bytes): Result<bytes, CallbackError>
    requires AllInBounds(callbacks) && |s| < TWO_63
  {
    ScanIsBounded(callbacks, s);
    Scan(TAG, Decide(callbacks), s)
  }

  /** The suffixes of the column, from left to right, that start at a tag the scan stops at. */
  function Visited(callbacks: seq<Callback>, s: bytes): seq<bytes>
    requires AllInBounds(callbacks) && |s| < TWO_63
  {
    ScanIsBounded(callbacks, s);
    Found(TAG, Decide(callbacks), s)
  }

  /** With callbacks that only look, the column comes back as it was. */
  lemma ObserversChangeNothing(callbacks: seq<Callback>, s: bytes)
    requires |s| < TWO_63
    requires forall cb, d :: cb in callbacks ==> cb.Passes(d)
    ensures AllInBounds(callbacks) && Processed(callbacks, s) == Ok(s)
  {
    forall d ensures FirstChange(callbacks, d) == Ok(d) { PassingCallbacks(callbacks, d); }
    forall cb, d | cb in callbacks ensures cb.OnCryptoEnvelope(d).Ok? ==> cb.OnCryptoEnvelope(d).value == d {
      assert cb.Passes(d);
    }
    ScanIsBounded(callbacks, s);
    ScanWithoutReplacement(TAG, Decide(callbacks), s);
  }

  lemma {:induction false} PassingCallbacks(callbacks: seq<Callback>, d: bytes)
    requires forall cb :: cb in callbacks ==> cb.Passes(d)
    ensures FirstChange(callbacks, d) == Ok(d)
  {
    if callbacks != [] { PassingCallbacks(callbacks[1..], d); }
  }

  // ---- out of range ----------------------------------------------------------------------------------------

  /** A callback that never stops with a runtime panic. */
  ghost predicate StaysInRange(cb: Callback) {
    forall d :: cb.OnCryptoEnvelope(d) != Err(CallbackError.IndexOutOfRange)
  }

  /** Observers, then the decrypting callback, then others that stay in range. */
  ghost predicate Decrypting(callbacks: seq<Callback>, before: seq<Callback>, after: seq<Callback>, c: Crypto,
                             ks: KeyStore) {
    && callbacks == before + ([DecryptCallback(c, ks)] + after)
    && (forall cb, d :: cb in before ==> cb.Passes(d)) && (forall cb :: cb in after ==> StaysInRange(cb))
  }

  lemma {:induction false} StayingInRange(callbacks: seq<Callback>, d: bytes)
    requires forall cb :: cb in callbacks ==> StaysInRange(cb)
    ensures FirstChange(callbacks, d) != Err(CallbackError.IndexOutOfRange)
  {
    if callbacks != [] {
      assert StaysInRange(callbacks[0]);
      StayingInRange(callbacks[1..], d);
    }
  }

  /** The callbacks index out of range on exactly the containers that overrun. */
  lemma CallbacksOutOfRange(callbacks: seq<Callback>, before: seq<Callback>, after: seq<Callback>, c: Crypto,
                            ks: KeyStore, d: bytes)
    requires Decrypting(callbacks, before, after, c, ks)
    ensures FirstChange(callbacks, d) == Err(CallbackError.IndexOutOfRange) <==> ContainerOverruns(ks, d)
  {
    hide Process, ContainerOverruns, StaysInRange;
    ProcessOutOfRange(c, ks, d);
    FirstChangeAfterPassing(before, [DecryptCallback(c, ks)] + after, d);
    StayingInRange(after, d);
    assert ([DecryptCallback(c, ks)] + after)[1..] == after;
  }

  /** A visited container that holds an AcraBlock which ends before its own key. */
  ghost predicate AnyOverruns(ks: KeyStore, fs: seq<bytes>) {
    exists f :: f in fs && ExtractContainer(f).Ok? && ContainerOverruns(ks, ExtractContainer(f).value.1)
  }

  /**
   A run over a column leaves the bounds of a block exactly if it visits a container that overruns; all other runs stay
   in range.
   */
  lemma ColumnOutOfRange(callbacks: seq<Callback>, before: seq<Callback>, after: seq<Callback>, c: Crypto, ks: KeyStore,
                         s: bytes)
    requires Decrypting(callbacks, before, after, c, ks) && AllInBounds(callbacks) && |s| < TWO_63
    ensures Processed(callbacks, s) == Err(CallbackError.IndexOutOfRange) <==> AnyOverruns(ks, Visited(callbacks, s))
  {
    hide FirstChange, ContainerOverruns, ExtractContainer, Scan, Found, Bounded, Decrypting;
    ScanIsBounded(callbacks, s);
    ScanAborts(TAG, Decide(callbacks), s, CallbackError.IndexOutOfRange);
    forall f | f in Visited(callbacks, s)
      ensures Decide(callbacks)(f) == Abort(CallbackError.IndexOutOfRange) <==>
              ExtractContainer(f).Ok? && ContainerOverruns(ks, ExtractContainer(f).value.1)
    {
      var at := FoundStartAtTags(TAG, Decide(callbacks), s, f);
      ExtractionInRange(s, at);
      if ExtractContainer(f).Ok? { CallbacksOutOfRange(callbacks, before, after, c, ks, ExtractContainer(f).value.1); }
    }
  }

  /** Looking for a container at its tag never indexes out of range. */
  lemma ExtractionInRange(s: bytes, i: nat)
    requires OccursAt(s, TAG, i)
    ensures ExtractContainer(s[i..]) != Err(Error.IndexOutOfRange)
  {
    assert s[i..][0] == TAG[0];
  }

  lemma OverrunningDecision(c: Crypto, ks: KeyStore)
    requires ks.symmetric.Some?
    ensures var s := Serialize(AcraBlock.OVERRUNNING, ACRA_BLOCK_ID).value;
            && |s| == 31 && HasPrefix(s, TAG)
            && Decide([DecryptCallback(c, ks)])(s) == Abort(CallbackError.IndexOutOfRange)
  {
    hide Process, LittleEndian, FromLittleEndian, Pow256;
    var s := Serialize(AcraBlock.OVERRUNNING, ACRA_BLOCK_ID).value;
    OverrunningContainer(c, ks);
    SerializedFields(AcraBlock.OVERRUNNING, ACRA_BLOCK_ID, []);
    assert s + [] == s && s[..3] == TAG;
  }

  /** The 31 bytes of a container around an overrunning block are such a column. */
  lemma OverrunningColumn(c: Crypto, ks: KeyStore)
    requires ks.symmetric.Some?
    ensures var callbacks, s := [DecryptCallback(c, ks)], Serialize(AcraBlock.OVERRUNNING, ACRA_BLOCK_ID).value;
            AllInBounds(callbacks) && |s| == 31 && Processed(callbacks, s) == Err(CallbackError.IndexOutOfRange)
  {
    hide Processed, Decide, Callback.InBounds;
    OverrunningDecision(c, ks);
    DecryptCallbackIsSafe(c, ks);
    AbortsAtStart([DecryptCallback(c, ks)], Serialize(AcraBlock.OVERRUNNING, ACRA_BLOCK_ID).value,
                  CallbackError.IndexOutOfRange);
  }

  lemma AbortsAtStart(callbacks: seq<Callback>, s: bytes, e: CallbackError)
    requires AllInBounds(callbacks) && |s| < TWO_63 && HasPrefix(s, TAG) && Decide(callbacks)(s) == Abort(e)
    ensures Processed(callbacks, s) == Err(e)
  {
    hide Decide, AllInBounds, Processed;
    IndexIs(s, TAG, 0);
    assert s[0..] == s;
    AbortsHere(callbacks, s);
  }

  // ---- recovery of embedded containers ---------------------------------------------------------------------

  /** An envelope, the id it is serialized under and the plaintext it holds. */
  datatype Item = Item(envelope: bytes, id: byte, plain: bytes) {
    predicate WellFormed() {
      envelope != [] && HandlerById(id).Some? && MIN_SIZE + |envelope| < 0x1_0000_0000_0000
    }

    function Container(): bytes
      requires WellFormed()
    {
      Serialize(envelope, id).value
    }

    /** The callbacks turn the container into its plaintext, whatever follows it. */
    ghost predicate RecoveredBy(callbacks: seq<Callback>)
      requires WellFormed()
    {
      forall tail :: |Container()| + |tail| < TWO_63 ==>
                       Decide(callbacks)(Container() + tail) == Replace(|Container()|, plain)
    }
  }

  ghost predicate AllRecovered(callbacks: seq<Callback>, items: seq<Item>) {
    forall k :: 0 <= k < |items| ==> items[k].WellFormed() && items[k].RecoveredBy(callbacks)
  }

  /** The column gaps[0] C0 gaps[1] C1 ... gaps[n] with the items serialized. */
  function Column(gaps: seq<bytes>, items: seq<Item>): bytes
    requires |gaps| == |items| + 1 && forall k :: 0 <= k < |items| ==> items[k].WellFormed()
  {
    if items == [] then gaps[0] else gaps[0] + (items[0].Container() + Column(gaps[1..], items[1..]))
  }

  /** The same column with plaintexts in place of containers. */
  function Recovered(gaps: seq<bytes>, items: seq<Item>): bytes
    requires |gaps| == |items| + 1
  {
    if items == [] then gaps[0] else gaps[0] + (items[0].plain + Recovered(gaps[1..], items[1..]))
  }

  /** Observers, then the decrypting callback, then anything: a container that decrypts is recovered. */
  lemma DecryptingCallbacksRecover(before: seq<Callback>, after: seq<Callback>, c: Crypto, ks: KeyStore, item: Item)
    requires c.NeverGrows() && forall cb, d :: cb in before ==> cb.Passes(d)
    requires item.WellFormed() && Process(c, ks, item.Container()) == Ok(item.plain)
    ensures item.RecoveredBy(before + [DecryptCallback(c, ks)] + after)
  {
    hide Process, Validate, Deserialize, LittleEndian, FromLittleEndian, Pow256;
    var callbacks := before + [DecryptCallback(c, ks)] + after;
    var C := item.Container();
    forall tail | |C| + |tail| < TWO_63 ensures Decide(callbacks)(C + tail) == Replace(|C|, item.plain) {
      SerializedFields(item.envelope, item.id, tail);
      ProcessIgnoresTail(c, ks, item.envelope, item.id, tail);
      ProcessBounds(c, ks, C + tail);
      FirstChangeAfterPassing(before, [DecryptCallback(c, ks)] + after, C + tail);
      assert callbacks == before + ([DecryptCallback(c, ks)] + after);
      assert DecryptCallback(c, ks).OnCryptoEnvelope(C + tail) == Ok(item.plain);
    }
  }

  lemma {:induction false} FirstChangeAfterPassing(before: seq<Callback>, rest: seq<Callback>, d: bytes)
    requires forall cb :: cb in before ==> cb.Passes(d)
    ensures FirstChange(before + rest, d) == FirstChange(rest, d)
  {
    if before == [] {
      assert before + rest == rest;
    } else {
      assert (before + rest)[1..] == before[1..] + rest;
      FirstChangeAfterPassing(before[1..], rest, d);
    }
  }

  /** A tag that starts in the last two bytes of a gap reads a zero byte as envelope id and is passed over. */
  lemma MisalignedTagIsSkipped(callbacks: seq<Callback>, gap: bytes, item: Item, tail: bytes)
    requires 1 <= |gap| <= 2 && item.WellFormed() && HasPrefix(gap + (item.Container() + tail), TAG)
    ensures Decide(callbacks)(gap + (item.Container() + tail)) == Skip
  {
    hide LittleEndian, FromLittleEndian, Pow256, MatchOld, FirstChange;
    var found, n := gap + (item.Container() + tail), MIN_SIZE + |item.envelope|;
    Pow256Values();
    LittleEndianHighBytesZero(n, 8, 6, 6);
    LittleEndianHighBytesZero(n, 8, 6, 7);
    assert found[ID_AT] == LittleEndian(n, 8)[ID_AT - LENGTH_AT - |gap|];
    assert found[0] == TAG[0];
  }

  /**
   The leftmost tag of a gap without a tag, followed by a container, starts at most two bytes before the container.
   */
  lemma FirstTagNearContainer(gap: bytes, rest: bytes)
    requires !Contains(gap, TAG) && HasPrefix(rest, TAG)
    ensures 0 <= Index(gap + rest, TAG) && |gap| - 2 <= Index(gap + rest, TAG) <= |gap|
  {
    var s := gap + rest;
    assert OccursAt(s, TAG, |gap|);
    forall i | 0 <= i < |gap| - 2 ensures !OccursAt(s, TAG, i) {
      assert s[i..i + 3] == gap[i..i + 3];
      assert !OccursAt(gap, TAG, i);
    }
  }

  /** One step of the scan, at a container that the callbacks replace or at a tag they pass over. */
  lemma ProcessedStep(callbacks: seq<Callback>, s: bytes, i: nat, step: Step<CallbackError>)
    requires AllInBounds(callbacks) && |s| < TWO_63
    requires i < |s| && Index(s, TAG) == i && Decide(callbacks)(s[i..]) == step && !step.Abort?
    ensures 0 < Consumed(step) <= |s| - i
    ensures Processed(callbacks, s)
            == Prepend(s[..i] + Produced(step, s[i..]), Processed(callbacks, s[i + Consumed(step)..]))
    ensures Visited(callbacks, s) == [s[i..]] + Visited(callbacks, s[i + Consumed(step)..])
  {
    hide Decide, Bounded, Scan, Found, OccursAt, NonExpanding, AllInBounds;
    ScanIsBounded(callbacks, s);
    ScanUnfold(TAG, Decide(callbacks), s, i, step);
  }

  /** The first step over a gap and a container: either up to the container's end, or past one symbol of the gap. */
  lemma FirstStep(callbacks: seq<Callback>, gap: bytes, item: Item, tail: bytes) returns (i: nat)
    requires AllInBounds(callbacks) && item.WellFormed() && item.RecoveredBy(callbacks) && !Contains(gap, TAG)
    requires |gap + (item.Container() + tail)| < TWO_63
    ensures i <= |gap|
    ensures var s := gap + (item.Container() + tail);
            Processed(callbacks, s) ==
            if i == |gap| then Prepend(gap + item.plain, Processed(callbacks, tail))
            else Prepend(gap[..i + 1], Processed(callbacks, gap[i + 1..] + (item.Container() + tail)))
  {
    hide Decide, AllInBounds, Contains, Index, Processed, Visited, Item.Container, Serialize;
    var C := item.Container();
    var s := gap + (C + tail);
    ContainerStartsWithTag(item, tail);
    FirstTagNearContainer(gap, C + tail);
    i := Index(s, TAG);
    if i == |gap| {
      AtContainer(gap, C, tail);
      ProcessedStep(callbacks, s, i, Replace(|C|, item.plain));
    } else {
      InsideGap(gap, C + tail, i);
      IndexIsTag(s);
      MisalignedTagIsSkipped(callbacks, gap[i..], item, tail);
      ProcessedStep(callbacks, s, i, Skip);
    }
  }

  lemma AtContainer(gap: bytes, C: bytes, tail: bytes)
    ensures var s := gap + (C + tail); s[|gap|..] == C + tail && s[|gap| + |C|..] == tail && s[..|gap|] == gap
  {
  }

  lemma InsideGap(gap: bytes, rest: bytes, i: nat)
    requires i < |gap|
    ensures var s := gap + rest;
            s[i..] == gap[i..] + rest && s[i + 1..] == gap[i + 1..] + rest && s[..i] + s[i..][..1] == gap[..i + 1]
  {
  }

  lemma ContainerStartsWithTag(item: Item, tail: bytes)
    requires item.WellFormed()
    ensures HasPrefix(item.Container() + tail, TAG)
  {
    assert (item.Container() + tail)[..3] == TAG;
  }

  lemma IndexIsTag(s: bytes)
    requires Index(s, TAG) != NOT_FOUND
    ensures HasPrefix(s[Index(s, TAG)..], TAG)
  {
    assert s[Index(s, TAG)..][..3] == s[Index(s, TAG)..Index(s, TAG) + 3];
  }

  lemma NoTagInSuffix(gap: bytes, k: nat)
    requires k <= |gap| && !Contains(gap, TAG)
    ensures !Contains(gap[k..], TAG)
  {
    forall i ensures !OccursAt(gap[k..], TAG, i) {
      if 0 <= i { OccursInSuffix(gap, TAG, k, i); }
    }
  }

  /**
   Embedded recovery: containers between arbitrary bytes are all found and replaced, and the bytes between them are
   kept. A gap may end in one or two tag symbols, but holds no whole tag.
   */
  lemma {:induction false} EmbeddedContainersRecovered(callbacks: seq<Callback>, gaps: seq<bytes>, items: seq<Item>)
    requires AllInBounds(callbacks) && AllRecovered(callbacks, items)
    requires |gaps| == |items| + 1 && |Column(gaps, items)| < TWO_63
    requires forall g :: g in gaps ==> !Contains(g, TAG)
    ensures Processed(callbacks, Column(gaps, items)) == Ok(Recovered(gaps, items))
    decreases |items|, |gaps[0]|
  {
    hide Processed, AllInBounds, Contains, Decide, Item.RecoveredBy, Item.Container;
    if items == [] {
      NoTagNothingProcessed(callbacks, gaps[0]);
    } else {
      var gap, tail := gaps[0], Column(gaps[1..], items[1..]);
      var i := FirstStep(callbacks, gap, items[0], tail);
      if i == |gap| {
        EmbeddedContainersRecovered(callbacks, gaps[1..], items[1..]);
        assert gap + (items[0].plain + Recovered(gaps[1..], items[1..]))
               == gap + items[0].plain + Recovered(gaps[1..], items[1..]);
      } else {
        var shorter := [gap[i + 1..]] + gaps[1..];
        assert shorter[1..] == gaps[1..];
        NoTagInSuffix(gap, i + 1);
        EmbeddedContainersRecovered(callbacks, shorter, items);
        assert gap[..i + 1] + gap[i + 1..] == gap;
        assert Recovered(gaps, items) == gap[..i + 1] + Recovered(shorter, items);
      }
    }
  }

  lemma NoTagNothingProcessed(callbacks: seq<Callback>, s: bytes)
    requires AllInBounds(callbacks) && |s| < TWO_63 && !Contains(s, TAG)
    ensures Processed(callbacks, s) == Ok(s)
  {
  }

  // ---- from encryption to recovery -------------------------------------------------------------------------

  /** A value given to the registry for encryption, with the handler, the client's current key and the random inputs. */
  datatype Source = Source(h: Handler, key: bytes, rnd: Randomness, value: bytes) {
    /** The value is no envelope yet, its container stays below 2^48 bytes, and the rotated keys still hold the key. */
    ghost predicate Encryptable(c: Crypto, ks: KeyStore)
      requires c.Sound()
    {
      && Fits(h, c, key, rnd, value) && !EncryptOverruns(h, value) && !IsEnvelope(value)
      && MIN_SIZE + |HandlerEncrypt(h, c, key, rnd, value)| < 0x1_0000_0000_0000
      && var keys := if h.AcraBlockHandler? then ks.symmetric else ks.private; keys.Some? && key in keys.value
    }

    function AsItem(c: Crypto): Item
      requires |c.block.keyId(key, [])| == 2
    {
      Item(HandlerEncrypt(h, c, key, rnd, value), h.Id(), value)
    }
  }

  /** What encryption returns is the container of the item, and the callbacks recover it. */
  lemma EncryptedIsRecovered(before: seq<Callback>, after: seq<Callback>, c: Crypto, ks: KeyStore, source: Source)
    requires c.Sound() && c.NeverGrows() && (forall cb, d :: cb in before ==> cb.Passes(d)) && source.Encryptable(c, ks)
    ensures var item := source.AsItem(c);
            && item.WellFormed() && item.RecoveredBy(before + [DecryptCallback(c, ks)] + after)
            && Encrypt(source.h, c, source.key, source.rnd, source.value) == Ok(item.Container())
  {
    hide Handler.Match, RegistryMatch, HandlerEncrypt, Process, EncryptOverruns, Fits, Item.RecoveredBy, IsEnvelope;
    var h, key, rnd, value := source.h, source.key, source.rnd, source.value;
    EncryptKeepsEnvelopes(h, c, key, rnd, value);
    EncryptOutOfRange(h, c, key, rnd, value);
    HandlerEncryptMatches(h, c, key, rnd, value);
    EncryptThenProcess(h, c, ks, key, rnd, value);
    DecryptingCallbacksRecover(before, after, c, ks, source.AsItem(c));
  }

  lemma {:induction false} ColumnIsInterleaved(gaps: seq<bytes>, items: seq<Item>, containers: seq<bytes>,
                                               plains: seq<bytes>)
    requires |gaps| == |items| + 1 == |containers| + 1 == |plains| + 1
    requires forall k :: 0 <= k < |items| ==> items[k].WellFormed() && containers[k] == items[k].Container()
    requires forall k :: 0 <= k < |items| ==> plains[k] == items[k].plain
    ensures Column(gaps, items) == Interleaved(gaps, containers) && Recovered(gaps, items) == Interleaved(gaps, plains)
    decreases |items|
  {
    hide Item.Container, Item.WellFormed;
    if items != [] { ColumnIsInterleaved(gaps[1..], items[1..], containers[1..], plains[1..]); }
  }

  /**
   The whole way: values encrypted by the registry, each with its own handler, key and randomness, and stored between
   bytes without a tag, all come back from the column, with any rotated key lists that still hold the encrypting keys.
   */
  lemma EncryptedValuesRecovered(before: seq<Callback>, after: seq<Callback>, c: Crypto, ks: KeyStore,
                                 gaps: seq<bytes>, sources: seq<Source>, encrypted: seq<bytes>, values: seq<bytes>)
    requires c.Sound() && c.NeverGrows() && (forall cb, d :: cb in before ==> cb.Passes(d))
    requires AllInBounds(before + [DecryptCallback(c, ks)] + after)
    requires |gaps| == |sources| + 1 == |encrypted| + 1 == |values| + 1 && forall g :: g in gaps ==> !Contains(g, TAG)
    requires forall k :: 0 <= k < |sources| ==>
               var s := sources[k];
               s.Encryptable(c, ks) && s.value == values[k]
                 && Encrypt(s.h, c, s.key, s.rnd, s.value) == Ok(encrypted[k])
    requires |Interleaved(gaps, encrypted)| < TWO_63
    ensures Processed(before + [DecryptCallback(c, ks)] + after, Interleaved(gaps, encrypted))
            == Ok(Interleaved(gaps, values))
  {
    hide Processed, AllInBounds, Contains, Item.RecoveredBy, Item.Container, Item.WellFormed, Source.Encryptable,
      Encrypt, HandlerEncrypt, Column, Recovered, Interleaved;
    var callbacks := before + [DecryptCallback(c, ks)] + after;
    var items := seq(|sources|, k requires 0 <= k < |sources| => sources[k].AsItem(c));
    forall k | 0 <= k < |items|
      ensures items[k].WellFormed() && items[k].RecoveredBy(callbacks) && encrypted[k] == items[k].Container()
    {
      EncryptedIsRecovered(before, after, c, ks, sources[k]);
    }
    ColumnIsInterleaved(gaps, items, encrypted, values);
    EmbeddedContainersRecovered(callbacks, gaps, items);
  }

  ghost predicate AnyNotified(callbacks: seq<Callback>, fs: seq<bytes>) {
    exists f :: f in fs && NotifiedAt(callbacks, f)
  }

  ghost predicate AnyReplaced(callbacks: seq<Callback>, fs: seq<bytes>) {
    exists f :: f in fs && Decide(callbacks)(f).Replace?
  }

  lemma AnyAppended(callbacks: seq<Callback>, fs: seq<bytes>, f: bytes)
    ensures AnyNotified(callbacks, fs + [f]) <==> AnyNotified(callbacks, fs) || NotifiedAt(callbacks, f)
    ensures AnyReplaced(callbacks, fs + [f]) <==> AnyReplaced(callbacks, fs) || Decide(callbacks)(f).Replace?
  {
    hide Decide, NotifiedAt;
    assert f in fs + [f];
    assert forall g :: g in fs ==> g in fs + [f];
  }

  /** Nothing is found in a column too short for a container, nor by a detector without callbacks. */
  lemma QuietColumn(callbacks: seq<Callback>, s: bytes)
    requires AllInBounds(callbacks) && (|s| < MIN_SIZE || callbacks == [])
    requires |s| < TWO_63
    ensures Processed(callbacks, s) == Ok(s)
    ensures !AnyNotified(callbacks, Visited(callbacks, s)) && !AnyReplaced(callbacks, Visited(callbacks, s))
  {
    ScanIsBounded(callbacks, s);
    forall i | OccursAt(s, TAG, i) ensures Decide(callbacks)(s[i..]).Skip? && !NotifiedAt(callbacks, s[i..]) {
      assert s[i..][0] == TAG[0];
    }
    ScanWithoutReplacement(TAG, Decide(callbacks), s);
    forall f | f in Visited(callbacks, s) ensures Decide(callbacks)(f).Skip? && !NotifiedAt(callbacks, f) {
      var at := FoundStartAtTags(TAG, Decide(callbacks), s, f);
    }
  }

  lemma NothingSeen(callbacks: seq<Callback>, s: bytes)
    requires AllInBounds(callbacks) && |s| < TWO_63
    ensures Processed(callbacks, s) == Prepend([], Processed(callbacks, s[0..]))
    ensures Visited(callbacks, s) == [] + Visited(callbacks, s[0..])
    ensures !AnyNotified(callbacks, []) && !AnyReplaced(callbacks, [])
  {
    assert s[0..] == s;
    PrependNothing(Processed(callbacks, s));
  }

  lemma Stepped(callbacks: seq<Callback>, rest: bytes, done: bytes, begin: nat, step: Step<CallbackError>)
    requires AllInBounds(callbacks) && |rest| < TWO_63
    requires begin < |rest| && Index(rest, TAG) == begin && Decide(callbacks)(rest[begin..]) == step && !step.Abort?
    ensures 0 < Consumed(step) <= |rest| - begin
    ensures Prepend(done, Processed(callbacks, rest))
            == Prepend(done + rest[..begin] + Produced(step, rest[begin..]),
                       Processed(callbacks, rest[begin + Consumed(step)..]))
    ensures Visited(callbacks, rest) == [rest[begin..]] + Visited(callbacks, rest[begin + Consumed(step)..])
  {
    hide Processed, Visited, Decide;
    ProcessedStep(callbacks, rest, begin, step);
    var produced := rest[..begin] + Produced(step, rest[begin..]);
    PrependTwice(done, produced, Processed(callbacks, rest[begin + Consumed(step)..]));
    assert done + produced == done + rest[..begin] + Produced(step, rest[begin..]);
  }

  lemma AbortsHere(callbacks: seq<Callback>, rest: bytes)
    requires AllInBounds(callbacks) && |rest| < TWO_63
    requires Index(rest, TAG) != NOT_FOUND && Decide(callbacks)(rest[Index(rest, TAG)..]).Abort?
    ensures Processed(callbacks, rest) == Err(Decide(callbacks)(rest[Index(rest, TAG)..]).error)
    ensures Visited(callbacks, rest) == [rest[Index(rest, TAG)..]]
  {
    hide Decide;
    ScanIsBounded(callbacks, rest);
    ScanRound(TAG, Decide(callbacks), rest);
  }

  lemma NothingLeft(callbacks: seq<Callback>, rest: bytes)
    requires AllInBounds(callbacks) && |rest| < TWO_63 && Index(rest, TAG) == NOT_FOUND
    ensures Processed(callbacks, rest) == Ok(rest) && Visited(callbacks, rest) == []
  {
  }

  // ---- the detector object ---------------------------------------------------------------------------------

  class EnvelopeDetector {
    var callbacks: seq<Callback>

    constructor ()
      ensures callbacks == []
    {
      callbacks := [];
    }

    method AddCallback(callback: Callback)
      modifies this
      ensures callbacks == old(callbacks) + [callback]
    {
      callbacks := callbacks + [callback];
    }

    /** OnCryptoEnvelope, together with whether the wrapper's callback ran. */
    method OnCryptoEnvelope(container: bytes) returns (r: Result<bytes, CallbackError>, notified: bool)
      ensures r == FirstChange(callbacks, container) && notified == Notified(callbacks, container)
    {
      notified := false;
      for i := 0 to |callbacks|
        invariant FirstChange(callbacks, container) == FirstChange(callbacks[i..], container)
        invariant Notified(callbacks, container) == (notified || Notified(callbacks[i..], container))
      {
        var handler := callbacks[i];
        notified := notified || handler.Notify?;
        var processed := handler.OnCryptoEnvelope(container);
        if processed.Err? {
          if processed.error == DecryptionFailed { continue; }
          return processed, notified;
        }
        if processed.value != container { return processed, notified; }
      }
      r := Ok(container);
    }

    /** The loop over the callbacks inside OnColumn, at a container that the scan found. */
    method RunCallbacks(n: int, container: bytes) returns (step: Step<CallbackError>, notified: bool)
      requires callbacks != []
      ensures step == ToStep(n, container, FirstChange(callbacks, container))
      ensures notified == Notified(callbacks, container)
    {
      notified, step := false, Skip;
      for index := 0 to |callbacks|
        invariant step == Skip
        invariant FirstChange(callbacks, container) == FirstChange(callbacks[index..], container)
        invariant Notified(callbacks, container) == (notified || Notified(callbacks[index..], container))
      {
        var handler := callbacks[index];
        notified := notified || handler.Notify?;
        var processed := handler.OnCryptoEnvelope(container);
        if processed.Err? {
          if processed.error != DecryptionFailed { return Abort(processed.error), notified; }
        } else if processed.value != container {
          return Replace(n, processed.value), notified;
        }
        // unchanged or not decryptable: the next callback decides, and after the last one the scan moves on by a byte
      }
    }

    /** Extraction of a container and the callbacks on it, at a tag that the scan found. */
    method Inspect(found: bytes) returns (step: Step<CallbackError>, notified: bool)
      requires callbacks != []
      ensures step == Decide(callbacks)(found) && notified == NotifiedAt(callbacks, found)
    {
      var extracted := ExtractContainer(found);
      if extracted.Err? {
        return if extracted.error == Error.IndexOutOfRange then Abort(CallbackError.IndexOutOfRange) else Skip, false;
      }
      step, notified := RunCallbacks(extracted.value.0, extracted.value.1);
    }

    /**
     OnColumn. `changed` says that some container was replaced, `matched` that the wrapper's callback saw one. On an
     error the input comes back.
     */
    method OnColumn(inBuffer: bytes)
      returns (outBuffer: bytes, changed: bool, matched: bool, failure: Option<CallbackError>)
      requires AllInBounds(callbacks) && |inBuffer| < TWO_63
      ensures Processed(callbacks, inBuffer) == if failure.Some? then Err(failure.value) else Ok(outBuffer)
      ensures failure.Some? ==> outBuffer == inBuffer
      ensures matched == AnyNotified(callbacks, Visited(callbacks, inBuffer))
      ensures failure.None? ==> changed == AnyReplaced(callbacks, Visited(callbacks, inBuffer))
    {
      hide Processed, Visited, AnyNotified, AnyReplaced, AllInBounds, Notified, Decide, Index;
      outBuffer, changed, matched, failure := [], false, false, None;
      if |inBuffer| < MIN_SIZE || callbacks == [] {
        QuietColumn(callbacks, inBuffer);
        return inBuffer, false, false, None;
      }
      var inIndex := 0;
      ghost var seen: seq<bytes> := [];
      NothingSeen(callbacks, inBuffer);
      while true
        invariant 0 <= inIndex <= |inBuffer| && failure.None?
        invariant Processed(callbacks, inBuffer) == Prepend(outBuffer, Processed(callbacks, inBuffer[inIndex..]))
        invariant Visited(callbacks, inBuffer) == seen + Visited(callbacks, inBuffer[inIndex..])
        invariant matched == AnyNotified(callbacks, seen) && changed == AnyReplaced(callbacks, seen)
        decreases |inBuffer| - inIndex
      {
        var rest := inBuffer[inIndex..];
        var begin := Index(rest, TAG);
        if begin == NOT_FOUND { break; }
        ghost var done := outBuffer;
        outBuffer := outBuffer + rest[..begin];
        var found := rest[begin..];
        var step, notified := Inspect(found);
        AnyAppended(callbacks, seen, found);
        if step.Abort? {
          AbortsHere(callbacks, rest);
          return inBuffer, changed, matched || notified, Some(step.error);
        }
        Stepped(callbacks, rest, done, begin, step);
        matched, changed := matched || notified, changed || step.Replace?;
        outBuffer := outBuffer + Produced(step, found);
        inIndex := inIndex + begin + Consumed(step);
        assert rest[begin + Consumed(step)..] == inBuffer[inIndex..];
        assert seen + ([found] + Visited(callbacks, inBuffer[inIndex..]))
               == seen + [found] + Visited(callbacks, inBuffer[inIndex..]);
        seen := seen + [found];
      }
      // copy left bytes
      NothingLeft(callbacks, inBuffer[inIndex..]);
      outBuffer := outBuffer + inBuffer[inIndex..];
      assert seen + [] == seen;
    }
  }
}
