/** The integrity calculator: a running HMAC under an evolving key (logging/audit_log.go). */
module AuditChain {
  import opened Outcomes
  import opened ByteStrings

  /** SHA-256 and HMAC-SHA-256 (section 2 of RFC 2104), taken as given functions; hmac(key, message). */
  datatype Hashing = Hashing(hash: bytes -> bytes, hmac: (bytes, bytes) -> bytes) {
    ghost predicate FixedWidth() {
      (forall m :: |hash(m)| == 32) && (forall k, m :: |hmac(k, m)| == 32)
    }
  }

  /** The calculator's fields. */
  datatype State = State(cryptoKey: bytes, previous: Option<bytes>)

  function Initial(h: Hashing, key: bytes): State {
    State(h.hash(key), None)
  }

  /** calculateHmac: the entry, followed by the previous MAC if there is one. */
  function Mac(h: Hashing, st: State, input: bytes): bytes {
    h.hmac(st.cryptoKey, input + if st.previous.Some? then st.previous.value else [])
  }

  function Next(h: Hashing, st: State, input: bytes): State {
    State(h.hash(st.cryptoKey), Some(Mac(h, st, input)))
  }

  class LogEntryIntegrityCalculator {
    const h: Hashing
    var cryptoKey: bytes
    var previousLogEntryIntegrityCheck: Option<bytes>

    function Value(): State
      reads this
    {
      State(cryptoKey, previousLogEntryIntegrityCheck)
    }

    constructor (h: Hashing, key: bytes)
      ensures this.h == h && Value() == Initial(h, key)
    {
      this.h := h;
      cryptoKey := h.hash(key);
      previousLogEntryIntegrityCheck := None;
    }

    method ResetCryptoKey(key: bytes)
      modifies this
      ensures Value() == Initial(h, key)
    {
      cryptoKey := h.hash(key);
      previousLogEntryIntegrityCheck := None;
    }

    method CalculateIntegrityCheck(input: bytes) returns (integrity: bytes, newChain: bool)
      modifies this
      ensures Value() == Next(h, old(Value()), input)
      ensures integrity == h.hash(Mac(h, old(Value()), input)) && newChain == old(Value()).previous.None?
    {
      newChain := previousLogEntryIntegrityCheck.None?;
      var integrityCheck := Mac(h, Value(), input);
      previousLogEntryIntegrityCheck := Some(integrityCheck);
      integrity := h.hash(integrityCheck);
      cryptoKey := h.hash(cryptoKey);
    }
  }

  // ---- the chain as a closed form --------------------------------------------------------------------------

  /** The key in force at position n of a chain: the key hashed n + 1 times. */
  function ChainKey(h: Hashing, key: bytes, n: nat): bytes {
    if n == 0 then h.hash(key) else h.hash(ChainKey(h, key, n - 1))
  }

  /** The MAC of the last entry of a chain. */
  function ChainMac(h: Hashing, key: bytes, entries: seq<bytes>): bytes
    requires entries != []
  {
    var n := |entries| - 1;
    h.hmac(ChainKey(h, key, n), entries[n] + if n == 0 then [] else ChainMac(h, key, entries[..n]))
  }

  /** The integrity value of the last entry of a chain. */
  function ChainIntegrity(h: Hashing, key: bytes, entries: seq<bytes>): bytes
    requires entries != []
  {
    h.hash(ChainMac(h, key, entries))
  }

  /** The calculator's state after a chain of entries. */
  function After(h: Hashing, key: bytes, entries: seq<bytes>): State {
    State(ChainKey(h, key, |entries|), if entries == [] then None else Some(ChainMac(h, key, entries)))
  }

  /** The calculator, started fresh and fed entry by entry, computes the closed form. */
  lemma AfterIsRun(h: Hashing, key: bytes, entries: seq<bytes>, entry: bytes)
    ensures After(h, key, []) == Initial(h, key)
    ensures After(h, key, entries + [entry]) == Next(h, After(h, key, entries), entry)
    ensures h.hash(Mac(h, After(h, key, entries), entry)) == ChainIntegrity(h, key, entries + [entry])
  {
    assert (entries + [entry])[..|entries|] == entries;
  }

  // ---- chain binding ---------------------------------------------------------------------------------------

  /** Two different inputs with the same digest, or with the same MAC under one key. */
  datatype Collision = HashCollision(x: bytes, y: bytes) | HmacCollision(key: bytes, x: bytes, y: bytes) {
    predicate Holds(h: Hashing) {
      x != y && if HashCollision? then h.hash(x) == h.hash(y) else h.hmac(key, x) == h.hmac(key, y)
    }
  }

  /** The HMAC input of the last entry of a chain. */
  function MacInput(h: Hashing, key: bytes, entries: seq<bytes>): bytes
    requires entries != []
  {
    var n := |entries| - 1;
    entries[n] + if n == 0 then [] else ChainMac(h, key, entries[..n])
  }

  /** Walks two runs from the end and returns the first place where different inputs met in one value. */
  function FindCollision(h: Hashing, key: bytes, es: seq<bytes>, fs: seq<bytes>): Option<Collision>
    requires |es| == |fs|
  {
    if es == [] then None
    else if MacInput(h, key, es) != MacInput(h, key, fs) then
      Some(HmacCollision(ChainKey(h, key, |es| - 1), MacInput(h, key, es), MacInput(h, key, fs)))
    else FindCollision(h, key, es[..|es| - 1], fs[..|fs| - 1])
  }

  lemma {:induction false} SameMacSameEntries(h: Hashing, key: bytes, es: seq<bytes>, fs: seq<bytes>)
    requires h.FixedWidth() && |es| == |fs| && es != [] && ChainMac(h, key, es) == ChainMac(h, key, fs)
    ensures es == fs || (FindCollision(h, key, es, fs).Some? && FindCollision(h, key, es, fs).value.Holds(h))
    decreases |es|
  {
    var n := |es| - 1;
    if MacInput(h, key, es) == MacInput(h, key, fs) {
      var ms, ns := es[..n], fs[..n];
      if n > 0 {
        SplitRight(es[n], ChainMac(h, key, ms), fs[n], ChainMac(h, key, ns));
        SameMacSameEntries(h, key, ms, ns);
      } else {
        assert es[n] + [] == es[n] && fs[n] + [] == fs[n];
      }
      assert es == ms + [es[n]] && fs == ns + [fs[n]];
    }
  }

  /**
   Chain binding. Two equally long chains under one key that end in the same integrity value are the same entry by
   entry, or their last MACs collide under the hash, or the walk finds a collision of the HMAC.
   */
  lemma ChainBinding(h: Hashing, key: bytes, es: seq<bytes>, fs: seq<bytes>)
    requires h.FixedWidth() && |es| == |fs| && es != []
    requires ChainIntegrity(h, key, es) == ChainIntegrity(h, key, fs)
    ensures || es == fs
            || HashCollision(ChainMac(h, key, es), ChainMac(h, key, fs)).Holds(h)
            || (FindCollision(h, key, es, fs).Some? && FindCollision(h, key, es, fs).value.Holds(h))
  {
    if ChainMac(h, key, es) == ChainMac(h, key, fs) {
      SameMacSameEntries(h, key, es, fs);
    }
  }
}
