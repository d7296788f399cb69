/**
 The tokenizer's code (pseudonymization/tokenizer.go, pseudonymization/dataTokenizer.go) against the protocol: every
 storage operation of an instance is one event of the shared run, and between any two of them other instances may act.
 */
module Pseudonymizer {
  import opened Outcomes
  import opened ByteStrings
  import opened TokenValues
  import opened TokenProtocol
  import Decimal

  datatype SaveResult = Saved | Exists | Broken

  /** The shared storage, with the run that led to its contents. Any operation may fail for a reason of its own. */
  class SharedStorage {
    const hash: Hash
    var store: Store
    ghost var sys: System
    ghost var events: seq<Event>

    ghost predicate Valid()
      reads this
    {
      Traced(hash, events, sys) && sys.store == store
    }

    constructor (hash: Hash)
      ensures this.hash == hash && Valid() && sys == Start()
    {
      this.hash := hash;
      store := map[];
      sys, events := Start(), [];
    }

    /** Other instances take steps: instance i stays where it is and no outcome is taken back. */
    method OthersRun(ghost i: nat)
      requires Valid()
      modifies this
      ensures Valid() && sys.At(i) == old(sys).At(i) && old(sys).history <= sys.history && old(events) <= events
      ensures old(store).Keys <= store.Keys
    {
      // nothing has to happen; callers know no more than the postcondition
    }

    ghost method Take(ev: Event)
      requires Traced(hash, events, sys) && Enabled(sys, ev)
      modifies this`sys, this`events
      ensures Traced(hash, events, sys) && sys == Step(hash, old(sys), ev) && old(sys).history <= sys.history
      ensures events == old(events) + [ev]
    {
      TraceGrows(hash, events, sys, ev);
      sys := Step(hash, sys, ev);
      events := events + [ev];
    }

    /**
     TokenStorage.Get of a digest key. An answered Get returns what was saved; the caller cannot tell a failure from a
     miss.
     */
    method Get(ghost i: nat, key: (bytes, bytes)) returns (r: Option<Stored>, ghost answered: bool)
      requires Valid() && sys.At(i).Getting? && key == sys.At(i).call.HKey(hash)
      modifies this
      ensures Valid() && store == old(store) && old(sys).history <= sys.history
      ensures answered ==> sys == OnGet(hash, old(sys), i) && r == if key in store then Some(store[key]) else None
      ensures !answered ==> sys == OnGetFails(old(sys), i) && r == None
      ensures events == old(events) + [if answered then Event.Get(i) else GetFails(i)]
    {
      if * {
        Take(GetFails(i));
        return None, false;
      }
      r, answered := if key in store then Some(store[key]) else None, true;
      Take(Event.Get(i));
    }

    /** TokenStorage.Save of a candidate token's source. */
    method SaveToken(ghost i: nat, ghost candidate: Value, key: (bytes, bytes), v: Stored) returns (r: SaveResult)
      requires Valid() && sys.At(i).Generating? && TypeOf(candidate) == sys.At(i).call.ty
      requires var call := sys.At(i).call;
               key == TKey(hash, call, candidate) && v == Source(Encoding(call.data), call.ty)
      modifies this
      ensures Valid() && old(sys).history <= sys.history && old(events) <= events
      ensures if r.Broken? then sys == old(sys).Finish(i, Failed(old(sys).At(i).call, Unavailable))
              else sys == OnSaveToken(hash, old(sys), i, candidate) && (r.Saved? <==> key !in old(store))
    {
      if * {
        Take(Break(i));
        return Broken;
      }
      r := if key in store then Exists else Saved;
      if r.Saved? { store := store[key := v]; }
      Take(Event.SaveToken(i, candidate));
    }

    /** TokenStorage.Save of the digest's token. */
    method SaveHash(ghost i: nat, key: (bytes, bytes), v: Stored) returns (r: SaveResult)
      requires Valid() && sys.At(i).Saving?
      requires key == sys.At(i).call.HKey(hash) && v == Token(Encoding(sys.At(i).token))
      modifies this
      ensures Valid() && old(sys).history <= sys.history && old(events) <= events
      ensures if r.Broken? then sys == old(sys).Finish(i, Failed(old(sys).At(i).call, Unavailable))
              else sys == OnSaveHash(hash, old(sys), i) && (r.Saved? <==> key !in old(store))
    {
      if * {
        Take(Break(i));
        return Broken;
      }
      r := if key in store then Exists else Saved;
      if r.Saved? { store := store[key := v]; }
      Take(Event.SaveHash(i));
    }
  }

  /** The state is the one the events lead to. */
  ghost predicate Traced(hash: Hash, events: seq<Event>, s: System) {
    IsRun(hash, events) && Run(hash, events) == s
  }

  lemma TraceGrows(hash: Hash, events: seq<Event>, s: System, ev: Event)
    requires Traced(hash, events, s) && Enabled(s, ev)
    ensures Traced(hash, events + [ev], Step(hash, s, ev))
    ensures s.history <= Step(hash, s, ev).history
  {
    assert (events + [ev])[..|events|] == events;
    HistoryGrows(hash, s, ev);
  }

  lemma HistoryGrows(hash: Hash, s: System, ev: Event)
    requires Enabled(s, ev)
    ensures s.history <= Step(hash, s, ev).history
  {
  }

  lemma TracedIsReachable(hash: Hash, events: seq<Event>, s: System)
    requires Traced(hash, events, s)
    ensures Reachable(hash, s)
  {
  }

  /** The run has recorded the result as the outcome of the call. */
  predicate Recorded(call: Call, r: Result<Value, TokenError>, s: System) {
    (match r case Ok(token) => Returned(call, token) case Err(e) => Failed(call, e)) in s.history
  }

  /** The random source: any value of the same type. */
  method Draw(like: Value) returns (newValue: Value)
    ensures TypeOf(newValue) == TypeOf(like)
  {
    assert TypeOf(like) == TypeOf(like);
    newValue :| TypeOf(newValue) == TypeOf(like);
  }

  class Pseudoanonymizer {
    const storage: SharedStorage
    ghost const id: nat

    constructor (storage: SharedStorage, ghost id: nat)
      ensures this.storage == storage && this.id == id
    {
      this.storage := storage;
      this.id := id;
    }

    /** Between two calls. */
    ghost predicate Ready()
      reads storage
    {
      storage.Valid() && storage.sys.At(id).Idle?
    }

    /**
     generateNewValue, from the point where the instance is about to draw: up to ten candidates are tried. `taken` are
     the ones that were issued already.
     */
    method GenerateNewValue(call: Call, ghost retried: bool)
        returns (r: Result<Value, TokenError>, ghost taken: seq<Value>)
      requires storage.Valid() && TypeOf(call.data) == call.ty && storage.sys.At(id) == Generating(call, retried, 0)
      modifies storage
      ensures storage.Valid() && old(storage.sys).history <= storage.sys.history
              && old(storage.events) <= storage.events
      ensures r.Ok? && call.consistent ==> storage.sys.At(id) == Saving(call, retried, r.value)
      ensures r.Err? || !call.consistent ==> storage.sys.At(id).Idle? && Recorded(call, r, storage.sys)
      ensures r.Err? ==> r.error in {GenerationLimitExceeded, Unavailable}
      ensures r == Err(GenerationLimitExceeded) <==> |taken| == 10
      ensures |taken| <= 10 && forall t :: t in taken ==> TKey(storage.hash, call, t) in storage.store
    {
      hide Traced;
      taken := [];
      for k := 0 to LIMIT
        invariant storage.Valid() && old(storage.sys).history <= storage.sys.history
                  && old(storage.events) <= storage.events
        invariant k < LIMIT ==> storage.sys.At(id) == Generating(call, retried, k)
        invariant k == LIMIT ==>
                    storage.sys.At(id).Idle? && Failed(call, GenerationLimitExceeded) in storage.sys.history
        invariant |taken| == k && forall t :: t in taken ==> TKey(storage.hash, call, t) in storage.store
      {
        storage.OthersRun(id);
        if * {
          // the random source fails
          storage.Take(Break(id));
          return Err(Unavailable), taken;
        }
        var newValue := Draw(call.data);
        var key := TokenKey(storage.hash, Encoding(newValue), call.ctx, call.ty);
        var saved := storage.SaveToken(id, newValue, key, Source(Encoding(call.data), call.ty));
        match saved {
          case Saved => return Ok(newValue), taken;
          case Broken => return Err(Unavailable), taken;
          case Exists => taken := taken + [newValue];
        }
      }
      r := Err(GenerationLimitExceeded);
    }

    /** Anonymize: a fresh token for every call. */
    method Anonymize(data: Value, ctx: TokenContext, ty: TokenType) returns (r: Result<Value, TokenError>)
      requires Ready()
      modifies storage
      ensures Ready() && old(storage.sys).history <= storage.sys.history
      ensures Recorded(Call(data, ContextKey(ctx), ty, false), r, storage.sys)
      ensures TypeOf(data) != ty ==> r == Err(UnknownTokenType)
    {
      hide Traced;
      var call := Call(data, ContextKey(ctx), ty, false);
      storage.Take(Event.Invoke(id, call));
      if TypeOf(data) != ty { return Err(Mismatch(call)); }
      ghost var taken;
      r, taken := GenerateNewValue(call, false);
    }

    /** The Get of one round: the call ends with what was found, or goes on to draw a token. */
    method LookUp(call: Call, digestKey: (bytes, bytes), triedGetOnce: bool, ghost from: nat)
        returns (r: Option<Result<Value, TokenError>>)
      requires storage.Valid() && storage.sys.At(id) == Getting(call, triedGetOnce)
               && digestKey == call.HKey(storage.hash)
      requires from <= |storage.events|
      modifies storage
      ensures storage.Valid() && old(storage.sys).history <= storage.sys.history
              && old(storage.events) <= storage.events
      ensures r.Some? ==>
                storage.sys.At(id).Idle? && Recorded(call, r.value, storage.sys) && r.value != Err(TokenExists)
      ensures r.None? ==> storage.sys.At(id) == Generating(call, triedGetOnce, 0)
      ensures r.None? && triedGetOnce ==> RetryFailed(storage.hash, storage.events, from, id, call)
    {
      hide Traced, RetryFailed, IsRun, Run;
      storage.OthersRun(id);
      AnsweredRetryFinds(storage.hash, storage.events, storage.sys, id);
      ghost var before := storage.events;
      var value, answered := storage.Get(id, digestKey);
      if value.Some? {
        match Decoded(call, value.value) {
          case Returned(_, token) => return Some(Ok(token));
          case Failed(_, e) =>
            DecodedError(call, value.value);
            return Some(Err(e));
        }
      }
      if triedGetOnce { RetryFailsHere(storage.hash, before, storage.events, storage.sys, from, id, call); }
      r := None;
    }

    /** The rest of one round: a new token is saved and bound to the digest, or another instance was faster. */
    method SaveNew(call: Call, digestKey: (bytes, bytes), triedGetOnce: bool, ghost from: nat)
        returns (r: Option<Result<Value, TokenError>>)
      requires storage.Valid() && storage.sys.At(id) == Generating(call, triedGetOnce, 0)
               && digestKey == call.HKey(storage.hash)
      requires call.consistent && TypeOf(call.data) == call.ty
      requires triedGetOnce ==> RetryFailed(storage.hash, storage.events, from, id, call)
      modifies storage
      ensures storage.Valid() && old(storage.sys).history <= storage.sys.history
              && old(storage.events) <= storage.events
      ensures r.Some? ==> storage.sys.At(id).Idle? && Recorded(call, r.value, storage.sys)
      ensures r == Some(Err(TokenExists)) ==> RetryFailed(storage.hash, storage.events, from, id, call)
      ensures r.None? ==> !triedGetOnce && storage.sys.At(id) == Getting(call, true)
    {
      hide Traced, RetryFailed;
      ghost var before := storage.events;
      ghost var taken;
      var newValue;
      newValue, taken := GenerateNewValue(call, triedGetOnce);
      if newValue.Err? { return Some(newValue); }
      storage.OthersRun(id);
      var saved := storage.SaveHash(id, digestKey, Token(Encoding(newValue.value)));
      match saved {
        case Saved => r := Some(newValue);
        case Broken => r := Some(Err(Unavailable));
        case Exists =>
          if !triedGetOnce { return None; }
          RetryFailedLater(storage.hash, before, storage.events, storage.sys, from, id, call);
          r := Some(Err(TokenExists));
      }
    }

    /**
     AnonymizeConsistently. The run has recorded the result for this call, so that the guarantees of the protocol apply
     to it. The loop (the goto) is entered at most twice. An "already exists" error is returned only if the storage
     failed to answer the Get of the second round.
     */
    method AnonymizeConsistently(data: Value, ctx: TokenContext, ty: TokenType) returns (r: Result<Value, TokenError>)
      requires Ready()
      modifies storage
      ensures Ready() && old(storage.sys).history <= storage.sys.history && old(storage.events) <= storage.events
      ensures Recorded(Call(data, ContextKey(ctx), ty, true), r, storage.sys)
      ensures TypeOf(data) != ty ==> r == Err(DataTypeMismatch)
      ensures r == Err(TokenExists) ==>
                RetryFailed(storage.hash, storage.events, |old(storage.events)|, id,
                            Call(data, ContextKey(ctx), ty, true))
    {
      hide Traced, RetryFailed;
      var call := Call(data, ContextKey(ctx), ty, true);
      ghost var from := |storage.events|;
      storage.Take(Event.Invoke(id, call));
      if TypeOf(data) != ty { return Err(Mismatch(call)); }
      var digestKey := HashKey(storage.hash, Encoding(data), call.ctx, ty);
      var triedGetOnce := false;
      while true
        invariant storage.Valid() && old(storage.sys).history <= storage.sys.history
                  && old(storage.events) <= storage.events
        invariant storage.sys.At(id) == Getting(call, triedGetOnce)
        decreases !triedGetOnce
      {
        var found := LookUp(call, digestKey, triedGetOnce, from);
        if found.Some? { return found.value; }
        var saved := SaveNew(call, digestKey, triedGetOnce, from);
        if saved.Some? { return saved.value; }
        triedGetOnce := true;
      }
    }

    /** Deanonymize: one Get. A Get that fails is taken for a miss, so that the token comes back as it is. */
    method Deanonymize(token: Value, ctx: TokenContext, ty: TokenType)
        returns (r: Result<Value, TokenError>, ghost answered: bool)
      requires Ready()
      modifies storage
      ensures Ready() && old(storage.sys).history <= storage.sys.history
      ensures answered ==> r == TokenProtocol.Deanonymize(storage.hash, storage.store, token, ContextKey(ctx), ty)
      ensures !answered ==> TypeOf(token) == ty && r == Ok(token)
    {
      hide Traced;
      storage.OthersRun(id);
      answered := true;
      if TypeOf(token) != ty { return Err(DataTypeMismatch), true; }
      if * { return Ok(token), false; }
      var key := TokenKey(storage.hash, Encoding(token), ContextKey(ctx), ty);
      if key !in storage.store { return Ok(token), true; }
      match storage.store[key]
      case Token(_) => r := Err(UnknownTokenType);
      case Source(value, tokenType) =>
        if tokenType != ty { return Err(DataTypeMismatch), true; }
        r := BytesToValue(value, ty);
    }
  }

  /** One of the events from position `from` on is the failure of the Get that the instance retried for the call. */
  ghost predicate RetryFailed(hash: Hash, events: seq<Event>, from: nat, i: nat, call: Call) {
    IsRun(hash, events) && exists k: nat :: from <= k && LostRetryAt(hash, events, k, i, call)
  }

  lemma RetryFailsHere(hash: Hash, before: seq<Event>, events: seq<Event>, s: System, from: nat, i: nat, call: Call)
    requires Traced(hash, events, s) && events == before + [GetFails(i)] && from <= |before|
    requires IsRun(hash, before) && Run(hash, before).At(i) == Getting(call, true)
    ensures RetryFailed(hash, events, from, i, call)
  {
    assert events[..|before|] == before;
    assert LostRetryAt(hash, events, |before|, i, call);
  }

  lemma RetryFailedLater(hash: Hash, before: seq<Event>, events: seq<Event>, s: System, from: nat, i: nat, call: Call)
    requires RetryFailed(hash, before, from, i, call) && before <= events && Traced(hash, events, s)
    ensures RetryFailed(hash, events, from, i, call)
  {
    hide IsRun, Run;
    var k: nat :| from <= k && LostRetryAt(hash, before, k, i, call);
    assert before[..k] == events[..k];
    assert LostRetryAt(hash, events, k, i, call);
  }

  /** A retried Get that is answered finds a token. */
  lemma AnsweredRetryFinds(hash: Hash, events: seq<Event>, s: System, i: nat)
    requires Traced(hash, events, s) && s.At(i).Getting?
    ensures IsRun(hash, events) && Run(hash, events) == s
    ensures s.At(i).retried ==> s.At(i).call.HKey(hash) in s.store
    ensures s.At(i).call.HKey(hash) in s.store ==> s.store[s.At(i).call.HKey(hash)].Token?
  {
    TracedIsReachable(hash, events, s);
    ReachableInvariant(hash, s);
    LocalOf(hash, s, i);
    if s.At(i).call.HKey(hash) in s.store { ExistingIsToken(hash, s, s.At(i).call); }
  }

  lemma DecodedError(call: Call, stored: Stored)
    ensures Decoded(call, stored) != Failed(call, TokenExists)
  {
  }

  // ---- column data -----------------------------------------------------------------------------------------

  /** int32(i). */
  function Truncated(i: int): int32 { Signed(Unsigned(i, TWO_32), TWO_32) }

  /** The value that column data of a token type stands for. */
  function ParseData(data: bytes, ty: TokenType): (r: Result<Value, TokenError>)
    ensures r.Ok? ==> TypeOf(r.value) == ty
  {
    match ty
    case Int32 =>
      (match Decimal.ParseInt(data) case Some(i) => Ok(Int32Value(Truncated(i))) case None => Err(NotANumber))
    case Int64 => (match Decimal.ParseInt(data) case Some(i) => Ok(Int64Value(i)) case None => Err(NotANumber))
    case String => Ok(StringValue(data))
    case Bytes => Ok(BytesValue(data))
    case Email => Ok(EmailValue(data))
    case _ => Err(DataTypeMismatch)
  }

  function Render(v: Value): bytes {
    match v
    case Int32Value(i) => Decimal.FormatInt(i)
    case Int64Value(i) => Decimal.FormatInt(i)
    case StringValue(s) => s
    case BytesValue(b) => b
    case EmailValue(e) => e
  }

  lemma RenderThenParse(v: Value)
    ensures ParseData(Render(v), TypeOf(v)) == Ok(v)
  {
    hide Decimal.FormatInt, Decimal.ParseInt;
    match v
    case Int32Value(i) => Decimal.ParseFormat(i);
    case Int64Value(i) => Decimal.ParseFormat(i);
    case _ =>
  }

  /** Data that survive parsing and rendering: numbers must be in canonical decimal form and fit the column's type. */
  predicate Canonical(data: bytes, ty: TokenType) {
    match ty
    case Int32 =>
      && Decimal.CanonicalNumeral(data) && Decimal.ParseInt(data).Some?
      && -TWO_31 <= Decimal.ParseInt(data).value < TWO_31
    case Int64 => Decimal.CanonicalNumeral(data)
    case _ => true
  }

  lemma ParseThenRender(data: bytes, ty: TokenType)
    requires ParseData(data, ty).Ok?
    ensures Render(ParseData(data, ty).value) == data <==> Canonical(data, ty)
  {
    hide Decimal.FormatInt, Decimal.ParseInt, Decimal.CanonicalNumeral;
    if ty.Int32? || ty.Int64? {
      var i := Decimal.ParseInt(data).value;
      Decimal.FormatParse(data);
      if ty.Int32? && !(-TWO_31 <= i < TWO_31) {
        Decimal.ParseFormat(Truncated(i));
      }
    }
  }

  /** The text 07 comes back as 7. */
  lemma LeadingZeroIsLost()
    ensures ParseData([48, 55], Int64) == Ok(Int64Value(7)) && Render(Int64Value(7)) == [55] != [48, 55]
    ensures !Canonical([48, 55], Int64)
  {
    var s: bytes := [48, 55];
    var ds: seq<Decimal.digit> := [0, 7];
    assert Decimal.FromText(s) == ds && ds[..1] == [0] && ds[..1][..0] == [];
    assert Decimal.FromDigits(ds[..1]) == 0;
    assert Decimal.Digits(7) == [7];
    assert Decimal.ToText([7]) == [55];
  }

  /** Detokenize of a stored datum. */
  function Detokenized(hash: Hash, store: Store, data: bytes, ctx: bytes, ty: TokenType): Result<bytes, TokenError> {
    match ParseData(data, ty)
    case Err(e) => Err(e)
    case Ok(token) =>
      match TokenProtocol.Deanonymize(hash, store, token, ctx, ty)
      case Err(e) => Err(e)
      case Ok(v) => Ok(Render(v))
  }

  /** The data is tokenized to `tokenized` by a recorded call. */
  ghost predicate TokenizedTo(s: System, data: bytes, ctx: bytes, ty: TokenType, consistent: bool, tokenized: bytes) {
    exists token :: ParseData(data, ty).Ok?
                    && Returned(Call(ParseData(data, ty).value, ctx, ty, consistent), token) in s.history
                    && tokenized == Render(token)
  }

  /** The data do not parse, or the run has recorded this failure of the call for them. */
  predicate TokenizingFails(s: System, data: bytes, ctx: bytes, ty: TokenType, consistent: bool, error: TokenError) {
    match ParseData(data, ty)
    case Err(e) => error == e
    case Ok(v) => Failed(Call(v, ctx, ty, consistent), error) in s.history
  }

  class DataTokenizer {
    const tokenizer: Pseudoanonymizer

    constructor (tokenizer: Pseudoanonymizer)
      ensures this.tokenizer == tokenizer
    {
      this.tokenizer := tokenizer;
    }

    method Tokenize(data: bytes, ctx: TokenContext, ty: TokenType, consistent: bool)
        returns (r: Result<bytes, TokenError>)
      requires tokenizer.Ready()
      modifies tokenizer.storage
      ensures tokenizer.Ready() && old(tokenizer.storage.sys).history <= tokenizer.storage.sys.history
      ensures ParseData(data, ty).Err? ==> r == Err(ParseData(data, ty).error)
      ensures r.Ok? ==> TokenizedTo(tokenizer.storage.sys, data, ContextKey(ctx), ty, consistent, r.value)
      ensures r.Err? ==> TokenizingFails(tokenizer.storage.sys, data, ContextKey(ctx), ty, consistent, r.error)
    {
      hide Traced, ParseData, Render;
      match ParseData(data, ty) {
        case Err(e) => return Err(e);
        case Ok(value) =>
          var token;
          if consistent {
            token := tokenizer.AnonymizeConsistently(value, ctx, ty);
          } else {
            token := tokenizer.Anonymize(value, ctx, ty);
          }
          match token {
            case Err(e) => return Err(e);
            case Ok(t) => return Ok(Render(t));
          }
      }
    }

    method Detokenize(data: bytes, ctx: TokenContext, ty: TokenType)
        returns (r: Result<bytes, TokenError>, ghost answered: bool)
      requires tokenizer.Ready()
      modifies tokenizer.storage
      ensures tokenizer.Ready() && old(tokenizer.storage.sys).history <= tokenizer.storage.sys.history
      ensures answered ==> r == Detokenized(tokenizer.storage.hash, tokenizer.storage.store, data, ContextKey(ctx), ty)
      ensures !answered ==> ParseData(data, ty).Ok? && r == Ok(Render(ParseData(data, ty).value))
    {
      hide Traced, ParseData, Render;
      match ParseData(data, ty) {
        case Err(e) => return Err(e), true;
        case Ok(token) =>
          var source, found := tokenizer.Deanonymize(token, ctx, ty);
          match source {
            case Err(e) => return Err(e), found;
            case Ok(v) => return Ok(Render(v)), found;
          }
      }
    }
  }

  /**
   Tokenize, then Detokenize in any later state of any run: the client gets back the value it stored, rendered; that is
   the stored text exactly when it is canonical. Otherwise two recorded calls collide.
   */
  lemma TokenizeThenDetokenize(hash: Hash, s: System, data: bytes, ctx: bytes, ty: TokenType, consistent: bool,
                               tokenized: bytes)
    requires Reachable(hash, s) && TokenizedTo(s, data, ctx, ty, consistent, tokenized)
    ensures var v := ParseData(data, ty).value;
            || CollisionMet(hash, s, Call(v, ctx, ty, consistent))
            || (Detokenized(hash, s.store, tokenized, ctx, ty) == Ok(Render(v))
                && (Render(v) == data <==> Canonical(data, ty)))
  {
    hide ParseData, Render, Canonical, TokenProtocol.Deanonymize, CollisionMet;
    var v := ParseData(data, ty).value;
    var call := Call(v, ctx, ty, consistent);
    var token :| Returned(call, token) in s.history && tokenized == Render(token);
    Reversible(hash, s, call, token);
    ReturnedTyped(hash, s, call, token);
    RenderThenParse(token);
    ParseThenRender(data, ty);
  }

  lemma ReturnedTyped(hash: Hash, s: System, call: Call, token: Value)
    requires Reachable(hash, s) && Returned(call, token) in s.history
    ensures TypeOf(token) == call.ty
  {
    hide KeysHold, OriginsHold, IssuedHold, LocalsHold, Reachable;
    ReachableInvariant(hash, s);
    assert OutcomeHolds(hash, s.store, Returned(call, token));
    if call.consistent { DecodedTyped(s.store[call.HKey(hash)].token, call.ty); }
  }

  lemma DecodedTyped(data: bytes, ty: TokenType)
    ensures BytesToValue(data, ty).Ok? && ty != Int32Str && ty != Int64Str
            ==> TypeOf(BytesToValue(data, ty).value) == ty
  {
  }
}
