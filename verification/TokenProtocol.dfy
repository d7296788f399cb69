/**
 Tokenization by any number of instances that share one token storage, as a state machine over the storage operations.
 The storage is put-if-absent: Save fails on an existing key, entries never change and Get returns what was saved.
 Between any two storage operations of an instance the others may take any number of steps.
 */
module TokenProtocol {
  import opened Outcomes
  import opened ByteStrings
  import opened TokenValues

  /** A stored entry: the token of a datum (under "h."), or the source of a token (under "t."). */
  datatype Stored = Token(token: bytes) | Source(value: bytes, tokenType: TokenType)

  type Store = map<(bytes, bytes), Stored>

  /** A call of Anonymize, or of AnonymizeConsistently; ctx is the ContextKey of the caller's context. */
  datatype Call = Call(data: Value, ctx: bytes, ty: TokenType, consistent: bool) {
    function HKey(hash: Hash): (bytes, bytes) { HashKey(hash, Encoding(data), ctx, ty) }
  }

  /** The error for data of another type than the requested one. */
  function Mismatch(call: Call): TokenError { if call.consistent then DataTypeMismatch else UnknownTokenType }

  const LIMIT := 10

  /**
   Where an instance stands inside its call: before a Get, before the Save of a candidate token, before the Save of the
   digest.
   */
  datatype Local = Idle
                 | Getting(call: Call, retried: bool)
                 | Generating(call: Call, retried: bool, tries: nat)
                 | Saving(call: Call, retried: bool, token: Value)

  datatype Outcome = Returned(call: Call, token: Value) | Failed(call: Call, error: TokenError)

  /** A token that generateNewValue saved, with its source. */
  datatype Issue = Issue(ctx: bytes, ty: TokenType, token: Value, source: Value)

  /** `origins` remembers, for every "h." entry, the call that saved it. */
  datatype System = System(store: Store, locals: map<nat, Local>, history: seq<Outcome>, issued: seq<Issue>,
                           origins: map<(bytes, bytes), Call>) {
    function At(i: nat): Local { if i in locals then locals[i] else Idle }

    function Finish(i: nat, outcome: Outcome): System {
      this.(locals := locals[i := Idle], history := history + [outcome])
    }

    function Go(i: nat, l: Local): System { this.(locals := locals[i := l]) }
  }

  datatype Event = Invoke(i: nat, call: Call)        // a call begins
                 | Get(i: nat)                       // Get of the digest key
                 | GetFails(i: nat)                  // the storage fails to answer that Get
                 | SaveToken(i: nat, candidate: Value)  // a random candidate is saved under its own key
                 | SaveHash(i: nat)                  // the digest is bound to the token
                 | Break(i: nat)                     // the random source or a Save fails

  predicate Enabled(s: System, ev: Event) {
    match ev
    case Invoke(i, _) => s.At(i).Idle?
    case Get(i) => s.At(i).Getting?
    case GetFails(i) => s.At(i).Getting?
    case SaveToken(i, candidate) => s.At(i).Generating? && TypeOf(candidate) == s.At(i).call.ty
    case SaveHash(i) => s.At(i).Saving?
    case Break(i) => s.At(i).Generating? || s.At(i).Saving?
  }

  function TKey(hash: Hash, call: Call, token: Value): (bytes, bytes) {
    TokenKey(hash, Encoding(token), call.ctx, call.ty)
  }

  /** The instance's Get: an existing token is decoded and returned. */
  function OnGet(hash: Hash, s: System, i: nat): System
    requires s.At(i).Getting?
  {
    var Getting(call, retried) := s.At(i);
    var key := call.HKey(hash);
    if key !in s.store then s.Go(i, Generating(call, retried, 0)) else s.Finish(i, Decoded(call, s.store[key]))
  }

  /** A Get that fails is taken for one that found nothing. */
  function OnGetFails(s: System, i: nat): System
    requires s.At(i).Getting?
  {
    s.Go(i, Generating(s.At(i).call, s.At(i).retried, 0))
  }

  function Decoded(call: Call, stored: Stored): Outcome {
    if stored.Source? then Failed(call, UnknownTokenType)
    else match BytesToValue(stored.token, call.ty)
      case Ok(token) => Returned(call, token)
      case Err(e) => Failed(call, e)
  }

  /** One round of generateNewValue: the candidate is taken unless it was issued before. */
  function OnSaveToken(hash: Hash, s: System, i: nat, candidate: Value): System
    requires s.At(i).Generating?
  {
    var Generating(call, retried, tries) := s.At(i);
    var key := TKey(hash, call, candidate);
    if key in s.store then
      if tries + 1 >= LIMIT then s.Finish(i, Failed(call, GenerationLimitExceeded))
      else s.Go(i, Generating(call, retried, tries + 1))
    else
      var s' := s.(store := s.store[key := Source(Encoding(call.data), call.ty)],
                   issued := s.issued + [Issue(call.ctx, call.ty, candidate, call.data)]);
      if call.consistent then s'.Go(i, Saving(call, retried, candidate)) else s'.Finish(i, Returned(call, candidate))
  }

  /** The Save of the digest: when another instance was faster, go back to Get, but only once. */
  function OnSaveHash(hash: Hash, s: System, i: nat): System
    requires s.At(i).Saving?
  {
    var Saving(call, retried, token) := s.At(i);
    var key := call.HKey(hash);
    if key in s.store then
      if retried then s.Finish(i, Failed(call, TokenExists)) else s.Go(i, Getting(call, true))
    else
      s.(store := s.store[key := Token(Encoding(token))], origins := s.origins[key := call])
      .Finish(i, Returned(call, token))
  }

  function Step(hash: Hash, s: System, ev: Event): System
    requires Enabled(s, ev)
  {
    match ev
    case Invoke(i, call) =>
      if TypeOf(call.data) != call.ty then s.Finish(i, Failed(call, Mismatch(call)))
      else s.Go(i, if call.consistent then Getting(call, false) else Generating(call, false, 0))
    case Get(i) => OnGet(hash, s, i)
    case GetFails(i) => OnGetFails(s, i)
    case SaveToken(i, candidate) => OnSaveToken(hash, s, i, candidate)
    case SaveHash(i) => OnSaveHash(hash, s, i)
    case Break(i) => s.Finish(i, Failed(s.At(i).call, Unavailable))
  }

  function Start(): System { System(map[], map[], [], [], map[]) }

  ghost predicate IsRun(hash: Hash, events: seq<Event>)
    decreases |events|, 0
  {
    events == [] ||
    (var n := |events| - 1; IsRun(hash, events[..n]) && Enabled(Run(hash, events[..n]), events[n]))
  }

  /** The state after a sequence of events. */
  ghost function Run(hash: Hash, events: seq<Event>): System
    requires IsRun(hash, events)
    decreases |events|, 1
  {
    if events == [] then Start() else var n := |events| - 1; Step(hash, Run(hash, events[..n]), events[n])
  }

  /** Every state that some interleaving of the instances reaches. */
  ghost predicate Reachable(hash: Hash, s: System) {
    exists events :: IsRun(hash, events) && Run(hash, events) == s
  }

  lemma StartIsReachable(hash: Hash)
    ensures Reachable(hash, Start())
  {
    assert IsRun(hash, []) && Run(hash, []) == Start();
  }

  lemma StepStaysReachable(hash: Hash, s: System, ev: Event)
    requires Reachable(hash, s) && Enabled(s, ev)
    ensures Reachable(hash, Step(hash, s, ev))
  {
    var events :| IsRun(hash, events) && Run(hash, events) == s;
    var longer := events + [ev];
    assert longer[..|events|] == events;
    assert IsRun(hash, longer) && Run(hash, longer) == Step(hash, s, ev);
  }

  /** Deanonymize: an unknown token is returned as it is. */
  function Deanonymize(hash: Hash, store: Store, token: Value, ctx: bytes, ty: TokenType): Result<Value, TokenError> {
    match EncodeToBytes(token, ty)
    case Err(e) => Err(e)
    case Ok(encoded) =>
      var key := TokenKey(hash, encoded, ctx, ty);
      if key !in store then Ok(token)
      else if store[key].Token? then Err(UnknownTokenType)
      else if store[key].tokenType != ty then Err(DataTypeMismatch)
      else BytesToValue(store[key].value, ty)
  }

  // ---- the invariant ---------------------------------------------------------------------------------------

  /** The storage binds the token to this source. */
  predicate SourceOf(hash: Hash, store: Store, ctx: bytes, ty: TokenType, token: Value, source: Value) {
    && TypeOf(token) == ty && TypeOf(source) == ty
    && var key := TokenKey(hash, Encoding(token), ctx, ty);
       key in store && store[key] == Source(Encoding(source), ty)
  }

  /** The storage binds the call's digest to this token. */
  predicate TokenOf(hash: Hash, store: Store, call: Call, token: Value) {
    && call.HKey(hash) in store && store[call.HKey(hash)].Token?
    && BytesToValue(store[call.HKey(hash)].token, call.ty) == Ok(token)
  }

  /** An "h." entry's token has a "t." entry holding the data and type of the call that saved it. */
  ghost predicate OriginHolds(hash: Hash, store: Store, origin: Call, token: bytes) {
    exists t :: Encoding(t) == token && SourceOf(hash, store, origin.ctx, origin.ty, t, origin.data)
  }

  ghost predicate OriginsHold(hash: Hash, store: Store, origins: map<(bytes, bytes), Call>) {
    forall key :: key in store && store[key].Token? ==>
      key in origins && origins[key].HKey(hash) == key && OriginHolds(hash, store, origins[key], store[key].token)
  }

  ghost predicate KeysHold(store: Store) {
    forall key :: key in store ==> |key.0| >= 2 && (store[key].Token? <==> key.0[..2] == HASH_PREFIX)
  }

  /** No token is issued twice in one context and type, and each issued token keeps its source. */
  ghost predicate IssuedHold(hash: Hash, store: Store, issued: seq<Issue>) {
    && (forall k :: 0 <= k < |issued| ==>
          SourceOf(hash, store, issued[k].ctx, issued[k].ty, issued[k].token, issued[k].source))
    && (forall j, k :: 0 <= j < k < |issued| && issued[j].ctx == issued[k].ctx && issued[j].ty == issued[k].ty ==>
          issued[j].token != issued[k].token)
  }

  /** Every "t." entry was saved for an issued token. */
  ghost predicate SourcesHold(hash: Hash, store: Store, issued: seq<Issue>) {
    forall key :: key in store && store[key].Source? ==> IssuedUnder(hash, issued, key)
  }

  ghost predicate IssuedUnder(hash: Hash, issued: seq<Issue>, key: (bytes, bytes)) {
    exists k :: 0 <= k < |issued| && key == TokenKey(hash, Encoding(issued[k].token), issued[k].ctx, issued[k].ty)
  }

  predicate LocalHolds(hash: Hash, store: Store, l: Local) {
    match l
    case Idle => true
    case Getting(call, retried) =>
      call.consistent && TypeOf(call.data) == call.ty && (retried ==> call.HKey(hash) in store)
    case Generating(call, retried, tries) =>
      TypeOf(call.data) == call.ty && tries < LIMIT && (retried ==> call.consistent && call.HKey(hash) in store)
    case Saving(call, retried, token) =>
      && call.consistent && SourceOf(hash, store, call.ctx, call.ty, token, call.data)
      && (retried ==> call.HKey(hash) in store)
  }

  predicate OutcomeHolds(hash: Hash, store: Store, o: Outcome) {
    match o
    case Returned(call, token) =>
      && TypeOf(call.data) == call.ty
      && if call.consistent then TokenOf(hash, store, call, token)
         else SourceOf(hash, store, call.ctx, call.ty, token, call.data)
    case Failed(_, _) => true
  }

  ghost predicate Invariant(hash: Hash, s: System) {
    && KeysHold(s.store) && OriginsHold(hash, s.store, s.origins) && IssuedHold(hash, s.store, s.issued)
    && LocalsHold(hash, s.store, s.locals) && HistoryHolds(hash, s.store, s.history)
    && SourcesHold(hash, s.store, s.issued)
  }

  ghost predicate LocalsHold(hash: Hash, store: Store, locals: map<nat, Local>) {
    forall i :: i in locals ==> LocalHolds(hash, store, locals[i])
  }

  ghost predicate HistoryHolds(hash: Hash, store: Store, history: seq<Outcome>) {
    forall o :: o in history ==> OutcomeHolds(hash, store, o)
  }

  // ---- preservation ----------------------------------------------------------------------------------------

  /** A new entry leaves every fact about the storage in place. */
  lemma SaveKeeps(hash: Hash, store: Store, key: (bytes, bytes), v: Stored, locals: map<nat, Local>,
                  history: seq<Outcome>)
    requires key !in store && LocalsHold(hash, store, locals) && HistoryHolds(hash, store, history)
    ensures LocalsHold(hash, store[key := v], locals) && HistoryHolds(hash, store[key := v], history)
  {
    hide SourceOf, TokenOf;
    forall ctx, ty, token, source | SourceOf(hash, store, ctx, ty, token, source)
      ensures SourceOf(hash, store[key := v], ctx, ty, token, source)
    {
      SourceOfKept(hash, store, key, v, ctx, ty, token, source);
    }
    forall call, token | TokenOf(hash, store, call, token) ensures TokenOf(hash, store[key := v], call, token) {
      TokenOfKept(hash, store, key, v, call, token);
    }
    forall o | o in history ensures OutcomeHolds(hash, store[key := v], o) {
      assert OutcomeHolds(hash, store, o);
    }
  }

  lemma SourceOfKept(hash: Hash, store: Store, key: (bytes, bytes), v: Stored, ctx: bytes, ty: TokenType, token: Value,
                     source: Value)
    requires key !in store && SourceOf(hash, store, ctx, ty, token, source)
    ensures SourceOf(hash, store[key := v], ctx, ty, token, source)
  {
  }

  lemma TokenOfKept(hash: Hash, store: Store, key: (bytes, bytes), v: Stored, call: Call, token: Value)
    requires key !in store && TokenOf(hash, store, call, token)
    ensures TokenOf(hash, store[key := v], call, token)
  {
  }

  lemma SaveTokenKeepsStore(hash: Hash, s: System, call: Call, candidate: Value)
    requires Invariant(hash, s) && TypeOf(call.data) == call.ty == TypeOf(candidate)
             && TKey(hash, call, candidate) !in s.store
    ensures var store' := s.store[TKey(hash, call, candidate) := Source(Encoding(call.data), call.ty)];
            && KeysHold(store') && OriginsHold(hash, store', s.origins)
            && IssuedHold(hash, store', s.issued + [Issue(call.ctx, call.ty, candidate, call.data)])
            && SourceOf(hash, store', call.ctx, call.ty, candidate, call.data)
  {
    hide SourcesHold, LocalsHold, HistoryHolds;
    var key, v := TKey(hash, call, candidate), Source(Encoding(call.data), call.ty);
    var store' := s.store[key := v];
    assert key.0[..2] == TOKEN_PREFIX;
    forall k | k in store' && store'[k].Token?
      ensures k in s.origins && s.origins[k].HKey(hash) == k && OriginHolds(hash, store', s.origins[k], store'[k].token)
    {
      OriginKept(hash, s.store, key, v, s.origins[k], s.store[k].token);
    }
    IssuedOneMore(hash, s.store, key, v, s.issued, call, candidate);
  }

  lemma OriginKept(hash: Hash, store: Store, key: (bytes, bytes), v: Stored, origin: Call, token: bytes)
    requires key !in store && OriginHolds(hash, store, origin, token)
    ensures OriginHolds(hash, store[key := v], origin, token)
  {
    var t :| Encoding(t) == token && SourceOf(hash, store, origin.ctx, origin.ty, t, origin.data);
    SourceOfKept(hash, store, key, v, origin.ctx, origin.ty, t, origin.data);
  }

  lemma IssuedOneMore(hash: Hash, store: Store, key: (bytes, bytes), v: Stored, issued: seq<Issue>, call: Call,
                      candidate: Value)
    requires key == TKey(hash, call, candidate) && key !in store && v == Source(Encoding(call.data), call.ty)
    requires TypeOf(call.data) == call.ty == TypeOf(candidate) && IssuedHold(hash, store, issued)
    ensures IssuedHold(hash, store[key := v], issued + [Issue(call.ctx, call.ty, candidate, call.data)])
  {
    var issued' := issued + [Issue(call.ctx, call.ty, candidate, call.data)];
    forall k | 0 <= k < |issued|
      ensures SourceOf(hash, store[key := v], issued'[k].ctx, issued'[k].ty, issued'[k].token, issued'[k].source)
      ensures issued'[k].ctx == call.ctx && issued'[k].ty == call.ty ==> issued'[k].token != candidate
    {
      SourceOfKept(hash, store, key, v, issued[k].ctx, issued[k].ty, issued[k].token, issued[k].source);
    }
  }

  lemma SourcesOneMore(hash: Hash, store: Store, issued: seq<Issue>, key: (bytes, bytes), v: Stored, issue: Issue)
    requires SourcesHold(hash, store, issued) && key == TokenKey(hash, Encoding(issue.token), issue.ctx, issue.ty)
    ensures SourcesHold(hash, store[key := v], issued + [issue])
  {
    var issued' := issued + [issue];
    assert issued'[|issued|] == issue;
    forall k | IssuedUnder(hash, issued, k) ensures IssuedUnder(hash, issued', k) {
      var j :| 0 <= j < |issued| && k == TokenKey(hash, Encoding(issued[j].token), issued[j].ctx, issued[j].ty);
      assert issued'[j] == issued[j];
    }
  }

  lemma SourcesKept(hash: Hash, store: Store, issued: seq<Issue>, key: (bytes, bytes), v: Stored)
    requires SourcesHold(hash, store, issued) && v.Token?
    ensures SourcesHold(hash, store[key := v], issued)
  {
  }

  lemma SaveHashKeepsStore(hash: Hash, s: System, call: Call, token: Value)
    requires Invariant(hash, s) && SourceOf(hash, s.store, call.ctx, call.ty, token, call.data)
    requires call.HKey(hash) !in s.store
    ensures var store' := s.store[call.HKey(hash) := Token(Encoding(token))];
            && KeysHold(store') && OriginsHold(hash, store', s.origins[call.HKey(hash) := call])
            && IssuedHold(hash, store', s.issued) && TokenOf(hash, store', call, token)
  {
    hide SourcesHold, LocalsHold, HistoryHolds, OriginsHold, IssuedHold, SourceOf;
    var key, v := call.HKey(hash), Token(Encoding(token));
    SourceTyped(hash, s.store, call.ctx, call.ty, token, call.data);
    EncodingRoundTrip(token);
    assert key.0[..2] == HASH_PREFIX;
    OriginsOneMore(hash, s.store, s.origins, call, token);
    IssuedKept(hash, s.store, key, v, s.issued);
  }

  lemma OriginsOneMore(hash: Hash, store: Store, origins: map<(bytes, bytes), Call>, call: Call, token: Value)
    requires OriginsHold(hash, store, origins) && call.HKey(hash) !in store
    requires SourceOf(hash, store, call.ctx, call.ty, token, call.data)
    ensures OriginsHold(hash, store[call.HKey(hash) := Token(Encoding(token))], origins[call.HKey(hash) := call])
  {
    hide SourceOf;
    var key, v := call.HKey(hash), Token(Encoding(token));
    var store', origins' := store[key := v], origins[key := call];
    SourceOfKept(hash, store, key, v, call.ctx, call.ty, token, call.data);
    assert OriginHolds(hash, store', call, v.token);
    forall k | k in store' && store'[k].Token? && k != key
      ensures k in origins' && origins'[k].HKey(hash) == k && OriginHolds(hash, store', origins'[k], store'[k].token)
    {
      OriginKept(hash, store, key, v, origins[k], store[k].token);
    }
  }

  lemma IssuedKept(hash: Hash, store: Store, key: (bytes, bytes), v: Stored, issued: seq<Issue>)
    requires IssuedHold(hash, store, issued) && key !in store
    ensures IssuedHold(hash, store[key := v], issued)
  {
    hide SourceOf;
    forall k | 0 <= k < |issued|
      ensures SourceOf(hash, store[key := v], issued[k].ctx, issued[k].ty, issued[k].token, issued[k].source)
    {
      SourceOfKept(hash, store, key, v, issued[k].ctx, issued[k].ty, issued[k].token, issued[k].source);
    }
  }

  lemma MoveKeeps(hash: Hash, s: System, i: nat, l: Local)
    requires Invariant(hash, s) && LocalHolds(hash, s.store, l)
    ensures Invariant(hash, s.Go(i, l))
  {
  }

  lemma FinishKeeps(hash: Hash, s: System, i: nat, o: Outcome)
    requires Invariant(hash, s) && OutcomeHolds(hash, s.store, o)
    ensures Invariant(hash, s.Finish(i, o))
  {
    hide KeysHold, OriginsHold, IssuedHold, SourcesHold, OutcomeHolds;
    forall p | p in s.history + [o] ensures OutcomeHolds(hash, s.store, p) {
      assert p in s.history || p == o;
    }
  }

  lemma GetKeeps(hash: Hash, s: System, i: nat)
    requires Invariant(hash, s) && s.At(i).Getting?
    ensures Invariant(hash, OnGet(hash, s, i))
  {
    hide Invariant, SourceOf;
    var Getting(call, retried) := s.At(i);
    LocalOf(hash, s, i);
    if call.HKey(hash) in s.store {
      ExistingIsToken(hash, s, call);
      FinishKeeps(hash, s, i, Decoded(call, s.store[call.HKey(hash)]));
    } else {
      MoveKeeps(hash, s, i, Generating(call, retried, 0));
    }
  }

  lemma LocalOf(hash: Hash, s: System, i: nat)
    requires Invariant(hash, s)
    ensures LocalHolds(hash, s.store, s.At(i))
  {
  }

  lemma ExistingIsToken(hash: Hash, s: System, call: Call)
    requires Invariant(hash, s) && call.HKey(hash) in s.store
    ensures s.store[call.HKey(hash)].Token?
  {
    assert call.HKey(hash).0[..2] == HASH_PREFIX;
  }

  lemma SaveTokenKeeps(hash: Hash, s: System, i: nat, candidate: Value)
    requires Invariant(hash, s) && s.At(i).Generating? && TypeOf(candidate) == s.At(i).call.ty
    ensures Invariant(hash, OnSaveToken(hash, s, i, candidate))
  {
    hide SourceOf, KeysHold, OriginsHold, IssuedHold, LocalsHold, HistoryHolds, SourcesHold;
    var Generating(call, retried, tries) := s.At(i);
    LocalOf(hash, s, i);
    var key := TKey(hash, call, candidate);
    if key in s.store {
      if tries + 1 >= LIMIT {
        FinishKeeps(hash, s, i, Failed(call, GenerationLimitExceeded));
      } else {
        MoveKeeps(hash, s, i, Generating(call, retried, tries + 1));
      }
    } else {
      var v := Source(Encoding(call.data), call.ty);
      var s' := s.(store := s.store[key := v], issued := s.issued + [Issue(call.ctx, call.ty, candidate, call.data)]);
      SaveTokenKeepsStore(hash, s, call, candidate);
      SourcesOneMore(hash, s.store, s.issued, key, v, Issue(call.ctx, call.ty, candidate, call.data));
      SaveKeeps(hash, s.store, key, v, s.locals, s.history);
      if call.consistent {
        MoveKeeps(hash, s', i, Saving(call, retried, candidate));
      } else {
        FinishKeeps(hash, s', i, Returned(call, candidate));
      }
    }
  }

  lemma SaveHashKeeps(hash: Hash, s: System, i: nat)
    requires Invariant(hash, s) && s.At(i).Saving?
    ensures Invariant(hash, OnSaveHash(hash, s, i))
  {
    hide SourceOf, TokenOf, KeysHold, OriginsHold, IssuedHold, LocalsHold, HistoryHolds, SourcesHold;
    var Saving(call, retried, token) := s.At(i);
    LocalOf(hash, s, i);
    var key := call.HKey(hash);
    SourceTyped(hash, s.store, call.ctx, call.ty, token, call.data);
    if key in s.store {
      if retried {
        FinishKeeps(hash, s, i, Failed(call, TokenExists));
      } else {
        MoveKeeps(hash, s, i, Getting(call, true));
      }
    } else {
      var v := Token(Encoding(token));
      var s' := s.(store := s.store[key := v], origins := s.origins[key := call]);
      SaveHashKeepsStore(hash, s, call, token);
      SourcesKept(hash, s.store, s.issued, key, v);
      SaveKeeps(hash, s.store, key, v, s.locals, s.history);
      FinishKeeps(hash, s', i, Returned(call, token));
    }
  }

  lemma SourceTyped(hash: Hash, store: Store, ctx: bytes, ty: TokenType, token: Value, source: Value)
    requires SourceOf(hash, store, ctx, ty, token, source)
    ensures TypeOf(token) == ty && TypeOf(source) == ty
  {
  }

  lemma StepKeepsInvariant(hash: Hash, s: System, ev: Event)
    requires Invariant(hash, s) && Enabled(s, ev)
    ensures Invariant(hash, Step(hash, s, ev))
  {
    hide Invariant;
    match ev
    case Invoke(i, call) =>
      if TypeOf(call.data) != call.ty {
        FinishKeeps(hash, s, i, Failed(call, Mismatch(call)));
      } else {
        MoveKeeps(hash, s, i, if call.consistent then Getting(call, false) else Generating(call, false, 0));
      }
    case Get(i) => GetKeeps(hash, s, i);
    case GetFails(i) =>
      LocalOf(hash, s, i);
      MoveKeeps(hash, s, i, Generating(s.At(i).call, s.At(i).retried, 0));
    case SaveToken(i, candidate) => SaveTokenKeeps(hash, s, i, candidate);
    case SaveHash(i) => SaveHashKeeps(hash, s, i);
    case Break(i) => FinishKeeps(hash, s, i, Failed(s.At(i).call, Unavailable));
  }

  lemma {:induction false} RunKeepsInvariant(hash: Hash, events: seq<Event>)
    requires IsRun(hash, events)
    ensures Invariant(hash, Run(hash, events))
    decreases |events|
  {
    if events == [] {
      StartSatisfiesInvariant(hash);
    } else {
      hide Invariant;
      var n := |events| - 1;
      RunKeepsInvariant(hash, events[..n]);
      StepKeepsInvariant(hash, Run(hash, events[..n]), events[n]);
    }
  }

  lemma StartSatisfiesInvariant(hash: Hash)
    ensures Invariant(hash, Start())
  {
  }

  lemma ReachableInvariant(hash: Hash, s: System)
    requires Reachable(hash, s)
    ensures Invariant(hash, s)
  {
    var events :| IsRun(hash, events) && Run(hash, events) == s;
    RunKeepsInvariant(hash, events);
  }

  // ---- what every run guarantees ---------------------------------------------------------------------------

  /**
   A token that was never issued in a context comes back from there as it is, or its digest collides with that of a
   token issued there.
   */
  lemma UnknownTokenUnchanged(hash: Hash, s: System, token: Value, ctx: bytes, ty: TokenType)
    requires Reachable(hash, s) && TypeOf(token) == ty
    requires forall k :: 0 <= k < |s.issued| && s.issued[k].ctx == ctx && s.issued[k].ty == ty ==>
                           s.issued[k].token != token
    ensures Deanonymize(hash, s.store, token, ctx, ty) == Ok(token) || IssuedCollides(hash, s.issued, token, ctx, ty)
  {
    hide Reachable;
    var key := TokenKey(hash, Encoding(token), ctx, ty);
    if key in s.store {
      var k := IssuedBehind(hash, s, Encoding(token), ctx, ty);
      var other := s.issued[k];
      SameTokenKey(hash, Encoding(token), ty, Encoding(other.token), other.ty, ctx);
      if ty == other.ty && Encoding(token) == Encoding(other.token) { EncodingInjective(token, other.token); }
    }
  }

  lemma IssuedBehind(hash: Hash, s: System, token: bytes, ctx: bytes, ty: TokenType) returns (k: nat)
    requires Reachable(hash, s) && TokenKey(hash, token, ctx, ty) in s.store
    ensures k < |s.issued| && TypeOf(s.issued[k].token) == s.issued[k].ty && s.issued[k].ctx == ctx
    ensures TokenKey(hash, token, ctx, ty) == TokenKey(hash, Encoding(s.issued[k].token), ctx, s.issued[k].ty)
  {
    hide Reachable, OriginsHold, LocalsHold, HistoryHolds;
    ReachableInvariant(hash, s);
    var key := TokenKey(hash, token, ctx, ty);
    assert key.0[..2] == TOKEN_PREFIX;
    assert IssuedUnder(hash, s.issued, key);
    k :| k < |s.issued| && key == TokenKey(hash, Encoding(s.issued[k].token), s.issued[k].ctx, s.issued[k].ty);
    assert SourceOf(hash, s.store, s.issued[k].ctx, s.issued[k].ty, s.issued[k].token, s.issued[k].source);
  }

  /** A token issued in the context has another preimage and the same digest. */
  ghost predicate IssuedCollides(hash: Hash, issued: seq<Issue>, token: Value, ctx: bytes, ty: TokenType) {
    exists k :: 0 <= k < |issued| && issued[k].ctx == ctx
                && Collide(hash, Preimage(Encoding(token), ctx, ty),
                           Preimage(Encoding(issued[k].token), ctx, issued[k].ty))
  }

  lemma SameTokenKey(hash: Hash, token: bytes, ty: TokenType, token': bytes, ty': TokenType, ctx: bytes)
    requires TokenKey(hash, token, ctx, ty) == TokenKey(hash, token', ctx, ty')
    ensures (token == token' && ty == ty') || Collide(hash, Preimage(token, ctx, ty), Preimage(token', ctx, ty'))
  {
    SplitLeft(TOKEN_PREFIX, hash(Preimage(token, ctx, ty)), TOKEN_PREFIX, hash(Preimage(token', ctx, ty')));
    if Preimage(token, ctx, ty) == Preimage(token', ctx, ty') { PreimageDetermines(token, ty, token', ty', ctx); }
  }

  /** Clients do not read each other's tokens: one issued to a single client comes back unchanged from any other. */
  lemma ForeignTokenUnchanged(hash: Hash, s: System, token: Value, ty: TokenType, owner: bytes, other: bytes)
    requires Reachable(hash, s) && TypeOf(token) == ty && owner != other
    requires forall k :: 0 <= k < |s.issued| && s.issued[k].token == token && s.issued[k].ty == ty ==>
                           s.issued[k].ctx == ContextKey(TokenContext(owner, []))
    ensures var ctx := ContextKey(TokenContext(other, []));
            Deanonymize(hash, s.store, token, ctx, ty) == Ok(token) || IssuedCollides(hash, s.issued, token, ctx, ty)
  {
    ContextsApart(TokenContext(owner, []), TokenContext(other, []));
    UnknownTokenUnchanged(hash, s, token, ContextKey(TokenContext(other, [])), ty);
  }

  /** Agreement: all successful consistent calls for the same data, context and type return the same token. */
  lemma Agreement(hash: Hash, s: System, c1: Call, t1: Value, c2: Call, t2: Value)
    requires Reachable(hash, s) && Returned(c1, t1) in s.history && Returned(c2, t2) in s.history
    requires c1.consistent && c2.consistent && c1.data == c2.data && c1.ctx == c2.ctx && c1.ty == c2.ty
    ensures t1 == t2
  {
    ReachableInvariant(hash, s);
    assert OutcomeHolds(hash, s.store, Returned(c1, t1)) && OutcomeHolds(hash, s.store, Returned(c2, t2));
  }

  /** A lost race is lost once: a retried Get that the storage answers finds the winner's token and ends the call. */
  lemma RetriedGetFinds(hash: Hash, s: System, i: nat)
    requires Reachable(hash, s) && s.At(i).Getting? && s.At(i).retried
    ensures s.At(i).call.HKey(hash) in s.store && s.store[s.At(i).call.HKey(hash)].Token?
    ensures OnGet(hash, s, i) == s.Finish(i, Decoded(s.At(i).call, s.store[s.At(i).call.HKey(hash)]))
  {
    ReachableInvariant(hash, s);
    LocalOf(hash, s, i);
    ExistingIsToken(hash, s, s.At(i).call);
  }

  // ---- when a call ends with "already exists" --------------------------------------------------------------

  /** The instance that takes the step. */
  function Actor(ev: Event): nat {
    match ev
    case Invoke(i, _) => i case Get(i) => i case GetFails(i) => i
    case SaveToken(i, _) => i case SaveHash(i) => i case Break(i) => i
  }

  lemma OthersKeep(hash: Hash, s: System, ev: Event, i: nat)
    requires Enabled(s, ev) && Actor(ev) != i
    ensures Step(hash, s, ev).At(i) == s.At(i)
  {
  }

  /** Event k is the failure of the Get that the instance retried for this call. */
  ghost predicate LostRetryAt(hash: Hash, events: seq<Event>, k: nat, i: nat, call: Call)
    requires IsRun(hash, events)
  {
    && k < |events| && events[k] == GetFails(i)
    && IsRun(hash, events[..k]) && Run(hash, events[..k]).At(i) == Getting(call, true)
  }

  /** ... and since then the instance has only tried to save. */
  ghost predicate RetryLost(hash: Hash, events: seq<Event>, i: nat, call: Call)
    requires IsRun(hash, events)
  {
    exists k: nat :: LostRetryAt(hash, events, k, i, call) && OnlySaves(events, k, i)
  }

  predicate OnlySaves(events: seq<Event>, k: nat, i: nat) {
    forall m :: k < m < |events| && Actor(events[m]) == i ==> events[m].SaveToken?
  }

  lemma RetryLostLater(hash: Hash, events: seq<Event>, i: nat, call: Call)
    requires IsRun(hash, events) && events != [] && IsRun(hash, events[..|events| - 1])
    requires var n := |events| - 1;
             RetryLost(hash, events[..n], i, call) && (Actor(events[n]) == i ==> events[n].SaveToken?)
    ensures RetryLost(hash, events, i, call)
  {
    hide IsRun, Run;
    var n := |events| - 1;
    var front := events[..n];
    var k: nat :| LostRetryAt(hash, front, k, i, call) && OnlySaves(front, k, i);
    assert front[..k] == events[..k];
    assert LostRetryAt(hash, events, k, i, call);
    assert forall m :: 0 <= m < n ==> front[m] == events[m];
  }

  predicate InSecondRound(l: Local) { (l.Generating? || l.Saving?) && l.retried }

  lemma SecondRoundStep(hash: Hash, s: System, ev: Event)
    requires Invariant(hash, s) && Enabled(s, ev) && InSecondRound(Step(hash, s, ev).At(Actor(ev)))
    ensures var i, call := Actor(ev), Step(hash, s, ev).At(Actor(ev)).call;
            || (ev == GetFails(i) && s.At(i) == Getting(call, true))
            || (ev.SaveToken? && InSecondRound(s.At(i)) && s.At(i).call == call)
  {
    hide KeysHold, OriginsHold, IssuedHold, HistoryHolds, SourceOf;
    LocalOf(hash, s, Actor(ev));
  }

  /** An instance that draws or saves in its second round does so because its retried Get failed. */
  lemma {:induction false} SecondRound(hash: Hash, events: seq<Event>, i: nat)
    requires IsRun(hash, events) && InSecondRound(Run(hash, events).At(i))
    ensures RetryLost(hash, events, i, Run(hash, events).At(i).call)
    decreases |events|
  {
    hide Invariant, Step, RetryLost, Enabled;
    assert events != [] by { NothingStarted(i); }
    var n := |events| - 1;
    var s, ev, call := Run(hash, events[..n]), events[n], Run(hash, events).At(i).call;
    if Actor(ev) != i {
      OthersKeep(hash, s, ev, i);
      SecondRound(hash, events[..n], i);
      RetryLostLater(hash, events, i, call);
    } else {
      RunKeepsInvariant(hash, events[..n]);
      SecondRoundStep(hash, s, ev);
      if ev.SaveToken? {
        SecondRound(hash, events[..n], i);
        RetryLostLater(hash, events, i, call);
      } else {
        JustLost(hash, events, i, call);
      }
    }
  }

  lemma NothingStarted(i: nat)
    ensures Start().At(i).Idle?
  {
  }

  lemma JustLost(hash: Hash, events: seq<Event>, i: nat, call: Call)
    requires IsRun(hash, events) && events != [] && events[|events| - 1] == GetFails(i)
             && IsRun(hash, events[..|events| - 1])
    requires Run(hash, events[..|events| - 1]).At(i) == Getting(call, true)
    ensures RetryLost(hash, events, i, call)
  {
    hide IsRun, Run;
    assert LostRetryAt(hash, events, |events| - 1, i, call);
  }

  /** Only the Save of the digest adds an "already exists" error, and only after a second round. */
  lemma ExistsStep(hash: Hash, s: System, ev: Event, call: Call)
    requires Enabled(s, ev) && Failed(call, TokenExists) in Step(hash, s, ev).history
             && Failed(call, TokenExists) !in s.history
    ensures ev.SaveHash? && s.At(ev.i).Saving? && s.At(ev.i).retried && s.At(ev.i).call == call
  {
  }

  /**
   A call ends with an "already exists" error only if the storage failed to answer the Get that it retried. A call whose
   Gets are answered never does.
   */
  lemma {:induction false} ExistsOnlyAfterLostRetry(hash: Hash, events: seq<Event>, call: Call) returns (i: nat, n: nat)
    requires IsRun(hash, events) && Failed(call, TokenExists) in Run(hash, events).history
    ensures n < |events| && events[n] == SaveHash(i) && IsRun(hash, events[..n])
            && RetryLost(hash, events[..n], i, call)
    decreases |events|
  {
    n := |events| - 1;
    var s := Run(hash, events[..n]);
    if Failed(call, TokenExists) in s.history {
      var m;
      i, m := ExistsOnlyAfterLostRetry(hash, events[..n], call);
      assert events[..n][..m] == events[..m];
      n := m;
    } else {
      ExistsStep(hash, s, events[n], call);
      i := events[n].i;
      SecondRound(hash, events[..n], i);
    }
  }

  /** The Save of the digest ends with "already exists" exactly in a second round. */
  lemma SecondSaveFails(hash: Hash, s: System, i: nat)
    requires Reachable(hash, s) && s.At(i).Saving?
    ensures OnSaveHash(hash, s, i) == s.Finish(i, Failed(s.At(i).call, TokenExists)) <==> s.At(i).retried
  {
    ReachableInvariant(hash, s);
    LocalOf(hash, s, i);
    var s' := OnSaveHash(hash, s, i);
    if !s.At(i).retried && s.At(i).call.HKey(hash) !in s.store {
      assert s'.history[|s.history|] == Returned(s.At(i).call, s.At(i).token);
    }
  }

  /**
   A first round whose Get fails although the digest is bound: a token is saved in vain and the instance goes back to
   Get.
   */
  lemma LostRound(hash: Hash, s: System, i: nat, call: Call, token: Value) returns (s': System)
    requires Reachable(hash, s) && s.At(i) == Getting(call, false) && call.consistent && TypeOf(token) == call.ty
    requires call.HKey(hash) in s.store && TKey(hash, call, token) !in s.store
    ensures Reachable(hash, s') && s'.At(i) == Getting(call, true)
    ensures s'.store == s.store[TKey(hash, call, token) := Source(Encoding(call.data), call.ty)]
  {
    hide Reachable;
    StepStaysReachable(hash, s, GetFails(i));
    var s1 := OnGetFails(s, i);
    StepStaysReachable(hash, s1, SaveToken(i, token));
    var s2 := OnSaveToken(hash, s1, i, token);
    StepStaysReachable(hash, s2, SaveHash(i));
    s' := OnSaveHash(hash, s2, i);
  }

  /** When the digest is bound and both Gets of a call fail, the call ends with an "already exists" error. */
  lemma TwoLostGets(hash: Hash, s: System, i: nat, call: Call, t1: Value, t2: Value) returns (s': System)
    requires Reachable(hash, s) && s.At(i).Idle? && call.consistent
             && TypeOf(call.data) == call.ty == TypeOf(t1) == TypeOf(t2)
    requires call.HKey(hash) in s.store && TKey(hash, call, t1) !in s.store && TKey(hash, call, t2) !in s.store
    requires TKey(hash, call, t1) != TKey(hash, call, t2)
    ensures Reachable(hash, s') && Failed(call, TokenExists) in s'.history
  {
    hide Reachable;
    StepStaysReachable(hash, s, Invoke(i, call));
    var s1 := LostRound(hash, s.Go(i, Getting(call, false)), i, call, t1);
    StepStaysReachable(hash, s1, GetFails(i));
    var s2 := OnGetFails(s1, i);
    StepStaysReachable(hash, s2, SaveToken(i, t2));
    var s3 := OnSaveToken(hash, s2, i, t2);
    StepStaysReachable(hash, s3, SaveHash(i));
    s' := OnSaveHash(hash, s3, i);
    assert s'.history[|s3.history|] == Failed(call, TokenExists);
  }

  /** A run that ends so, for every hash that tells the three tokens 1, 2 and 3 apart. */
  lemma ExistsErrorOccurs(hash: Hash, ctx: bytes) returns (s: System)
    requires var c := Call(Int32Value(0), ctx, Int32, true);
             var k1, k2, k3 := TKey(hash, c, Int32Value(1)), TKey(hash, c, Int32Value(2)), TKey(hash, c, Int32Value(3));
             k1 != k2 && k1 != k3 && k2 != k3
    ensures Reachable(hash, s) && Failed(Call(Int32Value(0), ctx, Int32, true), TokenExists) in s.history
  {
    hide Reachable, TKey, HashKey, Encoding;
    var c := Call(Int32Value(0), ctx, Int32, true);
    StartIsReachable(hash);
    StepStaysReachable(hash, Start(), Invoke(0, c));
    var s1 := Start().Go(0, Getting(c, false));
    StepStaysReachable(hash, s1, Event.Get(0));
    var s2 := OnGet(hash, s1, 0);
    StepStaysReachable(hash, s2, SaveToken(0, Int32Value(1)));
    var s3 := OnSaveToken(hash, s2, 0, Int32Value(1));
    KeysApart(hash, c, Int32Value(1));
    KeysApart(hash, c, Int32Value(2));
    KeysApart(hash, c, Int32Value(3));
    StepStaysReachable(hash, s3, SaveHash(0));
    var s4 := OnSaveHash(hash, s3, 0);
    s := TwoLostGets(hash, s4, 0, c, Int32Value(2), Int32Value(3));
  }

  lemma KeysApart(hash: Hash, call: Call, token: Value)
    ensures call.HKey(hash) != TKey(hash, call, token)
  {
    KeysDisjoint(hash, Encoding(call.data), call.ctx, call.ty, Encoding(token), call.ctx, call.ty);
  }

  /** No token is issued twice in one context and type. */
  lemma TokensAreUnique(hash: Hash, s: System, j: nat, k: nat)
    requires Reachable(hash, s) && j < k < |s.issued| && s.issued[j].ctx == s.issued[k].ctx
             && s.issued[j].ty == s.issued[k].ty
    ensures s.issued[j].token != s.issued[k].token
  {
    ReachableInvariant(hash, s);
  }

  lemma SourceDeanonymizes(hash: Hash, store: Store, ctx: bytes, ty: TokenType, token: Value, source: Value)
    requires SourceOf(hash, store, ctx, ty, token, source)
    ensures Deanonymize(hash, store, token, ctx, ty) == Ok(source)
  {
    EncodingRoundTrip(source);
  }

  /** Every issued token, consistent or not, still gives back its source. */
  lemma IssuedDeanonymizes(hash: Hash, s: System, k: nat)
    requires Reachable(hash, s) && k < |s.issued|
    ensures Deanonymize(hash, s.store, s.issued[k].token, s.issued[k].ctx, s.issued[k].ty) == Ok(s.issued[k].source)
  {
    ReachableInvariant(hash, s);
    SourceDeanonymizes(hash, s.store, s.issued[k].ctx, s.issued[k].ty, s.issued[k].token, s.issued[k].source);
  }

  /** The call's digest collides with that of the different call which saved the entry. */
  ghost predicate CollisionMet(hash: Hash, s: System, call: Call) {
    && call.HKey(hash) in s.origins
    && var origin := s.origins[call.HKey(hash)];
       Collide(hash, Preimage(Encoding(origin.data), origin.ctx, origin.ty),
               Preimage(Encoding(call.data), call.ctx, call.ty))
  }

  /**
   Reversibility: Deanonymize of a returned token gives the call's data, or the call's digest collides with that of the
   recorded call which saved the entry.
   */
  lemma Reversible(hash: Hash, s: System, call: Call, token: Value)
    requires Reachable(hash, s) && Returned(call, token) in s.history
    ensures Deanonymize(hash, s.store, token, call.ctx, call.ty) == Ok(call.data) || CollisionMet(hash, s, call)
  {
    ReachableInvariant(hash, s);
    assert OutcomeHolds(hash, s.store, Returned(call, token));
    if call.consistent {
      var key := call.HKey(hash);
      var origin := s.origins[key];
      var t :| Encoding(t) == s.store[key].token && SourceOf(hash, s.store, origin.ctx, origin.ty, t, origin.data);
      SameHashKey(hash, Encoding(origin.data), origin.ty, Encoding(call.data), call.ty, call.ctx);
      if Encoding(origin.data) == Encoding(call.data) && origin.ty == call.ty {
        EncodingInjective(origin.data, call.data);
        EncodingRoundTrip(t);
        SourceDeanonymizes(hash, s.store, call.ctx, call.ty, token, call.data);
      }
    } else {
      SourceDeanonymizes(hash, s.store, call.ctx, call.ty, token, call.data);
    }
  }

  /** Different data never share a token in one context and type, unless digests collide. */
  lemma TokensSeparate(hash: Hash, s: System, c1: Call, c2: Call, token: Value)
    requires Reachable(hash, s) && Returned(c1, token) in s.history && Returned(c2, token) in s.history
    requires c1.ctx == c2.ctx && c1.ty == c2.ty
    ensures c1.data == c2.data || CollisionMet(hash, s, c1) || CollisionMet(hash, s, c2)
  {
    Reversible(hash, s, c1, token);
    Reversible(hash, s, c2, token);
  }
}
