/**
 The audit log writer (AuditLogHandler with its formatter hook, logging/audit_log.go and logging/logging.go) as a state
 machine: any number of goroutines log entries while, one at a time, chains are finalized or reset. Formatting and
 writing an entry is one atomic step. Every run leaves a log that the verifier accepts.
 */
module AuditWriter {
  import opened Outcomes
  import opened ByteStrings
  import opened Search
  import opened LogLine
  import opened AuditChain
  import opened AuditVerifier

  /**
   A written entry. `endMarker` tells the entry that sendServiceLogs writes last, `restarts` an entry with the end
   message, whoever logs it, that is written while a reset is under way.
   */
  datatype Written = Written(text: bytes, integrity: bytes, newChain: bool, endMarker: bool, restarts: bool) {
    function ToLine(): bytes { Line(text, integrity, newChain) }
    function ToEntry(): ParsedLogEntry { ParsedLogEntry(text, integrity, newChain, IsEndOfChain(text)) }
  }

  /** The operation that holds the handler's mutex, with the number of service messages it has sent. */
  datatype Phase = Idle | Service(resetting: bool, sent: nat)

  datatype WriterState = WriterState(calculator: State, handlerKey: Option<bytes>, phase: Phase, log: seq<Written>)

  datatype Event =
    | Ordinary(text: bytes, endMessage: bool)  // some goroutine logs an entry, possibly with the end message
    | StartFinalize              // FinalizeChain takes the mutex
    | StartReset(key: bytes)     // ResetChain takes the mutex and sets the handler's key
    | SendPrepare(text: bytes)   // "Prepare to audit log chain finalization"
    | SendEnd(text: bytes)       // the end-of-chain message
    | Finish                     // the mutex is released; after a reset the handler's key is cleared

  /**
   Format and Write of one entry: sign it, append it and, after an end message under a key, restart the calculator.
   */
  function Emit(h: Hashing, st: WriterState, text: bytes, endMessage: bool, endMarker: bool): WriterState {
    var entry := Written(text, h.hash(Mac(h, st.calculator, text)), st.calculator.previous.None?, endMarker,
                         endMessage && st.handlerKey.Some?);
    var calculator := if endMessage && st.handlerKey.Some? then Initial(h, st.handlerKey.value)
                      else Next(h, st.calculator, text);
    st.(calculator := calculator, log := st.log + [entry])
  }

  predicate Enabled(st: WriterState, ev: Event) {
    match ev
    case Ordinary(_, _) => true
    case StartFinalize => st.phase.Idle?
    case StartReset(_) => st.phase.Idle?
    case SendPrepare(_) => st.phase.Service? && st.phase.sent == 0
    case SendEnd(_) => st.phase.Service? && st.phase.sent == 1
    case Finish => st.phase.Service? && st.phase.sent == 2
  }

  function Step(h: Hashing, st: WriterState, ev: Event): WriterState
    requires Enabled(st, ev)
  {
    match ev
    case Ordinary(text, endMessage) => Emit(h, st, text, endMessage, false)
    case StartFinalize => st.(phase := Service(false, 0))
    case StartReset(key) => st.(phase := Service(true, 0), handlerKey := Some(key))
    case SendPrepare(text) => Emit(h, st, text, false, false).(phase := st.phase.(sent := 1))
    case SendEnd(text) => Emit(h, st, text, true, true).(phase := st.phase.(sent := 2))
    case Finish => st.(phase := Idle, handlerKey := if st.phase.resetting then None else st.handlerKey)
  }

  /**
   The events of a log kept under one key: formatted texts hold no integrity token, the hook has put its marker into
   every entry with the end message, and chains are reset with the key they started with.
   */
  ghost predicate Proper(key: bytes, ev: Event) {
    match ev
    case Ordinary(text, endMessage) => !Contains(text, TOKEN) && (endMessage ==> IsEndOfChain(text))
    case SendPrepare(text) => !Contains(text, TOKEN)
    case SendEnd(text) => !Contains(text, TOKEN) && IsEndOfChain(text)
    case StartReset(k) => k == key
    case _ => true
  }

  ghost predicate IsRun(h: Hashing, key: bytes, st: WriterState, events: seq<Event>)
    decreases |events|
  {
    events == [] ||
    (Enabled(st, events[0]) && Proper(key, events[0]) && IsRun(h, key, Step(h, st, events[0]), events[1..]))
  }

  ghost function Run(h: Hashing, key: bytes, st: WriterState, events: seq<Event>): WriterState
    requires IsRun(h, key, st, events)
    decreases |events|
  {
    if events == [] then st else Run(h, key, Step(h, st, events[0]), events[1..])
  }

  function Start(h: Hashing, key: bytes): WriterState {
    WriterState(Initial(h, key), None, Idle, [])
  }

  function Entries(log: seq<Written>): (es: seq<ParsedLogEntry>)
    ensures |es| == |log|
    ensures forall i :: 0 <= i < |log| ==> es[i] == log[i].ToEntry()
  {
    if log == [] then [] else Entries(log[..|log| - 1]) + [log[|log| - 1].ToEntry()]
  }

  /**
   The calculator either continues the chain of the log, or is fresh at the start of the log or after an end of chain.
   */
  ghost predicate CalculatorFits(h: Hashing, key: bytes, calculator: State, log: seq<Written>) {
    var es := Entries(log);
    if calculator.previous.Some? then es != [] && calculator == CalculatorState(h, key, es)
    else calculator == Initial(h, key) && (es != [] ==> es[|es| - 1].isEndChain)
  }

  ghost predicate Invariant(h: Hashing, key: bytes, st: WriterState) {
    && Accepts(h, key, Entries(st.log))
    && CalculatorFits(h, key, st.calculator, st.log)
    && (st.handlerKey == if st.phase.Service? && st.phase.resetting then Some(key) else None)
    && (st.phase.Service? && st.phase.sent == 1 ==> st.log != [] && !st.log[|st.log| - 1].endMarker)
    && (st.calculator.previous.None? <==> StartsNext(st.log))
    && WellWritten(st.log)
  }

  /** The next entry starts a chain: the log is empty or ends with an entry that restarted the calculator. */
  predicate StartsNext(log: seq<Written>) { log == [] || log[|log| - 1].restarts }

  /** No text holds the token; chains start exactly there; a service end marker never comes first or after another. */
  ghost predicate WellWritten(log: seq<Written>) {
    && (forall i :: 0 <= i < |log| ==> !Contains(log[i].text, TOKEN))
    && (forall i :: 0 <= i < |log| ==> (log[i].newChain <==> StartsNext(log[..i])))
    && (forall i :: 0 <= i < |log| && log[i].endMarker ==> i > 0 && !log[i - 1].endMarker)
  }

  lemma EmitKeeps(h: Hashing, key: bytes, st: WriterState, text: bytes, endMessage: bool, endMarker: bool)
    requires Accepts(h, key, Entries(st.log)) && CalculatorFits(h, key, st.calculator, st.log)
    requires endMessage ==> IsEndOfChain(text) && (st.handlerKey.Some? ==> st.handlerKey.value == key)
    requires WellWritten(st.log) && !Contains(text, TOKEN) && (st.calculator.previous.None? <==> StartsNext(st.log))
    requires endMarker ==> st.log != [] && !st.log[|st.log| - 1].endMarker
    ensures var st' := Emit(h, st, text, endMessage, endMarker);
            && Accepts(h, key, Entries(st'.log)) && CalculatorFits(h, key, st'.calculator, st'.log)
            && WellWritten(st'.log)
            && (st'.calculator.previous.None? <==> StartsNext(st'.log))
            && st'.log != [] && st'.log[|st'.log| - 1].endMarker == endMarker
            && st'.handlerKey == st.handlerKey && st'.phase == st.phase
  {
    hide Accepts, IntegrityMatches, CalculatorState, IsEndOfChain, Contains, Entries, WellWritten, Mac;
    var es := Entries(st.log);
    var w := Written(text, h.hash(Mac(h, st.calculator, text)), st.calculator.previous.None?, endMarker,
                     endMessage && st.handlerKey.Some?);
    var e := w.ToEntry();
    EntriesSnoc(st.log, w);
    WellWrittenSnoc(st.log, w);
    AcceptsOneMore(h, key, es, e);
    CalculatorStep(h, key, es, e);
    assert (es + [e])[|es|] == e;
  }

  lemma EntriesSnoc(log: seq<Written>, w: Written)
    ensures Entries(log + [w]) == Entries(log) + [w.ToEntry()]
  {
    assert (log + [w])[..|log|] == log;
  }

  lemma WellWrittenSnoc(log: seq<Written>, w: Written)
    requires WellWritten(log) && !Contains(w.text, TOKEN) && (w.newChain <==> StartsNext(log))
    requires w.endMarker ==> log != [] && !log[|log| - 1].endMarker
    ensures WellWritten(log + [w])
  {
    hide Contains;
    var log' := log + [w];
    forall i | 0 <= i < |log'| ensures log'[i].newChain <==> StartsNext(log'[..i]) {
      if i < |log| {
        assert log'[..i] == log[..i];
      } else {
        assert log'[..i] == log;
      }
    }
  }

  lemma StepKeepsInvariant(h: Hashing, key: bytes, st: WriterState, ev: Event)
    requires Invariant(h, key, st) && Enabled(st, ev) && Proper(key, ev)
    ensures Invariant(h, key, Step(h, st, ev))
  {
    hide Accepts, CalculatorFits, IsEndOfChain, Contains, Emit, WellWritten, Entries, StartsNext;
    match ev
    case Ordinary(text, endMessage) => EmitKeeps(h, key, st, text, endMessage, false);
    case SendPrepare(text) => EmitKeeps(h, key, st, text, false, false);
    case SendEnd(text) => EmitKeeps(h, key, st, text, true, true);
    case _ =>
  }

  lemma {:induction false} RunKeepsInvariant(h: Hashing, key: bytes, st: WriterState, events: seq<Event>)
    requires Invariant(h, key, st) && IsRun(h, key, st, events)
    ensures Invariant(h, key, Run(h, key, st, events))
    decreases |events|
  {
    hide Invariant;
    if events != [] {
      StepKeepsInvariant(h, key, st, events[0]);
      RunKeepsInvariant(h, key, Step(h, st, events[0]), events[1..]);
    }
  }

  lemma StartSatisfiesInvariant(h: Hashing, key: bytes)
    ensures Invariant(h, key, Start(h, key))
  {
  }

  /** The lines of a log, as the verifier's source. */
  function Lines(log: seq<Written>): (ls: seq<LogEntryInfo>)
    ensures |ls| == |log|
  {
    if log == [] then [] else Lines(log[..|log| - 1]) + [RawEntry(log[|log| - 1].ToLine())]
  }

  /** Reading the lines back gives the entries that were written. */
  lemma {:induction false} LinesParse(format: Format, log: seq<Written>)
    requires forall w :: w in log ==> !Contains(w.text, TOKEN) && w.integrity != []
    ensures var parse := (raw: bytes) => Parse(format, raw);
            Readable(parse, Lines(log)) && SignedEntries(parse, Lines(log)) == Entries(log)
  {
    hide Parse, Contains, Line, IsEndOfChain;
    if log != [] {
      var n := |log| - 1;
      LinesParse(format, log[..n]);
      LineRoundTrip(format, log[n].text, log[n].integrity, log[n].newChain);
      LineNotEmpty(log[n]);
      assert Lines(log)[..n] == Lines(log[..n]);
    }
  }

  lemma LineNotEmpty(w: Written)
    ensures w.ToLine() != []
  {
  }

  /**
   Every writer run verifies: whatever the interleaving of entries, finalizations and resets, the verifier's condition
   holds of the written lines. A service end marker is never the first entry of a chain, unless another goroutine logs
   the end message directly before it in the middle of a reset: then it always is.
   */
  lemma EveryRunVerifies(h: Hashing, key: bytes, events: seq<Event>, format: Format)
    requires h.FixedWidth() && IsRun(h, key, Start(h, key), events)
    ensures var log := Run(h, key, Start(h, key), events).log;
            var parse := (raw: bytes) => Parse(format, raw);
            && Readable(parse, Lines(log)) && Accepts(h, key, SignedEntries(parse, Lines(log)))
            && forall i :: 0 <= i < |log| && log[i].endMarker ==>
                 i > 0 && (log[i].newChain <==> log[i - 1].restarts && !log[i - 1].endMarker)
  {
    hide Parse, Contains, Line, Accepts, CalculatorFits, Lines, Readable;
    StartSatisfiesInvariant(h, key);
    RunKeepsInvariant(h, key, Start(h, key), events);
    var log := Run(h, key, Start(h, key), events).log;
    IntegrityNotEmpty(h, key, log);
    LinesParse(format, log);
    forall i | 0 <= i < |log| && log[i].endMarker ensures i > 0
      && (log[i].newChain <==> log[i - 1].restarts && !log[i - 1].endMarker) {
      assert log[..i][i - 1] == log[i - 1];
    }
  }

  /** Nobody but the service messages uses the end message. */
  predicate NoForeignEnds(events: seq<Event>) {
    forall i :: 0 <= i < |events| && events[i].Ordinary? ==> !events[i].endMessage
  }

  ghost predicate OnlyMarkersRestart(log: seq<Written>) {
    forall w :: w in log && w.restarts ==> w.endMarker
  }

  lemma {:induction false} OnlyMarkersRestarted(h: Hashing, key: bytes, st: WriterState, events: seq<Event>)
    requires IsRun(h, key, st, events) && NoForeignEnds(events) && OnlyMarkersRestart(st.log)
    ensures OnlyMarkersRestart(Run(h, key, st, events).log)
    decreases |events|
  {
    if events != [] {
      hide Proper;
      OnlyMarkersRestarted(h, key, Step(h, st, events[0]), events[1..]);
    }
  }

  /** In such runs the end marker is never the first entry of a chain. */
  lemma MarkerNeverFirst(h: Hashing, key: bytes, events: seq<Event>)
    requires IsRun(h, key, Start(h, key), events) && NoForeignEnds(events)
    ensures forall w :: w in Run(h, key, Start(h, key), events).log && w.endMarker ==> !w.newChain
  {
    hide Contains, Accepts, CalculatorFits;
    StartSatisfiesInvariant(h, key);
    RunKeepsInvariant(h, key, Start(h, key), events);
    OnlyMarkersRestarted(h, key, Start(h, key), events);
    var log := Run(h, key, Start(h, key), events).log;
    forall i | 0 <= i < |log| && log[i].endMarker ensures !log[i].newChain {
      assert log[..i][i - 1] == log[i - 1];
    }
  }

  /**
   A goroutine that logs the end message between the two service messages of a reset makes the end marker come first.
   */
  lemma ForeignEndExample(h: Hashing, key: bytes, prepare: bytes, end: bytes)
    requires !Contains(prepare, TOKEN) && !Contains(end, TOKEN) && IsEndOfChain(end)
    ensures var events := [StartReset(key), SendPrepare(prepare), Ordinary(end, true), SendEnd(end)];
            && IsRun(h, key, Start(h, key), events)
            && var log := Run(h, key, Start(h, key), events).log;
               |log| == 3 && log[2].endMarker && log[2].newChain
  {
    hide Contains, IsEndOfChain;
    var e := [StartReset(key), SendPrepare(prepare), Ordinary(end, true), SendEnd(end)];
    var s0 := Start(h, key);
    var s1 := Step(h, s0, e[0]);
    var s2 := Step(h, s1, e[1]);
    var s3 := Step(h, s2, e[2]);
    var s4 := Step(h, s3, e[3]);
    RunOne(h, key, s3, [e[3]]);
    RunOne(h, key, s2, [e[2], e[3]]);
    RunOne(h, key, s1, [e[1], e[2], e[3]]);
    RunOne(h, key, s0, e);
    assert Run(h, key, s0, e) == s4;
  }

  lemma RunOne(h: Hashing, key: bytes, st: WriterState, events: seq<Event>)
    requires events != [] && Enabled(st, events[0]) && Proper(key, events[0])
             && IsRun(h, key, Step(h, st, events[0]), events[1..])
    ensures IsRun(h, key, st, events) && Run(h, key, st, events) == Run(h, key, Step(h, st, events[0]), events[1..])
  {
  }

  lemma IntegrityNotEmpty(h: Hashing, key: bytes, log: seq<Written>)
    requires h.FixedWidth() && Accepts(h, key, Entries(log))
    ensures forall w :: w in log ==> w.integrity != []
  {
    forall i | 0 <= i < |log| ensures log[i].integrity != [] {
      assert IntegrityMatches(h, key, Entries(log), i);
    }
  }

  // ---- the handler object ----------------------------------------------------------------------------------

  /** The later log is the earlier one with entries for these texts behind it. */
  predicate Adds(log: seq<Written>, log': seq<Written>, texts: seq<bytes>) {
    && |log'| == |log| + |texts| && log <= log'
    && forall i :: 0 <= i < |texts| ==> log'[|log| + i].text == texts[i]
  }

  lemma AddsNothing(log: seq<Written>)
    ensures Adds(log, log, [])
  {
  }

  lemma AddsOneMore(log: seq<Written>, log': seq<Written>, texts: seq<bytes>, text: bytes)
    requires Adds(log, log', texts)
    ensures forall w: Written :: w.text == text ==> Adds(log, log' + [w], texts + [text])
    ensures |log| <= |log'|
  {
  }

  /** An entry of another goroutine: its formatted text, and whether its message is the end message. */
  datatype Logged = Logged(text: bytes, endMessage: bool)

  function Texts(between: seq<Logged>): (r: seq<bytes>)
    ensures |r| == |between| && forall i :: 0 <= i < |r| ==> r[i] == between[i].text
  {
    seq(|between|, i requires 0 <= i < |between| => between[i].text)
  }

  ghost predicate ProperTexts(prepare: bytes, between: seq<Logged>, end: bytes) {
    && !Contains(prepare, TOKEN) && !Contains(end, TOKEN) && IsEndOfChain(end)
    && forall t :: t in between ==> !Contains(t.text, TOKEN) && (t.endMessage ==> IsEndOfChain(t.text))
  }

  class AuditLogHandler {
    const calculator: LogEntryIntegrityCalculator
    var key: Option<bytes>
    var log: seq<Written>
    ghost var phase: Phase

    ghost function Value(): WriterState
      reads this, calculator
    {
      WriterState(calculator.Value(), key, phase, log)
    }

    constructor (h: Hashing, chainKey: bytes)
      ensures fresh(calculator) && calculator.h == h && Value() == Start(h, chainKey)
    {
      calculator := new LogEntryIntegrityCalculator(h, chainKey);
      key, log, phase := None, [], Idle;
    }

    /** Format (with the hook's appendIntegrity) and Write, under logrus's lock. */
    method FormatAndWrite(text: bytes, isEndMessage: bool, endMarker: bool)
      modifies this, calculator
      ensures Value() == Emit(calculator.h, old(Value()), text, isEndMessage, endMarker)
    {
      var integrity, newChain := calculator.CalculateIntegrityCheck(text);
      log := log + [Written(text, integrity, newChain, endMarker, isEndMessage && key.Some?)];
      if isEndMessage && key.Some? {
        calculator.ResetCryptoKey(key.value);
      }
    }

    /** sendServiceLogs; `between` are the entries that other goroutines log between the two service messages. */
    method SendServiceLogs(prepare: bytes, between: seq<Logged>, end: bytes, ghost chainKey: bytes)
      requires phase.Service? && phase.sent == 0 && ProperTexts(prepare, between, end)
      requires Invariant(calculator.h, chainKey, Value())
      modifies this, calculator
      ensures phase == old(phase).(sent := 2) && key == old(key)
      ensures Invariant(calculator.h, chainKey, Value())
      ensures Adds(old(log), log, [prepare] + Texts(between) + [end])
      ensures forall i :: |old(log)| <= i < |log| ==> (log[i].endMarker <==> i == |log| - 1)
      ensures key.Some? ==> calculator.Value() == Initial(calculator.h, chainKey)
    {
      hide Invariant, Contains, IsEndOfChain, Adds;
      StepKeepsInvariant(calculator.h, chainKey, Value(), SendPrepare(prepare));
      AddsNothing(log);
      AddsOneMore(log, log, [], prepare);
      assert [] + [prepare] == [prepare] + Texts(between[..0]);
      FormatAndWrite(prepare, false, false);
      phase := phase.(sent := 1);
      for i := 0 to |between|
        invariant phase == old(phase).(sent := 1) && key == old(key)
        invariant Invariant(calculator.h, chainKey, Value())
        invariant Adds(old(log), log, [prepare] + Texts(between[..i]))
                  && forall j :: |old(log)| <= j < |log| ==> !log[j].endMarker
      {
        AddsOneMore(old(log), log, [prepare] + Texts(between[..i]), between[i].text);
        assert [prepare] + Texts(between[..i]) + [between[i].text] == [prepare] + Texts(between[..i + 1]);
        StepKeepsInvariant(calculator.h, chainKey, Value(), Ordinary(between[i].text, between[i].endMessage));
        FormatAndWrite(between[i].text, between[i].endMessage, false);
      }
      StepKeepsInvariant(calculator.h, chainKey, Value(), SendEnd(end));
      KeyOfReset(calculator.h, chainKey, Value());
      AddsOneMore(old(log), log, [prepare] + Texts(between[..|between|]), end);
      assert between[..|between|] == between;
      FormatAndWrite(end, true, true);
      phase := phase.(sent := 2);
    }

    /** FinalizeChain: the chain goes on after the end message. */
    method FinalizeChain(prepare: bytes, between: seq<Logged>, end: bytes, ghost chainKey: bytes)
      requires phase.Idle? && Invariant(calculator.h, chainKey, Value()) && ProperTexts(prepare, between, end)
      modifies this, calculator
      ensures phase.Idle? && Invariant(calculator.h, chainKey, Value()) && key == old(key)
      ensures Adds(old(log), log, [prepare] + Texts(between) + [end])
      ensures forall i :: |old(log)| <= i < |log| ==> (log[i].endMarker <==> i == |log| - 1)
    {
      hide Invariant, Contains, IsEndOfChain;
      StepKeepsInvariant(calculator.h, chainKey, Value(), StartFinalize);
      phase := Service(false, 0);
      SendServiceLogs(prepare, between, end, chainKey);
      StepKeepsInvariant(calculator.h, chainKey, Value(), Finish);
      phase := Idle;
    }

    /** ResetChain: the next entry starts a new chain. */
    method ResetChain(chainKey: bytes, prepare: bytes, between: seq<Logged>, end: bytes)
      requires phase.Idle? && Invariant(calculator.h, chainKey, Value()) && ProperTexts(prepare, between, end)
      modifies this, calculator
      ensures phase.Idle? && Invariant(calculator.h, chainKey, Value()) && key == None
      ensures Adds(old(log), log, [prepare] + Texts(between) + [end])
      ensures forall i :: |old(log)| <= i < |log| ==> (log[i].endMarker <==> i == |log| - 1)
      ensures calculator.Value() == Initial(calculator.h, chainKey)
    {
      hide Invariant, Contains, IsEndOfChain;
      StepKeepsInvariant(calculator.h, chainKey, Value(), StartReset(chainKey));
      phase, key := Service(true, 0), Some(chainKey);
      SendServiceLogs(prepare, between, end, chainKey);
      StepKeepsInvariant(calculator.h, chainKey, Value(), Finish);
      phase, key := Idle, None;
    }
  }

  lemma KeyOfReset(h: Hashing, key: bytes, st: WriterState)
    requires Invariant(h, key, st)
    ensures st.handlerKey.Some? ==> st.handlerKey.value == key
  {
  }
}
