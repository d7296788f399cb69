/** The audit log verifier and what it accepts (logging/integrity_verifier.go). */
module AuditVerifier {
  import opened Outcomes
  import opened ByteStrings
  import opened LogLine
  import opened AuditChain

  /** An entry of the source: nil, or a raw line. */
  datatype LogEntryInfo = NilEntry | RawEntry(line: bytes)

  datatype VerifyError = UnexpectedNil | ParseFailed | MissingEndOfChain | IntegrityNotMatch | SourceError

  /** Verified, or the position of the offending entry (the end, for an error of the source itself) and the error. */
  datatype Verdict = Verified | Failed(at: nat, error: VerifyError)

  type Parser = bytes -> ParseResult

  /** Empty lines and lines without an integrity value are passed over. */
  predicate Skipped(parse: Parser, e: LogEntryInfo) {
    e.RawEntry? && (e.line == [] || parse(e.line).NoIntegrity?)
  }

  predicate Signed(parse: Parser, e: LogEntryInfo) {
    e.RawEntry? && e.line != [] && parse(e.line).Parsed?
  }

  /** The source holds no nil entry and no line that cannot be parsed. */
  ghost predicate Readable(parse: Parser, entries: seq<LogEntryInfo>) {
    forall i :: 0 <= i < |entries| ==> Skipped(parse, entries[i]) || Signed(parse, entries[i])
  }

  /** The signed entries of the source, in order. */
  function SignedEntries(parse: Parser, entries: seq<LogEntryInfo>): seq<ParsedLogEntry> {
    if entries == [] then []
    else
      var n := |entries| - 1;
      SignedEntries(parse, entries[..n]) + if Signed(parse, entries[n]) then [parse(entries[n].line).entry] else []
  }

  /** Where the chain of entry i starts: at the last new-chain entry up to i, or at the first entry. */
  function ChainStart(es: seq<ParsedLogEntry>, i: nat): (s: nat)
    requires i < |es|
    ensures s <= i
  {
    if i == 0 || es[i].isNewChain then i else ChainStart(es, i - 1)
  }

  /** The texts of the chain of entry i, up to and including it. */
  function ChainTexts(es: seq<ParsedLogEntry>, i: nat): (ts: seq<bytes>)
    requires i < |es|
    ensures ts != []
  {
    if i == 0 || es[i].isNewChain then [es[i].rawData] else ChainTexts(es, i - 1) + [es[i].rawData]
  }

  /** Entry i carries the calculator's output at its position in its chain. */
  predicate IntegrityMatches(h: Hashing, key: bytes, es: seq<ParsedLogEntry>, i: nat)
    requires i < |es|
  {
    es[i].integrity == ChainIntegrity(h, key, ChainTexts(es, i))
  }

  /** Entry i does not start a chain unless it is the first entry or directly follows an end of chain. */
  predicate StartsProperly(es: seq<ParsedLogEntry>, i: nat)
    requires i < |es|
  {
    es[i].isNewChain && i > 0 ==> es[i - 1].isEndChain
  }

  ghost predicate Accepts(h: Hashing, key: bytes, es: seq<ParsedLogEntry>) {
    forall i :: 0 <= i < |es| ==> StartsProperly(es, i) && IntegrityMatches(h, key, es, i)
  }

  /** The texts of a chain are the raw data of the entries from its start on. */
  lemma {:induction false} ChainTextsAre(es: seq<ParsedLogEntry>, i: nat)
    requires i < |es|
    ensures var s := ChainStart(es, i);
            |ChainTexts(es, i)| == i + 1 - s && forall j :: s <= j <= i ==> ChainTexts(es, i)[j - s] == es[j].rawData
    ensures var s := ChainStart(es, i); (s == 0 || es[s].isNewChain) && forall j :: s < j <= i ==> !es[j].isNewChain
  {
    if i > 0 && !es[i].isNewChain { ChainTextsAre(es, i - 1); }
  }

  /** Later entries do not change the chain of an earlier one. */
  lemma {:induction false} ChainTextsPrefix(es: seq<ParsedLogEntry>, e: ParsedLogEntry, i: nat)
    requires i < |es|
    ensures ChainTexts(es + [e], i) == ChainTexts(es, i)
  {
    if i > 0 && !es[i].isNewChain { ChainTextsPrefix(es, e, i - 1); }
  }

  /** Acceptance entry by entry. */
  lemma AcceptsOneMore(h: Hashing, key: bytes, es: seq<ParsedLogEntry>, e: ParsedLogEntry)
    ensures var es' := es + [e];
            Accepts(h, key, es') <==>
            Accepts(h, key, es) && StartsProperly(es', |es|) && IntegrityMatches(h, key, es', |es|)
  {
    var es' := es + [e];
    forall i | 0 <= i < |es|
      ensures (StartsProperly(es', i) <==> StartsProperly(es, i))
              && (IntegrityMatches(h, key, es', i) <==> IntegrityMatches(h, key, es, i))
    {
      ChainTextsPrefix(es, e, i);
    }
  }

  /** The calculator's state after the entries: it was restarted at every new chain. */
  function CalculatorState(h: Hashing, key: bytes, es: seq<ParsedLogEntry>): State {
    if es == [] then Initial(h, key) else After(h, key, ChainTexts(es, |es| - 1))
  }

  lemma CalculatorStep(h: Hashing, key: bytes, es: seq<ParsedLogEntry>, e: ParsedLogEntry)
    ensures var st := if e.isNewChain then Initial(h, key) else CalculatorState(h, key, es);
            var es' := es + [e];
            && CalculatorState(h, key, es') == Next(h, st, e.rawData)
            && (IntegrityMatches(h, key, es', |es|) <==> e.integrity == h.hash(Mac(h, st, e.rawData)))
  {
    var es' := es + [e];
    if es == [] || e.isNewChain {
      AfterIsRun(h, key, [], e.rawData);
      assert [] + [e.rawData] == [e.rawData];
    } else {
      ChainTextsPrefix(es, e, |es| - 1);
      AfterIsRun(h, key, ChainTexts(es, |es| - 1), e.rawData);
    }
  }

  /** What is wrong with entry `at`, given that everything before it is in order. */
  ghost predicate Offends(h: Hashing, key: bytes, parse: Parser, entries: seq<LogEntryInfo>, at: nat,
                          error: VerifyError)
    requires at < |entries|
  {
    match error
    case UnexpectedNil => entries[at].NilEntry?
    case ParseFailed => entries[at].RawEntry? && entries[at].line != [] && parse(entries[at].line).Malformed?
    case SourceError => false
    case MissingEndOfChain =>
      Signed(parse, entries[at]) && !StartsProperly(UpTo(parse, entries, at), Count(parse, entries, at))
    case IntegrityNotMatch =>
      && Signed(parse, entries[at])
      && StartsProperly(UpTo(parse, entries, at), Count(parse, entries, at))
      && !IntegrityMatches(h, key, UpTo(parse, entries, at), Count(parse, entries, at))
  }

  /** The signed entries up to and including entry `at`, and its position among them. */
  function UpTo(parse: Parser, entries: seq<LogEntryInfo>, at: nat): seq<ParsedLogEntry>
    requires at < |entries| && Signed(parse, entries[at])
  {
    SignedEntries(parse, entries[..at]) + [parse(entries[at].line).entry]
  }

  function Count(parse: Parser, entries: seq<LogEntryInfo>, at: nat): nat
    requires at < |entries|
  {
    |SignedEntries(parse, entries[..at])|
  }

  class IntegrityCheckVerifier {
    const h: Hashing
    const cryptoKey: bytes
    const parse: Parser
    const integrityCalculator: LogEntryIntegrityCalculator
    var lastVerifiedEntry: Option<ParsedLogEntry>

    ghost predicate Fresh()
      reads this, integrityCalculator
    {
      integrityCalculator.h == h && integrityCalculator.Value() == Initial(h, cryptoKey) && lastVerifiedEntry == None
    }

    constructor (h: Hashing, key: bytes, parse: Parser)
      ensures this.h == h && cryptoKey == key && this.parse == parse && Fresh() && fresh(integrityCalculator)
    {
      this.h, cryptoKey, this.parse := h, key, parse;
      integrityCalculator := new LogEntryIntegrityCalculator(h, key);
      lastVerifiedEntry := None;
    }

    /**
     VerifyIntegrityCheck over all entries of a source. It succeeds exactly if the source is readable and ends without
     an error and the signed entries are accepted; otherwise it stops at the first entry that offends.
     */
    method VerifyIntegrityCheck(entries: seq<LogEntryInfo>, sourceError: bool) returns (verdict: Verdict)
      requires Fresh()
      modifies this, integrityCalculator
      ensures verdict == Verified <==>
                Readable(parse, entries) && !sourceError && Accepts(h, cryptoKey, SignedEntries(parse, entries))
      ensures verdict.Failed? ==>
                && verdict.at <= |entries|
                && Readable(parse, entries[..verdict.at])
                && Accepts(h, cryptoKey, SignedEntries(parse, entries[..verdict.at]))
                && if verdict.at == |entries| then sourceError && verdict.error == SourceError
                   else Offends(h, cryptoKey, parse, entries, verdict.at, verdict.error)
    {
      hide Accepts, SignedEntries, IntegrityMatches, CalculatorState, Readable, Next, Mac;
      ghost var es: seq<ParsedLogEntry> := [];
      NothingVerified(h, cryptoKey, parse, entries);
      for k := 0 to |entries|
        invariant es == SignedEntries(parse, entries[..k])
        invariant Readable(parse, entries[..k]) && Accepts(h, cryptoKey, es)
        invariant integrityCalculator.h == h && integrityCalculator.Value() == CalculatorState(h, cryptoKey, es)
        invariant lastVerifiedEntry == if es == [] then None else Some(es[|es| - 1])
      {
        var logEntry := entries[k];
        SourceStep(h, cryptoKey, parse, entries, k);
        if logEntry.NilEntry? { return Failed(k, UnexpectedNil); }
        if logEntry.line == [] { continue; }
        var parsed := parse(logEntry.line);
        if parsed.NoIntegrity? { continue; }
        if parsed.Malformed? { return Failed(k, ParseFailed); }
        var entry := parsed.entry;
        AcceptsOneMore(h, cryptoKey, es, entry);
        CalculatorStep(h, cryptoKey, es, entry);
        if entry.isNewChain {
          if lastVerifiedEntry.Some? && !lastVerifiedEntry.value.isEndChain { return Failed(k, MissingEndOfChain); }
          integrityCalculator.ResetCryptoKey(cryptoKey);
        }
        var calculated, _ := integrityCalculator.CalculateIntegrityCheck(entry.rawData);
        if entry.integrity != calculated { return Failed(k, IntegrityNotMatch); }
        lastVerifiedEntry := Some(entry);
        es := es + [entry];
      }
      assert entries[..|entries|] == entries;
      if sourceError { return Failed(|entries|, SourceError); }
      verdict := Verified;
    }
  }

  lemma NothingVerified(h: Hashing, key: bytes, parse: Parser, entries: seq<LogEntryInfo>)
    ensures entries[..0] == [] && SignedEntries(parse, []) == [] && Readable(parse, []) && Accepts(h, key, [])
    ensures CalculatorState(h, key, []) == Initial(h, key)
  {
  }

  lemma SignedEntriesStep(parse: Parser, entries: seq<LogEntryInfo>, k: nat)
    requires k < |entries|
    ensures SignedEntries(parse, entries[..k + 1])
            == if Signed(parse, entries[k]) then UpTo(parse, entries, k) else SignedEntries(parse, entries[..k])
  {
    assert entries[..k + 1][..k] == entries[..k];
    assert SignedEntries(parse, entries[..k]) + [] == SignedEntries(parse, entries[..k]);
  }

  lemma ReadableStep(parse: Parser, entries: seq<LogEntryInfo>, k: nat)
    requires k < |entries|
    ensures Readable(parse, entries[..k + 1])
            <==> Readable(parse, entries[..k]) && (Skipped(parse, entries[k]) || Signed(parse, entries[k]))
    ensures Readable(parse, entries) ==> Readable(parse, entries[..k + 1])
  {
    hide Skipped, Signed;
    var longer := entries[..k + 1];
    if Readable(parse, longer) {
      assert forall i :: 0 <= i < k ==> longer[i] == entries[..k][i];
      assert longer[k] == entries[k];
    }
  }

  /** What reading entry k adds, and that a failure at it is final. */
  lemma SourceStep(h: Hashing, key: bytes, parse: Parser, entries: seq<LogEntryInfo>, k: nat)
    requires k < |entries|
    ensures SignedEntries(parse, entries[..k + 1])
            == if Signed(parse, entries[k]) then UpTo(parse, entries, k) else SignedEntries(parse, entries[..k])
    ensures Readable(parse, entries[..k + 1])
            <==> Readable(parse, entries[..k]) && (Skipped(parse, entries[k]) || Signed(parse, entries[k]))
    ensures Readable(parse, entries) ==> Readable(parse, entries[..k + 1])
    ensures Accepts(h, key, SignedEntries(parse, entries)) ==> Accepts(h, key, SignedEntries(parse, entries[..k + 1]))
  {
    hide Accepts, Skipped, Signed, SignedEntries, Readable;
    NotAcceptedLater(h, key, parse, entries, k);
    SignedEntriesStep(parse, entries, k);
    ReadableStep(parse, entries, k);
  }

  /** A rejected prefix stays rejected. */
  lemma {:induction false} NotAcceptedLater(h: Hashing, key: bytes, parse: Parser, entries: seq<LogEntryInfo>, k: nat)
    requires k < |entries|
    ensures Accepts(h, key, SignedEntries(parse, entries)) ==> Accepts(h, key, SignedEntries(parse, entries[..k + 1]))
    decreases |entries|
  {
    var n := |entries| - 1;
    if k < n {
      NotAcceptedLater(h, key, parse, entries[..n], k);
      assert entries[..n][..k + 1] == entries[..k + 1];
      var es := SignedEntries(parse, entries[..n]);
      assert es + [] == es;
      if Signed(parse, entries[n]) {
        AcceptsOneMore(h, key, es, parse(entries[n].line).entry);
      }
    } else {
      assert entries[..k + 1] == entries;
    }
  }
}
