/**
 The scanning loop shared by the AcraStruct, AcraBlock and serialized-container processors: find the
 leftmost tag, decide what the bytes from that tag on mean, then either copy one byte and go on, replace
 a whole envelope, or abort. `Scan` is the specification on values; `ScanInto` is the Go loop over
 buffers, including the call whose input and output are the same buffer.
 */
module Scanner {
  import opened Outcomes
  import opened ByteStrings
  import opened Search

  /** What the processor decides about the bytes that start at a tag. */
  datatype Step<+E> = Skip | Replace(length: int, data: bytes) | Abort(error: E)

  predicate StepInBounds<E>(step: Step<E>, rest: bytes) {
    step.Replace? ==> 0 < step.length <= |rest|
  }

  /** At every tag of s the decision consumes at least one byte and no byte past the end. */
  ghost predicate Bounded<E>(tag: bytes, decide: bytes -> Step<E>, s: bytes) {
    forall i :: OccursAt(s, tag, i) ==> StepInBounds(decide(s[i..]), s[i..])
  }

  /** No replacement at any tag of s is longer than the envelope it replaces. */
  ghost predicate NonExpanding<E>(tag: bytes, decide: bytes -> Step<E>, s: bytes) {
    forall i :: OccursAt(s, tag, i) && decide(s[i..]).Replace? ==> |decide(s[i..]).data| <= decide(s[i..]).length
  }

  /** The largest buffer the processors are given: room for a container header below Go's maximal int. */
  const MAX_BUFFER: int := TWO_63 - 13

  /** The processor returns no more bytes than the envelope it is given. */
  ghost predicate Shrinking<E>(process: bytes -> Result<bytes, E>) {
    forall b :: |b| <= MAX_BUFFER && process(b).Ok? ==> |process(b).value| <= |b|
  }

  lemma SuffixKeeps<E>(tag: bytes, decide: bytes -> Step<E>, s: bytes, k: nat)
    requires k <= |s|
    ensures Bounded(tag, decide, s) ==> Bounded(tag, decide, s[k..])
    ensures NonExpanding(tag, decide, s) ==> NonExpanding(tag, decide, s[k..])
  {
    forall i | OccursAt(s[k..], tag, i)
      ensures OccursAt(s, tag, k + i) && s[k..][i..] == s[k + i..]
    {
      OccursInSuffix(s, tag, k, i);
    }
  }

  function Prepend<E>(head: bytes, tail: Result<bytes, E>): Result<bytes, E> {
    match tail case Ok(t) => Ok(head + t) case Err(e) => Err(e)
  }

  function Scan<E>(tag: bytes, decide: bytes -> Step<E>, s: bytes): (r: Result<bytes, E>)
    requires tag != [] && Bounded(tag, decide, s)
    decreases |s|
  {
    var i := Index(s, tag);
    if i == NOT_FOUND then Ok(s)
    else
      match decide(s[i..])
      case Skip =>
        SuffixKeeps(tag, decide, s, i + 1);
        Prepend(s[..i + 1], Scan(tag, decide, s[i + 1..]))
      case Replace(n, data) =>
        SuffixKeeps(tag, decide, s, i + n);
        Prepend(s[..i] + data, Scan(tag, decide, s[i + n..]))
      case Abort(e) => Err(e)
  }

  /** The suffixes of s at whose tags the scan takes a decision, from left to right. */
  function Found<E>(tag: bytes, decide: bytes -> Step<E>, s: bytes): seq<bytes>
    requires tag != [] && Bounded(tag, decide, s)
    decreases |s|
  {
    var i := Index(s, tag);
    if i == NOT_FOUND then []
    else
      match decide(s[i..])
      case Skip =>
        SuffixKeeps(tag, decide, s, i + 1);
        [s[i..]] + Found(tag, decide, s[i + 1..])
      case Replace(n, _) =>
        SuffixKeeps(tag, decide, s, i + n);
        [s[i..]] + Found(tag, decide, s[i + n..])
      case Abort(_) => [s[i..]]
  }

  /** If every decision is to skip, the scan is the identity. */
  lemma {:induction false} ScanWithoutReplacement<E>(tag: bytes, decide: bytes -> Step<E>, s: bytes)
    requires tag != [] && Bounded(tag, decide, s)
    requires forall i :: OccursAt(s, tag, i) ==> decide(s[i..]).Skip?
    ensures Scan(tag, decide, s) == Ok(s)
    decreases |s|
  {
    var i := Index(s, tag);
    if i != NOT_FOUND {
      var rest := s[i + 1..];
      forall j | OccursAt(rest, tag, j) ensures decide(rest[j..]).Skip? {
        OccursInSuffix(s, tag, i + 1, j);
        assert rest[j..] == s[i + 1 + j..];
      }
      SuffixKeeps(tag, decide, s, i + 1);
      ScanWithoutReplacement(tag, decide, rest);
      assert s[..i + 1] + rest == s;
    }
  }

  /** The bytes a non-aborting decision writes, and the number of bytes it consumes. */
  function Produced<E>(step: Step<E>, rest: bytes): bytes
    requires !step.Abort? && rest != []
  {
    if step.Skip? then rest[..1] else step.data
  }

  function Consumed<E>(step: Step<E>): int
    requires !step.Abort?
  {
    if step.Skip? then 1 else step.length
  }

  /** What one round of the loop contributes to the scan of s. */
  lemma ScanRound<E>(tag: bytes, decide: bytes -> Step<E>, s: bytes)
    requires tag != [] && Bounded(tag, decide, s)
    ensures Index(s, tag) == NOT_FOUND ==> Scan(tag, decide, s) == Ok(s)
    ensures Index(s, tag) != NOT_FOUND && decide(s[Index(s, tag)..]).Abort? ==>
              Scan(tag, decide, s) == Err(decide(s[Index(s, tag)..]).error)
    ensures Index(s, tag) == NOT_FOUND ==> Found(tag, decide, s) == []
    ensures Index(s, tag) != NOT_FOUND && decide(s[Index(s, tag)..]).Abort?
            ==> Found(tag, decide, s) == [s[Index(s, tag)..]]
  {
  }

  lemma StepFits<E>(tag: bytes, decide: bytes -> Step<E>, s: bytes, i: nat)
    requires Bounded(tag, decide, s) && i == Index(s, tag) && i < |s|
    ensures StepInBounds(decide(s[i..]), s[i..])
    ensures NonExpanding(tag, decide, s) && decide(s[i..]).Replace? ==> |decide(s[i..]).data| <= decide(s[i..]).length
  {
    assert OccursAt(s, tag, i);
  }

  lemma ScanUnfold<E>(tag: bytes, decide: bytes -> Step<E>, s: bytes, i: nat, step: Step<E>)
    requires tag != [] && Bounded(tag, decide, s) && i == Index(s, tag) && i < |s|
    requires step == decide(s[i..]) && !step.Abort?
    ensures 0 < Consumed(step) <= |s| - i
    ensures Bounded(tag, decide, s[i + Consumed(step)..])
    ensures NonExpanding(tag, decide, s) ==>
              |Produced(step, s[i..])| <= Consumed(step) && NonExpanding(tag, decide, s[i + Consumed(step)..])
    ensures Scan(tag, decide, s) == Prepend(s[..i] + Produced(step, s[i..]), Scan(tag, decide, s[i + Consumed(step)..]))
    ensures Found(tag, decide, s) == [s[i..]] + Found(tag, decide, s[i + Consumed(step)..])
  {
    hide Bounded, NonExpanding, OccursAt;
    StepFits(tag, decide, s, i);
    SuffixKeeps(tag, decide, s, i + Consumed(step));
    assert step.Skip? ==> s[..i + 1] == s[..i] + s[i..][..1];
  }

  /** A scan fails with an error exactly when one of the decisions it takes is to abort with it. */
  lemma {:induction false} ScanAborts<E>(tag: bytes, decide: bytes -> Step<E>, s: bytes, e: E)
    requires tag != [] && Bounded(tag, decide, s)
    ensures Scan(tag, decide, s) == Err(e) <==> exists f :: f in Found(tag, decide, s) && decide(f) == Abort(e)
    decreases |s|
  {
    hide Scan, Found, Bounded, NonExpanding, OccursAt;
    ScanRound(tag, decide, s);
    var i := Index(s, tag);
    if i != NOT_FOUND {
      var step := decide(s[i..]);
      if !step.Abort? {
        ScanUnfold(tag, decide, s, i, step);
        ScanAborts(tag, decide, s[i + Consumed(step)..], e);
      }
    }
  }

  // ---- envelopes between other bytes -----------------------------------------------------------------------

  /** gaps[0] parts[0] gaps[1] parts[1] ... gaps[n]. */
  function Interleaved(gaps: seq<bytes>, parts: seq<bytes>): bytes
    requires |gaps| == |parts| + 1
    decreases |parts|
  {
    if parts == [] then gaps[0] else gaps[0] + (parts[0] + Interleaved(gaps[1..], parts[1..]))
  }

  /** Behind the gap the part is the first thing that is found, and it is replaced, whatever follows. */
  ghost predicate ReplacedBehind<E>(tag: bytes, decide: bytes -> Step<E>, gap: bytes, part: bytes, result: bytes) {
    && (forall tail: bytes :: Index(gap + (part + tail), tag) == |gap|)
    && (forall tail: bytes :: decide(part + tail) == Replace(|part|, result))
  }

  /** A scan replaces every such part, and keeps what stands between them. */
  lemma {:induction false} PartsReplaced<E>(tag: bytes, decide: bytes -> Step<E>, gaps: seq<bytes>, parts: seq<bytes>,
                                            results: seq<bytes>)
    requires tag != [] && |gaps| == |parts| + 1 == |results| + 1 && Bounded(tag, decide, Interleaved(gaps, parts))
    requires forall k :: 0 <= k < |parts| ==>
                           parts[k] != [] && ReplacedBehind(tag, decide, gaps[k], parts[k], results[k])
    requires !Contains(gaps[|parts|], tag)
    ensures Scan(tag, decide, Interleaved(gaps, parts)) == Ok(Interleaved(gaps, results))
    decreases |parts|
  {
    hide Bounded, Scan, Found, Contains, ReplacedBehind;
    var s := Interleaved(gaps, parts);
    if parts == [] {
      ScanRound(tag, decide, s);
      NothingFound(s, tag);
    } else {
      var gap, part, rest := gaps[0], parts[0], Interleaved(gaps[1..], parts[1..]);
      FirstReplaced(tag, decide, gap, part, rest, results[0]);
      PartsReplaced(tag, decide, gaps[1..], parts[1..], results[1..]);
      var rest' := Interleaved(gaps[1..], results[1..]);
      assert gap + results[0] + rest' == gap + (results[0] + rest');
    }
  }

  lemma FirstReplaced<E>(tag: bytes, decide: bytes -> Step<E>, gap: bytes, part: bytes, rest: bytes, result: bytes)
    requires tag != [] && part != [] && ReplacedBehind(tag, decide, gap, part, result)
    requires Bounded(tag, decide, gap + (part + rest))
    ensures Bounded(tag, decide, rest)
    ensures Scan(tag, decide, gap + (part + rest)) == Prepend(gap + result, Scan(tag, decide, rest))
    ensures Found(tag, decide, gap + (part + rest)) == [part + rest] + Found(tag, decide, rest)
  {
    hide Bounded, Scan, Found;
    var s := gap + (part + rest);
    assert Index(s, tag) == |gap|;
    assert s[|gap|..] == part + rest && s[..|gap|] == gap && s[|gap| + |part|..] == rest;
    assert decide(part + rest) == Replace(|part|, result);
    ScanUnfold(tag, decide, s, |gap|, Replace(|part|, result));
  }

  lemma NothingFound(s: bytes, tag: bytes)
    requires !Contains(s, tag)
    ensures Index(s, tag) == NOT_FOUND
  {
  }

  predicate Ends(gap: bytes, symbol: byte) { gap != [] && gap[|gap| - 1] == symbol }

  /**
   Behind a gap that neither holds the tag nor ends in the symbol it consists of, the tag is found where it stands.
   */
  lemma TagBehindGap(tag: bytes, symbol: byte, gap: bytes, rest: bytes)
    requires tag != [] && (forall i :: 0 <= i < |tag| ==> tag[i] == symbol)
    requires !Contains(gap, tag) && !Ends(gap, symbol) && HasPrefix(rest, tag)
    ensures Index(gap + rest, tag) == |gap|
  {
    var s := gap + rest;
    assert s[|gap|..|gap| + |tag|] == tag;
    forall i | 0 <= i < |gap| ensures !OccursAt(s, tag, i) {
      if i + |tag| <= |gap| {
        assert s[i..i + |tag|] == gap[i..i + |tag|];
        assert !OccursAt(gap, tag, i);
      } else {
        assert s[i..i + |tag|][|gap| - 1 - i] == gap[|gap| - 1];
      }
    }
    IndexIs(s, tag, |gap|);
  }

  lemma {:induction false} FoundStartAtTags<E>(tag: bytes, decide: bytes -> Step<E>, s: bytes, f: bytes)
      returns (at: nat)
    requires tag != [] && Bounded(tag, decide, s) && f in Found(tag, decide, s)
    ensures at <= |s| && OccursAt(s, tag, at) && f == s[at..]
    decreases |s|
  {
    hide Scan, Found, Bounded, NonExpanding, OccursAt;
    ScanRound(tag, decide, s);
    at := Index(s, tag);
    if f != s[at..] {
      var k := at + Consumed(decide(s[at..]));
      ScanUnfold(tag, decide, s, at, decide(s[at..]));
      var j := FoundStartAtTags(tag, decide, s[k..], f);
      OccursInSuffix(s, tag, k, j);
      at := k + j;
      assert s[k..][j..] == s[at..];
    }
  }

  /** Some suffix of the list is one that `observe` picks. */
  ghost predicate Seen(observe: bytes -> bool, fs: seq<bytes>) {
    exists f :: f in fs && observe(f)
  }

  lemma SeenFirst(observe: bytes -> bool, f: bytes, fs: seq<bytes>)
    ensures Seen(observe, [f] + fs) <==> observe(f) || Seen(observe, fs)
    ensures Seen(observe, [f]) <==> observe(f)
    ensures !Seen(observe, [])
  {
    assert f in [f] + fs && f in [f];
    assert forall g :: g in fs ==> g in [f] + fs;
  }

  /** Without replacements that lengthen anything the result is no longer than the input. */
  lemma {:induction false} ScanNeverGrows<E>(tag: bytes, decide: bytes -> Step<E>, s: bytes)
    requires tag != [] && Bounded(tag, decide, s) && NonExpanding(tag, decide, s)
    ensures Scan(tag, decide, s).Ok? ==> |Scan(tag, decide, s).value| <= |s|
    decreases |s|
  {
    hide Scan, Found, Bounded, NonExpanding, OccursAt;
    ScanRound(tag, decide, s);
    var i := Index(s, tag);
    if i != NOT_FOUND {
      var step := decide(s[i..]);
      if !step.Abort? {
        ScanUnfold(tag, decide, s, i, step);
        ScanNeverGrows(tag, decide, s[i + Consumed(step)..]);
      }
    }
  }

  /** What is seen among parts that are all replaced. */
  lemma {:induction false} PartsSeen<E>(tag: bytes, decide: bytes -> Step<E>, observe: bytes -> bool,
                                        picks: bytes -> bool, gaps: seq<bytes>, parts: seq<bytes>, results: seq<bytes>)
    requires tag != [] && |gaps| == |parts| + 1 == |results| + 1 && Bounded(tag, decide, Interleaved(gaps, parts))
    requires forall k :: 0 <= k < |parts| ==>
               && parts[k] != [] && ReplacedBehind(tag, decide, gaps[k], parts[k], results[k])
               && forall tail: bytes :: observe(parts[k] + tail) <==> picks(parts[k])
    requires !Contains(gaps[|parts|], tag)
    ensures Seen(observe, Found(tag, decide, Interleaved(gaps, parts))) <==>
            exists k :: 0 <= k < |parts| && picks(parts[k])
    decreases |parts|
  {
    hide Bounded, Scan, Found, Contains, ReplacedBehind, Seen;
    var s := Interleaved(gaps, parts);
    if parts == [] {
      ScanRound(tag, decide, s);
      NothingFound(s, tag);
      SeenFirst(observe, [], []);
    } else {
      var gap, part, rest := gaps[0], parts[0], Interleaved(gaps[1..], parts[1..]);
      FirstReplaced(tag, decide, gap, part, rest, results[0]);
      PartsSeen(tag, decide, observe, picks, gaps[1..], parts[1..], results[1..]);
      SeenFirst(observe, part + rest, Found(tag, decide, rest));
      assert observe(part + rest) <==> picks(parts[0]);
      assert (exists k :: 0 <= k < |parts[1..]| && picks(parts[1..][k])) <==>
             (exists k :: 1 <= k < |parts| && picks(parts[k])) by {
        assert forall k :: 0 <= k < |parts[1..]| ==> parts[1..][k] == parts[k + 1];
        assert forall k :: 1 <= k < |parts| ==> parts[k] == parts[1..][k - 1];
      }
    }
  }

  /**
   Go's append(out[:n], x...): it writes into the array when the capacity suffices and moves to a new array
   otherwise. x is evaluated before the write, as append does for overlapping slices.
   */
  method Append(out: array<byte>, n: nat, x: bytes) returns (res: array<byte>)
    requires n <= out.Length
    modifies out
    ensures n + |x| <= out.Length ==> res == out
    ensures n + |x| > out.Length ==> fresh(res) && out[..] == old(out[..]) && n + |x| <= res.Length
    ensures res[..n + |x|] == old(out[..n]) + x
    ensures forall i :: n + |x| <= i < out.Length ==> out[i] == old(out[i])
  {
    if n + |x| <= out.Length {
      res := out;
    } else {
      res := new byte[2 * (n + |x|)];
      forall i | 0 <= i < n { res[i] := out[i]; }
    }
    assert res[..n] == old(out[..n]);
    forall i | 0 <= i < |x| { res[n + i] := x[i]; }
    assert res[..n + |x|][n..] == x;
  }

  /** Append to a result that may be the input buffer itself: the bytes from position `from` on stay readable. */
  method Emit(input: array<byte>, from: nat, res: array<byte>, n: nat, x: bytes) returns (res': array<byte>)
    requires n <= res.Length && from <= input.Length
    requires res == input ==> n + |x| <= from
    modifies res
    ensures n + |x| <= res'.Length && res'[..n + |x|] == old(res[..n]) + x
    ensures input[from..] == old(input[from..])
    ensures res == input ==> res' == input
    ensures res != input ==> res' != input && (res' == res || fresh(res'))
  {
    res' := Append(res, n, x);
  }

  /** The loop has read up to inIndex and written `done`; `rest` is still unread, and what lies behind is `after`. */
  ghost predicate Reading(input: array<byte>, inIndex: nat, inLen: nat, rest: bytes, after: bytes,
                          res: array<byte>, outIndex: nat, done: bytes)
    reads input, res
  {
    && inIndex <= inLen <= input.Length && input[inIndex..inLen] == rest && input[inLen..] == after
    && outIndex <= res.Length && res[..outIndex] == done
    && (res == input ==> outIndex <= inIndex)
  }

  /** Copies x to the output and drops the first `consumed` bytes of the unread input. */
  method Advance(input: array<byte>, inIndex: nat, inLen: nat, ghost rest: bytes, ghost after: bytes,
                 res: array<byte>, outIndex: nat, ghost done: bytes, x: bytes, consumed: nat)
    returns (res': array<byte>)
    requires Reading(input, inIndex, inLen, rest, after, res, outIndex, done)
    requires consumed <= |rest|
    requires res == input ==> |x| <= consumed
    modifies res
    ensures Reading(input, inIndex + consumed, inLen, rest[consumed..], after, res', outIndex + |x|, done + x)
    ensures res == input ==> res' == input
    ensures res != input ==> res' != input && (res' == res || fresh(res'))
  {
    ghost var unread := input[inIndex + consumed..];
    assert input[inIndex..inLen][consumed..] == input[inIndex + consumed..inLen]
           == unread[..inLen - inIndex - consumed];
    assert after == unread[inLen - inIndex - consumed..];
    res' := Emit(input, inIndex + consumed, res, outIndex, x);
    assert input[inIndex + consumed..] == unread;
    assert input[inIndex + consumed..inLen] == unread[..inLen - inIndex - consumed];
  }

  function Last(fs: seq<bytes>): bytes
    requires fs != []
  {
    fs[|fs| - 1]
  }

  /**
   The loop has written `done` and seen what `seen` tells; scanning what is left completes the expected result and the
   list of decisions.
   */
  ghost predicate Ahead<E>(tag: bytes, decide: bytes -> Step<E>, observe: bytes -> bool, inPlace: bool,
                           expected: Result<bytes, E>, stops: seq<bytes>, done: bytes, seen: bool, rest: bytes)
  {
    && tag != [] && Bounded(tag, decide, rest) && (inPlace ==> NonExpanding(tag, decide, rest))
    && expected == Prepend(done, Scan(tag, decide, rest))
    && Seen(observe, stops) == (seen || Seen(observe, Found(tag, decide, rest)))
    && (Found(tag, decide, rest) != [] ==> stops != [] && Last(stops) == Last(Found(tag, decide, rest)))
  }

  /** The buffer still ends in the last suffix at which a decision was taken. */
  ghost predicate IntactFrom(input: array<byte>, inLen: nat, stops: seq<bytes>)
    reads input
  {
    && stops != [] && |Last(stops)| <= inLen <= input.Length
    && input[inLen - |Last(stops)|..inLen] == Last(stops)
  }

  lemma LeftIntact(input: array<byte>, inIndex: nat, inLen: nat, stops: seq<bytes>)
    requires inIndex <= inLen <= input.Length && stops != [] && input[inIndex..inLen] == Last(stops)
    ensures IntactFrom(input, inLen, stops)
  {
  }

  lemma AheadAtStart<E>(tag: bytes, decide: bytes -> Step<E>, observe: bytes -> bool, inPlace: bool, s: bytes)
    requires tag != [] && Bounded(tag, decide, s) && (inPlace ==> NonExpanding(tag, decide, s))
    ensures Ahead(tag, decide, observe, inPlace, Scan(tag, decide, s), Found(tag, decide, s), [], false, s)
  {
    PrependNothing(Scan(tag, decide, s));
  }

  /** One round of the loop, on values. */
  lemma AheadRound<E>(tag: bytes, decide: bytes -> Step<E>, observe: bytes -> bool, inPlace: bool,
                      expected: Result<bytes, E>,
                      stops: seq<bytes>, done: bytes, seen: bool, rest: bytes, begin: nat, step: Step<E>)
    requires Ahead(tag, decide, observe, inPlace, expected, stops, done, seen, rest)
    requires begin == Index(rest, tag) && begin < |rest| && step == decide(rest[begin..]) && !step.Abort?
    ensures 0 < Consumed(step) <= |rest[begin..]| && (inPlace ==> |Produced(step, rest[begin..])| <= Consumed(step))
    ensures Ahead(tag, decide, observe, inPlace, expected, stops, done + rest[..begin] + Produced(step, rest[begin..]),
                  seen || observe(rest[begin..]), rest[begin..][Consumed(step)..])
  {
    hide Bounded, NonExpanding, Scan, Found, OccursAt, Seen;
    ScanUnfold(tag, decide, rest, begin, step);
    var rest', produced := rest[begin + Consumed(step)..], Produced(step, rest[begin..]);
    assert rest[begin..][Consumed(step)..] == rest';
    PrependTwice(done, rest[..begin] + produced, Scan(tag, decide, rest'));
    assert done + (rest[..begin] + produced) == done + rest[..begin] + produced;
    SeenFirst(observe, rest[begin..], Found(tag, decide, rest'));
  }

  /** The last round: an abort, or nothing more to find. */
  lemma AheadEnds<E>(tag: bytes, decide: bytes -> Step<E>, observe: bytes -> bool, inPlace: bool,
                     expected: Result<bytes, E>, stops: seq<bytes>, done: bytes, seen: bool, rest: bytes)
    requires Ahead(tag, decide, observe, inPlace, expected, stops, done, seen, rest)
    ensures Index(rest, tag) == NOT_FOUND ==> expected == Ok(done + rest) && seen == Seen(observe, stops)
    ensures Index(rest, tag) != NOT_FOUND && decide(rest[Index(rest, tag)..]).Abort? ==>
              && expected == Err(decide(rest[Index(rest, tag)..]).error)
              && (seen || observe(rest[Index(rest, tag)..])) == Seen(observe, stops)
              && stops != [] && Last(stops) == rest[Index(rest, tag)..]
  {
    hide Bounded, NonExpanding, Scan, Found, OccursAt, Seen;
    ScanRound(tag, decide, rest);
    SeenFirst(observe, if Index(rest, tag) == NOT_FOUND then [] else rest[Index(rest, tag)..], []);
  }

  /** The decision at a tag the loop has come to: the envelope is replaced, one byte is copied, or the scan aborts. */
  method TakeDecision<E>(input: array<byte>, inIndex: nat, inLen: nat, ghost rest: bytes, ghost begin: nat,
                         ghost after: bytes, res: array<byte>, outIndex: nat, ghost done: bytes, tag: bytes,
                         decide: bytes -> Step<E>, observe: bytes -> bool, seen: bool, ghost inPlace: bool,
                         ghost expected: Result<bytes, E>, ghost stops: seq<bytes>)
    returns (res': array<byte>, consumed: nat, written: nat, error: Option<E>, seen': bool, ghost done': bytes)
    requires begin == Index(rest, tag) && begin < |rest| && (res == input ==> inPlace)
    requires Reading(input, inIndex, inLen, rest[begin..], after, res, outIndex, done + rest[..begin])
    requires Ahead(tag, decide, observe, inPlace, expected, stops, done, seen, rest)
    modifies res
    ensures error.Some? ==>
              && expected == Err(error.value) && seen' == Seen(observe, stops) && IntactFrom(input, inLen, stops)
              && res' == res && input[..] == old(input[..])
    ensures error.None? ==>
              && 0 < consumed && inIndex + consumed <= inLen <= input.Length
              && Reading(input, inIndex + consumed, inLen, input[inIndex + consumed..inLen], after, res',
                         outIndex + written, done')
              && Ahead(tag, decide, observe, inPlace, expected, stops, done', seen', input[inIndex + consumed..inLen])
    ensures res == input ==> res' == input
    ensures res != input ==> res' != input && (res' == res || fresh(res'))
  {
    hide Index, Produced, Consumed, Seen, Ahead, IntactFrom, Last;
    var found := input[inIndex..inLen];
    var decision := decide(found);
    res', consumed, written, error, seen', done' := res, 0, 0, None, seen || observe(found), done;
    if decision.Abort? {
      AheadEnds(tag, decide, observe, inPlace, expected, stops, done, seen, rest);
      LeftIntact(input, inIndex, inLen, stops);
      error := Some(decision.error);
      return;
    }
    AheadRound(tag, decide, observe, inPlace, expected, stops, done, seen, rest, begin, decision);
    var produced := Produced(decision, found);
    consumed, written, done' := Consumed(decision), |produced|, done + rest[..begin] + produced;
    res' := Advance(input, inIndex, inLen, found, after, res, outIndex, done + rest[..begin], produced, consumed);
  }

  /**
   The scanning loop. `input` and `out` may be the same array, provided no replacement is longer than what it replaces;
   then no unread byte is overwritten, the array is never outgrown and the result is the one that separate buffers give.
   `seen` tells whether a decision was taken that `observe` picks, up to the failure if there is one. From the place of
   a failure on the input is unchanged.
   */
  method ScanInto<E>(input: array<byte>, inLen: nat, out: array<byte>, tag: bytes, decide: bytes -> Step<E>,
                     observe: bytes -> bool)
    returns (res: array<byte>, resLen: nat, failure: Option<E>, seen: bool)
    requires inLen <= input.Length && tag != []
    requires Bounded(tag, decide, input[..inLen])
    requires input == out ==> NonExpanding(tag, decide, input[..inLen])
    modifies out
    ensures resLen <= res.Length
    ensures var expected := Scan(tag, decide, old(input[..inLen]));
            if failure.Some? then expected == Err(failure.value) else expected == Ok(res[..resLen])
    ensures seen == Seen(observe, Found(tag, decide, old(input[..inLen])))
    ensures input == out ==> res == input && resLen <= inLen && input[inLen..] == old(input[inLen..])
    ensures failure.Some? ==> IntactFrom(input, inLen, Found(tag, decide, old(input[..inLen])))
    ensures input != out ==> res == out || fresh(res)
  {
    hide Bounded, NonExpanding, Scan, Found, OccursAt, Contains, Index, Seen, Ahead, IntactFrom;
    var inIndex: nat, outIndex: nat := 0, 0;
    res, resLen, failure, seen := out, 0, None, false;
    ghost var done, after := [], input[inLen..];
    ghost var expected, stops := Scan(tag, decide, input[..inLen]), Found(tag, decide, input[..inLen]);
    AheadAtStart(tag, decide, observe, input == out, input[..inLen]);
    assert input[0..inLen] == input[..inLen];
    while true
      invariant inIndex <= inLen
      invariant Reading(input, inIndex, inLen, input[inIndex..inLen], after, res, outIndex, done)
      invariant input == out ==> res == input
      invariant input != out ==> res != input && (res == out || fresh(res))
      invariant Ahead(tag, decide, observe, input == out, expected, stops, done, seen, input[inIndex..inLen])
      decreases inLen - inIndex
    {
      var rest := input[inIndex..inLen];
      var begin := Index(rest, tag);
      if begin == NOT_FOUND { break; }
      // write the data before the tag
      res := Advance(input, inIndex, inLen, rest, after, res, outIndex, done, rest[..begin], begin);
      outIndex, inIndex := outIndex + begin, inIndex + begin;
      var consumed, written;
      res, consumed, written, failure, seen, done :=
        TakeDecision(input, inIndex, inLen, rest, begin, after, res, outIndex, done, tag, decide, observe, seen,
                     input == out, expected, stops);
      if failure.Some? { return; }
      inIndex, outIndex := inIndex + consumed, outIndex + written;
    }
    // copy left bytes
    var left := input[inIndex..inLen];
    AheadEnds(tag, decide, observe, input == out, expected, stops, done, seen, left);
    res := Advance(input, inIndex, inLen, left, after, res, outIndex, done, left, |left|);
    resLen, failure := outIndex + |left|, None;
  }

  lemma PrependTwice<E>(a: bytes, b: bytes, tail: Result<bytes, E>)
    ensures Prepend(a, Prepend(b, tail)) == Prepend(a + b, tail)
  {
    if tail.Ok? { assert a + (b + tail.value) == (a + b) + tail.value; }
  }

  lemma PrependNothing<E>(tail: Result<bytes, E>)
    ensures Prepend([], tail) == tail
  {
    if tail.Ok? { assert [] + tail.value == tail.value; }
  }
}
