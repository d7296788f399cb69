/**
 The text form of a signed log entry: what the plaintext and CEF hooks write and the parsers read (package logging).
 */
module LogLine {
  import opened Outcomes
  import opened ByteStrings
  import opened Search
  import Hex

  /** " integrity=" */
  const TOKEN: bytes := [32, 105, 110, 116, 101, 103, 114, 105, 116, 121, 61]
  /** " chain=new" */
  const CHAIN_NEW: bytes := [32, 99, 104, 97, 105, 110, 61, 110, 101, 119]
  /** "chain=end" */
  const CHAIN_END: bytes := [99, 104, 97, 105, 110, 61, 101, 110, 100]
  /** "End of current audit log chain" */
  const END_MESSAGE: bytes := [69, 110, 100, 32, 111, 102, 32, 99, 117, 114, 114, 101, 110, 116, 32,
                               97, 117, 100, 105, 116, 32, 108, 111, 103, 32, 99, 104, 97, 105, 110]

  datatype ParsedLogEntry = ParsedLogEntry(rawData: bytes, integrity: bytes, isNewChain: bool, isEndChain: bool)

  /** ParseEntry results: an entry, a line without an integrity field, or a line that cannot be parsed. */
  datatype ParseResult = Parsed(entry: ParsedLogEntry) | NoIntegrity | Malformed

  datatype Format = Plaintext | Cef

  /** appendIntegrity: the line for a text, its integrity value and the new-chain flag. */
  function Line(text: bytes, integrity: bytes, newChain: bool): bytes {
    text + (TOKEN + Hex.Encode(integrity) + if newChain then CHAIN_NEW else [])
  }

  /** strings.Split: the parts between the leftmost non-overlapping occurrences of the separator. */
  function Split(s: bytes, sep: bytes): (parts: seq<bytes>)
    requires sep != []
    ensures parts != []
    ensures |parts| == 1 <==> !Contains(s, sep)
    decreases |s|
  {
    var i := Index(s, sep);
    if i == NOT_FOUND then [s] else [s[..i]] + Split(s[i + |sep|..], sep)
  }

  predicate IsSpace(b: byte) { b == 32 || 9 <= b <= 13 }

  /** strings.TrimSpace on ASCII text. */
  function TrimSpace(s: bytes): bytes {
    if s == [] then s
    else if IsSpace(s[0]) then TrimSpace(s[1..])
    else if IsSpace(s[|s| - 1]) then TrimSpace(s[..|s| - 1])
    else s
  }

  /** An entry counts as the end of a chain only if both the marker and the message are part of the signed text. */
  predicate IsEndOfChain(text: bytes) {
    Index(text, CHAIN_END) != NOT_FOUND && Index(text, END_MESSAGE) != NOT_FOUND
  }

  /** ParseEntry of the plaintext and CEF parsers. */
  function Parse(format: Format, raw: bytes): ParseResult {
    var parts := Split(raw, TOKEN);
    if |parts| != 2 then NoIntegrity
    else
      var rest := if format.Cef? then TrimSpace(parts[1]) else parts[1];
      var isNewChain := HasSuffix(rest, CHAIN_NEW);
      var digits := if isNewChain then rest[..|rest| - |CHAIN_NEW|] else rest;
      match Hex.Decode(digits)
      case None => Malformed
      case Some(integrity) => Parsed(ParsedLogEntry(parts[0], integrity, isNewChain, IsEndOfChain(parts[0])))
  }

  /** The entry of a line ends a chain exactly if its signed text holds both the marker and the message. */
  lemma EndOfChainExact(format: Format, raw: bytes)
    ensures Parse(format, raw).Parsed? ==>
              var entry := Parse(format, raw).entry;
              entry.isEndChain <==> Contains(entry.rawData, CHAIN_END) && Contains(entry.rawData, END_MESSAGE)
  {
    hide Split, TrimSpace, Hex.Decode, HasSuffix;
  }

  /** The part of a line behind the token. */
  function Trailer(integrity: bytes, newChain: bool): bytes {
    Hex.Encode(integrity) + if newChain then CHAIN_NEW else []
  }

  /** A shifted copy of the token cannot overlap the token: a space occurs in it only at its start. */
  lemma NoOverlap(text: bytes, rest: bytes, i: nat)
    requires |text| - |TOKEN| < i < |text|
    ensures !OccursAt(text + (TOKEN + rest), TOKEN, i)
  {
    var s, k := text + (TOKEN + rest), |text| - i;
    assert TOKEN[k] != 32 && s[|text|] == 32;
    if i + |TOKEN| <= |s| { assert s[i..i + |TOKEN|][k] == s[|text|]; }
  }

  lemma NoTokenInTrailer(integrity: bytes, newChain: bool)
    ensures !Contains(Trailer(integrity, newChain), TOKEN)
  {
    var t := Trailer(integrity, newChain);
    forall i | 0 <= i <= |t| - |TOKEN| ensures !OccursAt(t, TOKEN, i) {
      assert t[i..i + |TOKEN|][0] == t[i] == Hex.Encode(integrity)[i];
    }
  }

  /** The leftmost token of a line is the appended one if the text holds none. */
  lemma FirstTokenOfLine(text: bytes, rest: bytes)
    requires !Contains(text, TOKEN)
    ensures Index(text + (TOKEN + rest), TOKEN) == |text|
  {
    var s := text + (TOKEN + rest);
    assert s[|text|..|text| + |TOKEN|] == TOKEN;
    forall i | 0 <= i < |text| ensures !OccursAt(s, TOKEN, i) {
      if i <= |text| - |TOKEN| {
        assert s[i..i + |TOKEN|] == text[i..i + |TOKEN|];
        assert !OccursAt(text, TOKEN, i);
      } else {
        NoOverlap(text, rest, i);
      }
    }
    IndexIs(s, TOKEN, |text|);
  }

  lemma SplitLine(text: bytes, integrity: bytes, newChain: bool)
    requires !Contains(text, TOKEN)
    ensures Split(Line(text, integrity, newChain), TOKEN) == [text, Trailer(integrity, newChain)]
  {
    var line, rest := Line(text, integrity, newChain), Trailer(integrity, newChain);
    assert line == text + (TOKEN + rest);
    FirstTokenOfLine(text, rest);
    NoTokenInTrailer(integrity, newChain);
    assert line[..|text|] == text && line[|text| + |TOKEN|..] == rest;
  }

  /** Hex digits and the new-chain suffix need no trimming, unless nothing precedes the suffix. */
  lemma TrailerIsTrimmed(integrity: bytes, newChain: bool)
    requires integrity != [] || !newChain
    ensures TrimSpace(Trailer(integrity, newChain)) == Trailer(integrity, newChain)
  {
    var t := Trailer(integrity, newChain);
    if t != [] {
      assert t[0] == Hex.Encode(integrity)[0];
      assert t[|t| - 1] == if newChain then 119 else Hex.Encode(integrity)[|t| - 1];
    }
  }

  lemma TrailerDecodes(integrity: bytes, newChain: bool)
    ensures var rest := Trailer(integrity, newChain);
            && (HasSuffix(rest, CHAIN_NEW) <==> newChain)
            && Hex.Decode(if newChain then rest[..|rest| - |CHAIN_NEW|] else rest) == Some(integrity)
  {
    var rest, digits := Trailer(integrity, newChain), Hex.Encode(integrity);
    Hex.RoundTrip(integrity);
    if newChain {
      assert rest[..|rest| - |CHAIN_NEW|] == digits && rest[|rest| - |CHAIN_NEW|..] == CHAIN_NEW;
    } else {
      assert rest == digits;
      if |rest| >= |CHAIN_NEW| {
        assert rest[|rest| - |CHAIN_NEW|..][0] == digits[|digits| - |CHAIN_NEW|] != CHAIN_NEW[0];
      }
    }
  }

  lemma {:induction false} SpacesAreTrimmed(t: bytes, spaces: bytes)
    requires t != [] && !IsSpace(t[0]) && !IsSpace(t[|t| - 1]) && forall i :: 0 <= i < |spaces| ==> IsSpace(spaces[i])
    ensures TrimSpace(t + spaces) == t
    decreases |spaces|
  {
    if spaces == [] {
      assert t + spaces == t;
    } else {
      var n := |spaces| - 1;
      SpacesAreTrimmed(t, spaces[..n]);
      assert (t + spaces)[..|t + spaces| - 1] == t + spaces[..n];
    }
  }

  /** White space at the end of a CEF line does not matter. */
  lemma CefIgnoresSpace(text: bytes, integrity: bytes, newChain: bool, spaces: bytes)
    requires !Contains(text, TOKEN) && integrity != [] && forall i :: 0 <= i < |spaces| ==> IsSpace(spaces[i])
    ensures Parse(Cef, Line(text, integrity, newChain) + spaces)
            == Parsed(ParsedLogEntry(text, integrity, newChain, IsEndOfChain(text)))
  {
    hide TrimSpace, Hex.Decode, HasSuffix, IsEndOfChain, Split, Trailer, Line, Contains;
    SplitWithSpaces(text, integrity, newChain, spaces);
    TrailerEnds(integrity, newChain);
    SpacesAreTrimmed(Trailer(integrity, newChain), spaces);
    TrailerDecodes(integrity, newChain);
  }

  lemma TrailerEnds(integrity: bytes, newChain: bool)
    requires integrity != []
    ensures var t := Trailer(integrity, newChain); t != [] && !IsSpace(t[0]) && !IsSpace(t[|t| - 1])
  {
    var t := Trailer(integrity, newChain);
    assert t[0] == Hex.Encode(integrity)[0];
    assert t[|t| - 1] == if newChain then 119 else Hex.Encode(integrity)[|t| - 1];
  }

  lemma SplitWithSpaces(text: bytes, integrity: bytes, newChain: bool, spaces: bytes)
    requires !Contains(text, TOKEN) && forall i :: 0 <= i < |spaces| ==> IsSpace(spaces[i])
    ensures Split(Line(text, integrity, newChain) + spaces, TOKEN) == [text, Trailer(integrity, newChain) + spaces]
  {
    hide Trailer, Line, Split, Contains, Index;
    var line, rest := Line(text, integrity, newChain) + spaces, Trailer(integrity, newChain) + spaces;
    LineParts(text, integrity, newChain);
    assert line == text + (TOKEN + rest);
    FirstTokenOfLine(text, rest);
    NoTokenBeforeSpaces(integrity, newChain, spaces);
    assert line[..|text|] == text && line[|text| + |TOKEN|..] == rest;
    SplitRound(line);
    SplitRound(rest);
  }

  lemma SplitRound(s: bytes)
    ensures var i := Index(s, TOKEN);
            Split(s, TOKEN) == if i == NOT_FOUND then [s] else [s[..i]] + Split(s[i + |TOKEN|..], TOKEN)
  {
  }

  lemma LineParts(text: bytes, integrity: bytes, newChain: bool)
    ensures Line(text, integrity, newChain) == text + (TOKEN + Trailer(integrity, newChain))
  {
  }

  lemma NoTokenBeforeSpaces(integrity: bytes, newChain: bool, spaces: bytes)
    requires forall i :: 0 <= i < |spaces| ==> IsSpace(spaces[i])
    ensures !Contains(Trailer(integrity, newChain) + spaces, TOKEN)
  {
    var digits, t := Hex.Encode(integrity), Trailer(integrity, newChain);
    var rest := t + spaces;
    forall i | 0 <= i <= |rest| - |TOKEN| ensures !OccursAt(rest, TOKEN, i) {
      var found := rest[i..i + |TOKEN|];
      assert found[0] == rest[i] && found[1] == rest[i + 1];
      if i < |digits| {
        assert rest[i] == digits[i];
      } else if i + 1 < |t| {
        assert rest[i + 1] == CHAIN_NEW[i + 1 - |digits|];
        assert found[1] == TOKEN[1] ==> rest[i + 1] == 105;
      } else {
        assert rest[i + 1] == spaces[i + 1 - |t|];
      }
    }
  }

  lemma {:induction false} SplitWithTokenInText(text: bytes, rest: bytes)
    requires Contains(text, TOKEN)
    ensures |Split(text + (TOKEN + rest), TOKEN)| > 2
  {
    var s := text + (TOKEN + rest);
    var k := Index(text, TOKEN);
    assert s[k..k + |TOKEN|] == text[k..k + |TOKEN|];
    assert OccursAt(s, TOKEN, k);
    var i := Index(s, TOKEN);
    assert i <= k;
    var after := s[i + |TOKEN|..];
    assert after == text[i + |TOKEN|..] + (TOKEN + rest);
    var at := |text| - i - |TOKEN|;
    assert after[at..at + |TOKEN|] == TOKEN;
    assert OccursAt(after, TOKEN, at);
  }

  lemma ParseWrittenLine(format: Format, text: bytes, integrity: bytes, newChain: bool)
    requires !Contains(text, TOKEN) && (format.Cef? && newChain ==> integrity != [])
    ensures Parse(format, Line(text, integrity, newChain))
            == Parsed(ParsedLogEntry(text, integrity, newChain, IsEndOfChain(text)))
  {
    hide Line, Trailer, Split, TrimSpace, Contains, Hex.Decode, HasSuffix, IsEndOfChain;
    SplitLine(text, integrity, newChain);
    if format.Cef? { TrailerIsTrimmed(integrity, newChain); }
    TrailerDecodes(integrity, newChain);
  }

  lemma ParseLineFails(format: Format, text: bytes, integrity: bytes, newChain: bool)
    requires Contains(text, TOKEN) || (format.Cef? && newChain && integrity == [])
    ensures !Parse(format, Line(text, integrity, newChain)).Parsed?
            || !Parse(format, Line(text, integrity, newChain)).entry.isNewChain
    ensures Contains(text, TOKEN) ==> Parse(format, Line(text, integrity, newChain)) == NoIntegrity
  {
    hide Split, TrimSpace, Contains, Hex.Decode, HasSuffix, IsEndOfChain;
    if Contains(text, TOKEN) {
      assert Line(text, integrity, newChain) == text + (TOKEN + Trailer(integrity, newChain));
      SplitWithTokenInText(text, Trailer(integrity, newChain));
    } else {
      SplitLine(text, integrity, newChain);
      EmptyIntegrityIsLost();
    }
  }

  lemma EmptyIntegrityIsLost()
    ensures !HasSuffix(TrimSpace(Trailer([], true)), CHAIN_NEW)
  {
    assert Trailer([], true) == CHAIN_NEW;
    assert TrimSpace(CHAIN_NEW) == CHAIN_NEW[1..];
  }

  /**
   Log line round trip. Parsing a written line gives back the text, the integrity value and the new-chain flag exactly
   if the text does not itself contain the token; in the CEF format an empty integrity value must not start a chain.
   */
  lemma LineRoundTrip(format: Format, text: bytes, integrity: bytes, newChain: bool)
    ensures Parse(format, Line(text, integrity, newChain))
            == Parsed(ParsedLogEntry(text, integrity, newChain, IsEndOfChain(text)))
            <==> !Contains(text, TOKEN) && (format.Cef? && newChain ==> integrity != [])
  {
    hide Line, Parse, Contains, IsEndOfChain;
    if !Contains(text, TOKEN) && (format.Cef? && newChain ==> integrity != []) {
      ParseWrittenLine(format, text, integrity, newChain);
    } else {
      ParseLineFails(format, text, integrity, newChain);
    }
  }

  /** A text that is itself the token: its line is read as one without an integrity value. */
  lemma TokenInTextExample(format: Format, integrity: bytes, newChain: bool)
    ensures Parse(format, Line(TOKEN, integrity, newChain)) == NoIntegrity
  {
    hide Line, Parse, Split;
    assert TOKEN[0..|TOKEN|] == TOKEN;
    assert OccursAt(TOKEN, TOKEN, 0);
    ParseLineFails(format, TOKEN, integrity, newChain);
  }
}
