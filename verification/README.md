# Verified model of Acra

Acra is a database proxy: it encrypts or tokenizes values in SQL statements on their way to the database and restores them on
the way back. This project models the parts of it whose correctness spans many functions or many runs, and proves what they
promise.

- **Tokenization** (`TokenValues`, `TokenProtocol`, `Pseudonymizer`, `Decimal`). Any number of instances share one token
  storage. The protocol is a state machine over atomic storage steps, any of which may fail; the tokenizer's methods are proved to
  take exactly those steps, with other instances acting before each of them. Agreement, uniqueness and reversibility hold in every
  reachable state.
- **Query rewriting** (`TokenRewrite`, `TokenMeaning`). `column = v` becomes `column = token(v)`, in place on the parse tree. The
  rewritten WHERE clause selects the same rows, in SQL's three-valued logic.
- **Envelopes and scanners** (`ByteStrings`, `Search`, `Scanner`, `AcraBlock`, `AcraStruct`, `Envelope`, `Detection`,
  `OldContainers`). Three nested binary formats with 64-bit lengths, and the loops that replace envelopes inside arbitrary
  buffers, one of them with its input and output in one array.
- **Audit log** (`AuditChain`, `AuditVerifier`, `AuditWriter`, `LogLine`, `Hex`). The integrity calculator, the writer as a state
  machine over interleaved entries, the line format and the verifier.
- **Normalization** (`QueryText`, `ParsedQuery`, `Normalizer`). Literals become bind variables, the printer records bind offsets,
  and generating the query from them restores the printed statement.
- **Column resolution** (`TableExprs`, `JoinTables`, `Resolution`, `SelectColumns`). Tables of joins in order, tables behind
  aliases and subqueries, and settings that line up with result columns.
- **Literal codecs** (`LiteralCodec`). PostgreSQL bytea hex and escape formats (sections 8.4.1 and 8.4.2 of the PostgreSQL
  documentation) and the coders that change a literal's type in place.

Hash functions are never taken to be injective: where a property depends on it, the conclusion is the property or an explicit
collision taken from the run. Where a property fails, the model keeps the code as it is and states exactly when the property
holds, with an input that shows the failure: AcraBlocks that end before their own key or whose length is no Go int, Gets that
fail, integer literals outside a 32-bit column, `<=>` on NULL cells, non-canonical numerals, casts inside IN lists, escape
strings, log texts that hold the integrity token, end messages of other goroutines, repeated join aliases, unqualified columns of
joins and subqueries, columns without a client id of their own. A runtime panic of the original is an outcome of its own, and
so is a loop that never ends.

`dafny verify dfyconfig.toml` checks the whole project.

## Model

| member | source | states |
|---|---|---|
| `TokenValues.EncodingRoundTrip` | pseudonymization/utils.go:24-75 | decoding the encoding of a value under its own type gives the value back, for all five value types and the whole 32- and 64-bit ranges |
| `TokenValues.NumbersAsText` | pseudonymization/utils.go:44-75 | under the two types for numbers kept as text, the encoding of a number decodes to its decimal text |
| `TokenValues.EncodingInjective` | pseudonymization/utils.go:44-75 | within one type, equal encodings come from equal values |
| `TokenValues.PreimageDetermines` | pseudonymization/tokenizer.go:137-155 | in one context the text that generateDataID hashes determines both the data and the token type |
| `TokenValues.ContextsApart` | pseudonymization/tokenizer.go:141-148 | two contexts have one key exactly if their additional contexts are equal and not empty, or both are empty and the client ids are equal |
| `TokenValues.PreimageOfContexts` | pseudonymization/tokenizer.go:137-155 | the hashed texts of one datum and type are equal in equal contexts only |
| `TokenValues.SameHashKey` | pseudonymization/tokenizer.go:137-165 | equal `h.` keys mean equal data and type, or the two preimages are an explicit collision of the hash |
| `TokenValues.KeysDisjoint` | pseudonymization/tokenizer.go:160-165 | an `h.` key is never a `t.` key |
| `TokenValues.KeysOfClients` | pseudonymization/tokenizer.go:137-165 | no storage key of one client, of either kind, is a key of another client, whatever the data and types |
| `TokenProtocol.StepKeepsInvariant` | pseudonymization/tokenizer.go:169-203 | every start, Get, failing Get, Save or breakdown of any instance keeps the store invariant: each `h.` entry's token has a `t.` entry with the data and type of the call that saved it, issued tokens keep their sources and are all different, and recorded outcomes stay true |
| `TokenProtocol.RunKeepsInvariant` | pseudonymization/tokenizer.go:345-383 | the store invariant holds after every interleaving of any number of instances, with any storage operation failing at any time |
| `TokenProtocol.Agreement` | pseudonymization/tokenizer.go:345-383 | in every reachable state, failing Gets included, all successful consistent calls for the same data, context and type have returned the same token |
| `TokenProtocol.RetriedGetFinds` | pseudonymization/tokenizer.go:357-381 | an instance that lost the race and goes back to Get finds the winner's token whenever the storage answers, and its call ends with it |
| `TokenProtocol.ExistsOnlyAfterLostRetry` | pseudonymization/tokenizer.go:357-381 | in every run a call ends with the already-exists error only if the storage failed to answer the Get that this call retried; a call whose Gets are answered never does |
| `TokenProtocol.SecondSaveFails` | pseudonymization/tokenizer.go:370-381 | the Save of the digest ends the call with already-exists exactly in the second round |
| `TokenProtocol.TwoLostGets` | pseudonymization/tokenizer.go:357-381 | from every reachable state in which the digest is bound, a call both of whose Gets fail can end with the already-exists error |
| `TokenProtocol.ExistsErrorOccurs` | pseudonymization/tokenizer.go:357-381 | a run of one instance in which the storage fails to answer both Gets of a call, and the call ends with the already-exists error, for every hash that tells three token keys apart |
| `TokenProtocol.TokensAreUnique` | pseudonymization/tokenizer.go:169-203 | no token is issued twice in one context and type |
| `TokenProtocol.IssuedDeanonymizes` | pseudonymization/tokenizer.go:386-409 | in every reachable state Deanonymize of any issued token returns its source |
| `TokenProtocol.Reversible` | pseudonymization/tokenizer.go:345-409 | Deanonymize of a returned token gives the data of the call, or the digest of the call collides with that of the recorded call which saved the entry |
| `TokenProtocol.TokensSeparate` | pseudonymization/tokenizer.go:345-383 | two calls with different data never share a token in one context and type, unless a recorded digest collides |
| `TokenProtocol.UnknownTokenUnchanged` | pseudonymization/tokenizer.go:386-409 | a token never issued in a context comes back from there unchanged, or its digest collides with that of a token issued there |
| `TokenProtocol.ForeignTokenUnchanged` | pseudonymization/tokenizer.go:386-409 | in every reachable state a token issued to a single client comes back unchanged from any other client's Deanonymize, or its digest collides with that of a token issued to that client |
| `Pseudonymizer.SharedStorage.Get` | pseudonymization/tokenizer.go:358-361 | a Get is one atomic step of the shared run: it returns what was saved, or fails, which the caller cannot tell from a miss |
| `Pseudonymizer.SharedStorage.SaveToken` | pseudonymization/tokenizer.go:191-200 | saving a candidate token is one atomic put-if-absent step of the shared run, or breaks the call off |
| `Pseudonymizer.SharedStorage.SaveHash` | pseudonymization/tokenizer.go:370-381 | saving the digest's token is one atomic put-if-absent step of the shared run, or breaks the call off |
| `Pseudonymizer.Pseudoanonymizer.GenerateNewValue` | pseudonymization/tokenizer.go:169-203 | with interference before every Save, at most ten candidates are tried; the result is the one that was saved, the limit error exactly when all ten were taken, or the failure of the storage or the random source |
| `Pseudonymizer.Pseudoanonymizer.Anonymize` | pseudonymization/tokenizer.go:291-342 | the run records the returned token, or the error, as the outcome of this call; data of another type is refused |
| `Pseudonymizer.Pseudoanonymizer.LookUp` | pseudonymization/tokenizer.go:357-361 | the Get of a round ends the call with what was found or goes on to draw; in the second round it goes on only if the Get failed |
| `Pseudonymizer.Pseudoanonymizer.SaveNew` | pseudonymization/tokenizer.go:362-382 | the rest of a round: a new token is bound to the digest, or the call goes back to Get, once; already-exists is returned only after a failed retried Get |
| `Pseudonymizer.Pseudoanonymizer.AnonymizeConsistently` | pseudonymization/tokenizer.go:345-383 | with interference and possible failure at every storage operation the loop ends after at most two rounds, the run records the result for exactly this call, and already-exists is returned only if a failure of the retried Get is among the events of the call |
| `Pseudonymizer.Pseudoanonymizer.Deanonymize` | pseudonymization/tokenizer.go:386-409 | an answered Get gives the protocol's Deanonymize on the storage; after a failed Get the token comes back as it is |
| `Pseudonymizer.RenderThenParse` | pseudonymization/dataTokenizer.go:38-90 | the column text of a value parses back to the value, for all token types |
| `Pseudonymizer.ParseThenRender` | pseudonymization/dataTokenizer.go:38-90 | column text survives parsing and rendering exactly when it is canonical: for integers no plus sign, no leading zeros, no negative zero, and within the range of the column's type |
| `Pseudonymizer.LeadingZeroIsLost` | pseudonymization/dataTokenizer.go:58-67 | the text 07 comes back as 7 |
| `Decimal.FormatParse` | pseudonymization/dataTokenizer.go:47-67 | formatting a parsed decimal gives back the text exactly when the text is a canonical numeral |
| `Decimal.ParseFormat` | pseudonymization/dataTokenizer.go:47-67 | parsing a formatted 64-bit integer gives the integer |
| `Decimal.ParseOutOfRange` | pseudonymization/dataTokenizer.go:46-67 | integers beyond 64 bits are refused |
| `Decimal.ParsePlus` | pseudonymization/dataTokenizer.go:46-67 | a plus sign is accepted |
| `Decimal.ParseRefuses` | pseudonymization/dataTokenizer.go:46-67 | a text without digits, or with anything but digits behind its first character, is no number |
| `Pseudonymizer.DataTokenizer.Tokenize` | pseudonymization/dataTokenizer.go:38-90 | on success the result is the rendered token that the run recorded for the parsed data; an error is the parse error or the failure that the run recorded |
| `Pseudonymizer.DataTokenizer.Detokenize` | pseudonymization/dataTokenizer.go:93-148 | the result is the rendered source of the parsed token in the current storage, or the token as rendered when the Get failed |
| `Pseudonymizer.TokenizeThenDetokenize` | pseudonymization/dataTokenizer.go:38-148 | in any later reachable state Detokenize of a tokenized datum gives the datum as rendered, which is the original text exactly when that is canonical, or the digests of two recorded calls collide |
| `TokenRewrite.ItemsExact` | encryptor/searchable_query_filter.go:151-225 | the filtered list holds exactly the comparisons that are eligible, each with the settings of its column |
| `TokenRewrite.PickedExact` | encryptor/searchable_query_filter.go:142-226 | a comparison is picked up exactly if its left column is searchable or consistently tokenized and its right side is a placeholder or a readable literal other than a hex number under =, != or <=>, with the left column's settings, or a searchable column, with that column's settings |
| `TokenRewrite.FilterSearchableComparisons` | encryptor/searchable_query_filter.go:59-84 | the walk collects the eligible comparisons of the tree in walk order and changes nothing |
| `TokenRewrite.PlaceholderOfValue` | encryptor/utils.go:491-519 | the placeholders $n and :vn stand for position n - 1 |
| `TokenRewrite.RewriteItem` | pseudonymization/tokenizeQuery.go:74-97 | an item without error has its operator reduced to = or != and its literal replaced, in place, by the encoding of a token that a recorded call returned for the literal's contents, which the token differs from; a numbered placeholder keeps its text and its settings are recorded at its position; an error is one of the stated failures |
| `TokenRewrite.RewriteNode` | pseudonymization/tokenizeQuery.go:74-97 | rewriting one comparison leaves every other comparison of the parse tree as it was |
| `TokenRewrite.OnQuery` | pseudonymization/tokenizeQuery.go:55-101 | without an error the whole parse tree is related to its old value by the rewrite, comparison by comparison, and the settings of all placeholders are recorded; an error is that of an eligible comparison (a placeholder without a number, undecodable, refused by the tokenizer in the recorded run, or equal to its token), and then exactly the comparisons before it are rewritten, its own operator is changed and nothing else is |
| `TokenMeaning.TokensFaithful` | pseudonymization/tokenizer.go:345-383 | tokens of one column compare equal exactly when their plaintexts do, or a recorded digest collides |
| `TokenMeaning.LeafExact` | encryptor/searchable_query_filter.go:87-94 | a rewritten comparison has the same truth value on the stored row as the original on the plaintext row exactly when the cell is not NULL under <=>, and a literal outside a 32-bit column's range does not wrap to the cell's value |
| `TokenMeaning.RewriteKeepsMeaning` | pseudonymization/tokenizeQuery.go:55-101 | the rewritten WHERE clause selects the row that any client stored exactly when the original selects the row, in three-valued logic and for whole trees of AND, OR, NOT, provided every rewritten column has a client id of its own or the reader is the writer; otherwise two recorded calls collide |
| `TokenMeaning.ColumnContexts` | pseudonymization/tokenizeQuery.go:193-198 | two clients use one context for a column exactly if the column has a client id of its own or the clients are equal |
| `TokenMeaning.ForeignRow` | pseudonymization/tokenizeQuery.go:187-203 | for a column without a client id of its own, column = v selects a row that another client stored before the rewrite, and after it exactly if the tokens of the two clients happen to be equal |
| `TokenMeaning.NegatedNullSafeLosesRows` | encryptor/searchable_query_filter.go:87-94 | NOT (column <=> v) on a NULL cell: selected before the rewrite and never after it |
| `TokenMeaning.WideLiteralSelects` | pseudonymization/dataTokenizer.go:46-56 | every literal beyond the range of its column selects, after the rewrite, a row that holds its truncation, and before it does not |
| `TokenMeaning.WideLiteralWraps` | pseudonymization/dataTokenizer.go:46-56 | on a 32-bit column, column = 4294967297 does not select the rows that hold 1 before the rewrite, and does after it |
| `TokenMeaning.NumericTokensLegible` | encryptor/dbDataCoder.go:179-222 | tokens of numeric columns survive every kind of literal, PostgreSQL escape strings included |
| `Scanner.ScanInto` | acrablock/utils.go:18-63 | the scanning loop computes the recursive replace function of the original input, also when input and output are one array and no replacement is longer than what it replaces; it ends, stays in range, never grows or leaves the shared array, and after a failure the bytes from the failing envelope on are intact |
| `Scanner.ScanWithoutReplacement` | acrablock/utils.go:18-63 | a scan whose every decision is to skip is the identity |
| `Scanner.ScanAborts` | acrablock/utils.go:40-46 | a scan fails with an error exactly when one of the decisions it takes is to abort with it |
| `AcraBlock.NewEmptyAcraBlock` | acrablock/acrablock.go:145-149 | a fresh block of the given length that starts with the tag |
| `AcraBlock.Build` | acrablock/acrablock.go:181-231 | filling in the lengths, the encrypted key and the encrypted data gives the specified layout, exactly when the block is long enough |
| `AcraBlock.KeyLengthReadBack` | acrablock/acrablock.go:181-216 | the key length that the second setter reads is the one the first wrote |
| `AcraBlock.CreateAcraBlock` | acrablock/acrablock.go:345-377 | the buffer holds the AcraBlock of the sealed data and the sealed data key |
| `AcraBlock.OverlongExact` | acrablock/acrablock.go:301-327 | a recognised block is cut out past the end of the data, with a runtime panic, exactly if its length field plus 4 lies between 2^63 and 2^64 |
| `AcraBlock.ExtractExact` | acrablock/acrablock.go:301-327 | a block of n bytes is recognised at exactly the data that begin with the tag, the length, the two backends around a key id, and at least a key length |
| `AcraBlock.Decrypt` | acrablock/acrablock.go:259-298 | the loop over the keys opens the block with the first key whose id matches and that decrypts; the unchecked slices index out of range exactly when the block ends before the key its key-length field announces |
| `AcraBlock.OverrunningBlock` | acrablock/acrablock.go:259-262 | a recognised block of 19 bytes that announces a key of 65535 bytes: decrypting it indexes out of range whatever the keys |
| `AcraBlock.UnsealWithRotatedKeys` | acrablock/acrablock.go:268-289 | the data key is recovered with any key list that holds the sealing key, at any position, even when 2-byte key ids collide |
| `AcraBlock.SealedOpens` | acrablock/acrablock.go:259-377 | creating a block and decrypting it with any rotated key list that holds the key gives the data, and the block is recognised with its full length |
| `AcraBlock.OpenedNeverGrows` | acrablock/acrablock.go:259-298 | decrypted data are at least 18 bytes shorter than the block |
| `AcraBlock.DecideInBounds` | acrablock/utils.go:30-57 | for every length field, every replacement consumes between one byte and what is left, and expands nothing if the processor does not |
| `AcraBlock.ProcessAcraBlocks` | acrablock/utils.go:18-63 | for every buffer the result is every block replaced by the processor's result, left to right, with separate buffers and with input and output aliased alike, or the first failure; whether the processor raised its flag is collected exactly; on a failure the input buffer is returned, untouched if the buffers are separate and intact from the failing block on if they are one |
| `AcraBlock.BlocksReplaced` | acrablock/utils.go:26-62 | p0 b1 p1 ... bn pn becomes p0 x1 p1 ... xn pn, where the processor returns xi for bi, for recognised blocks bi between gaps that do not hold the tag or, before a block, end in its symbol |
| `AcraBlock.BlocksRaise` | acrablock/utils.go:40-51 | between such gaps the processor is handed each block, so that its flag is raised exactly if it raises it on one of them |
| `AcraBlock.PassOutOfRange` | acrablock/utils.go:39-40 | a pass indexes out of range, outside the processor, exactly if it comes to an overlong block |
| `AcraBlock.OverlongBuffer` | acrablock/utils.go:39-40 | 19 bytes on which every pass indexes out of range, whatever the processor |
| `AcraBlock.PassNeverEnds` | acrablock/utils.go:40-51 | the loop runs for ever exactly if it comes to a block of declared length zero and the processor accepts the empty block |
| `AcraBlock.EndlessBuffer` | acrablock/utils.go:40-51 | a length field of 2^64 - 4 is such a block |
| `AcraStruct.Extract` | acrastruct/utils.go:71-93 | succeeds exactly when some prefix of the data is a valid AcraStruct, and then returns that prefix's length |
| `AcraStruct.ValidPrefixLength` | acrastruct/utils.go:55-68 | a valid prefix can only have the length its field declares, with the signed wrap-around of the sum |
| `AcraStruct.ValidExact` | acrastruct/utils.go:55-68 | data are an AcraStruct exactly if they are the tag, 129 bytes of keys, the length of the rest, and the rest |
| `AcraStruct.DecryptRotated` | acrastruct/utils.go:181-192 | the loop over the private keys returns the first success; no keys is its own error |
| `AcraStruct.SealedFields` | acrastruct/utils.go:195-239 | a created AcraStruct is valid and holds its parts at the specified places |
| `AcraStruct.SealedOpens` | acrastruct/utils.go:148-239 | creating an AcraStruct and decrypting it with any key list that holds the private key gives the data |
| `AcraStruct.DecideInBounds` | acrastruct/utils.go:35-140 | for every 64-bit length field, negative or wrapping, the scan consumes between one byte and what is left |
| `AcraStruct.ProcessAcraStructs` | acrastruct/utils.go:96-140 | for every buffer the loop ends in range and returns the recursive replace specification; whether the processor raised its flag is collected exactly; on an error the untouched input is returned |
| `AcraStruct.StructsReplaced` | acrastruct/utils.go:96-140 | AcraStructs between gaps that do not hold the tag or, before an AcraStruct, end in its symbol are each replaced by what the processor returns for them, and the gaps stay |
| `AcraStruct.StructsRaise` | acrastruct/utils.go:96-140 | between such gaps the processor is handed each AcraStruct |
| `Envelope.Validate` | crypto/registry_handler.go:229-245 | a container is accepted exactly when it is longer than its header, starts with the tag and carries a registered envelope id; an unknown id has its own error |
| `Envelope.SerializedFields` | crypto/registry_handler.go:153-258 | a serialized envelope, followed by anything, is recognised and deserializes to exactly what was wrapped, with its id and length |
| `Envelope.ProcessUnwraps` | crypto/registry_handler.go:72-98 | processing a serialized envelope is the decryption of the wrapped bytes by the handler of its id |
| `Envelope.HandlerRoundTrip` | crypto/acrablock.go:42-83 | both handlers decrypt what they encrypt, with any key list that holds the key |
| `Envelope.WrongKeys` | crypto/acrablock.go:42-68 | without keys, and with keys of which none is the sealing one, decryption fails with its own error in each case, for both handlers |
| `Envelope.EncryptThenProcess` | crypto/registry_handler.go:72-150 | encrypting then processing is the identity for values that are not envelopes, with the key anywhere in the rotated list; AcraStructs, AcraBlocks and containers of them are returned unchanged, and values whose recognition indexes out of range are told apart |
| `Envelope.EncryptKeepsEnvelopes` | crypto/registry_handler.go:107-110 | the values that encryption takes for envelopes are exactly the whole AcraStructs, the data that begin with an AcraBlock, and the containers of the one or the other, with every handler |
| `Envelope.BareIsKept` | crypto/registry_handler.go:107-110 | an AcraStruct or AcraBlock made by an application comes back from encryption unchanged, with every handler |
| `Envelope.ProcessBare` | crypto/registry_handler.go:86-98 | processing a bare AcraStruct or AcraBlock, with the key anywhere in the rotated list, returns the data it was made of; a block that is a valid AcraStruct as well is taken for that |
| `Envelope.ShortBlockIsNoStruct` | crypto/registry_handler.go:248-257 | only AcraBlocks of more than half a gigabyte can be valid AcraStructs as well |
| `Envelope.EncryptOutOfRange` | crypto/registry_handler.go:101-118 | encryption indexes out of range exactly on an overlong AcraBlock inside a container, or by itself unless the AcraStruct handler takes it for an AcraStruct first |
| `Envelope.OverlongIsNotEncrypted` | crypto/registry_handler.go:101-118 | 18 bytes of an overlong AcraBlock, and a container around them: encryption indexes out of range |
| `Envelope.EncryptIsIdempotent` | crypto/registry_handler.go:101-118 | a second encryption, with any handler, key and randomness, leaves an encrypted value alone |
| `Envelope.ProcessIgnoresTail` | crypto/registry_handler.go:174-212 | processing a container reads only its declared length, whatever follows |
| `Envelope.ProcessBounds` | crypto/registry_handler.go:134-269 | whenever processing succeeds the declared length lies above 12 and inside the data, and the plaintext is shorter than the wrapped envelope |
| `Envelope.ProcessOutOfRange` | crypto/acrablock.go:42-68 | processing indexes out of range exactly when the data are, or are a container of, a recognised AcraBlock that is overlong or, while keys are found, ends before its own key |
| `Envelope.SerializedOverruns` | crypto/registry_handler.go:153-171 | a container makes processing index out of range exactly if the AcraBlock it wraps does |
| `Envelope.OverrunningContainer` | crypto/acrablock.go:42-68 | a container around the overrunning block: processing it indexes out of range as soon as keys are found |
| `Envelope.SealedStaysInRange` | acrablock/acrablock.go:345-377 | blocks made by the encryptor never index out of range, whatever the keys |
| `Detection.DecryptCallbackIsSafe` | crypto/registry_handler.go:87-150 | the decrypting callback changes a container only if the unchecked declared length is above 12 and inside the data |
| `Detection.DecideProgresses` | crypto/envelope_detector.go:66-119 | a replaced container is skipped by a length above 12 and at most what remains |
| `Detection.ScanIsBounded` | crypto/envelope_detector.go:58-119 | every decision of the detector consumes at least one byte and none past the end; a panic inside a callback is a decision to abort |
| `Detection.ObserversChangeNothing` | crypto/envelope_detector.go:58-119 | with callbacks that only observe, the output is the input |
| `Detection.CallbacksOutOfRange` | crypto/envelope_detector.go:38-55 | the callbacks index out of range on exactly the containers whose AcraBlock ends before its own key |
| `Detection.ColumnOutOfRange` | crypto/envelope_detector.go:58-119 | with observers, the decrypting callback and callbacks that stay in range, a run over a column indexes out of range exactly if it visits a container whose AcraBlock ends before its own key; all other runs stay in range |
| `Detection.OverrunningColumn` | crypto/envelope_detector.go:58-119 | the 31-byte column that holds the overrunning container makes the run index out of range |
| `Detection.DecryptingCallbacksRecover` | crypto/envelope_detector.go:78-106 | observers, then the decrypting callback, then anything: a container that decrypts is replaced by its plaintext |
| `Detection.MisalignedTagIsSkipped` | crypto/envelope_detector.go:66-119 | a tag formed by the last bytes of a gap and the container reads envelope id 0 and is passed over |
| `Detection.FirstTagNearContainer` | crypto/envelope_detector.go:66-76 | in a gap without the tag the leftmost tag starts at most two bytes before the container |
| `Detection.EmbeddedContainersRecovered` | crypto/envelope_detector.go:58-119 | a column of gaps without the tag and containers that decrypt comes back with every container replaced by its plaintext and every gap intact, for any number of containers |
| `Detection.EncryptedValuesRecovered` | crypto/registry_handler.go:101-118 | the whole way: values encrypted by the registry, each with its own handler, key and randomness, and stored between bytes without a tag, all come back from the column, with any rotated key lists that still hold the keys |
| `Detection.QuietColumn` | crypto/envelope_detector.go:58-66 | a column too short for a container, or a detector without callbacks, changes and reports nothing |
| `Detection.EnvelopeDetector.AddCallback` | crypto/envelope_detector.go:33-35 | callbacks are kept in the order they were added |
| `Detection.EnvelopeDetector.OnCryptoEnvelope` | crypto/envelope_detector.go:38-55 | the result of the first callback that changes the container or fails |
| `Detection.EnvelopeDetector.OnColumn` | crypto/envelope_detector.go:58-119 | the loop returns the recursive replace specification, a callback's panic being one of its failures, reports a change exactly when some container was replaced and a match exactly when the wrapper's callback ran, and returns the input on failure |
| `OldContainers.OnEnvelopeShrinks` | crypto/envelope_detector.go:151-189 | with decrypting callbacks no bare AcraBlock is replaced by something longer |
| `OldContainers.OldContainerDetectorWrapper.OnColumn` | crypto/envelope_detector.go:198-231 | for every column: one with containers is left to the detector, any other gets the AcraStruct pass and then the AcraBlock pass in one aliased buffer, with the result of separate buffers; the decrypted flag and, after failures too, the matched flag are exact, as collected by the loops of the passes |
| `OldContainers.BareEnvelopesRecovered` | crypto/envelope_detector.go:198-231 | a column with bare AcraStructs between other bytes and, in what is left when they are decrypted, bare AcraBlocks between other bytes comes back with all of them replaced by the values they were made of, with any rotated key lists that hold the keys |
| `OldContainers.RaisesExact` | crypto/envelope_detector.go:192-195 | the wrapper's callback runs on exactly the bare envelopes that the callbacks before it leave alone |
| `OldContainers.BarePassOutOfRange` | crypto/envelope_detector.go:171-189 | the AcraBlock pass indexes out of range exactly if it visits a bare block that is overlong or ends before its own key |
| `OldContainers.StructPassInRange` | crypto/envelope_detector.go:151-168 | the AcraStruct pass always stays in range |
| `OldContainers.WrapperOutOfRange` | crypto/envelope_detector.go:198-231 | a column indexes out of range exactly if the detector visits an overrunning container or, after it found nothing, the AcraBlock pass visits an overrunning bare block |
| `OldContainers.WrapperEnds` | crypto/envelope_detector.go:171-189 | the wrapper never makes the AcraBlock pass run for ever |
| `OldContainers.OverrunningBareBlock` | crypto/envelope_detector.go:171-189 | the overrunning block by itself makes the AcraBlock pass index out of range |
| `AuditChain.LogEntryIntegrityCalculator.CalculateIntegrityCheck` | logging/audit_log.go:59-86 | the integrity value is the hash of the HMAC over the entry and the previous HMAC under the current key, the key is hashed for the next entry, and the first entry is flagged as a new chain |
| `AuditChain.LogEntryIntegrityCalculator.ResetCryptoKey` | logging/audit_log.go:50-56 | a reset puts the calculator in its initial state |
| `AuditChain.AfterIsRun` | logging/audit_log.go:59-86 | the calculator fed entry by entry computes the closed form of the chain |
| `AuditChain.SameMacSameEntries` | logging/audit_log.go:59-86 | two runs of equal length with equal final MAC are equal entry by entry, or walking them from the end returns an explicit collision |
| `AuditChain.ChainBinding` | logging/audit_log.go:59-86 | two equal-length entry sequences under one key with the same final integrity value are identical, or an explicit collision of the hash or of the HMAC under one key is exhibited |
| `AuditVerifier.AcceptsOneMore` | logging/integrity_verifier.go:59-110 | a log is accepted entry by entry: each new entry must start properly and carry the right value |
| `AuditVerifier.ChainTextsAre` | logging/integrity_verifier.go:77-94 | the texts of a chain are the raw data of the entries since the last entry that starts one |
| `AuditVerifier.CalculatorStep` | logging/integrity_verifier.go:77-104 | the calculator restarted at every new chain carries the state of the current chain |
| `AuditVerifier.IntegrityCheckVerifier.VerifyIntegrityCheck` | logging/integrity_verifier.go:59-110 | verified exactly when the source has no error, every line parses and every signed entry carries the calculator's output since the last chain start, with new chains only at the start or directly after an end of chain; otherwise the first offending entry and its error are returned |
| `AuditWriter.StepKeepsInvariant` | logging/audit_log.go:174-219 | every entry, with the end message or not, service message, finalization or reset keeps the log acceptable, the calculator in step with it, and the starts of chains where the calculator was restarted |
| `AuditWriter.RunKeepsInvariant` | logging/audit_log.go:174-219 | the writer's invariant holds after every interleaving of entries with finalizations and resets |
| `AuditWriter.LinesParse` | logging/log_entry_parser.go:84-140 | reading the written lines gives back the entries that were written |
| `AuditWriter.EveryRunVerifies` | logging/audit_log.go:174-219 | the lines of every run under one key are accepted by the verifier; a service end marker starts a chain exactly when another goroutine's end message stands directly before it inside a reset |
| `AuditWriter.MarkerNeverFirst` | logging/audit_log.go:212-219 | when only the service messages use the end message, the end marker is never the first entry of a chain |
| `AuditWriter.ForeignEndExample` | logging/audit_log.go:174-219 | a goroutine that logs the end message between the two service messages of a reset makes the end marker the first entry of a chain |
| `AuditWriter.AuditLogHandler.FormatAndWrite` | logging/audit_log.go:174-191 | one entry is signed and appended; after an end message under a key, whoever logs it, the calculator restarts |
| `AuditWriter.AuditLogHandler.SendServiceLogs` | logging/audit_log.go:212-219 | the log grows by the first service message, whatever other goroutines log in between and the end message, in this order, and only the last is an end marker |
| `AuditWriter.AuditLogHandler.FinalizeChain` | logging/audit_log.go:194-199 | the chain gets its end marker and the log stays acceptable |
| `AuditWriter.AuditLogHandler.ResetChain` | logging/audit_log.go:202-210 | after the end marker the calculator is initial again, so the next entry starts a new chain, and the log stays acceptable |
| `LogLine.NoOverlap` | logging/log_entry_parser.go:115-140 | a shifted copy of the integrity token cannot overlap the token |
| `LogLine.SplitLine` | logging/log_entry_parser.go:84-140 | a written line splits at the token into exactly the text and the appended part |
| `LogLine.LineRoundTrip` | logging/logging.go:345-356 | parsing a written line returns the text, the integrity bytes and the new-chain flag exactly when the text holds no token and, in CEF, an entry that starts a chain has a nonempty integrity value |
| `LogLine.EndOfChainExact` | logging/log_entry_parser.go:84-143 | a parsed entry ends a chain exactly if its signed text contains both the marker and the end message |
| `LogLine.CefIgnoresSpace` | logging/log_entry_parser.go:84-112 | white space at the end of a CEF line changes nothing |
| `LogLine.TokenInTextExample` | logging/log_entry_parser.go:115-123 | the line of a text that is itself the token is read as one without an integrity value |
| `QueryText.TrackedBuffer.WriteArg` | sqlparser/tracked_buffer.go:129-137 | the argument is appended and its offset and length are recorded |
| `QueryText.TrackedBuffer.Myprintf` | sqlparser/tracked_buffer.go:70-126 | formatting a node appends the text of its format with every child formatted in place, and the recorded locations stay those of the arguments |
| `QueryText.TrackedBuffer.FormatLiteral` | sqlparser/ast_methods.go:1330-1362 | each literal type in its own quotes; a bind argument is printed by name only under the value mask, else as a question mark |
| `QueryText.PiecesPrinted` | sqlparser/ast_methods.go:200-330 | the pieces of a tree read as the SQL text that is given for each node type and literal type by an equation of its own |
| `QueryText.TrackedBuffer.FormatList` | sqlparser/ast_methods.go:1183-1189 | list types print their elements with the lead before the first and commas between |
| `QueryText.TrackedBuffer.FormatNode` | sqlparser/ast_methods.go:1201-1268 | the buffer's text grows by exactly the SQL text of the tree, one equation per node type and literal type, and its bind locations by those of the arguments |
| `ParsedQuery.LocationOfArg` | sqlparser/tracked_buffer.go:129-137 | bind offsets are exact: at the location of each argument the text is that argument |
| `ParsedQuery.LocationsOrdered` | sqlparser/tracked_buffer.go:129-137 | bind locations are in order, disjoint and inside the text |
| `ParsedQuery.EncodeValue` | sqlparser/parsed_query.go:74-92 | a scalar is encoded by its type, a tuple as its encoded values with commas in parentheses |
| `ParsedQuery.FetchExact` | sqlparser/parsed_query.go:93-119 | a bind argument finds a variable exactly if its name is bound and a list argument stands for a tuple with elements, any other for no tuple; each of the four errors has its exact condition |
| `ParsedQuery.GenerateQuery` | sqlparser/parsed_query.go:48-71 | one pass over the bind locations gives the pieces with every argument replaced by the extra of its name, else by its bind variable's encoding, or the first failure |
| `ParsedQuery.UnusedExtras` | sqlparser/parsed_query.go:57-65 | extras that no bind argument names change nothing |
| `Normalizer.Normalizer.NewName` | sqlparser/normalizer.go:195-205 | the search for a name ends, and the name is new and masked |
| `Normalizer.PiecesNames` | sqlparser/normalizer.go:208-224 | GetBindvars finds every argument that a statement prints by name |
| `Normalizer.Normalizer.ConvertSQLVal` | sqlparser/normalizer.go:128-140 | a convertible literal becomes a variable of its own, with its cast, and reads as before; variables under taken names are kept |
| `Normalizer.Normalizer.ConvertSQLValDedup` | sqlparser/normalizer.go:88-125 | short literals with one key share one variable, strings and numbers never share a key, and the literal reads as before |
| `Normalizer.Normalizer.ConvertComparison` | sqlparser/normalizer.go:147-174 | the right-hand side becomes a list variable exactly when it is a tuple of convertible literals under IN or NOT IN; the variable reads as the tuple without casts |
| `Normalizer.Normalizer.Walk` | sqlparser/normalizer.go:62-86 | the new tree stands for the old one without lost casts under the new variables, every convertible literal is replaced, and inside a Select equal short literals share variables |
| `Normalizer.Normalize` | sqlparser/normalizer.go:34-59 | the new statement means the old one without lost casts, under the new variables, and no string literal and no number that parses is left in it |
| `Normalizer.NothingLeft` | sqlparser/normalizer.go:62-195 | whatever the tree, no literal that can become a variable is left after the walk |
| `Normalizer.ListBecomesOne` | sqlparser/normalizer.go:145-172 | a tuple of string and number literals under IN or NOT IN becomes one list variable |
| `Normalizer.EqualLiteralsShare` | sqlparser/normalizer.go:87-125 | equal literals of at most 256 characters inside a Select become the same variable |
| `Normalizer.NormalizeAndGenerate` | sqlparser/normalizer.go:34-205 | normalizing, printing and generating gives what generating the original gives; for a statement without bind arguments that is its printed text byte for byte, exactly when no cast stands inside a list under IN |
| `Normalizer.StripExact` | sqlparser/normalizer.go:147-174 | the text without the lost casts equals the original text exactly when there are none |
| `Normalizer.LostCastExample` | sqlparser/normalizer.go:147-174 | a cast on a literal of an IN list, as in c in (1::int), is lost, and the text with it |
| `Normalizer.MaskNeeded` | sqlparser/ast_methods.go:1340-1353 | with a prefix other than the mask every variable is printed as a question mark and no query can be generated |
| `Normalizer.SameKey` | sqlparser/normalizer.go:104-119 | variables found under one deduplication key are written alike |
| `JoinTables.JoinCollector.ParseJoinTablesInfo` | encryptor/utils.go:51-90 | accepts exactly the left-deep joins whose right-hand sides are named tables or parenthesised joins, and then collects the tables from right to left with their aliases |
| `JoinTables.JoinCollector.GetRightJoinTableInfo` | encryptor/utils.go:95-130 | a named table is added unless its alias is known; a parenthesis stands for the first join inside it; anything else is refused |
| `JoinTables.CollectedOrder` | encryptor/utils.go:51-130 | the collected list reversed is the left-to-right leaf order exactly when no right-hand table repeats the alias of a table further right |
| `JoinTables.PlainJoinOrder` | encryptor/utils.go:51-130 | for left-deep joins of named tables with parenthesised joins on the right, the collected list reversed is the order in which the tables are written |
| `JoinTables.RepeatedAliasExample` | encryptor/utils.go:120-127 | in a join b as x join c as x the table b is passed over |
| `JoinTables.VisitAliases` | encryptor/utils.go:51-130 | with distinct aliases the collected map binds each alias to its table and nothing else |
| `TableExprs.GetFirstTableWithoutAlias` | encryptor/utils.go:151-181 | the first table of a leading join, or the only table without an alias; it occurs in the FROM tree |
| `TableExprs.JoinFirstExact` | encryptor/utils.go:134-147 | the first table of a chain of joins is found exactly if the leftmost expression is a table without an alias |
| `Resolution.FindInExprsSound` | encryptor/utils.go:305-397 | every table found in a FROM list occurs in the FROM tree |
| `Resolution.FindInExprSound` | encryptor/utils.go:305-397 | every table that findTableName names occurs in the FROM tree, through any nesting of aliases, joins, parentheses and subqueries |
| `Resolution.FindInSelectSound` | encryptor/utils.go:335-377 | resolution through a subquery names a table of the subquery's own FROM tree |
| `Resolution.FindInExprSource` | encryptor/utils.go:305-397 | for one table expression: findTableName gives what the meaning of its subqueries, by their written-out result columns, gives |
| `Resolution.FindInExprsSource` | encryptor/utils.go:305-397 | for a whole FROM list, through subqueries at any depth: findTableName names exactly the base table and column that the result column stands for, and not-found exactly when there is none, provided every unqualified result column of a subquery belongs to the table that getFirstTableWithoutAlias picks |
| `Resolution.FindInSelectSource` | encryptor/utils.go:335-376 | the same for a result column looked up inside a subquery: its first output column of that name decides |
| `Resolution.PlainTablePicked` | encryptor/utils.go:340-349 | that pick is right for every subquery over a single table without an alias |
| `Resolution.UnqualifiedInSubquery` | encryptor/utils.go:340-349 | over tables in lists and joins of any shape, an unqualified result column of a subquery is traced to its real table exactly when, behind a leading join, that is the leftmost table and has no alias, or else is the only listed table without an alias |
| `Resolution.UnqualifiedSubqueryExample` | encryptor/utils.go:340-349 | in (select x from a, b as c) d the column d.x is said to come from a, also when only b has it |
| `SelectColumns.GetMatchedTable` | encryptor/utils.go:203-264 | the loop computes the match of an unqualified column over the FROM list |
| `SelectColumns.MatchedTableExact` | encryptor/utils.go:203-264 | for every FROM list: behind a leading join the leftmost table if it has no alias; else the only listed table whose schema has the column, with ambiguity, a subquery in the way and no match told apart exactly |
| `SelectColumns.FindColumnInfo` | encryptor/utils.go:183-201 | a resolved column names a table of the FROM tree |
| `SelectColumns.ColumnSourceExact` | encryptor/utils.go:183-201 | for FROM lists of tables, joins and subqueries: findColumnInfo finds exactly the base table and column that the names of the FROM clause give, and fails exactly when they give none |
| `SelectColumns.ColumnItem` | encryptor/queryDataEncryptor.go:383-415 | a plain column's item carries the setting, table and column that the schema has for the source of the column, and there is no item if the schema has none |
| `SelectColumns.UnqualifiedInJoin` | encryptor/utils.go:208-214 | an unqualified column of a join is looked up in its real table exactly when the leftmost table owns it and has no alias; else in no table, or in the wrong one |
| `SelectColumns.UnqualifiedExample` | encryptor/utils.go:208-214 | in a join b an unqualified column that only b has is looked up in a |
| `SelectColumns.MapColumnsToAliases` | encryptor/utils.go:399-488 | the loop over the select list computes the entries of every result expression, or the first error |
| `SelectColumns.QueryDataEncryptor.OnSelect` | encryptor/queryDataEncryptor.go:376-421 | the settings are those of all entries in order, one per schema column for a star; on an error they are left as they were |
| `SelectColumns.StarAligned` | encryptor/queryDataEncryptor.go:383-415 | SELECT * over one table or one plain join, every table with a schema: always succeeds, with exactly one setting per result column, table by table as written and column by column as configured |
| `SelectColumns.StarByPosition` | encryptor/queryDataEncryptor.go:383-415 | in SELECT * the item at the place of column i of table k carries the setting, table and column of exactly that column |
| `SelectColumns.StarInList` | encryptor/utils.go:465-485 | a star over a list of several tables stands for the only one without an alias, whatever its qualifier, or else for the base table behind the qualifier |
| `SelectColumns.SelectAligned` | encryptor/queryDataEncryptor.go:383-415 | any select list of stars, qualified stars, columns and scalar subqueries: the settings line up by position with the result columns, and each column has the setting of the table it is looked up in, or none; a scalar subquery has that of its own result expression over its own tables |
| `SelectColumns.SingleSettingExact` | encryptor/utils.go:413-445 | the setting of any other result expression, by recursion through scalar subqueries, is the one its table's schema gives |
| `SelectColumns.SingleEntry` | encryptor/utils.go:413-445 | every result expression other than a star has exactly one entry |
| `LiteralCodec.EncodeToOctal` | utils/dbByteArrayEncoders.go:31-48 | the loop computes the octal escape form |
| `LiteralCodec.DecodeOctal` | utils/dbByteArrayEncoders.go:51-88 | the loop with index jumps computes the inverse of the escape form, and fails exactly where that is undefined |
| `LiteralCodec.OctalRoundTrip` | utils/dbByteArrayEncoders.go:31-88 | octal text decodes to the original bytes, for all bytes |
| `LiteralCodec.EscapedRoundTrip` | utils/dbByteArrayEncoders.go:91-114 | hex and octal forms both decode to their bytes and are never confused |
| `Hex.RoundTrip` | utils/dbByteArrayEncoders.go:91-96 | hex text decodes to the original bytes |
| `Hex.UpperRoundTrip` | encryptor/dbDataCoder.go:79-117 | upper-case hex text decodes to the original bytes |
| `LiteralCodec.EncodeThenDecode` | encryptor/dbDataCoder.go:48-222 | for both databases and every supported literal type encoding succeeds, and the literal then decodes to the data except exactly when it is a PostgreSQL escape string and the data are valid UTF-8 that reads as an escaped form |
| `LiteralCodec.DecodeForms` | encryptor/dbDataCoder.go:48-177 | each written form of a literal's contents is read back, per database and literal type, and text that is in no escaped form is read as it is |
| `LiteralCodec.EscapeStringExample` | encryptor/dbDataCoder.go:179-222 | the four characters of the hex escape of A, put into a PostgreSQL escape string, decode to A |
| `LiteralCodec.EncodeInto` | encryptor/dbDataCoder.go:79-222 | encoding may change the literal's type in place and returns the new text; an error changes nothing |
| `LiteralCodec.UpdateExpressionValue` | encryptor/queryDataEncryptor.go:163-213 | at most one literal is reached, through parentheses and the _binary introducer; a changing update stores the new data, unchanged data and undecodable literals are errors that change nothing |
| `LiteralCodec.UpdatedTypes` | encryptor/queryDataEncryptor.go:163-213 | per database, exactly the literal types whose contents can be read are updated; the other database's own type is an error, any other type is left alone |

## Left out

- Themis Secure Cell and Secure Message, SHA-256, HMAC, strconv and utf8: function values with stated contracts; that the cipher and hash contracts can be met is proved in `Consistency.dfy`.
- Random sources: every token, key and nonce is an arbitrary value of its type.
- Token storage back ends, token expiry, disabling and removal: the storage is one atomic put-if-absent map that returns what was saved.
- Encrypted keys of 65536 bytes or more and buffers near the maximal int: outside the modelled sizes.
- AcraBlock.ProcessAcraBlocks: after an error with one shared array, the bytes before the failing block are not described; the original's comment says that the input is returned as it is, which holds for separate buffers only.
- TokenValues.EncodingRoundTrip: fixed-width fields that are too short are an error of the model, where the original panics.
- AuditWriter.AuditLogHandler.FormatAndWrite: formatting and writing an entry is one atomic step; JSON and CEF rendering, log levels and file handling are not modelled.
- LogLine.LineRoundTrip: plaintext and CEF lines only; TrimSpace knows ASCII spaces, and splitting a file into lines is not modelled.
- Prepared statements: the values bound later (`OnBind`).
- TokenRewrite.FilterSearchableComparisons: one table whose columns are already resolved; comparisons inside subqueries and join conditions are not collected.
- TokenRewrite.OnQuery: the WHERE clause over one table; DELETE is not modelled.
- TokenMeaning.RewriteKeepsMeaning: a token inside a PostgreSQL escape string must not read as an escaped form (always so for numeric columns), by the codec's own exception.
- Normalizer.Normalizer.Walk: the tree is rebuilt as a value instead of being changed in place, so sharing of nodes is not captured.
- QueryText.TrackedBuffer.Myprintf: format strings are given already split at their verbs.
- QueryText.TrackedBuffer.FormatNode: node formatters, dialects, ESCAPE, the FROM and RETURNING parts of UPDATE, and node types outside the reduced tree are not modelled.
- ParsedQuery.GenerateQuery: extras are given by the text they write; a name with nothing behind its first character is an error of the model, where the original indexes out of range.
- The generated parser, comments and hints inside identifiers, and case folding of identifiers: names are canonical and trees are as the grammar builds them.
- Resolution.FindInExprsSource: subqueries that are unions or have no alias are outside the statement, and a result column that only a star of a subquery provides counts as not found, as in the original.
- SelectColumns.SelectAligned: tables without a schema get a single empty setting whatever their width, and FROM lists of several tables are not aligned by the original; both are outside the statement.
- RETURNING clauses, INSERT and UPDATE settings, sessions, masking, searchable encryption, the censor, poison records, key storage, the network layer and the command-line tools.
