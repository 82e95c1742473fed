# Canonical wire layer and pin/report tools: a verified model

The project models, in Dafny, the parts of the repository where one wrong branch or one misplaced byte
changes what an interoperability result means, and proves what those parts promise.

* **Wire layer** (`Heads`, `Decoder`, `Skimming`, `Trees`, `OlderDecoder`, `CanonicalMap`, `Slicer`,
  `Arrays`, `Denotation`, `Items`, `Recoding`, `Lookups`, `KnownAnswers`): the canonical-ECF encoder and decoder of
  `tools/arc-probe/wire.go`, a deterministic CBOR profile (RFC 8949, heads as in section 4.2.1,
  length-first key order as in section 4.2.3), and the older decoder of `tools/p47-probe/main.go`. The
  encoder sorts its argument in place, keeps the first of equal keys and counts the rest. The decoder is
  a cursor over a byte string. The slicer copies map entries out of an envelope as raw bytes. The
  theorems are the round trip in any context, prefix-freeness, locality of decoding, "the encoding is a
  function of the value and determines it", verbatim replay, exactly when a decoder dies, and the exact
  fixed points of re-encoding, for one map and for whole items. The examples of RFC 8949, Appendix A, fix
  what single heads mean.
* **Identity and content** (`Base58`, `Entities`, `Peers`, `Identities`): invertibility of base58, the 46-character
  peer identifier, the content address as a function of type and data that loses neither, and the two
  scans over forwarded material.
* **Requests** (`Envelopes`, `RequestFields`, `Sessions`): `session.do`, whose meaning depends on append
  order, sort stability and keep-first removal acting together. The theorems say what the receiving decoder
  reads in each field and what it resolves at each address.
* **Framing** (`Framing`): the length-prefixed reader over a transport that splits bytes freely.
* **Pin closure** (`PinClosure`): the worklist of `tools/koji-pin.py` computes the least closed set, and
  the separate audit agrees with it under an exact condition.
* **Reports** (`PeerContract`, `SweepVerify`): evaluator, certificate and checker of
  `tools/peer-contract/report.py`; the total-key comparison of `tools/sweep-verify.py`.

## How the model is written

Code that loops or updates state is a method, or a method of a class with the source's fields
(`CanonicalMap.Encoder` holds the drop counter, `Envelopes.Session` the session, `Framing.Conn` the
connection), proved equal to a specification function. The properties are then proved about that
function. Pure code is functions and lemmas.

Bytes are integers 0 to 255 and a byte string is a sequence of them. Go's 64-bit words are modelled where
they matter: `TWO_64` bounds what a head can carry, major type 1 wraps as `int64` does, and the running
decoder computes `p+int(arg)` in 64-bit arithmetic, compares it and slices, in the source's order. Its
specification uses the outcome of those statements, which `Decoder.StringPanicsExactlyWhen` proves equal
on every buffer whose length is an `int`, as a Go slice's is. SHA-256 and Ed25519 signing are
function-valued parameters of which only the output sizes (32 and 64 bytes) are used. A result that
rests on the hash names the two inputs, always different, whose hashes would have to collide for it to
fail; injectivity is not assumed. A Go map
`map[string]interface{}` is keyed by byte strings: a text key by its own bytes, a byte-string key by its
hexadecimal form. Key kinds are not kept apart, because the source does not keep them apart; where
that makes a text key hide a byte-string key, a lemma says so.

## Where the code and its own description differ

* `verifyCapMat` is described as re-hashing type and data. The code compares the carried
  `content_hash` field with the map key. `Identities.SelfCheckExactly` says when the two agree, for entries
  under a format-0 key whose value has a text type, data, and no two keys of one decoded name: when the
  claim is the hash of the raw type and data, or the key is neither of the two.
* `do` drops forwarded entries at the probe's own address so that the forgery is what the receiver finds
  there. It is not when the forwarded material holds another encoding of the same address, an alias: the
  address under a longer head, or a text key spelling it in hexadecimal.
  `Envelopes.SubstitutionHoldsExactly` gives the exact condition, `Sessions.AliasDefeatsSubstitution` a
  failing request.
* `dec` reports an error for a string longer than its buffer, except when the end of the string is not
  representable in an `int`; then the slice expression panics. `Skimming.DecDiesExactlyWhen` is the exact
  condition on a whole buffer, `Skimming.PanicWitness` nine bytes that meet it.
* `rawIncluded` and `rawMapEntries` read one or two header bytes without a bounds check.
  `Slicer.IndexPanicExactlyWhen` says on which envelopes that stops the program; a buffer that `dec`
  accepts, which is how they are called, is never one of them.
* The checker of reports compares no row's level, evidence kind, threshold, case ids, control flags or
  test names with the registry. `PeerContract.CertificateMeansExactly` says when an accepted certificate
  nevertheless means what the rules say; `PeerContract.RelabelledCertificate`,
  `PeerContract.UnlistedCaseCertificate` and `PeerContract.UnrelatedTestCertificate` are three that do not. The evaluator's own reports always do (`PeerContract.EvaluatedCertificateBears`).
* The older probe's decoder indexes argument bytes unchecked and stores text keys only.
  `OlderDecoder.OlderAgainstChecked` relates it to the checked decoder on every buffer.
* The content address loses neither type nor data as long as the data is one complete encoded item.
  `Entities.IncompleteDataWitness` shows two different pairs with equal hashed bytes when it is not.
* The audit accepts what the resolver prints if and only if each locked requirement resolves to its
  requirer's own source package (`PinClosure.AuditAcceptsEmit`); nothing in the resolver ensures that, and
  `PinClosure.RejectedRun` is a run it rejects.

## Model

| member | source | states |
|---|---|---|
| `Bytes.HexInjective` | tools/arc-probe/wire.go:111-112 | Two byte-string keys are filed under one Go map name only if they are the same key. |
| `Bytes.HexDigitsInOrder` | tools/arc-probe/wire.go:200-202 | The digits of that form are 0 to 9 and a to f, in this order. |
| `Bytes.KeyOrderTotal` | tools/arc-probe/wire.go:78-84 | The comparison handed to the sort is irreflexive, asymmetric and total on byte strings. |
| `Bytes.KeyOrderTransitive` | tools/arc-probe/wire.go:78-84 | It is transitive, hence a strict total order. |
| `Bytes.KeyOrderExactly` | tools/arc-probe/wire.go:78-84 | One key comes before another iff it is shorter, or as long and smaller at the first position where they differ. |
| `Heads.WriteHead` | tools/arc-probe/wire.go:35-52 | The encoder's five cases and its shifting loop write the initial byte and big-endian argument of `Head`. |
| `Heads.ReadOwnHead` | tools/arc-probe/wire.go:35-52 | A written head reads back as its major type and argument, for every 64-bit argument and every size boundary. |
| `Heads.ReadWrittenHead` | tools/arc-probe/wire.go:114-155 | A written head standing anywhere in a buffer reads back as its major type and argument. |
| `Heads.HeadIsShortest` | tools/arc-probe/wire.go:35-52 | No head the decoder reads as the same argument is shorter than the written one, and one of equal length is the written one byte for byte. |
| `Heads.ReadHeadLocal` | tools/arc-probe/wire.go:114-155 | Recognising a head depends on the head's own bytes only. |
| `Decoder.ReadArgument` | tools/arc-probe/wire.go:141-155 | The shift-and-or loop computes the big-endian number of the argument bytes. |
| `Decoder.Dec` | tools/arc-probe/wire.go:114-216 | Decoding is defined on every byte string and start; a success has advanced by at least one byte and not past the end. |
| `Decoder.Decode` | tools/arc-probe/wire.go:114-216 | The running decoder, with its cursor, its 64-bit sums and its error returns in source order, computes `Dec` on every buffer whose length is an `int`. |
| `Decoder.DecodeItems` | tools/arc-probe/wire.go:172-183 | The array loop computes the recursive array specification, for every claimed count. |
| `Decoder.DecodeMap` | tools/arc-probe/wire.go:184-205 | The map loop, storing text keys as they are, byte-string keys in hexadecimal and dropping others, computes the recursive map specification. |
| `Decoder.DecLocal` | tools/arc-probe/wire.go:114-216 | Any buffer holding the consumed bytes, at any position, decodes to the same value and length. |
| `Decoder.DecInContext` | tools/arc-probe/wire.go:114-216 | A complete item decodes to its value with any bytes before and after it. |
| `Decoder.SpanIsComplete` | tools/arc-probe/wire.go:260-261 | The span a decode consumed, cut out, decodes to the same value and is consumed whole. |
| `Decoder.PrefixFree` | tools/arc-probe/wire.go:114-216 | No complete item is a proper prefix of another. |
| `Decoder.SplitUnique` | tools/arc-probe/wire.go:114-216 | A buffer splits into a complete item and a rest in only one way. |
| `Decoder.StringPanicsExactlyWhen` | tools/arc-probe/wire.go:162-171 | The source's statements (wrapped sum, comparison with the length, slice expression) give a string iff its end lies in the buffer, an error iff it lies behind it but is representable, and a panic iff it is at least 2^63. |
| `Skimming.SkimIsDec` | tools/arc-probe/wire.go:114-216 | The recursive decoder succeeds, ends and fails exactly as one linear scan with a count of items still owed, which builds no value. |
| `Skimming.SkimSplit` | tools/arc-probe/wire.go:172-204 | Scanning several items is scanning the first ones and then, from where they end, the others. |
| `Skimming.DecDiesExactlyWhen` | tools/arc-probe/wire.go:162-171 | On a whole buffer the decoder stops the program iff that scan reaches the head of a string whose end is at least 2^63. |
| `Skimming.NoLongStringNoPanic` | tools/arc-probe/wire.go:162-171 | If no position at or behind the start reads as the head of such a string, the decoder returns a value or an error. |
| `Skimming.PanicWitness` | tools/arc-probe/wire.go:162-166 | A nine-byte input that stops the program. |
| `Trees.ParseIsDec` | tools/arc-probe/wire.go:114-216 | The decoded value is a function of the item tree with its keys as written; errors and ends are the tree reader's. |
| `OlderDecoder.OldArgument` | tools/p47-probe/main.go:121-143 | The older decoder's unchecked argument reads stop the program iff an argument byte is missing, and otherwise compute the same number. |
| `OlderDecoder.OldDecode` | tools/p47-probe/main.go:111-199 | The older decoder as it runs computes the view of the item tree that stores text keys only, and dies where an argument is cut. |
| `OlderDecoder.OldItems` | tools/p47-probe/main.go:156-167 | Its array loop does so for every claimed count. |
| `OlderDecoder.OldMap` | tools/p47-probe/main.go:168-187 | Its map loop does so, dropping every key that is not a text. |
| `OlderDecoder.OlderAgainstChecked` | tools/p47-probe/main.go:111-199 | On every buffer it dies iff the checked decoder dies or reports a missing argument byte, reports every other error alike, ends in the same place, and yields the same value where no byte-string key is stored. |
| `OlderDecoder.OlderStops` | tools/p47-probe/main.go:126-128 | A one-byte body stops it that the checked decoder refuses. |
| `OlderDecoder.OlderForgets` | tools/p47-probe/main.go:182-184 | A four-byte map decodes to an empty map in the older decoder and to one entry in the checked one. |
| `OlderDecoder.TextKeysStored` | tools/p47-probe/main.go:182-184 | One more entry with a text key sets that name, over earlier entries; one with any other key changes nothing. |
| `CanonicalMap.SiftLeft` | tools/arc-probe/wire.go:78-84 | Swapping a pair leftwards past every pair with a greater key inserts it behind all pairs not greater, leaving the others in place. |
| `CanonicalMap.StableSort` | tools/arc-probe/wire.go:78-84 | The in-place sort leaves the stably sorted list in the caller's array. |
| `CanonicalMap.SortIsStable` | tools/arc-probe/wire.go:78-84 | Sorting keeps, key by key, the values and their order. |
| `CanonicalMap.SortedIsAscending` | tools/arc-probe/wire.go:78-84 | The sorted list never descends in length-first key order. |
| `CanonicalMap.StableSortUnique` | tools/arc-probe/wire.go:78-84 | Two ascending lists with the same values per key are equal, so every stable sorting algorithm gives the same result. |
| `CanonicalMap.SortThenDedup` | tools/arc-probe/wire.go:77-92 | The stable sort followed by the removal of equal neighbours computes the finite map of the pairs, first binding winning, in key order: the same list as inserting each new key in its place. |
| `CanonicalMap.Emit` | tools/arc-probe/wire.go:93-98 | The writing loop gives the map head and the pairs laid end to end. |
| `CanonicalMap.Encoder.DropDuplicates` | tools/arc-probe/wire.go:85-92 | The comparison with the previous pair keeps one pair of each run of equal keys and bumps the counter once per dropped pair. |
| `CanonicalMap.Encoder.Encode` | tools/arc-probe/wire.go:60-99 | The caller's slice ends up sorted, the result is the encoding of the finite map its old contents describe, and `dedupDropped` grows by exactly the pairs not emitted. |
| `CanonicalMap.Encoder.EncodeArguments` | tools/arc-probe/main.go:217-222 | A call that lists its pairs encodes them in a slice made for the call and counts the dropped ones. |
| `CanonicalMap.CanonicalMeaning` | tools/arc-probe/wire.go:65-99 | The emitted keys strictly ascend by length and then by the first differing byte, and the emitted pairs are exactly the input's pairs whose key has not come before. |
| `CanonicalMap.FirstValueExactly` | tools/arc-probe/wire.go:85-92 | The value a list keeps for a key is the one of the first pair with that key. |
| `CanonicalMap.CanonicalDependsOnBindings` | tools/arc-probe/wire.go:65-99 | Two argument lists emit the same pairs iff they have the same first value for every key. |
| `CanonicalMap.CanonicalFixpoint` | tools/arc-probe/wire.go:77-99 | A list is emitted unchanged iff its keys strictly ascend. |
| `CanonicalMap.CanonicalIdempotent` | tools/arc-probe/wire.go:77-99 | Canonicalising twice is canonicalising once. |
| `CanonicalMap.DistinctKeepsAll` | tools/arc-probe/wire.go:77-99 | Without a repeated key nothing is dropped and the emitted list is the sorted one. |
| `CanonicalMap.DedupMattersExactlyOnDuplicates` | tools/p47-probe/main.go:85-99 | The older encoder without duplicate removal writes the same bytes iff no key is repeated. |
| `CanonicalMap.KeyOrderOnContents` | tools/arc-probe/wire.go:77-84 | Encoded keys of one string type come in the order of their contents, shorter first and then by the first differing byte, across all head sizes. |
| `Slicer.SliceMap` | tools/arc-probe/wire.go:268-305 | The entry loop computes `RawMapEntries`: the raw key and value bytes of each entry, or the error of the first one that does not decode. |
| `Slicer.WalkTo` | tools/arc-probe/wire.go:247-264 | The envelope loop finds the raw value of the first entry whose key is the wanted text. |
| `Slicer.FindAmong` | tools/arc-probe/wire.go:247-264 | In complete pairs laid end to end the walk finds the value of the first key with the wanted text. |
| `Slicer.SliceIncluded` | tools/arc-probe/wire.go:227-266 | Walking the envelope and slicing its included map computes `RawIncluded`, no entries when there is no such map. |
| `Slicer.SpansFacts` | tools/arc-probe/wire.go:287-304 | The slices are complete items that, laid end to end, are the bytes walked over, and their values are what the decoder reads there. |
| `Slicer.SpansOfFlatten` | tools/arc-probe/wire.go:287-304 | Complete pairs laid end to end are sliced back to the same pairs, whatever stands before them. |
| `Slicer.StringComplete` | tools/arc-probe/wire.go:54-55 | An encoded text or byte string is one complete item that decodes to it. |
| `Slicer.CMapComplete` | tools/arc-probe/wire.go:77-99 | The encoding of complete pairs is one complete item, the map of the emitted pairs' values. |
| `Slicer.CMapInjective` | tools/arc-probe/wire.go:77-99 | Two lists of complete pairs are encoded to the same bytes iff they are the same finite map. |
| `Slicer.RawOfCMap` | tools/arc-probe/wire.go:268-305 | Slicing an encoded map returns its sorted, deduplicated pairs byte for byte if they number fewer than 65536, and refuses the map otherwise. |
| `Slicer.EnvelopeSlices` | tools/arc-probe/wire.go:227-266 | Slicing an envelope is slicing the item its included field was built from. |
| `Slicer.EnvelopeOrder` | tools/arc-probe/main.go:255-258 | The two envelope fields are already in canonical order, "root" first. |
| `Slicer.VerbatimReplay` | tools/arc-probe/wire.go:218-305 | From an envelope, the slicer returns exactly the pairs the included map was built from, and encoding them again gives the included map's original bytes. |
| `Slicer.ReencodeFixpoint` | tools/arc-probe/wire.go:268-305 | Re-encoding a wholly sliced map reproduces it iff its count head is shortest and its keys strictly ascend, whatever its raw values are. |
| `Slicer.ReencodeIdempotent` | tools/arc-probe/wire.go:77-99 | On every accepted input, slicing and re-encoding gives a map that slicing and re-encoding leaves alone. |
| `Slicer.IncludedIsComplete` | tools/arc-probe/wire.go:218-266 | Whatever is returned from an envelope is a list of complete items. |
| `Slicer.SlicerSafeOnDecoded` | tools/arc-probe/wire.go:227-283 | On a buffer the decoder accepts, no unchecked read is out of bounds and no entry fails to decode: the slicer succeeds or reports a map it does not support. |
| `Slicer.IndexPanicExactlyWhen` | tools/arc-probe/wire.go:227-286 | On every input, an unchecked header read stops the program iff the envelope itself is a map whose head is cut; the inner map's head is always whole. |
| `Slicer.SlicerPanicWitness` | tools/arc-probe/wire.go:229-245 | A one-byte envelope on which the unchecked read stops the program while the decoder reports an error. |
| `Arrays.WriteArr` | tools/arc-probe/wire.go:101-107 | The loop writes the array head and the items laid end to end. |
| `Arrays.ArrComplete` | tools/arc-probe/wire.go:101-107 | An array of complete items is one complete item that decodes to their values in order. |
| `Denotation.DecodedBinding` | tools/arc-probe/wire.go:184-205 | The decoded Go map binds a name to the value that came first in the encoder's input under the greatest encoded key of that name. |
| `Denotation.DecodedNames` | tools/arc-probe/wire.go:184-205 | A name is bound iff some input key has it. |
| `Denotation.AliasIsGreater` | tools/arc-probe/wire.go:78-84 | Among all keys with one hexadecimal name the encoder's own byte-string key is the least. |
| `Denotation.HashBinding` | tools/arc-probe/wire.go:77-99 | Without an alias in the list, an address resolves to the entry that came first under it. |
| `Denotation.AliasBinding` | tools/arc-probe/wire.go:184-205 | With an alias in the list, the address resolves to what came first under the greatest alias, whatever is filed under the address itself. |
| `Denotation.BoundWithoutAlias` | tools/arc-probe/wire.go:184-204 | Without an alias, what a reader finds at an address is what came first under it, and nothing if it does not occur. |
| `Denotation.AliasDecides` | tools/arc-probe/wire.go:184-204 | Two lists that agree on the aliases of an address, and have one, resolve it alike, whatever they file under the address itself. |
| `Items.EncodeDecodes` | tools/arc-probe/wire.go:35-216 | The encoding of every nested value (unsigned and negative integers, strings, arrays, maps, booleans, null) is one complete item that decodes to the value's meaning. |
| `Items.RoundTrip` | tools/arc-probe/wire.go:35-216 | In any context, the decoder at the start of such a value's encoding returns its meaning and the position just past it. |
| `Items.EncodingsPrefixFree` | tools/arc-probe/wire.go:35-216 | No value's encoding is a proper prefix of another's, and equal encodings have equal meaning. |
| `Items.EncodingIsOfTheValue` | tools/arc-probe/wire.go:35-107 | When a name is never a text key in one place and a byte-string key in another, two nested values have the same encoding iff they decode to the same value: order and repetition of entries leave no trace at any depth. |
| `Items.ReencodeWholeValue` | tools/arc-probe/wire.go:35-216 | Encoding any such value that has the decoded value of a canonical item reproduces the item's bytes. |
| `Items.TextKeyHidesByteKey` | tools/arc-probe/wire.go:198-203 | Encoding a text key and the byte-string key it spells in hexadecimal, in either order, decodes to a map with the text key's value alone. |
| `KnownAnswers.SimpleValues` | tools/arc-probe/wire.go:205-213 | Simple value 20 is false, 21 is true, and that of every other 64-bit argument is null. |
| `KnownAnswers.NegativeValues` | tools/arc-probe/wire.go:160-161 | Argument n of major type 1 is -1-n if it is below 2^63, and otherwise the number that differs from it by 2^64. |
| `KnownAnswers.Numbers` | tools/arc-probe/wire.go:114-161 | 0, 23, 24, 100, 1000, -1 and -100 decode as in RFC 8949, Appendix A. |
| `KnownAnswers.Simples` | tools/arc-probe/wire.go:205-213 | So do false, true and null. |
| `KnownAnswers.StringItems` | tools/arc-probe/wire.go:162-171 | So do the empty strings, the bytes 1 to 4 and the text "a". |
| `KnownAnswers.ArrayItems` | tools/arc-probe/wire.go:172-183 | So do the empty array and [1, 2, 3]. |
| `KnownAnswers.EmptyMap` | tools/arc-probe/wire.go:184-205 | So does the empty map. |
| `KnownAnswers.MapItem` | tools/arc-probe/wire.go:184-205 | The map from the text "a" to 1 decodes to that one binding. |
| `KnownAnswers.KeysStored` | tools/arc-probe/wire.go:197-202 | One more entry sets the name a text key is, or the hexadecimal form a byte-string key has, over earlier entries, and changes nothing under a key of any other kind. |
| `KnownAnswers.Errors` | tools/arc-probe/wire.go:114-216 | One input for each error of the decoder. |
| `KnownAnswers.SliceErrors` | tools/arc-probe/wire.go:227-285 | An envelope that is no map, one with an over-long head and one without the included field get the first, the second error and no entries. |
| `Recoding.RecodeIsCanon` | tools/arc-probe/wire.go:35-107 | Re-encoding any complete item from its raw parts, at every depth, gives a complete item with shortest heads and strictly ascending keys throughout. |
| `Recoding.RecodeExactly` | ffi-generator/c-abi/spec/entitycore_codec.h:127-132 | That re-encoding is the identity on an item iff the item is canonical at every depth, for every item the decoder accepts. |
| `Recoding.RecodeIdempotent` | ffi-generator/c-abi/spec/entitycore_codec.h:127-132 | Re-encoding twice is re-encoding once, on every complete item. |
| `Recoding.RecodePreserves` | tools/arc-probe/wire.go:35-216 | Where no map files two entries under one decoded name, the re-encoded item decodes to the same value, whatever heads and key order it was written with. |
| `Base58.AlphabetIsTheSources` | tools/arc-probe/wire.go:363 | The letter of each digit is the one in the source's alphabet. |
| `Base58.DivideOut` | tools/arc-probe/wire.go:370-374 | The division loop ends and leaves the base-58 letters of the number, least significant first. |
| `Base58.Reversed` | tools/arc-probe/wire.go:381-383 | The in-place swaps reverse the letters. |
| `Base58.EncodeBase58` | tools/arc-probe/wire.go:365-385 | The three loops together compute the specification: one '1' per leading zero byte, then the number's letters. |
| `Base58.Base58RoundTrip` | tools/arc-probe/wire.go:365-385 | A decoder exists that recovers every byte string from its encoding. |
| `Base58.Base58Injective` | tools/arc-probe/wire.go:365-385 | Different byte strings have different encodings. |
| `Base58.LeadingOnesAreLeadingZeros` | tools/arc-probe/wire.go:375-380 | The leading '1's number exactly the leading zero bytes, so the first significant digit is not zero. |
| `Base58.LettersLength` | tools/arc-probe/wire.go:370-374 | A number between consecutive powers of 58 has exactly that many letters. |
| `Base58.PowersApart` | tools/arc-probe/wire.go:387-391 | 58^45 <= 2^264 and 2^264 + 2^256 <= 58^46. |
| `Base58.PeerIdLength` | protocol-generator/asm-arm64/tools/peers-scope-test.c:154-160 | The identifier of every 32-byte key has exactly 46 characters and no leading '1'. |
| `Base58.PeerIdInjective` | tools/arc-probe/wire.go:389-391 | Different keys have different identifiers. |
| `Base58.PeerIdStandsFor` | tools/arc-probe/wire.go:387-391 | Decoded, the identifier is the bytes 1 and 0 followed by the public key. |
| `KnownAnswers.Base58Answers` | tools/arc-probe/wire.go:363-391 | The bytes 0, 1, 0 are written 15R, no bytes as no letters, and the identifier of the empty key is 5R. |
| `Entities.BasisLayout` | tools/arc-probe/wire.go:330-332 | In the hashed bytes "data" and its value come before "type" and its value. |
| `Entities.BasisInjective` | tools/arc-probe/wire.go:330-332 | Two hashed byte strings are equal iff type and data are, for data that is one complete item. |
| `Entities.ContentAddressing` | tools/arc-probe/wire.go:336-339 | Equal content hashes mean equal type and data, or exhibit two inputs on which the hash collides. |
| `Entities.IncompleteDataWitness` | tools/arc-probe/wire.go:330-332 | Two different pairs of type and incomplete data with equal hashed bytes. |
| `Entities.EntityDecodes` | tools/arc-probe/wire.go:341-347 | An entity decodes to a map with its type, its data's value and its content hash. |
| `Entities.ClaimDecodes` | tools/arc-probe/wire.go:341-347 | The same fields under any claimed hash decode to exactly what was claimed. |
| `Entities.FieldBinding` | tools/arc-probe/wire.go:77-99 | In a record with different text labels, each label decodes to its own value. |
| `Envelopes.ComposeSigned` | tools/arc-probe/main.go:183-226 | The root is built from the fields in order, hashed, and signed with the key and signer address of the arm; no field is dropped as a duplicate. |
| `Envelopes.Substitute` | tools/arc-probe/main.go:227-241 | The loop appends everything not filed under the probe's own address to a slice of its own, counts what it displaced, and files the impostor there. |
| `Envelopes.Refile` | tools/arc-probe/main.go:246-253 | The first forwarded entry under the real token's address, if any, is filed again under the bogus address. |
| `Envelopes.Seal` | tools/arc-probe/main.go:255-258 | The envelope holds root and included map, encoded from a slice that is sorted in place, and the only duplicates counted are repeated included keys. |
| `Envelopes.Compose` | tools/arc-probe/main.go:183-258 | The composed request is the specified one, and the count of displaced entries is exact. |
| `Envelopes.Session.Do` | tools/arc-probe/main.go:162-261 | One request advances the counter by one, sends the specified bytes, records the displaced entries in the mis-keyed arm only, and leaves the elements of the session's capability slice, and of one the request brings along, as they were although the encoder sorts in place. |
| `Envelopes.RequestDecodes` | tools/arc-probe/main.go:255-258 | A request is one complete item whose root data and included map decode to what was composed. |
| `RequestFields.RequestReads` | tools/arc-probe/main.go:183-190 | For every request of every ready session, the receiver reads under "request_id" the tag and the number, under "uri", "operation" and "params" what the caller gave, under "author" the address of the identity acting, and under "capability" the bogus address in both bogus arms and else the capability in use. |
| `RequestFields.ResourceReads` | tools/arc-probe/main.go:191-205 | Under "resource" it reads the given targets and exclusions in order; the exclusions are absent if there are none, the whole field if there are no targets. |
| `RequestFields.DecimalReads` | tools/arc-probe/wire.go:562-565 | The number in the request's identifier is in decimal digits without a leading zero, and is the counter. |
| `RequestFields.RootHashRead` | tools/arc-probe/main.go:206-207 | The root has the execute type and carries the hash that is signed. |
| `RequestFields.SignatureFound` | tools/arc-probe/main.go:224-226 | Without an alias of its address in the forwarded material, the signature entity is what the receiver finds there. |
| `RequestFields.SignatureReads` | tools/arc-probe/main.go:209-226 | In it the receiver reads as target the content hash the root carries, as signer the probe's address except where the impostor acts openly, and a signature over the target, made with the impostor's key in both impostor arms and the probe's own otherwise. |
| `Envelopes.ResolvedFrom` | tools/arc-probe/main.go:224-258 | The receiver resolves any address to what the forwarded material binds by itself, if that has an alias of it, and otherwise to what the request files there first. |
| `Envelopes.ForwardedResolves` | tools/arc-probe/main.go:238-245 | Every address other than the signature's, the author's and the bogus one resolves as in the forwarded material alone. |
| `Envelopes.AuthorField` | tools/arc-probe/main.go:183-190 | The receiver reads the author's address in the root's author field. |
| `Envelopes.AuthorSubstitution` | tools/arc-probe/main.go:224-245 | For every request: the receiver resolves the filed address to the impostor in the mis-keyed arm and to the author's entity in every other arm, whatever repeated keys the material carries, unless the material has an alias of the address or the signature is filed there; what is found then is stated too. |
| `Envelopes.SubstitutionHoldsExactly` | tools/arc-probe/main.go:224-245 | The substitution holds iff the forwarded material has no alias of the address, or by itself already binds the address to the filed entity. |
| `Envelopes.MisKeyedRequestResolvesToImpostor` | tools/arc-probe/main.go:214-241 | In the mis-keyed arm the request names the probe's address as its author, and that address resolves to the impostor under exactly the condition above. |
| `Envelopes.RefiledCapabilityResolves` | tools/arc-probe/main.go:246-258 | The bogus address resolves to the real token in the mis-keyed capability arm and to nothing in the others, unless the forwarded material binds that address by itself. |
| `Envelopes.SignatureAddressIsItsOwn` | tools/arc-probe/main.go:224-226 | The signature is not filed under the content hash of an entity of another type, or the hash collides on two exhibited inputs. |
| `Sessions.DialledReady` | tools/arc-probe/wire.go:580-704 | Every request of a dialled session, with real peer entities and forwarded material of complete items, meets the standing premises of the request theorems. |
| `Sessions.DialledSubstitutes` | tools/arc-probe/main.go:162-261 | For a dialled session whose material is keyed by content hashes, in every request and whatever the material repeats: the filed address resolves to the filed entity iff the hash of this request's own signature basis differs from the hash of the filed peer's basis; the two bases always differ, and if their hashes collide the signature is found instead. |
| `Sessions.ReplayResolves` | tools/arc-probe/wire.go:218-305 | With material sliced out of an envelope the encoder wrote, every address the request does not file itself resolves as the envelope's included list binds it. |
| `Sessions.AnyAnswerResolves` | tools/arc-probe/wire.go:218-305 | With material sliced out of any decodable envelope in which no two entries have one decoded name, every such address resolves as in that envelope's own decoded included map. |
| `Sessions.SpelledAddressWins` | tools/arc-probe/main.go:224-245 | In every session, one forwarded entry that spells the filed address as a text key decides what the receiver finds there. |
| `Sessions.AliasDefeatsSubstitution` | tools/arc-probe/main.go:224-245 | A dialled session and a request whose mis-keyed author does not resolve to the impostor. |
| `Sessions.PremisesMet` | tools/arc-probe/main.go:162-261 | A dialled session and a request with both mis-keying arms exist that meet every premise of the request theorems at once. |
| `Peers.PeerDataDecodes` | tools/arc-probe/wire.go:599-604 | A peer's data decodes to its public key and key type. |
| `Identities.ReadPeerEntry` | tools/arc-probe/wire.go:422-441 | One forwarded entry is skipped, or yields the non-empty public key other than our own that its peer entity carries. |
| `Identities.CollectIds` | tools/arc-probe/wire.go:420-442 | The loop collects exactly the identifiers of the distinct candidate keys. |
| `Identities.IdsCount` | tools/arc-probe/wire.go:443-452 | Counting distinct identifiers is counting distinct keys. |
| `Identities.KeysOfEntities` | tools/arc-probe/wire.go:420-442 | In material made of entities, the candidates read are exactly the non-empty public keys other than our own that peer entities carry. |
| `Identities.RemotePeerId` | tools/arc-probe/wire.go:420-452 | For material made of entities, some of them peers' and filed under whatever keys: the result is the identifier of the one non-empty public key other than our own, says that there is none iff there is none, and otherwise gives the number of distinct ones; for any other sliced material it says the same of the candidates read. |
| `Identities.VerifyCapMat` | tools/arc-probe/wire.go:498-531 | The loop counts exactly the bad entries, unless an entry's declared length stops the program. |
| `Identities.JudgeExactly` | tools/arc-probe/wire.go:498-531 | Per entry, the exact condition for each of the three verdicts: counted, passed over, or stopping the program, including keys of other hash formats (passed over) and undecodable keys (counted). |
| `Identities.SelfCheckExactly` | tools/arc-probe/wire.go:487-531 | For every entry under a format-0 key whose value is a map with a text type, data, and names apart: the raw data hashed again is a complete item with the decoded data's value, and the count is right iff the claim is the hash of that, or the key is neither the claim nor that hash. |
| `Identities.RehashesWhatIsDecoded` | tools/arc-probe/wire.go:487-531 | Hashing again is possible iff the decoded map has a data field, and what is hashed is a complete item whose value is that field. |
| `Lookups.RawFieldIsDecoded` | tools/arc-probe/wire.go:247-264 | In any decoded map whose names are apart, the raw bytes a walk over the entries finds first under a text are one complete item with the value the decoder stores, and nothing is found iff nothing is stored. |
| `Identities.RehashedClaim` | tools/arc-probe/wire.go:330-347 | Hashing again the type and raw data of an encoded entity gives its content hash, whatever hash it claims. |
| `Identities.SelfCheckOfClaims` | tools/arc-probe/wire.go:487-531 | For every type, data, claimed hash and key of format 0: the entry is counted iff the key is not the claim, which is right iff the claim is true or the key is neither the claim nor the true hash. |
| `Identities.HonestEntryCheck` | tools/arc-probe/wire.go:487-497 | An entity built with its true hash and filed under a format-0 hash is counted iff that is not its own content hash. |
| `Identities.ForgedEntryPasses` | tools/arc-probe/wire.go:498-531 | Content that merely claims the hash it is filed under is never counted. |
| `Identities.SlicedEntitiesPassTheCheck` | tools/arc-probe/wire.go:487-497 | Slicing an included map of correctly filed entities out of its envelope leaves nothing to count: a non-zero count is never the slicing's fault. |
| `Identities.SlicedMaterialIsSafe` | tools/arc-probe/wire.go:218-305 | Material sliced out of any envelope stops neither scan: every entry decodes. |
| `Framing.Conn.ReadFull` | tools/arc-probe/wire.go:314-326 | The read loop fills the buffer with the next bytes of the stream, however they are split, iff that many arrive before a read fails, where a read that delivers bytes together with an error fails even if it fills the buffer. |
| `Framing.ReadBody` | tools/arc-probe/wire.go:538-549 | Header and body reads return the frame's bytes or the reason there is none, and leave the stream just behind what was read. |
| `Framing.ReadOneFrame` | tools/pa-probe/main.go:147-176 | The outcome (envelope, closed or silent) is a function of the concatenated bytes and of how the stream ends. |
| `Framing.OutcomeExactly` | tools/pa-probe/main.go:147-176 | Each of the four outcomes under its exact condition on the bytes: silent iff too few come before a deadline, closed for too few before the end, an implausible length, a body that does not decode and one that is no map. |
| `Framing.ReadSecond` | tools/p47-probe/main.go:255-291 | The second answer on one connection is what the older decoder makes of the frame behind the first, whether or not the first decodes, and the stream is left behind what was read. |
| `Framing.OldJudgeAgainstJudge` | tools/p47-probe/main.go:111-291 | Against the bounds-checked reader: the older probe stops iff that one crashes or the body has a cut argument, takes a map from the same bodies, and the same map where no byte-string key is stored. |
| `Framing.ReadFrames` | tools/arc-probe/wire.go:533-549 | Repeated header-plus-body reading receives frame after frame and leaves the stream behind the last. |
| `Framing.FrameReadBack` | tools/arc-probe/wire.go:309-312 | A framed envelope is read back, leaving what follows, iff its length is between 1 and 2^24, with the length word's 32 bits taken into account. |
| `Framing.StreamRecovered` | tools/arc-probe/wire.go:309-326 | Repeated reading receives a sequence of envelopes byte for byte and in order, and leaves what follows them, for every split of the bytes; each is judged as it would be by itself. |
| `Framing.CutFrameYieldsNothing` | tools/pa-probe/main.go:147-176 | A stream cut strictly inside a frame yields no envelope; the outcome says whether it closed or fell silent. |
| `Framing.TakenFrame` | tools/arc-probe/wire.go:538-549 | A frame that is read is the framing of its body followed by what is left. |
| `PinClosure.Emit` | tools/koji-pin.py:290-342 | The worklist ends over a finite universe and takes each package once: the pins in order, then for each package in turn its requirements not known before; the grouped packages are the least set closed under resolvable same-version requirements; the unresolved pins are listed in order and the result is 0 iff there is none. |
| `PinClosure.FiledOnce` | tools/koji-pin.py:322 | A package is found iff it stands in the group of its own source, version and release; no group repeats a member, and no other group of that version and release has a member of its name. |
| `PinClosure.GroupMembers` | tools/koji-pin.py:322 | A group holds exactly the resolved packages with its key, each name once. |
| `PinClosure.KeysFacts` | tools/koji-pin.py:322-338 | The printed group keys are exactly those of resolved packages, each once. |
| `PinClosure.AddedBehind` | tools/koji-pin.py:306-338 | Processing more packages only adds groups behind the groups and members behind the members there are: both stand in the order in which they were found. |
| `PinClosure.LostAre` | tools/koji-pin.py:305-317 | A package is reported lost iff it was processed and does not resolve. |
| `PinClosure.FindMissing` | tools/koji-pin.py:395-400 | The inner loop lists the requirements that are real packages and not pinned. |
| `PinClosure.AuditGroup` | tools/koji-pin.py:386-405 | The group loop, enlarging `have` as it goes, produces the specified report lines. |
| `PinClosure.Audit` | tools/koji-pin.py:372-409 | The count is the number of report lines over all groups, and the result is 0 iff it is 0. |
| `PinClosure.NoReports` | tools/koji-pin.py:386-405 | No line is reported iff every name's requirements are pinned, although `have` grows on the way. |
| `PinClosure.AuditExact` | tools/koji-pin.py:372-409 | Nothing is reported iff every resolvable locked requirement of every pinned resolvable name is pinned in its own group. |
| `PinClosure.ReportedOnce` | tools/koji-pin.py:395-405 | Within a group no requirement is reported twice, and those reported are exactly the ones needed and lacking. |
| `PinClosure.ReportedUnder` | tools/koji-pin.py:386-405 | A requirement the group lacks is reported under the first pinned name that needs it, and each line holds exactly what its name is the first to need. |
| `PinClosure.AuditAcceptsEmit` | tools/koji-pin.py:290-409 | The audit accepts the groups the resolver prints iff every locked requirement found resolves to its requirer's source package. |
| `PinClosure.RejectedRun` | tools/koji-pin.py:290-409 | A run in which the resolver reports success and the audit rejects the groups it prints. |
| `PeerContract.SplitCases` | tools/peer-contract/report.py:126-129 | The four comprehensions give the recorded cases and the ids of missing, failed and held ones, in listed order. |
| `PeerContract.EvaluateRow` | tools/peer-contract/report.py:122-159 | The branches compute the row that `RowExactly`, `DriverPassExactly` and `LocalPassExactly` describe: verdict, reason and evidence of one requirement. |
| `PeerContract.Evaluate` | tools/peer-contract/report.py:117-160 | One row per requirement, in registry order. |
| `PeerContract.DriverPassExactly` | tools/peer-contract/report.py:16-17 | A driver requirement passes iff every listed case is recorded and passes and a listed control is among them, and is unknown iff a listed case has no record. |
| `PeerContract.LocalPassExactly` | tools/peer-contract/report.py:142-155 | Over test names spelled out: of the tests whose name starts with the requirement's, dots replaced by underscores and two underscores added, some ended ok or FAILED, none FAILED and enough ended, iff it passes; it is unknown iff none ended, and fails otherwise. |
| `PeerContract.LastRecord` | tools/peer-contract/report.py:120 | Of several records of one case the last one counts. |
| `PeerContract.NoRecord` | tools/peer-contract/report.py:120 | A case has no record iff none carries its id. |
| `PeerContract.RowExactly` | tools/peer-contract/report.py:122-159 | A row is declined iff its module was not measured as a pass and is declared so, and then keeps what was measured and the declared reason; otherwise it carries the measured verdict, and a reason iff that is not a pass. It lists the tests that ended and carry the requirement's prefix. |
| `PeerContract.DriverReasonExactly` | tools/peer-contract/report.py:133-140 | The reason names exactly the listed cases without a record, or else exactly the failed ones, or else that no control held. |
| `PeerContract.LocalReasonExactly` | tools/peer-contract/report.py:148-155 | The reason names exactly the failed tests, or else that none ran, or else how many of the required number ran. |
| `PeerContract.CertifyExactly` | tools/peer-contract/report.py:163-166 | A certificate is refused iff the core failed, a REQUIRED row does not pass, or a MODULE row neither passes nor is declined. |
| `PeerContract.PassIsSupported` | tools/peer-contract/report.py:283-289 | No evaluated row is one whose own evidence fails to support its pass. |
| `PeerContract.CheckReport` | tools/peer-contract/report.py:278-298 | The errors found, in order; there is none iff the report is an accepted one. |
| `PeerContract.RowErrorsExactly` | tools/peer-contract/report.py:285-290 | A passing driver row is an error iff it has no case, a failing one, or no control that passes; a passing local row iff fewer tests ran than it says are required; no other row is. |
| `PeerContract.CheckerAcceptsEvaluator` | tools/peer-contract/report.py:117-298 | Rows from the evaluator with the verdict computed over them are accepted, for any evidence, at the current contract and at any other. |
| `PeerContract.AcceptedCertificate` | tools/peer-contract/report.py:278-298 | An accepted certificate at the current contract has a row for every requirement, and every row labelled REQUIRED passes on its own evidence. |
| `PeerContract.CertificateMeansExactly` | tools/peer-contract/report.py:278-298 | Accepted certificates with given row labels (level, evidence kind, threshold, case ids, test names) bear every REQUIRED requirement by its own rule iff those labels agree with the registry, or the labels admit no certificate at all. |
| `PeerContract.RelabelledCertificate` | tools/peer-contract/report.py:278-298 | A report that relabels its one REQUIRED requirement as a declined module is accepted as a certificate. |
| `PeerContract.UnlistedCaseCertificate` | tools/peer-contract/report.py:278-298 | A certificate is accepted whose one REQUIRED row passes on a case the requirement does not list, while the listed one was never recorded. |
| `PeerContract.UnrelatedTestCertificate` | tools/peer-contract/report.py:278-298 | A certificate is accepted whose one REQUIRED row counts a test of another requirement, while no test with its own prefix ran. |
| `PeerContract.EvaluatedPassBears` | tools/peer-contract/report.py:15-20 | A row the evaluator passes satisfies the requirement's full rule: every listed case recorded and passing and a registry control among them, or enough tests run that carry the requirement's prefix. |
| `PeerContract.EvaluatedCertificateBears` | tools/peer-contract/report.py:117-166 | A certificate over the evaluator's own rows, for requirements of different names, bears every REQUIRED requirement. |
| `PeerContract.DriverMonotone` | tools/peer-contract/report.py:125-141 | A passing driver requirement still passes under better evidence. |
| `PeerContract.LocalMonotone` | tools/peer-contract/report.py:142-155 | A passing local requirement still passes under better evidence. |
| `PeerContract.CertificationMonotone` | tools/peer-contract/report.py:163-166 | Turning failing cases into passing ones, or failed and ignored tests into ok ones, never loses a certificate. |
| `SweepVerify.SevMap` | tools/sweep-verify.py:35-58 | One entry per check, with ordinals 0 to n-1 for every (category, name), each carrying the severity that came at that place. |
| `SweepVerify.OrdinalIsNeeded` | tools/sweep-verify.py:36-50 | A map keyed by (category, name) alone has as many entries as there are checks iff no pair repeats. |
| `SweepVerify.MovedExactly` | tools/sweep-verify.py:100 | Nothing moved iff for every (category, name) both reports carry the same severities in the same order. |
| `SweepVerify.NothingMovedSharesAll` | tools/sweep-verify.py:94-98 | When nothing moved the two maps have the same keys, so the coverage test adds nothing. |
| `SweepVerify.Compare` | tools/sweep-verify.py:71-112 | The comparison is ok iff both reports exist, both maps are non-empty, no budget was exhausted, nothing failed, and the severities agree everywhere. |

## Left out

- Sockets, deadlines, the handshake, half-close and JSON output: I/O. The transport is the list of byte pieces that will arrive and whether it ends by closing or by a deadline.
- SHA-256 and Ed25519: uninterpreted parameters; only their output sizes are used.
- CanonicalMap.StableSort: an insertion sort, which is how the library's stable sort orders each block; its merging of blocks is not modelled, because any stable sort returns the same list (CanonicalMap.StableSortUnique).
- Decoder.Decode: error positions and message texts, and the Go stack limit for deeply nested input, are not modelled.
- Envelopes.Session.Do: `append` is modelled as always taking a new backing array; sending and decoding the answer is modelled in Framing.
- PinClosure.Emit: package lookup and requirement inspection are deterministic functions over a finite universe; hashing, downloads, temporary files and printed text are left out.
- PinClosure.AuditGroup: reads groups as data; the regular expressions that find pins and groups in a Containerfile are left out.
- PeerContract.EvaluateRow: reasons are data instead of text, and the sorted lists of tests are sets.
- PeerContract.CertificateMeansExactly: a row records which tests ran but not how each ended, so "none failed" is left to the row's verdict.
- PeerContract.CheckReport: error texts are left out, the errors are data; core_summary and contract_consistency are not part of this model.
- SweepVerify.Compare: printed lines and the order of moved entries are left out; the factor 0.9 is exact.
- Recoding.RecodeExactly: the argument of a simple value is kept as the number the decoder reads; the encoding rules for floating-point values are not part of this model.
- Items.ReencodeWholeValue: speaks of decoded values, which do not record the kind of a key, so it asks that the kind be settled by the name; Recoding.RecodeExactly works on the bytes and does not.
- The copies of the codec in other probes, the per-case grading switches and the text-scanning gates: the same code again, or claims settled by reading one branch.
