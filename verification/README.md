# Verified model of the fslatency producer and its CBOR library

`producers/fslatency` measures file-system latencies inside the kernel and publishes them as CBOR records, using a
fork of the minicbor crates. This project models the parts that are hard to get right and proves what they are for.
Verify everything with `dafny verify dfyconfig.toml`.

The specification of CBOR is one datatype, `Items.Item`: the data items of RFC 8949 as trees that record the width of
every head, with `Items.Encode` giving the bytes. "Well-formed" below means `Items.Valid`, the items this library reads;
`Items.ValidAgainstWellFormed` says how they differ from Appendix C of RFC 8949. Everything else is tied to them:

- `Wire`, `Items`, `Reads`, `Decoding`: bytes, items, what each reader returns at a position, and the decoder as an
  object. `Vectors` and `Unicode` compare bytes and text with the standards, `ReadersOnItems` says what each reader makes
  of each kind of item.
- `Skip`, `SkipOnAnyInput`: skipping an item with counters and a stack. The counters deliberately under-count below an
  open indefinite container. `Skip.Sim` relates them to the items outstanding at each level: equal at the outermost
  level, at most that many at the others.
- `Parse`, `Integers`, `Encoding`: round trip, integer readers, the encoder over a fixed sink, predicted lengths.
- `Tokens`, `Display`: the tokenizer and its control-stack printer against a recursive printer.
- `Derive`, `DeriveDecode`, `DeriveMap`, `DeriveNested`, `DeriveErrors`, `DeriveLen`, `Keys`: the code generated by minicbor-derive as functions and
  methods over lists of fields.
- `Framing`: length-prefixed frames with resumable readers and writers. A call is given the answers of the transport
  to its polls and counts as abandoned when they run out.
- `PathSpec`, `PathWalk`, `Stats`, `Aggregator`, `Record`: path fragments, per-prefix statistics, the exit probes of
  several CPUs as a state machine, and the published record.

Where the code and its documentation disagree, the model follows the code: skipping without `alloc` does skip some
indefinite arrays inside definite ones (`SkipOnAnyInput.NoAllocSkipsExactly`). Properties that fail of the
code have the exact condition under which they hold: the minimum with zero latencies (`Stats.FoldMin`), the derived
length of maps (`DeriveLen.MapLenExactly`), agreement of the two frame readers (`Framing.ReadersAgreeExactly`), folding
into every matching prefix (`Aggregator.FinishedProbeIsFolded`), the spacing of publishes
(`Aggregator.SequentialRunsAreSpaced`, which fails on two CPUs) and recovery from unknown enum variants
(`DeriveNested.RecoveryLeaves`).

No proof uses automatic induction: every lemma switches it off.

## Model

| member | source | states |
|---|---|---|
| `Skip.SkipsItem` | producers/fslatency/minicbor/minicbor/src/decode/decoder.rs:483-591 | every well-formed item, whatever its nesting of definite and indefinite containers and whatever follows it, is skipped successfully and exactly to its end |
| `Skip.RunOverItem` | producers/fslatency/minicbor/minicbor/src/decode/decoder.rs:502-588 | from any reachable state of the counters and the stack, the loop gets past one well-formed item having counted exactly one item at the current level |
| `Skip.StepOpenIndef` | producers/fslatency/minicbor/minicbor/src/decode/decoder.rs:514-528 | an indefinite container keeps the simulation: counts are exact at the outermost level and a lower bound below an open indefinite container, also when the counters move onto the stack |
| `Skip.StepOpen` | producers/fslatency/minicbor/minicbor/src/decode/decoder.rs:505-513 | a definite container keeps the simulation although it under-counts by one inside an indefinite one |
| `Skip.StepClose` | producers/fslatency/minicbor/minicbor/src/decode/decoder.rs:562-571 | a break that ends the innermost indefinite container restores the counts of the level outside it |
| `Decoding.Decoder.Skip` | producers/fslatency/minicbor/minicbor/src/decode/decoder.rs:483-591 | the loop over `nrounds`, `irounds` and `stack` computes the specified run on every input, and on well-formed items stops at their end |
| `Decoding.Decoder.SkipNoAlloc` | producers/fslatency/minicbor/minicbor/src/decode/decoder.rs:598-649 | the loop without a stack computes its specified run, agrees with the full one or reports that it lacks a stack, and on well-formed items does so by the condition on the item |
| `Decoding.CountItem` | producers/fslatency/minicbor/minicbor/src/decode/decoder.rs:576-584 | the inner loop closes finished containers and counts the item in the one that remains |
| `SkipOnAnyInput.NoAllocAgrees` | producers/fslatency/minicbor/minicbor/src/decode/decoder.rs:598-649 | on every byte string: the missing-stack error comes exactly when the full loop first uses its stack, otherwise result, error and position are the same |
| `SkipOnAnyInput.NoAllocIsFullWithoutIndefinite` | producers/fslatency/minicbor/minicbor/src/decode/decoder.rs:598-649 | on every input, well-formed or not, where no head of an indefinite array or map is met, the two loops are the same, so the missing-stack error never comes |
| `SkipOnAnyInput.NoAllocSkipsExactly` | producers/fslatency/minicbor/minicbor/src/decode/decoder.rs:598-649 | which well-formed items need no stack: those whose indefinite arrays and maps are each the last item outstanding are skipped to their end, all others fail with the missing-stack error |
| `SkipOnAnyInput.NoAllocSkipsDefinite` | producers/fslatency/minicbor/minicbor/src/decode/decoder.rs:593-597 | every well-formed item without indefinite arrays and maps is skipped to its end, whatever bytes its strings and what follows it hold |
| `SkipOnAnyInput.NoAllocSkipsTrailingIndefinite` | producers/fslatency/minicbor/minicbor/src/decode/decoder.rs:593-612 | an input on which the documentation is wrong; `SkipOnAnyInput.NoAllocSkipsExactly` gives the exact condition |
| `SkipOnAnyInput.TruncatedItem` | producers/fslatency/minicbor/minicbor/src/decode/decoder.rs:483-591 | a well-formed item cut short anywhere is reported as the end of the input, never as skipped |
| `SkipOnAnyInput.DefiniteSkipIsExact` | producers/fslatency/minicbor/minicbor/src/decode/decoder.rs:483-591 | where the loop meets no indefinite container and no break, skipping succeeds to `p` if and only if an item this decoder reads ends at `p` |
| `SkipOnAnyInput.SkipAcceptsStrayBreak` | producers/fslatency/minicbor/minicbor/src/decode/decoder.rs:562-571 | a break inside a definite array is skipped although it is not well-formed |
| `SkipOnAnyInput.SkipAcceptsMissingElements` | producers/fslatency/minicbor/minicbor/src/decode/decoder.rs:505-513 | inside an indefinite array a definite head needs none of its elements, so such input is skipped although it is not well-formed |
| `SkipOnAnyInput.SkipAgainstAppendixC` | producers/fslatency/minicbor/minicbor/src/decode/decoder.rs:558-561 | two inputs where the decoder and Appendix C of RFC 8949 part: a two-byte simple value below 32 is skipped, well-formed text that is not UTF-8 is refused |
| `ReadersOnItems.SkipRefusesReserved` | producers/fslatency/minicbor/minicbor/src/decode/decoder.rs:572-574 | skipping fails at every initial byte that RFC 8949 reserves, with its error and position |
| `Reads.HeadReads` | producers/fslatency/minicbor/minicbor/src/decode/decoder.rs:652-663 | whatever width a head was written in, shortest or not, its argument is read back and the position is behind it |
| `Reads.IndefStringReads` | producers/fslatency/minicbor/minicbor/src/decode/decoder.rs:276-334 | an indefinite string of any chunks is drained exactly to its break byte and gives the chunks in order |
| `Decoding.Decoder.Strings` | producers/fslatency/minicbor/minicbor/src/decode/decoder.rs:276-334 | the string iterators, driven to the end, give the specified chunks or error and position on every input |
| `Decoding.Decoder.Length` | producers/fslatency/minicbor/minicbor/src/decode/decoder.rs:337-398 | the `array` and `map` readers give the announced length, indefinite, or the specified error and position on every input |
| `Decoding.Decoder.FloatValue` | producers/fslatency/minicbor/minicbor/src/decode/decoder.rs:210-246 | the float readers accept a float of their width or a smaller one, with the specified bits, error and position on every input |
| `Integers.ReadsWhatFits` | producers/fslatency/minicbor/minicbor/src/decode/decoder.rs:69-204 | given any head form, every integer reader returns the denoted integer if its type holds it; otherwise the exact error and position, which for an unsigned reader on a negative integer depends on a byte behind the one that should decide it |
| `Integers.NamedReaderSucceeds` | producers/fslatency/minicbor/minicbor/src/decode/decoder.rs:708-738 | the integer reader that `datatype` names succeeds with the denoted integer |
| `Integers.ReadInteger` | producers/fslatency/minicbor/minicbor/src/decode/decoder.rs:69-204 | the readers compute the specified value, error and position on every input; `ReadersOnItems.IntegerExactly` and `ReadersOnItems.IntegerRefuses` say which inputs those are |
| `ReadersOnItems.IntegerExactly` | producers/fslatency/minicbor/minicbor/src/decode/decoder.rs:69-204 | an integer reader succeeds with `v` and ends at `p` if and only if an integer item that denotes `v`, within the range of the type, stands there and ends there |
| `ReadersOnItems.IntegerRefuses` | producers/fslatency/minicbor/minicbor/src/decode/decoder.rs:69-204 | on every item that is not an integer it fails with a type mismatch that names the type of the item |
| `ReadersOnItems.Ranges` | producers/fslatency/minicbor/minicbor/src/decode/decoder.rs:69-204 | the ranges are those of the nine integer types |
| `ReadersOnItems.LengthReads` | producers/fslatency/minicbor/minicbor/src/decode/decoder.rs:337-398 | on every item: `array` gives the length of arrays only and `map` of maps only, indefinite ones as such, and everything else is refused with its type |
| `ReadersOnItems.StringReads` | producers/fslatency/minicbor/minicbor/src/decode/decoder.rs:259-312 | on every item: `bytes` and `str` give the data of a definite string of their own kind and refuse everything else |
| `ReadersOnItems.TagReads` | producers/fslatency/minicbor/minicbor/src/decode/decoder.rs:425-434 | on every item: `tag` gives the number of a tag and refuses everything else |
| `ReadersOnItems.BoolReads` | producers/fslatency/minicbor/minicbor/src/decode/decoder.rs:59-66 | on every item: simple values 20 and 21 are false and true, and everything else is refused |
| `ReadersOnItems.NullReads` | producers/fslatency/minicbor/minicbor/src/decode/decoder.rs:437-456 | on every item: simple values 22 and 23 are null and undefined, and everything else is refused |
| `ReadersOnItems.SimpleReads` | producers/fslatency/minicbor/minicbor/src/decode/decoder.rs:459-468 | on every item: other simple values are read in one or two bytes, and everything else is refused |
| `ReadersOnItems.FloatReads` | producers/fslatency/minicbor/minicbor/src/decode/decoder.rs:210-246 | on every item: a float reader takes floats of its width or a smaller one by their bits and refuses everything else, the wider ones without taking a byte |
| `ReadersOnItems.DatatypeReads` | producers/fslatency/minicbor/minicbor/src/decode/decoder.rs:708-738 | the type announced in front of every item |
| `Parse.DecodesItem` | producers/fslatency/minicbor/minicbor/src/decode/decoder.rs:59-468 | round trip: from the encoding of any valid item followed by anything, the decoder's readers rebuild the item and leave the position behind it |
| `Parse.PrimIsArgument` | producers/fslatency/minicbor/minicbor/src/decode/decoder.rs:59-66 | the readers for booleans, null, undefined, simple values and floats, chosen by `datatype`, together accept what the general argument reader accepts, with the same value and position |
| `Parse.AcceptsExactlyEncodings` | producers/fslatency/minicbor/minicbor/src/decode/decoder.rs:59-468 | the readers accept an input if and only if it starts with the encoding of a valid item, and then return that item |
| `Parse.PrefixFree` | producers/fslatency/minicbor/minicbor/src/encode/encoder.rs:43-333 | no encoding is a proper prefix of another, and different items have different encodings |
| `Items.ValidAgainstWellFormed` | producers/fslatency/minicbor/minicbor/src/encode/encoder.rs:166-190 | the items of this model are those well-formed by Appendix C of RFC 8949, except that two-byte simple values below 32, which the encoder writes, are admitted and text must be UTF-8 |
| `Vectors.TwoBytes` | producers/fslatency/minicbor/minicbor-tests/tests/rfc.rs:27-37 | the encoding of 1000 is the one in Appendix A of RFC 8949 |
| `Vectors.OneByte` | producers/fslatency/minicbor/minicbor-tests/tests/rfc.rs:27-37 | so is that of 24 |
| `Vectors.FourBytes` | producers/fslatency/minicbor/minicbor-tests/tests/rfc.rs:27-37 | and that of a million |
| `Vectors.EightBytes` | producers/fslatency/minicbor/minicbor-tests/tests/rfc.rs:27-37 | and that of 10^12 |
| `Vectors.Negative` | producers/fslatency/minicbor/minicbor-tests/tests/rfc.rs:40-45 | and those of -1, -100 and -1000 |
| `Vectors.Primitives` | producers/fslatency/minicbor/minicbor-tests/tests/rfc.rs:85-99 | and those of the simple values and of a half float |
| `Vectors.Strings` | producers/fslatency/minicbor/minicbor-tests/tests/rfc.rs:102-175 | and those of byte and text strings, definite and indefinite |
| `Vectors.Containers` | producers/fslatency/minicbor/minicbor-tests/tests/rfc.rs:102-175 | and those of small arrays and maps, definite and indefinite |
| `Vectors.Tag` | producers/fslatency/minicbor/minicbor-tests/tests/rfc.rs:150-164 | and that of a tagged byte string |
| `Unicode.Utf8Exactly` | producers/fslatency/minicbor/minicbor/src/decode/decoder.rs:297-312 | a text passes the UTF-8 test if and only if it is the encoding of a sequence of Unicode scalar values (section 3 of RFC 3629) |
| `Wire.BigEndianRoundTrip` | producers/fslatency/minicbor/minicbor/src/encode/encoder.rs:108-118 | arguments written in big-endian order read back as the same number |
| `Encoding.Encoder.PutHead` | producers/fslatency/minicbor/minicbor/src/encode/encoder.rs:108-118 | a head writes its bytes if they fit and otherwise leaves a prefix of them, possibly just the initial byte |
| `Encoding.Encoder.TypeLen` | producers/fslatency/minicbor/minicbor/src/encode/encoder.rs:320-328 | the shortest head is written, or a prefix of it and failure |
| `Encoding.Encoder.TypeLenNoncanonical` | producers/fslatency/minicbor/minicbor/src/encode/encoder.rs:331-334 | the eight-byte head is written, or a prefix of it and failure; by `Reads.HeadReads` it reads back as the same value |
| `Encoding.Encoder.Integer` | producers/fslatency/minicbor/minicbor/src/encode/encoder.rs:43-153 | a signed integer is written as the shortest item that denotes it, or a prefix of that |
| `Encoding.Encoder.SimpleValue` | producers/fslatency/minicbor/minicbor/src/encode/encoder.rs:166-172 | a simple value is written in one byte below 20 and in two otherwise |
| `Encoding.Encoder.EncodeItem` | producers/fslatency/minicbor/minicbor/src/encode/encoder.rs:43-333 | writing any item into a fixed sink succeeds exactly when its encoding fits, and with shortest heads exactly when `cbor_len` bytes are free; a failed encode leaves a prefix of the encoding behind what was there |
| `Encoding.Encoder.Put` | producers/fslatency/minicbor/minicbor/src/encode/write.rs:19-106 | a write that does not fit fails without changing what was written |
| `Encoding.CborLenIsExact` | producers/fslatency/minicbor/minicbor/src/encode.rs:499-730 | `cbor_len` equals the number of bytes written, for every value written with shortest heads |
| `Encoding.FitsExactlyWhenPredicted` | producers/fslatency/minicbor/minicbor/src/encode.rs:499-730 | for any write of a value with shortest heads, success and the bytes used are those `cbor_len` predicts |
| `Tokens.Tokenizer.NextToken` | producers/fslatency/minicbor/minicbor/src/decode/tokenizer.rs:52-61 | a token strictly advances the position; an error drains the input |
| `Tokens.Tokenizer.Next` | producers/fslatency/minicbor/minicbor/src/decode/tokenizer.rs:21-28 | the iterator gives the stream element by element, an error last, and ends at the end of the input |
| `Tokens.Tokenizer.Collect` | producers/fslatency/minicbor/minicbor/src/decode/tokenizer.rs:18-61 | iterating terminates on every byte string and gives the whole stream |
| `Tokens.DecodeToken` | producers/fslatency/minicbor/minicbor/src/data/token.rs:117-165 | decoding a token through the decoder's readers gives the specified token or error and position on every input |
| `ReadersOnItems.TokenReads` | producers/fslatency/minicbor/minicbor/src/data/token.rs:117-165 | the token in front of every item is the item itself or its head |
| `Tokens.TokenizesItem` | producers/fslatency/minicbor/minicbor/src/data/token.rs:117-165 | the bytes of an item are cut into exactly the item's tokens, and tokenizing goes on behind it |
| `Tokens.TokensThenError` | producers/fslatency/minicbor/minicbor/src/decode/tokenizer.rs:21-61 | items followed by something that fails to decode: the stream is their tokens and then exactly that error, or nothing more if the input just ends |
| `Tokens.TokensThenKnownError` | producers/fslatency/minicbor/minicbor/src/data/token.rs:159-163 | in particular behind a reserved initial byte and behind text that is not UTF-8 |
| `Display.RoundProgress` | producers/fslatency/minicbor/minicbor/src/decode/tokenizer.rs:79-234 | every round of the display machine takes a token, or turns the top of the stack into a token request, or shortens the stack, so it terminates on every token stream |
| `Display.DrainStack` | producers/fslatency/minicbor/minicbor/src/decode/tokenizer.rs:79-234 | the loop over the control stack computes the specified text, position and outcome; in front of the tokens of an item it prints that item and takes exactly its tokens |
| `Display.Show` | producers/fslatency/minicbor/minicbor/src/decode/tokenizer.rs:65-237 | the two nested loops print the specified text for every token stream, which for the tokens of items is their diagnostic notation, and with an error behind them that error and no more |
| `Display.ShowsItem` | producers/fslatency/minicbor/minicbor/src/decode/tokenizer.rs:79-234 | on any stack, a token request prints exactly one item in diagnostic notation and takes exactly its tokens |
| `Display.DisplaysItems` | producers/fslatency/minicbor/minicbor/src/decode/tokenizer.rs:65-237 | for every sequence of items the stack machine prints what the recursive printer of section 8 of RFC 8949 prints, however leaves are spelled |
| `Display.DisplaysEncoding` | producers/fslatency/minicbor/minicbor/src/decode/tokenizer.rs:65-237 | from bytes to text: displaying encoded items gives their diagnostic notation |
| `Display.Notation` | producers/fslatency/minicbor/minicbor/src/decode/tokenizer.rs:65-237 | the recursive printer at two elements of each kind of container, as section 8 of RFC 8949 writes them |
| `Display.DisplaysError` | producers/fslatency/minicbor/minicbor/src/decode/tokenizer.rs:79-100 | items followed by an error print their notation, the error, and nothing after it |
| `Display.DisplaysEncodingThenError` | producers/fslatency/minicbor/minicbor/src/decode/tokenizer.rs:65-237 | the same from the bytes |
| `Display.DisplaysUnclosedArray` | producers/fslatency/minicbor/minicbor/src/decode/tokenizer.rs:79-234 | an indefinite array without its break is printed as far as it goes, with a note that it is not closed |
| `Display.DisplaysUnclosedMap` | producers/fslatency/minicbor/minicbor/src/decode/tokenizer.rs:79-234 | the same for an indefinite map |
| `Display.DisplaysUnclosedString` | producers/fslatency/minicbor/minicbor/src/decode/tokenizer.rs:79-234 | the same for indefinite byte and text strings |
| `Display.DisplaysMissingElement` | producers/fslatency/minicbor/minicbor/src/decode/tokenizer.rs:79-234 | an array with fewer elements than it announces is printed as far as it goes, with an error for the missing one |
| `Derive.EncodeFields` | producers/fslatency/minicbor/minicbor-derive/src/encode.rs:257-542 | array encoding: the header announces the number of items written, which is the largest index with a value plus one, each value stands at its own index and null everywhere else |
| `Derive.StructIsValid` | producers/fslatency/minicbor/minicbor-derive/src/encode.rs:257-542 | for every field set and nil pattern the result is a well-formed item |
| `Derive.NothingBeyond` | producers/fslatency/minicbor/minicbor-derive/src/encode.rs:262-299 | no value has an index at or above the announced count |
| `DeriveDecode.DecodeStruct` | producers/fslatency/minicbor/minicbor-derive/src/decode.rs:292-403 | the generated decoder computes the specified value or error and position, for definite and indefinite arrays |
| `DeriveDecode.Build` | producers/fslatency/minicbor/minicbor-derive/src/decode.rs:186-202 | the struct is built if and only if every field is set or can be nil; otherwise the first missing field is named |
| `DeriveDecode.FieldReads` | producers/fslatency/minicbor/minicbor-derive/src/decode.rs:292-354 | at the index of a field: a value, null or an unknown variant of an optional enum leaves the position behind the element; a field that insists on a value fails without one |
| `DeriveDecode.ReadsAcrossSchemas` | producers/fslatency/minicbor/minicbor-derive/src/lib.rs:4-31 | a struct written under one schema reads under another if and only if every field the reader insists on was written and understood; then common fields are equal, reader-only fields and unknown variants are nil, writer-only items are skipped exactly and the whole array is consumed |
| `DeriveErrors.FieldErrors` | producers/fslatency/minicbor/minicbor-derive/src/decode.rs:300-354 | an error other than an unknown variant is never taken for a nil: the field fails with it, in its place |
| `DeriveErrors.IntegerFieldRefuses` | producers/fslatency/minicbor/minicbor-derive/src/decode.rs:319-354 | an integer field, optional or not, refuses every item that is neither an integer nor its null, with the type that stands there |
| `DeriveErrors.StructErrors` | producers/fslatency/minicbor/minicbor-derive/src/decode.rs:382-403 | a struct fails with the error of its first field that fails, where that field does, under definite and indefinite length |
| `DeriveErrors.MapErrors` | producers/fslatency/minicbor/minicbor-derive/src/decode.rs:404-423 | the same for a map-encoded struct |
| `DeriveErrors.EnumRefusesLength` | producers/fslatency/minicbor/minicbor-derive/src/decode.rs:249-257 | an enum refuses everything but an array of two elements, and not as an unknown variant |
| `DeriveNested.UnknownVariantIsRecoverable` | producers/fslatency/minicbor/minicbor-derive/src/decode.rs:249-271 | an ordinary enum with an unknown variant fails in front of exactly one item, which ends the enum, so skipping one item keeps alignment |
| `DeriveNested.KnownVariantIsUnderstood` | producers/fslatency/minicbor/minicbor-derive/src/decode.rs:249-271 | a known variant is read as its payload is, and the whole enum is consumed |
| `DeriveNested.StructIsUnderstood` | producers/fslatency/minicbor/minicbor-derive/src/lib.rs:4-35 | a struct as a field of another is understood across schemas if its own fields are, and does not read null, so compatibility holds at any depth |
| `DeriveNested.UnitReadsFields` | producers/fslatency/minicbor/minicbor-derive/src/lib.rs:33-35 | a reader that knows a variant as a unit reads it with any fields it has been given since |
| `DeriveNested.FieldsReadUnit` | producers/fslatency/minicbor/minicbor-derive/src/lib.rs:33-35 | a reader that knows a variant with optional fields only reads the unit written before, all fields nil, under either encoding |
| `DeriveNested.StructGivesUp` | producers/fslatency/minicbor/minicbor-derive/src/decode.rs:292-403 | a struct with an unknown variant inside gives up where its first such required field does, and leaves behind what that field leaves, the later elements and, if its length is indefinite, the break |
| `DeriveNested.MapStructGivesUp` | producers/fslatency/minicbor/minicbor-derive/src/decode.rs:404-423 | the same for maps, with the later pairs |
| `DeriveNested.KnownVariantGivesUp` | producers/fslatency/minicbor/minicbor-derive/src/decode.rs:249-271 | an enum gives up as the payload of a known variant does, with nothing more left behind |
| `DeriveNested.RecoveryLeaves` | producers/fslatency/minicbor/minicbor-derive/src/decode.rs:300-330 | recovery in an optional field, whatever the depth of the unknown variant: the field becomes nil with exactly the bytes left behind still in front, so alignment is kept if and only if there are none |
| `DeriveNested.NothingLeftIsUnknown` | producers/fslatency/minicbor/minicbor-derive/src/decode.rs:300-330 | nothing left behind is the same as an unknown variant that can be recovered from |
| `DeriveNested.RecoveryInStruct` | producers/fslatency/minicbor/minicbor-derive/src/decode.rs:300-330 | for an optional struct whose required enum at index `k` is the first with an unknown variant, alignment is kept if and only if the struct was written with definite length and `k` is its last index |
| `DeriveNested.RecoveryInMapStruct` | producers/fslatency/minicbor/minicbor-derive/src/decode.rs:404-423 | for a map-encoded one, if and only if its length is definite and no later field has a value |
| `DeriveNested.NestedUnknownVariantLosesAlignment` | producers/fslatency/minicbor/minicbor-derive/src/decode.rs:300-330 | an optional struct with an unknown variant inside: the field becomes nil with the position inside the struct |
| `Keys.KeyOrder` | producers/fslatency/minicbor/minicbor-derive/src/attrs/idx.rs:35-37 | the sort key orders indices exactly as their encoded keys are ordered byte by byte |
| `Keys.HeadOrder` | producers/fslatency/minicbor/minicbor-derive/src/attrs/idx.rs:35-37 | shortest heads compare bytewise as major type and then argument do |
| `Keys.CheckUniq` | producers/fslatency/minicbor/minicbor-derive/src/attrs/idx.rs:41-55 | comparing the counter with the size of the set succeeds if and only if all indices differ |
| `Keys.Arrange` | producers/fslatency/minicbor/minicbor-derive/src/fields.rs:33-81 | fields are accepted if and only if each has an index allowed under its encoding and no two share one; the result has exactly the fields that take part, with strictly increasing encoded keys |
| `DeriveMap.EncodeMapFields` | producers/fslatency/minicbor/minicbor-derive/src/encode.rs:301-402 | map encoding: the header equals the number of pairs written, which are the fields that are not nil, in order |
| `DeriveMap.MapIsValid` | producers/fslatency/minicbor/minicbor-derive/src/encode.rs:543-556 | for every nil pattern the result is a well-formed item |
| `DeriveMap.KeysIncrease` | producers/fslatency/minicbor/minicbor-derive/src/encode.rs:348-402 | keys are written strictly increasing bytewise, hence unique, as section 4.2.1 of RFC 8949 asks |
| `DeriveMap.DecodeMapStruct` | producers/fslatency/minicbor/minicbor-derive/src/decode.rs:404-423 | the generated map decoder computes the specified value or error and position |
| `DeriveMap.MapReadsAcrossSchemas` | producers/fslatency/minicbor/minicbor-derive/src/decode.rs:404-423 | the compatibility statement for maps, definite or not and in any order of pairs; it is the one for arrays, so both encodings read back the same |
| `DeriveNested.MapStructIsUnderstood` | producers/fslatency/minicbor/minicbor-derive/src/decode.rs:404-423 | the same for a map-encoded struct as a field, without asking that its required fields refuse null |
| `DeriveLen.ArrayLen` | producers/fslatency/minicbor/minicbor-derive/src/cbor_len.rs:243-288 | the derived length of an array-encoded struct is the number of bytes written |
| `DeriveLen.MapLenExactly` | producers/fslatency/minicbor/minicbor-derive/src/cbor_len.rs:198-242 | the derived length of a map is off by the difference of a header for all fields and one for those written: never too short, and exact if and only if the two headers are equally long |
| `DeriveLen.MapLenTooLarge` | producers/fslatency/minicbor/minicbor-derive/src/cbor_len.rs:198-202 | with 24 fields of which one is nil it is one too large |
| `Framing.StreamReadsBack` | producers/fslatency/minicbor/minicbor-io/src/reader.rs:61-86 | the concatenated frames of any payloads within the limits read back as those payloads, ending on a frame boundary |
| `Framing.CutFrame` | producers/fslatency/minicbor/minicbor-io/src/reader.rs:61-86 | a frame cut anywhere is reported as truncated and not as the end |
| `Framing.AsyncReader.ReadWith` | producers/fslatency/minicbor/minicbor-io/src/async_reader.rs:88-124 | a call is abandoned or fails only at the first poll that is not answered, having gained a byte for every one before it, and loses nothing. Any other call gives what the stream holds next: a value, none only on a frame boundary, an unexpected end inside a frame, and moves past the frame even if its payload does not decode |
| `Framing.AsyncReader.ReadMany` | producers/fslatency/minicbor/minicbor-io/src/async_reader.rs:88-124 | over any split into reads and any cancellations, the results are those of the stream's frames in order; every call that gets an answer adds a result or moves on, so enough of them, however often they are cancelled, give all frames and report the end |
| `Framing.Reader.ReadWith` | producers/fslatency/minicbor/minicbor-io/src/reader.rs:61-86 | the blocking reader gives the specified result and place for the same stream; it blocks only if answered too few times, and then stands inside the frame |
| `Framing.ReadersAgreeOnFrames` | producers/fslatency/minicbor/minicbor-io/src/async_reader.rs:88-124 | call by call the two readers give the same outcome from the same place, up to and including the first that is not a frame |
| `Framing.ReadersAgreeExactly` | producers/fslatency/minicbor/minicbor-io/src/reader.rs:61-86 | they agree for every number of calls if and only if the stream ends on a frame boundary |
| `Framing.AsyncWriter.Sync` | producers/fslatency/minicbor/minicbor-io/src/async_writer.rs:101-120 | handed-over plus owed bytes never change, wherever it is abandoned; unless it completes, it stops at the first poll that moves nothing, having handed over a byte for every one before it |
| `Framing.AsyncWriter.SyncUntilDone` | producers/fslatency/minicbor/minicbor-io/src/async_writer.rs:101-120 | what any number of abandoned or failed attempts move adds up: together as much as is owed completes the transfer |
| `Framing.AsyncWriter.WriteWith` | producers/fslatency/minicbor/minicbor-io/src/async_writer.rs:81-95 | an accepted value adds exactly its frame to handed-over plus owed bytes and makes the same progress; a refused one hands nothing over and leaves the stated buffer |
| `Framing.AsyncWriter.WriteMany` | producers/fslatency/minicbor/minicbor-io/src/async_writer.rs:81-120 | when each unfinished write is taken up by any number of syncs before the next one, the delivered bytes are the frames of the values short enough, in order, and read back as them; if for each value the calls together move as many bytes as its frame has, all are delivered |
| `Framing.RefusedKeepsOwedExactly` | producers/fslatency/minicbor/minicbor-io/src/async_writer.rs:81-87 | what was owed survives a refused write if and only if no transfer was in progress, or the rest of its payload is what the refused value has in the same place |
| `Framing.RefusedWriteCorrupts` | producers/fslatency/minicbor/minicbor-io/src/async_writer.rs:81-87 | an input on which the next sync delivers bytes of the refused value |
| `PathWalk.WalkFinds` | producers/fslatency/vfslatency-common/src/lib.rs:222-282 | the bounded walk yields a path, defined by parents, names and mount points alone, if and only if it has at most 32 names and fewer than 64 names and mount points |
| `PathSpec.PathThroughMount` | producers/fslatency/vfslatency-common/src/lib.rs:248-261 | a file inside a mounted file system has a path if and only if the mount point has the part of it before the file's names inside the mount |
| `PathSpec.PathFromRoot` | producers/fslatency/vfslatency-common/src/lib.rs:240-245 | a file below the process root in the same mount has exactly the names from the root down to it as its path |
| `PathSpec.MountedExample` | producers/fslatency/vfslatency-common/src/lib.rs:222-282 | the file `a` in a file system mounted at `/m` has the path `/m/a` |
| `PathWalk.Resolver.WalkStep` | producers/fslatency/vfslatency-common/src/lib.rs:222-282 | one step keeps the ring holding the names nearest the root and moves as the walk does that `PathWalk.WalkFinds` ties to paths |
| `PathWalk.Resolver.AssembleRound` | producers/fslatency/vfslatency-common/src/lib.rs:284-336 | one round extends the fragment by a name and its separator, cut at 32 bytes, and counts up to 33 so that the next round stops |
| `PathWalk.Resolver.PartialDPath` | producers/fslatency/vfslatency-common/src/lib.rs:125-220 | for every path within those limits the zeroed buffer ends up with its first 32 bytes, zero-padded, despite names cut to 31 bytes and overwritten ring slots; for a file on a mounted file system that is the path of the mount point followed by the names inside |
| `PathWalk.Resolver.TryEntry` | producers/fslatency/vfslatency-common/src/lib.rs:63-111 | whether the recorded fragment starts with a prefix of 1 to 32 bytes without zeros is whether the whole absolute path does |
| `PathWalk.StartsWith` | producers/fslatency/vfslatency-common/src/lib.rs:113-123 | the index loop holds if and only if the length is between 1 and 32 and the first that many bytes are equal |
| `PathWalk.MatchingPrefixes` | producers/fslatency/vfslatency-common/src/lib.rs:359-372 | from the entry probe to the exit probe: a call is counted under a configured prefix if and only if the absolute path of the file starts with it |
| `PathSpec.KeptNamesSuffice` | producers/fslatency/vfslatency-common/src/constants.rs:1-8 | sixteen names of at most 31 bytes each determine the first 32 bytes of any longer path, so the constants fit |
| `PathSpec.FragmentDecidesPrefix` | producers/fslatency/vfslatency-common/src/lib.rs:113-123 | matching a prefix against the fragment is matching it against the path |
| `Stats.PrefixStats.Update` | producers/fslatency/vfslatency-common/src/lib.rs:431-444 | a sample is folded into the counters, wrapping, with zero as the sentinel of the minimum |
| `Stats.PrefixStats.Locked` | producers/fslatency/vfslatency-common/src/lib.rs:378-418 | the locked section hands out a snapshot that includes the current sample, or none, and leaves fresh or updated counters |
| `Stats.FoldTotals` | producers/fslatency/vfslatency-common/src/lib.rs:431-444 | count and totals are the window's modulo 2^64, and the maximum is the true one |
| `Stats.FoldMin` | producers/fslatency/vfslatency-common/src/lib.rs:431-436 | the minimum is the true one if and only if all latencies are positive or the last one is zero |
| `Stats.ZeroLatencyIsForgotten` | producers/fslatency/vfslatency-common/src/lib.rs:433-433 | a concrete window whose reported minimum is wrong |
| `Stats.WindowBounds` | producers/fslatency/vfslatency-common/src/lib.rs:431-444 | for positive latencies and totals below 2^64, min*count <= total_lat <= max*count with true extrema |
| `Aggregator.StepKeepsInv` | producers/fslatency/vfslatency-common/src/lib.rs:338-424 | every step of every CPU keeps: nothing folded is lost or counted twice, counters are those of the live window, every snapshot taken is submitted, dropped or in hand exactly once |
| `Aggregator.EveryRunKeepsInv` | producers/fslatency/vfslatency-common/src/lib.rs:338-424 | the invariant holds after every interleaving of any number of CPUs |
| `Aggregator.FinishedProbeIsFolded` | producers/fslatency/vfslatency-common/src/lib.rs:338-424 | a finished probe was folded exactly once into each prefix it matches, in order; into only those up to and including the one whose snapshot could not be handed over, if there was one |
| `Aggregator.RefusedSnapshotSkipsPrefix` | producers/fslatency/vfslatency-common/src/lib.rs:403-409 | a run in which a probe that matches two prefixes is folded into the first only, because its snapshot is refused |
| `Aggregator.Conservation` | producers/fslatency/vfslatency-common/src/lib.rs:360-458 | after every interleaving the samples of the probes that locked a prefix are those of its snapshots, in order, followed by the live window; every snapshot was submitted, dropped or is in hand exactly once; its counters describe its own window, with min*count <= total_lat <= max*count for positive latencies and totals below 2^64 |
| `Aggregator.SequentialRunsAreSpaced` | producers/fslatency/vfslatency-common/src/lib.rs:375-375 | in every run of one CPU the publishes of a prefix are more than a second apart |
| `Aggregator.PublishesExactlyWhenDue` | producers/fslatency/vfslatency-common/src/lib.rs:375-418 | and a sample is published exactly when the last publish is more than a second ago |
| `Aggregator.TwoCpusPublishAtOnce` | producers/fslatency/vfslatency-common/src/lib.rs:375-400 | a run of two CPUs in which both publish the same prefix at the same time, because the test is outside the lock |
| `Record.RecordPieces` | producers/fslatency/vfslatency-common/src/lib.rs:460-543 | the record is a well-formed nested map of exactly 361 bytes plus the four texts |
| `Record.RecordPublishes` | producers/fslatency/vfslatency-common/src/lib.rs:477-540 | the record has each of its keys exactly once, with the value of the snapshot that belongs to it, and so has the map of counters in it |
| `Record.RingbufPut` | producers/fslatency/vfslatency-common/src/lib.rs:460-543 | if the record fits its block, none of the unchecked writes fails, and reading the block back, whatever stale bytes follow, gives an item with each key once and the snapshot's own value under it |
| `Record.PublishSnapshot` | producers/fslatency/vfslatency-common/src/lib.rs:395-403 | as the exit probe calls it, for every probed function of at most 15 bytes and every prefix, the record fits and reads back so |

## Left out

- Integer widths: `usize` has 64 bits and arithmetic outside debug builds wraps; inputs are shorter than 2^64 bytes where an item's extent is counted.
- Integers.ReadInteger: one reader over the target type stands for the nine readers, which differ only in its range; conversions of `Int` to and from other types are not modelled.
- Floats are bit patterns, so the value a narrow float has after widening is not modelled.
- Error positions inside messages, message text and I/O error payloads; an error is its kind and where the decoder stands.
- Skip.SkipsItem: which malformed inputs are skipped is characterised where no indefinite container is met, and by examples otherwise.
- `ArrayIter`, `MapIter`, `probe` and `Size::head`/`Size::tail`: they repeat the arguments made for the readers.
- Encoding.CborLenIsExact: stated for values written with shortest heads; the noncanonical writers have no `cbor_len`.
- Token encoding, `Encoder::tokens` and `Token::cbor_len`, which differs from the encoding for byte strings, half floats and simple values 20 to 23.
- Display leaf spelling: how single tokens, tag numbers and errors are printed is a parameter.
- Derive attributes: tagged fields that are nil, `flat`, `index_only` and `transparent` types, defaults, custom nil values other than `Option`, and nested options; the length of enums.
- DeriveDecode.DecodeStruct: in an indefinite array a field decoder that succeeds without reading anything is refused, where the source would loop for as long as it does so.
- Keys.Arrange: the library's sort is an insertion while collecting; only its result matters.
- Decoding of a value's type inside a frame is a parameter of `Framing`; frame lengths wrap at 2^32, as in builds without overflow checks, while a checked build would panic on payloads above 2^32-5 bytes.
- Framing.AsyncWriter.WriteMany: a write started before an unfinished one is synced replaces what was owed; runs of such writes are not described.
- Kernel reads are lookups in a graph that does not change during a walk, and do not fault.
- PathWalk.Resolver.PartialDPath: names on the path are not empty, as in every file system; of paths the walk does not resolve, only the fragment of the names it kept is stated.
- Record.RingbufPut: texts are UTF-8, as the unchecked conversions of the source demand.
- The table of calls in progress, failed calls, histograms and the profiling counters of the probes; the sequence number, which is counted outside the lock. The publish test wraps when another CPU has published later.
- The daemon, loading and attaching of probes, build scripts, minicbor-serde and the tables of tag names.
