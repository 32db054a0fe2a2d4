# pinveil, verified

A Dafny model of pinveil, a server for one-time encrypted messages: a sender's blob is stored under
a generated id, guarded by a PIN, and handed out once. The model covers the five places where the
program's correctness is not obvious from reading one function:

- **The message service.** `Service` is the server's `retrieve`, `create` and `sweep` as a
  transition system: one program counter per task, the striped locks, the admission slots, the hash
  pool with its transient counter, clients that give up, a clock that may go back, and storage
  faults before and after a commit. Births and fates of rows are history that no step reads. The
  theorems in `ServiceRuns` hold in every state of every run; `ServiceAnswers` says why a retrieval
  was answered as it was, `ServiceCreations` what creations store and sweeps delete, `ServiceAlone`
  and `ServiceCreationAlone` what one undisturbed retrieval or creation does, and `ServiceLosses`
  what storage faults cost.
- **The stores.** `Records` says what a store operation does to its rows. `MemoryStores` is the
  in-memory store, a class with a map, a byte count and a generation count; `SqliteStores` is the
  table with transactions, rollback, 64-bit columns and fault points. Both are proved against
  `Records`; `StoreCalls` is about sequences of calls, and `Lockstep` runs the stores side by side.
- **The wire formats.** `Json` is the canonical printer and a liberal parser over bytes,
  `JsonSpelling` the canonical text written out by its characters, `Utf8` what valid strings are,
  `Base64` the standard encoding, `Framing` the length prefix. `Envelope`, `Payloads` and
  `PayloadDecoder` follow the Rust client, `Envelope`'s `Js` functions and `PayloadBrowser` the
  browser client. `ClientParsers` has a parser with the limits of each client's library. `Messages`
  joins them: the sender's size check, sealing and opening; `Sealing` is about what a sealed blob
  binds.
- **Message ids.** `Wordlists` parses the word list and `WordlistSpelling` writes out the texts it
  takes, `IdTemplates` reads the operator's template, `Entropy` draws without bias, `IdGeneration`
  makes ids and counts them, `IdLanguage` says which texts they are, and `IdUniformity` shows them
  equally likely.
- **Exports and the rate limiter.** `ExportNames` makes attachment names safe and distinct and
  `ExportSpelling` writes the policy out, `Crc` and `Zip` write the browser's archive and read it
  back, `CrcDivision` shows the checksum to be a remainder and `ZipSpelling` has the records byte by
  byte, `RateLimits` is the limiter's queue and map, `ClientAddresses` decides whom to count a
  request against.

Code that changes things in place is a class or a method with a loop here too (the stores, the
limiter, `EncodePayload`, `DecodePayload`, the template scanner, `Generate`, `Disambiguate`, the
CRC table, the zip buffers); each is proved equal to a function, and the theorems are about that
function. Bytes are integers from 0 to 255, 32-bit words are their bits, and machine widths are
written out wherever the code saturates, wraps around or refuses. Each file holds one module.

Round trips and equivalences would also hold of an encoder and a decoder that are wrong in the same
way. So the formats, limits and texts that a client or a user sees are stated a second time, in
literals and without the functions that compute them, and proved equal to what the code makes: the
`Spelling` modules and the lemmas whose names end in `IsSpelled`.

## Where the code and its promises part

- The sender's size check is exact for every message whose blob is shorter than 2^64 bytes
  (`Messages.SizeCheckIsExact`). At 2^64 the measured length saturates, adding the envelope wraps
  around, and the check passes: `Messages.SizeCheckWrapsAround` names two files that show it, each
  of 2^63 - 1 bytes, the largest size that file metadata can state.
- The limiter expects the times it is given never to go back, but a request reads the clock before
  it waits for the limiter's lock. If one does go back, an expired window behind a younger one stays
  counted, and a request can be refused for it (`RateLimits.LateClockKeepsAnExpiredWindow`).
  `RateLimits.AnswerIsNaive` says of every state, request and time exactly when the answer is that
  of a limiter that drops every expired window first; with times that never go back it always is
  (`RateLimits.AnswersNaively`).
- Every wrong attempt is committed before its answer, storage faults or not, so never more than the
  limit are told that their PIN for one message was wrong: that promise is kept in every run
  (`ServiceRuns.AnsweredWrongIsCommitted`, `ServiceRuns.AnsweredWrongIsLimited`). What a fault can
  exceed is the number of PINs that are judged: an attempt that is rolled back answers only that
  storage is unavailable, and is not counted. All judged wrong PINs stay within the limit exactly
  where no attempt on that message was rolled back: with one or more there are runs that exceed it,
  by as many as were lost and no more (`ServiceRuns.WrongPinsAreBounded`,
  `ServiceLosses.BoundIsReached`, `ServiceLosses.LimitIsExact`).

## Model

| member | source | states |
|---|---|---|
| ServiceRuns.RunKeepsInv | crates/pinveil-server/src/service.rs:229-388 | Every state of every run satisfies the ledger, pool, lock and attempt invariants, whatever the interleaving, clock, faults and cancellations. |
| ServiceRuns.DeliveryIsEarned | crates/pinveil-server/src/service.rs:314-355 | A retrieval that answers with a blob read one generation's row under its own id, found it unexpired at its clock reading, and gave a PIN the row's verifier accepts (with a sound hash, the creator's); by then the row is gone, its fate names this retrieval, and the blob is what its creator uploaded. |
| ServiceRuns.DeliveredAtMostOnce | crates/pinveil-server/src/service.rs:298-355 | Over a whole run, two retrievals that released the blob of the same generation are the same retrieval. |
| ServiceRuns.NotesAreReadings | crates/pinveil-server/src/service.rs:314-331 | What a retrieval goes by was really read: at one earlier step of its own this metadata stood in the store, and at a later one the clock showed this time. |
| ServiceRuns.ExactlyOneFate | crates/pinveil-server/src/store.rs:112-145 | Generations 1 to the last are each born once; each is either stored or has exactly one fate: consumed and burned ones by a retrieval that verified right or wrong (a burned one after exactly the allowed number of counted attempts), the others at a time at or past their expiry. |
| ServiceRuns.NothingComesBack | crates/pinveil-server/src/store.rs:112-145 | A generation that met its fate is never stored again and its birth and fate never change, at any later point of the run. |
| ServiceRuns.StaleRetrievalIsInert | crates/pinveil-server/src/service.rs:322-331 | At no step of a run does a retrieval add a row; until it has read one it changes none, and from the reading to its end none but that of the generation it read, even if its id was reclaimed meanwhile. |
| ServiceRuns.AnsweredWrongIsCommitted | APP.md:31 | In every run, faults included: whoever is told that the PIN was wrong gave a wrong one, and at an earlier step of that retrieval the store committed the attempt to the row. |
| ServiceRuns.AnsweredWrongIsLimited | crates/pinveil-server/src/service.rs:337-348 | In every run, faults included: at most the limit are told that their PIN for one message was wrong, fewer if it was delivered, and a stored row's count is at least their number and below the limit. |
| ServiceRuns.WrongPinsAreBounded | crates/pinveil-server/src/service.rs:337-348 | In every run, wrong verifications of one generation exceed the limit by at most those a fault rolled back, and stay strictly below that if the row was delivered. |
| ServiceLosses.BoundIsReached | crates/pinveil-server/src/service.rs:337-348 | For every limit and every number of rolled-back attempts there is a run that judges as many PINs wrong as the two together. |
| ServiceLosses.LimitIsExact | crates/pinveil-server/src/service.rs:337-348 | The limit holds of all judged PINs, in all runs that lost a given number of attempts on a message, if and only if that number is zero. |
| ServiceRuns.LimitWithoutLosses | crates/pinveil-server/src/service.rs:314-355 | In any state of any run where no attempt on a message was lost: at most the limit of wrong verifications, strictly fewer if it was delivered, and a row at rest carries exactly their number. |
| ServiceRuns.FaultFreeLimit | crates/pinveil-server/src/service.rs:314-355 | Without faults: at most the limit of wrong verifications per generation, strictly fewer if it was delivered; and a stored row that no retrieval is working on carries exactly its number of wrong ones, below the limit. |
| ServiceRuns.NothingLost | crates/pinveil-server/src/service.rs:337-348 | Without faults no wrong verification goes unrecorded by a rollback. |
| ServiceRuns.ResourcesBounded | crates/pinveil-server/src/service.rs:72-125 | In every state permits held and free add up to the pool's permits, waiters that were not refused never exceed the bound although refusals are counted for a moment, and slots held and free add up to permits plus waiters. |
| ServiceRuns.SomeTaskIsReady | crates/pinveil-server/src/service.rs:298-355 | While any task is unfinished, some task can take a step: no deadlock between stripes, permits and slots. |
| ServiceRuns.StepsAreBounded | crates/pinveil-server/src/service.rs:229-388 | Between two points of a run a task takes at most as many steps as its measure fell by, whatever the others do. |
| ServiceAnswers.AnswersHaveCauses | crates/pinveil-server/src/service.rs:298-355 | Every answer of every retrieval in every run was given by one of its own steps, for the reason it states: unavailable because no row was there, or it had expired by the clock reading, or it was gone once the PIN was checked; wrong because the PIN was; the blob that was stored, for the right PIN and before the expiry; storage down because of a fault; busy for want of a slot or a place in the queue. |
| ServiceAnswers.BusyMeansFull | crates/pinveil-server/src/service.rs:72-125 | A retrieval is told that the service is busy only if no slot was free as it arrived, or as many as the bound were waiting as it joined the queue. |
| ServiceCreations.RowsAreAsSent | crates/pinveil-server/src/service.rs:254-274 | Every row that was ever born in a run carries its creation's blob and salt, the hash of its PIN, no failures, version 2, and as expiry the lifetime added to the clock as it stood at an earlier step of that creation. |
| ServiceCreations.OneRowEach | crates/pinveil-server/src/service.rs:265-288 | Over a whole run a creation stores at most one row; whoever stored one is done, and if it was told an id and an expiry they are that row's. |
| ServiceCreations.ToldIsStored | crates/pinveil-server/src/service.rs:275-281 | Whoever was told an id and an expiry bore a row under that id with that expiry. |
| ServiceCreations.StoredIsTold | crates/pinveil-server/src/service.rs:275-281 | Every row that was born was committed, and its creation was told its id and expiry, or was refused where a fault lost the answer. |
| ServiceCreations.SweepDeletesTheExpired | crates/pinveil-server/src/service.rs:373-388 | After a sweep's deleting step that was not rolled back exactly the rows are left whose expiry is after the time it used, each as it was; after one that was, all are; and that time is what the clock showed at an earlier step of the same sweep. |
| ServiceLedger.LedgerStep | crates/pinveil-server/src/service.rs:229-388 | Each event keeps rows, births, fates and every task's knowledge in agreement. |
| ServicePool.PoolStep | crates/pinveil-server/src/service.rs:101-124 | Each event keeps the pool's and the admission's counters equal to the number of tasks at the corresponding points. |
| ServicePool.LocksStep | crates/pinveil-server/src/service.rs:127-147 | Each event keeps the stripe table equal to those tasks inside their critical section, at most one per stripe. |
| ServiceAttempts.EngagedOnce | crates/pinveil-server/src/service.rs:314-315 | At most one retrieval at a time stands between reading a generation and settling its attempt, because the stripe is held throughout. |
| ServiceAlone.UndisturbedRetrieval | crates/pinveil-server/src/service.rs:298-355 | From any state with a free slot, stripe, waiting place and permit, ten undisturbed steps of a new retrieval answer and change the store as one indivisible retrieval: unavailable for a missing row and for one whose time is up, which goes; the blob for the right PIN, and the row goes; wrong for a wrong PIN, which is counted or, as the last one allowed, takes the row; and give every resource back. |
| ServiceCreationAlone.UndisturbedCreation | crates/pinveil-server/src/service.rs:229-292 | From any state with a free permit, an undisturbed creation stores exactly the sent row under the first of its ten ids that no unexpired row has, if the store has room, tells that id and the expiry, and gives its permit back; otherwise it stores nothing and is refused. |
| Records.InsertDecidesOnUnexpiredRows | crates/pinveil-server/src/store.rs:182-219 | Whether an insert is refused, and how, depends only on the unexpired rows: taken exactly if one has the id, full exactly if with the new one they would be more than the largest number or take more than the largest total. |
| Records.InsertKeepsUnexpiredRows | crates/pinveil-server/src/store.rs:182-219 | An insert keeps every unexpired row, adds only its own, and uses up a generation only if it succeeds. |
| Records.InsertKeepsCaps | crates/pinveil-server/src/store.rs:142-144 | An insert keeps the number of rows and their bytes within the caps. |
| Records.CallsKeepGenerationsUnique | crates/pinveil-server/src/store.rs:182-258 | No operation ever stores two rows under one generation, or one above the last given out. |
| Records.SweepIsExact | crates/pinveil-server/src/store.rs:129-140 | A sweep leaves exactly the rows whose expiry is still to come, as they were, and counts the rest. |
| StoreCalls.GoneForGood | crates/pinveil-server/src/store.rs:119-127 | From the point of any sequence of store calls where a generation is gone, it stays gone: every later call that names it finds nothing and changes nothing, and no lookup shows it, even after its id went to a new message. |
| StoreCalls.TakenOutAtMostOnce | crates/pinveil-server/src/store.rs:225-254 | Over any sequence of store calls at most one takes a generation's row out, whether it releases the blob, uses up the attempts or removes the row: every other call that names the generation later finds nothing and changes nothing. |
| StoreCalls.HeldIsFound | crates/pinveil-server/src/store.rs:225-254 | At any point of any sequence of calls, a call that names a stored row by id and generation finds it: a consumption releases its blob, a removal says so, a failure is counted or burns it at the limit; no other row changes. |
| StoreCalls.FailuresCountToTheLimit | crates/pinveil-server/src/store.rs:225-246 | Repeated failures are answered one more than the last each time, the one that reaches the limit burns the row, and those after it find nothing. |
| MemoryStores.MemoryStore.Take | crates/pinveil-server/src/store.rs:113-117 | Removes exactly the row and hands it back, keeping the byte count equal to the blobs' total, so the subtraction never underflows. |
| MemoryStores.MemoryStore.TakeGeneration | crates/pinveil-server/src/store.rs:120-127 | Takes the row only if it holds this generation. |
| MemoryStores.MemoryStore.SweepInner | crates/pinveil-server/src/store.rs:129-140 | Removes exactly the expired rows and counts them, keeping the byte count exact. |
| MemoryStores.MemoryStore.Insert | crates/pinveil-server/src/store.rs:182-219 | Does to the contents, and answers, exactly what the abstract insert says, keeping counts exact and within the caps. |
| MemoryStores.MemoryStore.RecordFailure | crates/pinveil-server/src/store.rs:225-246 | Counts a wrong attempt, or removes the row at the limit, exactly as the abstract operation. |
| MemoryStores.MemoryStore.Consume | crates/pinveil-server/src/store.rs:248-250 | Removes the row of this generation and releases its blob, exactly as the abstract operation. |
| MemoryStores.MemoryStore.Remove | crates/pinveil-server/src/store.rs:252-254 | Removes the row of this generation, exactly as the abstract operation. |
| MemoryStores.MemoryStore.Sweep | crates/pinveil-server/src/store.rs:256-258 | Sweeps exactly as the abstract operation. |
| SqliteStores.SqliteStore.Insert | crates/pinveil-server/src/sqlite.rs:365-420 | Refines the abstract insert: same answer and contents; a fault before the commit leaves the table as it was, one after it keeps the new row but answers with an error; a time that does not fit in 64-bit nanoseconds changes nothing. |
| SqliteStores.SqliteStore.MetaOf | crates/pinveil-server/src/sqlite.rs:422-442 | Reads back the metadata the abstract store holds, times included, unless a fault strikes. |
| SqliteStores.SqliteStore.RecordFailure | crates/pinveil-server/src/sqlite.rs:444-482 | Refines the abstract operation under both fault points; a rolled-back attempt leaves the table untouched. |
| SqliteStores.SqliteStore.Consume | crates/pinveil-server/src/sqlite.rs:484-503 | Refines the abstract operation; a fault before the commit keeps the row, one after it deletes the row, and either way no blob is released. |
| SqliteStores.SqliteStore.Remove | crates/pinveil-server/src/sqlite.rs:505-515 | Refines the abstract operation; a generation beyond 64 bits is refused. |
| SqliteStores.SqliteStore.Sweep | crates/pinveil-server/src/sqlite.rs:517-524 | Refines the abstract sweep, counting the rows it deleted. |
| SqliteStores.TotalsAgree | crates/pinveil-server/src/sqlite.rs:348-362 | Related stores have the same number of rows and the same total size, so both admit the same messages. |
| Lockstep.RunBoth | crates/pinveil-server/src/store.rs:72-96 | Any sequence of calls with representable times gets the same answers from both stores, and leaves them with the same contents. |
| Json.ParseInverts | APP.md:243-254 | The concrete parser reads back everything the canonical printer writes: escapes, decimals, nesting, raw UTF-8. |
| Json.PrintIsInjective | APP.md:243-254 | Two well-formed values with the same canonical text are equal. |
| Json.StringReadsBack | APP.md:250-251 | A canonically escaped string reads back as itself, for every UTF-8 string. |
| JsonSpelling.EscapeIsSpelled | APP.md:250 | The printer escapes the quote, the backslash and the bytes below 0x20 as listed there, with lowercase hexadecimal digits, and nothing else. |
| JsonSpelling.ObjectIsSpelled | APP.md:247-248 | An object is printed as its members' texts in their order, separated by commas, in braces, without whitespace. |
| Utf8.ValidAreTheEncodings | crates/pinveil-core/src/payload.rs:256 | The bytes accepted as a string are exactly the UTF-8 encodings of sequences of Unicode scalar values (section 3 of RFC 3629): no overlong form, no surrogate. |
| Decimals.DecimalReadsBack | APP.md:249 | A plain decimal reads back as its number, up to the first non-digit. |
| Decimals.DecimalIsPositional | APP.md:249 | The characters of a printed decimal are the digits at its places, most significant first. |
| Base64.DecodeUndoesEncode | crates/pinveil-core/src/envelope.rs:174-179 | Decoding undoes encoding, for every byte string (section 4 of RFC 4648). |
| Base64.EncodeUndoesDecode | crates/pinveil-core/src/envelope.rs:174-179 | Every string the decoder accepts is what encoding its bytes gives: one spelling only. |
| Base64.EncodeLength | web/static/envelope.js:165-176 | An encoding has four characters for each three bytes begun. |
| Base64.EncodeIsSpelled | APP.md:252 | Every three bytes begun stand in their place as the four six-bit numbers of their 24 bits, with padding where no byte reaches. |
| Base64.CharIsInTheAlphabet | APP.md:252 | The six-bit numbers are written in the standard alphabet (table 1 of RFC 4648). |
| Framing.UnframeFramed | crates/pinveil-core/src/payload.rs:192-213 | The length prefix splits what it framed. |
| Framing.FrameUnframed | crates/pinveil-core/src/payload.rs:216-236 | Whatever splits was framed so, within the ceiling. |
| Envelope.DecoderAcceptsTheImage | crates/pinveil-core/src/envelope.rs:121-172 | With any JSON parser that reads canonical headers back and any base64 decoder that inverts the encoder, the Rust decoder accepts a blob with this result exactly if the encoder makes this blob of it. |
| Envelope.JsDecoderAcceptsTheImage | web/static/envelope.js:85-146 | The same for the browser's decoder. |
| Envelope.ClientsAgreeOnEnvelopes | web/static/envelope.js:64-159 | The two decoders accept the same blobs and return the same envelopes, whichever parsers they use. |
| Envelope.StrictDecoderAcceptsTheImage | crates/pinveil-core/src/envelope.rs:121-179 | The instance with the concrete parser and decoder of this model. |
| Envelope.AcceptedFits | crates/pinveil-core/src/envelope.rs:94-105 | Every header with accepted parameters takes at most 280 bytes, well within the header limit, so encoding never fails. |
| Envelope.HeaderIsSpelled | crates/pinveil-core/src/envelope.rs:58-83 | The canonical header is, character by character, the eight keys in the documented order with their values, without whitespace. |
| Envelope.DecoderAcceptsTheText | crates/pinveil-core/src/envelope.rs:121-172 | The decoder accepts exactly the blobs laid out around such a header: a four-byte big-endian length, the header, the ciphertext, with the sizes and the iteration range in numbers. |
| Envelope.BlobLenIsExact | crates/pinveil-core/src/envelope.rs:110-118 | The size computed from the payload's length alone is the length of the sealed blob. |
| Payloads.EncodePayload | crates/pinveil-core/src/payload.rs:192-213 | The buffer the loop fills is the manifest's length in four bytes, the manifest's text character by character, the text, and each file's data where the ones before it end; or the first refusal of the checks. |
| Payloads.ManifestIsSpelled | crates/pinveil-core/src/payload.rs:86-141 | The canonical manifest is, character by character, the text's length or null, then each file's name, type and length in this order. |
| Payloads.EncodeRefuses | crates/pinveil-core/src/payload.rs:143-174 | Exactly which payloads are refused, and with which error, an earlier check before a later one, in numbers. |
| Payloads.MeasureIsExact | crates/pinveil-core/src/payload.rs:179-189 | The size measured from text and metadata is refused exactly as encoding is, and otherwise is the encoded length, saturated at 2^64 - 1. |
| PayloadDecoder.AddLengths | crates/pinveil-core/src/payload.rs:239-248 | The checked sum refuses exactly the lengths above 2^53 - 1, and cannot overflow for the rest. |
| PayloadDecoder.DecodePayload | crates/pinveil-core/src/payload.rs:216-281 | The decoder's loops compute the decoding function, errors included. |
| PayloadDecoder.SplitUndoesJoin | crates/pinveil-core/src/payload.rs:252-269 | Cutting the body at the declared lengths gives back the files that were joined. |
| PayloadDecoder.DecoderAcceptsTheImage | crates/pinveil-core/src/payload.rs:216-281 | With any JSON parser that reads canonical manifests back, the decoder accepts these bytes with this payload exactly if the payload is well-formed text with lengths up to 2^53 - 1 and encodes under the ceilings to these bytes. |
| PayloadDecoder.DecoderAcceptsTheText | crates/pinveil-core/src/payload.rs:216-281 | The decoder accepts exactly the bytes laid out as documented around the spelled manifest of a payload within the documented limits: a big-endian length, the manifest, the text, the files' data in their order. |
| PayloadBrowser.PreparesAlike | web/static/payload.js:49-85 | The browser's checks before encoding accept and refuse the payloads the Rust checks do, for well-formed strings. |
| PayloadBrowser.EncodePayload | web/static/payload.js:100-115 | For every input, lone surrogates included: it succeeds exactly if all strings are well-formed and the Rust encoder succeeds, then with the same bytes; refuses well-formed strings as the Rust encoder does; and refuses others for the text, or else for the first file with anything wrong. |
| PayloadBrowser.RoundedTotal | web/static/payload.js:161-171 | A sum of doubles equals a safe length exactly if the exact sum does, so rounding cannot make a wrong total pass. |
| PayloadBrowser.DecoderAcceptsTheImage | web/static/payload.js:121-195 | The browser's decoder accepts exactly the image of the encoder, for inputs up to 2^53 - 1 bytes. |
| PayloadBrowser.ClientsAgreeOnPayloads | web/static/payload.js:121-195 | Both decoders accept the same byte strings and return the same payload, whichever parsers they use. |
| ClientParsers.RustParserServes | crates/pinveil-core/src/payload.rs:216-232 | A parser that refuses nesting deeper than 127 and numbers of 2^64 and more reads every canonical manifest and header back. |
| ClientParsers.JsParserServes | web/static/payload.js:121-141 | So does a parser that rounds every number to a double. |
| ClientParsers.LimitedClientsAgreeOnPayloads | web/static/payload.js:121-195 | The Rust decoder over the one and the browser's over the other, which read some texts differently, accept the same byte strings and return the same payload. |
| ClientParsers.LimitedClientsAgreeOnEnvelopes | web/static/envelope.js:85-146 | And the same blobs, with the same envelope. |
| Messages.SizeCheckIsExact | crates/pinveil-cli/src/send.rs:156-174 | The sender's check says too big, with the right size, exactly for blobs above the limit, as long as the blob is shorter than 2^64 bytes; from there on it disagrees with the limit. |
| Messages.SizeCheckWrapsAround | crates/pinveil-cli/src/send.rs:156-174 | Two files of 2^63 - 1 bytes, the most that file metadata can state, pass the check of a server that takes 2000. |
| Messages.SealedMessageOpens | crates/pinveil-core/src/crypto.rs:94-177 | What is sealed with a passphrase and PIN opens to the same payload with the same two, and is exactly as long as it was measured to be. |
| Sealing.SealedParts | crates/pinveil-core/src/crypto.rs:117-146 | A sealed blob spells the drawn salt and nonce, the content key wrapped under the key derived from passphrase and PIN one after the other, and the payload encrypted with the wrapped key as associated data. |
| Sealing.OtherSecretsAreRefused | crates/pinveil-core/src/crypto.rs:150-171 | Opened with its own passphrase and PIN a blob gives the payload, with any other passphrase or any other valid PIN a decryption error, and with a malformed PIN that error: for sound ciphers that derive different keys from the inputs concerned and refuse to unwrap under another of them. |
| Sealing.MixedBlobIsRefused | crates/pinveil-core/src/crypto.rs:161-170 | The header of one blob with the ciphertext of another is refused, though the secrets unlock the header, unless key, nonce and wrapped key agree. |
| Sealing.ApartCiphersExist | crates/pinveil-core/src/crypto.rs:117-171 | For any 2^64 inputs and contexts there are ciphers that meet these assumptions. |
| Sealing.SealPayload | crates/pinveil-core/src/crypto.rs:79-115 | Six digits and 600000 to 2000000 iterations are checked before anything is drawn; then 16, 12 and 32 bytes are drawn in this order, or sealing fails. |
| Messages.CheckedMessagesFit | crates/pinveil-server/src/service.rs:240-245 | A message that passed the sender's check seals to a non-empty blob within the server's limit. |
| Entropy.UniformBelow | crates/pinveil-core/src/entropy.rs:33-45 | The loop returns the first accepted draw's residue and leaves exactly the rest of the entropy. |
| Entropy.DrawsAreUniform | crates/pinveil-core/src/entropy.rs:33-45 | For every n at least 1, each residue has exactly floor(2^32 / n) accepted draws, the limit is a multiple of n, and fewer than half of all draws are rejected. |
| Entropy.DrawsAreFourBytes | crates/pinveil-core/src/entropy.rs:36-42 | Draws and four-byte strings correspond one to one. |
| Wordlists.Parse | crates/pinveil-core/src/wordlist.rs:35-64 | A text is accepted exactly if it has 7776 well-formed lines, no code or word twice and no word that starts with another; each refusal names a line that is at fault. |
| WordlistSpelling.AcceptedListsAreSpelled | crates/pinveil-core/src/wordlist.rs:35-64 | The accepted texts written out: 7776 lines of five digits from 1 to 6, a tab and a hyphenated lowercase word, separated by newlines and perhaps followed by one, no code twice, no word the start of another. |
| Wordlists.NeighbourScanIsComplete | crates/pinveil-core/src/wordlist.rs:54-62 | Among distinct sorted words no neighbour starts with the one before it exactly if no word starts with another. |
| Wordlists.ScanNeighbours | crates/pinveil-core/src/wordlist.rs:54-62 | The scan finds a pair exactly if the words are not prefix-free. |
| Wordlists.SortIndices | crates/pinveil-core/src/wordlist.rs:54-56 | The order is a permutation of the indices in which the words are sorted. |
| Wordlists.WordsAreReadable | crates/pinveil-core/src/wordlist.rs:104-109 | A word starts with a letter and has only letters and hyphens. |
| IdTemplates.Parse | crates/pinveil-core/src/id_template.rs:101-177 | The scanner with its literal buffer computes the parsing function, errors and offsets included. |
| IdTemplates.CountIsDecimal | crates/pinveil-core/src/id_template.rs:283-294 | A count is read as n exactly if it is the plain decimal of n and n is 1 to 64. |
| IdTemplates.BodiesAreRead | crates/pinveil-core/src/id_template.rs:243-280 | A placeholder's body is read as a segment exactly if it is one of that segment's spellings. |
| IdTemplates.ParseReadsTheGrammar | crates/pinveil-core/src/id_template.rs:101-177 | A template is accepted with these segments exactly if it is short enough, spells them in the grammar, has a placeholder, and its longest id fits. |
| IdLanguage.PiecesAreSpelled | crates/pinveil-core/src/id_template.rs:243-280 | The grammar's pieces in characters: a literal's id characters, {word}, and {word:n}, {digits:n}, {alnum:n}, {Alnum:n} with n from 1 to 64. |
| IdTemplates.SpellingIsUnambiguous | crates/pinveil-core/src/id_template.rs:101-177 | A text spells at most one sequence of segments. |
| IdGeneration.DistinctDrawsDistinctIds | crates/pinveil-core/src/id_template.rs:6-9 | With a prefix-free wordlist, two vectors of draws give the same id exactly if they are the same, adjacent placeholders and hyphenated words included. |
| IdGeneration.NumberOfIds | crates/pinveil-core/src/id_template.rs:191-203 | The number of ids of a template is exactly the product of its alphabets' sizes, whose logarithm is the reported entropy. |
| IdUniformity.ParsedNumberOfIds | crates/pinveil-core/src/id_template.rs:191-203 | With the 7776 words a parsed wordlist has, a template of w words, d digits, a lowercase and m mixed characters has exactly 7776^w * 10^d * 36^a * 62^m ids. |
| IdUniformity.EachIdIsAsLikely | crates/pinveil-core/src/entropy.rs:33-45 | The vectors of 32-bit draws that are not rejected and give one id number the product of floor(2^32 / n) over the alphabets, whichever id it is. |
| IdUniformity.ParsedIdsAreAsLikely | crates/pinveil-core/src/id_template.rs:205-224 | So each id of a template with a parsed wordlist is given by equally many accepted draws, and the generator fed their bytes makes that id and takes no more. |
| IdGeneration.Generate | crates/pinveil-core/src/id_template.rs:206-224 | The generator consumes entropy and builds the id as the specification of draws says, or fails where entropy runs out. |
| IdGeneration.PushChars | crates/pinveil-core/src/id_template.rs:227-239 | Appends one uniformly drawn character per place. |
| IdGeneration.PushWords | crates/pinveil-core/src/generate.rs:35-44 | Appends drawn words joined by hyphens. |
| IdGeneration.GeneratedIsRendered | crates/pinveil-core/src/id_template.rs:206-224 | A generated id is the rendering of draws in range. |
| IdLanguage.IdsAreTheMatchingTexts | crates/pinveil-core/src/id_template.rs:206-239 | The texts that draws can give are exactly those that match the template: literals as they are, listed words joined by hyphens, so many digits, so many letters and digits. |
| IdLanguage.GeneratedIdsMatch | crates/pinveil-core/src/id_template.rs:206-224 | Every generated id matches its template. |
| IdGeneration.LongestId | crates/pinveil-core/src/id_template.rs:154-163 | The computed maximum is the length of the longest id: some draws give an id of exactly that length and none a longer one. |
| IdGeneration.TemplatesGiveValidIds | crates/pinveil-core/src/id_template.rs:30-42 | Every id of an accepted template is a valid id within its maximum length. |
| ExportNames.Sanitize | crates/pinveil-core/src/export_names.rs:36-60 | The loop computes the sanitizing function. |
| ExportNames.SanitizedIsSafe | crates/pinveil-core/src/export_names.rs:36-60 | Every name of at most 255 bytes becomes a safe one: 1 to 255 bytes, no forbidden or control character, no trailing dot or space, no device stem. |
| ExportNames.SafeNamesAreKept | crates/pinveil-core/src/export_names.rs:36-60 | A name that is safe already is kept. |
| ExportSpelling.SanitizedIsSpelled | crates/pinveil-core/src/export_names.rs:36-60 | The policy step by step, each step by what its result is: underscores for the listed characters, no trailing dots or spaces, a number for nothing, an underscore before a listed device, at most 255 bytes. |
| ExportSpelling.CandidateIsSpelled | crates/pinveil-core/src/export_names.rs:66-82 | A numbered name has its number in parentheses before the extension, which is the end from the last dot on, or after the whole name where that leaves no room, with as much in front as 255 bytes allow. |
| ExportSpelling.ShortNameIsNumbered | crates/pinveil-core/src/export_names.rs:66-82 | Where everything fits, nothing is cut. |
| ExportSpelling.NumberIsDecimal | crates/pinveil-core/src/export_names.rs:73 | The number in a name is its plain decimal. |
| ExportSpelling.CharLenIsUtf8 | crates/pinveil-core/src/export_names.rs:95-104 | The bytes counted for a character are those of its UTF-8 form. |
| ExportNames.CandidatesDiffer | crates/pinveil-core/src/export_names.rs:62-88 | Candidates for two numbers that both keep, or both drop, the extension are equal ignoring case only if the numbers are. |
| ExportNames.CandidateIsSafe | crates/pinveil-core/src/export_names.rs:62-88 | Every candidate of a safe name is safe, after truncation and renumbering too. |
| ExportNames.TriedIsBounded | crates/pinveil-core/src/export_names.rs:62-88 | After trying candidates that were all taken, the number is at most twice the used names plus two: the pigeonhole over both regimes. |
| ExportNames.Disambiguate | crates/pinveil-core/src/export_names.rs:62-88 | Terminates, never subtracts below zero, and returns the name itself or its first free candidate. |
| ExportNames.ExportNames | crates/pinveil-core/src/export_names.rs:22-34 | Each export name is the first free one for its sanitized name, given the names before it. |
| ExportNames.ExportsAreSafeAndDistinct | crates/pinveil-core/src/export_names.rs:22-104 | All export names of a message are safe, and pairwise distinct ignoring case. |
| Crc.TableStepIsSerial | web/static/zip.js:31-37 | One byte through the table is eight bits of division by the reflected polynomial. |
| Crc.MakeTable | web/static/zip.js:18-28 | The nested loops fill the table with each byte's entry. |
| Crc.TableCrc32 | web/static/zip.js:31-37 | The table-driven checksum equals the bit-by-bit one, for every message. |
| CrcDivision.ChecksumIsRemainder | web/static/zip.js:18-37 | The checksum is the complemented remainder of dividing the message, its first 32 coefficients complemented and 32 zeros behind it, by the generator polynomial given by its fifteen terms. |
| Zip.StampReadsBack | web/static/zip.js:40-45 | The packed date and time hold the given ones, years clamped to 1980-2107 and seconds halved, in 16 bits each. |
| Zip.CheckBounds | web/static/zip.js:51-66 | Refuses exactly the archives with too many entries, too long a name, too large a file or too large a total. |
| Zip.AcceptedFits | web/static/zip.js:51-66 | Whatever is not refused, every size and offset fits its field. |
| Zip.LocalHeader | web/static/zip.js:76-89 | The buffer written is the entry's local header (section 4.3.7 of APPNOTE). |
| Zip.CentralHeader | web/static/zip.js:91-106 | The buffer written is the entry's central header with its local offset (section 4.3.12). |
| Zip.EndRecord | web/static/zip.js:113-120 | The buffer written is the end record with count, size and offset (section 4.3.16). |
| ZipSpelling.LocalIsSpelled | web/static/zip.js:76-89 | A local header is these bytes and no others: signature, version, flags and fields in little-endian order, the name. |
| ZipSpelling.CentralIsSpelled | web/static/zip.js:91-106 | So is a central header. |
| ZipSpelling.EndIsSpelled | web/static/zip.js:113-120 | And the end record. |
| ZipSpelling.RefusalIsExact | web/static/zip.js:51-66 | The refusals in numbers: more than 65535 files, a name over 65535 or a file over 2^32 - 1 bytes, or an archive that is longer than 2^32 - 1 bytes without its end record. |
| Zip.ZipParts | web/static/zip.js:51-123 | Refuses as the bounds say, and otherwise returns local headers and data, central headers at the right offsets, and the end record. |
| Zip.ArchiveReadsBack | web/static/zip.js:51-123 | A reader that goes from the end record to the central directory to the local headers, and checks every checksum, recovers the same names and data in the same order. |
| Zip.NoMessageIsRefused | crates/pinveil-server/src/config.rs:24-25 | No payload up to 4,000,000,000 bytes with export names up to 255 bytes is refused. |
| RateLimits.MatchesIsBijection | crates/pinveil-server/src/ratelimit.rs:36-41 | Queue and map agree: one queue entry for each key, with its window's start. |
| RateLimits.AllowKeepsTheQueue | crates/pinveil-server/src/ratelimit.rs:64-103 | Every request keeps queue and map in agreement, the tracked keys within the cap and each count within its limit, with any clock. |
| RateLimits.RateLimiter.Allow | crates/pinveil-server/src/ratelimit.rs:64-103 | The loop and the map updates compute the specified state and answer. |
| RateLimits.RateLimiter.Tracked | crates/pinveil-server/src/ratelimit.rs:107-113 | The number of tracked keys, never above the cap. |
| RateLimits.NewKeyTakes | crates/pinveil-server/src/ratelimit.rs:64-103 | From a limiter with room, of requests of one new key inside one window exactly the first as many pass as the creation limit says for creations and the retrieval limit for retrievals. |
| RateLimits.AnswersNaively | crates/pinveil-server/src/ratelimit.rs:64-103 | With a clock that never goes back, every sequence of requests gets the answers of a limiter that first drops every expired window. |
| RateLimits.AnswerIsNaive | crates/pinveil-server/src/ratelimit.rs:64-103 | With any clock and from any state of the limiter, a request gets the naive answer if and only if it is not held up: the unexpired windows leave room, but the key's own expired window is still in the map and full, or the windows still in the map leave the key no room. The limiter never lets through what the naive one refuses. |
| RateLimits.LateClockKeepsAnExpiredWindow | crates/pinveil-server/src/ratelimit.rs:64-103 | With a clock that goes back, an answer can differ: the input that shows it. |
| RateLimits.LogsAgree | crates/pinveil-server/src/ratelimit.rs:64-103 | With a clock that never goes back, the limiter lets the same requests through as the naive one, in windows with the same starts. |
| RateLimits.WindowIsLimited | crates/pinveil-server/src/ratelimit.rs:64-103 | Over a run of the limiter from any ordered state, no window lets more creations of an address pass than the creation limit, or more retrievals than the retrieval limit, those already counted included. |
| RateLimits.AtMostTwiceTheLimit | crates/pinveil-server/src/ratelimit.rs:64-103 | From any ordered state, of what a run of the limiter lets through, any half-open interval as long as the window holds at most twice the creation limit of creations and twice the retrieval limit of retrievals, per address, together with what the open window it reaches into had let through before. |
| ClientAddresses.ClientCannotChooseItsAddress | crates/pinveil-server/src/ratelimit.rs:116-148 | Whatever a client puts before the address its proxy appended, or nothing, and however many trusted proxies append theirs after it, the request is counted against that address if the peer is trusted and the whole header is readable, and against the peer otherwise. |
| ClientAddresses.AddressIsSpelled | crates/pinveil-server/src/ratelimit.rs:116-148 | Of every input: a trusted peer's one header of at most 1024 bytes and 32 readable addresses gives the rightmost that is not a trusted proxy's, or the peer's if all are; anything else gives the peer's. |

## Left out

- HTTP, multipart bodies, routing, headers, logging, the command line, configuration files, web
  pages and file access.
- Lifetimes are in the clock's unit; the limits on them are configuration.
- Retrievals with a malformed PIN, which are refused before they take a slot, and creations whose
  blob is too large or whose lifetime is unknown, which are refused before they hash.
- The scheduler: any ready task may take the next step. Cancelled creations are modelled where they
  wait; panics in a store call or a hash are not.
- The cryptographic primitives are function parameters: unwrapping undoes wrapping, decrypting
  undoes encrypting, the tag adds 16 bytes. `Messages.SoundCiphersExist` shows the assumption can be
  met. A sound PIN hash, one that only its own PIN satisfies, is an ideal used in the last clause of
  `ServiceRuns.DeliveryIsEarned` alone.
- The SQL engine, the write-ahead log, schema checks and file locks: a transaction is a copy of the
  table that is kept or dropped, and faults strike where the code has its fault points.
- In `Service` the stores appear as `Records`, with a fault before or after the commit of any call;
  the invariant that a store's clock is the service's is not assumed anywhere.
- The error codes of the two decoders are not compared: they check in different orders, and only
  acceptance and the decoded value agree.
- The libraries' JSON parsers and base64 decoders: the decoders' theorems hold of any that read back
  what the encoders write, the only texts that can be accepted.
- JSON strings are bytes. A string with an unpaired surrogate, which the browser's parser can give,
  stands as a byte string that is not UTF-8. Numbers with a sign, fraction or exponent stand as one
  kind of other number, which both decoders refuse.
- Lowering is per character, any function that keeps digits, space, dot, parentheses, hyphen and
  underscore. The context-dependent lowering of a final sigma is not modelled.
- Export names over 255 bytes as input, which payload validation rules out.
- Entropy is a finite stream of bytes that can run out; its quality is not modelled.
- Reported entropy is a floating-point sum of logarithms; the model has the exact product.
- The library sort in the word list is an insertion sort here; only its result matters.
- The envelope length wraps around as in a release build; a debug build panics there instead.
- The retry of WAL truncation and the other housekeeping after a sweep.
- ServiceRuns.DeliveryIsEarned: that the PIN is the creator's needs a hash no other PIN satisfies,
  which a real hash only approximates; that the verifier accepted it is stated without.
- ServiceRuns.SomeTaskIsReady: some task can move, not that a scheduler lets every task move.
- ServiceRuns.WrongPinsAreBounded: attempts rolled back by a fault are not limited, because the code
  does not count them; `ServiceLosses.BoundIsReached` shows that the bound is reached.
- SqliteStores.SqliteStore.Insert: the choice of the next generation is the largest given out plus
  one, as the table's auto-increment key gives it; at 2^63 - 1 the insert fails as a storage error.
- Lockstep.RunBoth: no faults, times that fit in 64-bit nanoseconds, and fewer than 2^63 inserts.
- PayloadBrowser.DecoderAcceptsTheImage: inputs up to 2^53 - 1 bytes; no browser buffer is longer.
- Messages.SizeCheckIsExact: text shorter than 2^63 bytes, which holds of every string in memory.
- Sealing.OtherSecretsAreRefused: of a finite set of inputs that the ciphers tell apart. No ciphers
  tell all inputs apart, because a wrapped key has 40 bytes; a real one only makes it unlikely to hit
  two that agree.
- Sealing.MixedBlobIsRefused: likewise of a finite set of keys, nonces and wrapped keys.
- Messages.CheckedMessagesFit: blobs shorter than 2^64 bytes; above, the check itself wraps around.
- ExportNames.ExportsAreSafeAndDistinct: at most 256 names of at most 255 bytes, which payload
  validation guarantees; names are sequences of Unicode scalar values, so their UTF-8 is valid.
