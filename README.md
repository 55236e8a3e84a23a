# LoRaptor core logic in Dafny

LoRaptor is ESP32 firmware for text messaging over a LoRa mesh. This
project models three parts of it and proves properties about them:

- **The envelope codec.** This is `Payload::encode` / `Payload::decode` in
  src/objects/payload.cpp, with the two other copies of its encryption
  helpers in src/utils/encryption.cpp and src/encryption.cpp.
  - A payload becomes the record `publicWord|epoch|type|content`.
  - The record is compressed with Smaz2 behind a 4-byte big-endian length
    header.
  - It is then PKCS#7-padded (section 6.3 of RFC 5652), encrypted with
    AES-128 in CBC mode with a zero IV (section 6.2 of NIST SP 800-38A)
    under a key cut or zero-padded to 16 bytes, and base64-encoded
    (section 4 of RFC 4648).
  - Decoding runs the inverse pipeline, splits the record at its first
    three `|`, and reads the epoch and the type back through
    `std::istringstream`.
- **Connections and the connection registries.**
  - A connection holds an id, a key and a recipient list. It prepares and
    processes messages through the codec.
  - The registry keeps connections in creation order, with distinct ids.
  - The older registry and connection in src/connection_manager.cpp and
    src/connection.cpp "encrypt" by reversing the text.
- **The LED feedback controllers.** This covers src/rgb/rgb_feedback.cpp
  and the older src/rgb_feedback.cpp.
  - Each has a priority-sorted action queue, the action being shown, the
    action being faded to, and millisecond clocks.
  - `update()` moves the controller on, comparing times as 32-bit
    wrap-around differences.
  - The colour computations are left out; the discrete state machine is
    kept.

## How it is modelled

Each core source file is a module: `Payloads`, `Encryption`,
`ArduinoEncryption`, `Connections`, `ConnectionRegistry`, `Messages`,
`LegacyConnections`, `LegacyRegistry`, `Feedback` and `LegacyFeedback`.
Shared modules hold what several files use:

- `Bytes`: integer widths and 32-bit wrap-around.
- `Streams`: the iostream conversions.
- `Vectors`: the erase-remove idiom and linear search.
- `Records`: the `|`-separated record.
- `RgbActions`: the action type of include/rgb/rgb_action.h and the
  priority queue.
- `Foreign`: the libraries.

Classes whose fields the source updates in place are Dafny classes: the
connection, both registries and both feedback controllers. Their methods
are proved against specification functions on the old state (for example
`Feedback.UpdateState`), and the lemmas about those functions state what
the source promises.

The libraries the codec calls (mbedtls AES and base64, Smaz2) are not part
of this model. Each is a record of functions passed in as a parameter. A
ghost `Valid()` predicate states the library behaviour that a lemma rests
on, and every lemma that needs it takes it as a precondition:

- decryption undoes encryption;
- CBC keeps the length and needs whole blocks;
- base64 text has the RFC 4648 length and holds no NUL;
- decompression undoes compression.

Clocks (`millis()`, `std::chrono::system_clock`) are a `now` parameter.

## Model

| member | source | states |
|---|---|---|
| Bytes.Sub32 | src/rgb/rgb_feedback.cpp:151 | `now - start` on `uint32_t`: the difference when now >= start, otherwise the difference plus 2^32 |
| Bytes.ToU32 | src/objects/payload.cpp:27 | the conversion to `uint32_t` keeps the value modulo 2^32 |
| Streams.Decimal | src/objects/payload.cpp:197 | `<<` of an unsigned number writes at least one decimal digit, never a `|`, and a leading '0' only for 0 |
| Streams.ExtractU32 | src/objects/payload.cpp:248-252 | `>>` into `uint32_t` succeeds exactly when digits follow the white space and optional sign and their value is at most 2^32-1 |
| Streams.ExtractChar | src/objects/payload.cpp:254-258 | `>>` into `uint8_t` succeeds exactly when the text has a non-space character, and gives the first such character, every character before it being white space |
| Streams.DigitsValueOfDecimal | src/objects/payload.cpp:197 | the digits `<<` writes have the value of the number |
| Streams.ExtractU32OfDecimal | src/objects/payload.cpp:248-252 | the epoch's decimal text, followed by anything that does not start with a digit, reads back as the epoch |
| Streams.ExtractU32RejectsOverflow | src/objects/payload.cpp:248-252 | a number above 2^32-1 fails to parse instead of wrapping |
| Streams.ExtractCharOfDecimal | src/objects/payload.cpp:254-258 | the type field reads back as the ASCII code of its first digit (type 0 reads as 48) |
| Vectors.FirstIndex | src/managers/connection_manager.cpp:29-36 | the first position holding the value, or the length when the value is absent, with no match before it |
| Vectors.Erase | src/objects/connection.cpp:44-46 | erase-remove leaves no occurrence, only elements of the input, and every other element; it is the identity when the value is absent |
| Vectors.EraseAppend | src/objects/connection.cpp:45 | erase-remove distributes over concatenation, so the kept elements stay in order |
| Vectors.EraseCounts | src/objects/connection.cpp:45 | erase-remove keeps the count of every other value and drops all copies of the value |
| Vectors.EraseDistinctAt | src/managers/connection_manager.cpp:17 | in a list without repetitions, erase-remove of the element at i removes exactly position i |
| Encryption.DerivedKey | src/utils/encryption.cpp:9-14 | the AES key is 16 bytes: the first min(len, 16) key bytes, then zeros |
| Encryption.PrepareAESKey | src/utils/encryption.cpp:9-14 | the output buffer ends up holding the derived key |
| Encryption.PadCount | src/utils/encryption.cpp:18 | the pad count is in 1..16 and brings the length to a multiple of 16 |
| Encryption.Padded | src/utils/encryption.cpp:17-26 | the padded buffer is a multiple of 16 long, 1 to 16 bytes longer than the input, starts with the input, and every pad byte equals the pad count |
| Encryption.Pkcs7Pad | src/utils/encryption.cpp:17-26 | `pkcs7_pad` returns a fresh buffer of `paddedLen` bytes holding the padded input |
| Encryption.UnpadLen | src/utils/encryption.cpp:29-34 | `pkcs7_unpad` gives 0 for empty input, the full length when the last byte is above 16, the length minus the last byte otherwise, and never more than the length on whole blocks |
| Encryption.UnpadLenOfPadded | src/utils/encryption.cpp:17-34 | unpadding a padded buffer gives back the original length |
| Encryption.Base64BufLen | src/utils/encryption.cpp:70 | the base64 buffer is the RFC 4648 text length plus one byte for the NUL |
| Encryption.EncryptSpec | src/utils/encryption.cpp:36-82 | the encryption pipeline as a function: identity for an empty key, "" on a library failure, else base64 of the CBC ciphertext of the padded input; characterised by `EmptyKeyIsIdentity`, `EncryptFailsOnlyInCipher` and `DecryptEncrypt` |
| Encryption.DecryptSpec | src/utils/encryption.cpp:84-124 | the decryption pipeline as a function: identity for an empty key, "" on a library failure, else the first `UnpadLen` bytes of the CBC plaintext; `DecryptEncrypt` proves it inverts `EncryptSpec` |
| Encryption.EncryptMessage | src/utils/encryption.cpp:36-82 | `encryptMessage` computes the encryption pipeline, with every library failure giving "" |
| Encryption.DecryptMessage | src/utils/encryption.cpp:84-124 | `decryptMessage` computes the decryption pipeline and keeps exactly the first unpadded-length bytes of the CBC output |
| Encryption.EmptyKeyIsIdentity | src/utils/encryption.cpp:37 | with an empty key both directions return their input |
| Encryption.EncryptFailsOnlyInCipher | src/utils/encryption.cpp:36-82 | with a key, encryption gives "" exactly when key setup or CBC fails; otherwise the text has the base64 length of the padded input |
| Encryption.DecryptEncrypt | src/utils/encryption.cpp:36-124 | decryption undoes a successful encryption under the same key |
| ArduinoEncryption.CString | src/encryption.cpp:86 | `String(const char*)` keeps the bytes before the first NUL |
| ArduinoEncryption.CStringWithoutNul | src/encryption.cpp:86 | a buffer without NUL survives the C-string constructor whole |
| ArduinoEncryption.EncryptMessage | src/encryption.cpp:34-89 | the Arduino `encryptMessage` is the identity for an empty key, and otherwise the C-string of the pipeline's text, which with a well-behaved base64 is the whole text |
| ArduinoEncryption.DecryptMessage | src/encryption.cpp:91-142 | the byte-by-byte copy loop returns exactly the unpadded plaintext |
| ArduinoEncryption.DecryptEncrypt | src/encryption.cpp:34-142 | the Arduino decryption undoes the Arduino encryption |
| Records.FirstFrom | src/objects/payload.cpp:235 | `find('|', from)`: the first delimiter at or after `from`, with none between |
| Records.Find | src/objects/payload.cpp:230-246 | `find` gives a position holding the delimiter with none before it, or npos when there is none from `from` on |
| Records.SplitRecordJoins | src/objects/payload.cpp:229-246 | a split record joins back into the input with `|`, and its first three fields hold no `|` |
| Records.Join | src/objects/payload.cpp:197 | the four fields with a `|` between each two; `SplitJoin` proves `SplitRecord` inverts it on pipe-free leading fields |
| Records.SplitRecord | src/objects/payload.cpp:229-246 | the three `find`/`substr` splits, None when a `|` is missing; `SplitRecordJoins` proves every split joins back to its input with pipe-free leading fields, `SplitJoin` the converse |
| Records.SplitJoin | src/objects/payload.cpp:197-246 | splitting the record `encode` writes gives back its four fields when the first three hold no `|`; the content may hold `|` |
| Payloads.Be32 | src/objects/payload.cpp:45-48 | the header is four bytes |
| Payloads.ReadBe32OfBe32 | src/objects/payload.cpp:45-63 | the header `decompressWithHeader` reads is the length `compressWithHeader` wrote |
| Payloads.ReadBe32 | src/objects/payload.cpp:60-63 | the number read from the first four bytes is the one whose header they are, most significant byte first |
| Payloads.Compressed | src/objects/payload.cpp:26-52 | what `compressWithHeader` returns; `CompressedShape` and `DecompressCompress` characterise it |
| Payloads.CompressWithHeader | src/objects/payload.cpp:26-52 | the byte-by-byte header writes and the copy build the header followed by the compressor's output |
| Payloads.CompressedShape | src/objects/payload.cpp:35-51 | `compressWithHeader` gives "" exactly when the compressor reports 0 bytes; otherwise 4 + compressed size bytes, the compressor output after the header, and the header holding the input length modulo 2^32 |
| Payloads.Decompressed | src/objects/payload.cpp:56-76 | `decompressWithHeader`: "" for input shorter than the header, and otherwise never more bytes than the header value plus one (in `uint32_t`) |
| Payloads.DecompressedNeedsHeader | src/objects/payload.cpp:57-59 | input shorter than 4 bytes decompresses to "" |
| Payloads.DecompressCompress | src/objects/payload.cpp:26-76 | decompressing a successful compression gives the input back when its length is below 2^32-1 |
| Payloads.EncryptMessageInternal | src/objects/payload.cpp:87-141 | the inline padding loop and the calls compute the same encryption as `encryptMessage` |
| Payloads.DecryptMessageInternal | src/objects/payload.cpp:143-192 | the inline unpadding computes the same decryption as `decryptMessage` |
| Payloads.ParseRecord | src/objects/payload.cpp:248-262 | a parsed record holds the split public word and content, the epoch read by `>>`, and the type converted from the character read by `>>` |
| Payloads.Record | src/objects/payload.cpp:196-198 | the record `encode` builds; when the public word has no `|`, splitting it gives back the public word, the decimal epoch, the decimal type and the content |
| Payloads.Encode | src/objects/payload.cpp:194-218 | `encode` fails and leaves the output string alone when compression fails; otherwise the output is the ciphertext, and the result is true exactly when it is not empty |
| Payloads.DecodeSpec | src/objects/payload.cpp:220-263 | what `decode` makes of its input, None on every failure path; `Decode` is proved equal to it and `DecodeEncode` inverts `Encode` through it |
| Payloads.Decode | src/objects/payload.cpp:220-267 | `decode` succeeds exactly when decryption, decompression, the split and both conversions succeed; on success pOut holds the decoded fields, and on failure it is unchanged |
| Payloads.DecodeEncode | src/objects/payload.cpp:194-267 | what `encode` produced decodes to the same public word, epoch and content; the type comes back as the conversion of the first digit's ASCII code |
| Messages.NewMessage | src/objects/message.cpp:4-6 | the getters return the content and epoch given to the constructor |
| Messages.DefaultMessage | src/objects/message.cpp:8 | the default message has epoch 0 and empty content |
| Connections.Prepared | src/objects/connection.cpp:20-30 | the text `prepareMessage` returns; `ProcessPrepared` proves `Processed` inverts it |
| Connections.Processed | src/objects/connection.cpp:32-38 | the text `processMessage` returns: the decoded content, "" on failure |
| Connections.ProcessPrepared | src/objects/connection.cpp:20-38 | a message prepared by a connection is processed back into itself by a connection with the same key |
| Connections.Connection.constructor | src/objects/connection.cpp:8-10 | the getters return the id, key and recipients given |
| Connections.Connection.PrepareMessage | src/objects/connection.cpp:20-30 | the encoded payload of the id, the clock truncated to 32 bits and the message, or "" when encoding fails |
| Connections.Connection.ProcessMessage | src/objects/connection.cpp:32-38 | the decoded content, or "" when decoding fails |
| Connections.Connection.AddRecipient | src/objects/connection.cpp:40-42 | the id is appended at the end, duplicates allowed |
| Connections.Connection.RemoveRecipient | src/objects/connection.cpp:44-46 | the list loses every occurrence of the id and keeps the rest in order |
| ConnectionRegistry.Lookup | src/managers/connection_manager.cpp:29-36 | null exactly when no connection has the id; otherwise a listed connection with that id |
| ConnectionRegistry.LookupAfterAppend | src/managers/connection_manager.cpp:8-12 | appending a new id keeps the ids distinct, makes it findable and changes no other lookup |
| ConnectionRegistry.LookupAfterRemoval | src/managers/connection_manager.cpp:14-23 | removing the entry found for an id keeps the others distinct and the id is then not found |
| ConnectionRegistry.ConnectionManager.constructor | src/managers/connection_manager.cpp:6 | the registry starts empty |
| ConnectionRegistry.ConnectionManager.GetConnection | src/managers/connection_manager.cpp:29-36 | the linear search returns the first connection with the id, or null |
| ConnectionRegistry.ConnectionManager.GetConnections | src/managers/connection_manager.cpp:25-27 | the connections in creation order (appended by `CreateConnection`, removed in place by `DeleteConnection`), no two with the same id |
| ConnectionRegistry.ConnectionManager.CreateConnection | src/managers/connection_manager.cpp:8-12 | false and nothing changed when the id exists; otherwise true with one new connection appended, the others kept in order and ids kept distinct |
| ConnectionRegistry.ConnectionManager.DeleteConnection | src/managers/connection_manager.cpp:14-23 | true exactly when the id exists, then only that entry is removed and the order is kept; false leaves the list unchanged; the id is then not found |
| LegacyConnections.Reversed | src/connection.cpp:15-19 | the countdown loop's output has the same length with character i taken from position len-1-i |
| LegacyConnections.ScrambledInvolution | src/connection.cpp:13-29 | `decrypt(encrypt(x)) == x` and `encrypt(encrypt(x)) == x` for every key, and the length is kept |
| LegacyConnections.Connection.constructor | src/connection.cpp:3 | the getters return the id and key given |
| LegacyConnections.Connection.Encrypt | src/connection.cpp:13-20 | the input for an empty key, the reversed input otherwise |
| LegacyConnections.Connection.Decrypt | src/connection.cpp:22-29 | the same rule as `encrypt` |
| LegacyRegistry.Lookup | src/connection_manager.cpp:32-37 | null exactly when no connection has the id; otherwise a listed connection with that id |
| LegacyRegistry.ProcessPrepared | src/connection_manager.cpp:12-22 | `processIncoming(id, prepareMessage(id, m)) == m` for every id |
| LegacyRegistry.Forwarded | src/connection_manager.cpp:12-22 | what `prepareMessage` and `processIncoming` return; `ProcessPrepared` proves it is its own inverse |
| LegacyRegistry.Lines | src/connection_manager.cpp:26-28 | the lines of the listing after its header; `LinesAppend` proves it is one line per connection in order |
| LegacyRegistry.LinesAppend | src/connection_manager.cpp:26-28 | the listing is one line per connection, in list order, however the list is cut |
| LegacyRegistry.ConnectionManager.constructor | src/connection_manager.cpp:4 | the registry starts empty |
| LegacyRegistry.ConnectionManager.GetConnection | src/connection_manager.cpp:32-37 | the first connection with the id, or null |
| LegacyRegistry.ConnectionManager.CreateConnection | src/connection_manager.cpp:6-10 | false and nothing changed when the id exists; otherwise true with the new connection appended and ids kept distinct |
| LegacyRegistry.ConnectionManager.PrepareMessage | src/connection_manager.cpp:12-16 | the message unchanged for an unknown id, else the connection's `encrypt` of it |
| LegacyRegistry.ConnectionManager.ProcessIncoming | src/connection_manager.cpp:18-22 | the message unchanged for an unknown id, else the connection's `decrypt` of it |
| LegacyRegistry.ConnectionManager.ListConnections | src/connection_manager.cpp:24-30 | "Connections:\n" followed by `id (Key: set)` or `id (Key: not set)` lines, one per connection in order |
| RgbActions.FromDefault | src/rgb/rgb_feedback.cpp:60-64 | an action built from a defaults entry has priority 0 and the entry's effect, interval, duration and interpolation |
| RgbActions.InsertByPriority | src/rgb/rgb_feedback.cpp:65-68 | push_back then sort by descending priority: the result is sorted and is the old queue plus the new action as a multiset |
| RgbActions.InsertAfterEqual | src/rgb/rgb_feedback.cpp:65-68 | an action of no higher priority than any queued one goes at the end |
| RgbActions.DropLeadingIdle | src/rgb/rgb_feedback.cpp:289-291 | the queue loses exactly its leading idle actions: what is left is a suffix not starting with idle, and everything dropped is idle |
| RgbActions.DropLeadingIdleSorted | src/rgb/rgb_feedback.cpp:288-296 | skipping idle actions and then the front keeps the queue sorted |
| Feedback.TransitionState | src/rgb/rgb_feedback.cpp:130-145 | the discrete effect of `transitionToAction`; `IdlePhaseKept` states its idle clock rule |
| Feedback.StartNextState | src/rgb/rgb_feedback.cpp:288-296 | the effect of `startNextAction`; `IdleGivesWayToQueue` characterises it |
| Feedback.UpdateState | src/rgb/rgb_feedback.cpp:148-204 | the discrete effect of `update()`, one branch per source branch; the lemmas below characterise each branch |
| Feedback.UpdateKeepsInv | src/rgb/rgb_feedback.cpp:148-204 | every `update` keeps the queue sorted and the pending action present exactly during a transition |
| Feedback.TransitionCompletes | src/rgb/rgb_feedback.cpp:164-175 | once `now - transitionStartTime >= transitionDuration` modulo 2^32, pending becomes current, the transition ends, the action clock starts, and the queue is kept |
| Feedback.TransitionWaits | src/rgb/rgb_feedback.cpp:151-176 | before that, `update` changes no state |
| Feedback.ZeroDurationNeverExpires | src/rgb/rgb_feedback.cpp:183 | an action with duration 0 stays current and the queue is untouched |
| Feedback.ExpiryPopsFront | src/rgb/rgb_feedback.cpp:183-188 | an expired action with a queue pops the front into a 200 ms transition and clears current |
| Feedback.ExpiryFallsBackToIdle | src/rgb/rgb_feedback.cpp:189-203 | an expired non-idle action with an empty queue fades to the idle default and clears current |
| Feedback.NothingShownTakesQueue | src/rgb/rgb_feedback.cpp:183-203 | with no current action, `update` pops the queue front into a 200 ms transition, or fades to the idle default when the queue is empty; current stays empty |
| Feedback.IdleGivesWayToQueue | src/rgb/rgb_feedback.cpp:177-180 | with idle showing and a queue, `update` fades to the first non-idle entry and keeps what is behind it; when all are idle the queue empties and nothing else changes |
| Feedback.BlinkToggles | src/rgb/rgb_feedback.cpp:213-217 | a live blinking action toggles exactly when an interval has passed, recording the time |
| Feedback.IdlePhaseKept | src/rgb/rgb_feedback.cpp:130-137 | fading to a non-idle action, or to idle from a non-idle action with a running phase, keeps `idleStartTime` |
| Feedback.SkipIdle | src/rgb/rgb_feedback.cpp:289-291 | the erase loop leaves the queue without its leading idle actions |
| Feedback.RgbFeedback.constructor | src/rgb/rgb_feedback.cpp:31-37 | nothing shown or queued, clocks at 0, blink on, the given defaults |
| Feedback.RgbFeedback.TransitionToAction | src/rgb/rgb_feedback.cpp:93-146 | pending becomes the action, the transition starts now with the given fade, and the idle phase clock follows the idle rule |
| Feedback.RgbFeedback.EnqueueAction | src/rgb/rgb_feedback.cpp:58-70 | the idle action changes nothing; otherwise the queue gains the action's defaults at priority 0 and stays sorted |
| Feedback.RgbFeedback.SetImmediateAction | src/rgb/rgb_feedback.cpp:72-79 | the queue and current action are cleared, then a 200 ms transition to the action starts |
| Feedback.RgbFeedback.SetAction | src/rgb/rgb_feedback.cpp:81-89 | a 200 ms transition to the action's defaults at priority 0 starts |
| Feedback.RgbFeedback.StartNextAction | src/rgb/rgb_feedback.cpp:288-296 | the state becomes `StartNextState` of the old state, and the queue stays sorted |
| Feedback.RgbFeedback.ReplaceCurrent | src/rgb/rgb_feedback.cpp:184-203 | fades to the popped queue front, or to the idle default unless idle is showing, then clears current |
| Feedback.RgbFeedback.Update | src/rgb/rgb_feedback.cpp:148-286 | the state becomes `UpdateState` of the old state, and the invariant is kept |
| Feedback.RgbFeedback.SetFeedbackConfig | src/rgb/rgb_feedback.cpp:298-306 | a valid code's entry is replaced with linear interpolation; other codes change nothing |
| LegacyFeedback.ShowState | src/rgb_feedback.cpp:127-130 | an action shown from `now` on, with the idle clock rule; used by `setImmediateAction`, `setAction` and `startNextAction` |
| LegacyFeedback.StartNextState | src/rgb_feedback.cpp:317-325 | the effect of `startNextAction`; `StartNextInOrder` proves repeated calls show the queue in order |
| LegacyFeedback.UpdateState | src/rgb_feedback.cpp:149-221 | the discrete effect of `update()`; `UpdateExpiry`, `BlinkToggles` and `OnlyBlinksExpire` characterise it |
| LegacyFeedback.DefaultsThatExpire | src/rgb_feedback.cpp:13-93 | of the built-in defaults, exactly the connected, disconnected and error blinks have a duration |
| LegacyFeedback.OnlyBlinksExpire | src/rgb_feedback.cpp:133-196 | with the built-in defaults, an action `setAction` shows is dropped by `update` exactly when it is the connected, disconnected or error blink and its duration has elapsed |
| LegacyFeedback.UpdateExpiry | src/rgb_feedback.cpp:192-196 | `update` never touches the queue, and drops current exactly when its non-zero duration has elapsed modulo 2^32 |
| LegacyFeedback.BlinkToggles | src/rgb_feedback.cpp:206-209 | a live blinking action toggles exactly when an interval has passed, recording the time, and otherwise nothing changes |
| LegacyFeedback.StartNextInOrder | src/rgb_feedback.cpp:317-325 | k calls of `startNextAction` show the queued actions in order: the k-th becomes current and the first k leave the queue |
| LegacyFeedback.RgbFeedback.constructor | src/rgb_feedback.cpp:13-93 | nothing shown or queued, clocks at 0, blink on, and the built-in defaults table |
| LegacyFeedback.RgbFeedback.EnqueueAction | src/rgb_feedback.cpp:114-119 | the queue gains the action and stays sorted by descending priority |
| LegacyFeedback.RgbFeedback.SetImmediateAction | src/rgb_feedback.cpp:121-131 | the queue is emptied, the action is current from now, and the idle clock restarts exactly for an idle action |
| LegacyFeedback.RgbFeedback.SetAction | src/rgb_feedback.cpp:133-147 | the action's defaults at priority 0 with linear interpolation become current from now, and the queue is kept |
| LegacyFeedback.RgbFeedback.Update | src/rgb_feedback.cpp:149-299 | the state becomes `UpdateState` of the old state |
| LegacyFeedback.RgbFeedback.StartNextAction | src/rgb_feedback.cpp:317-325 | nothing on an empty queue; otherwise the front becomes current from now and leaves the queue |
| LegacyFeedback.RgbFeedback.SetFeedbackConfig | src/rgb_feedback.cpp:301-309 | a valid code's entry is replaced; other codes change nothing |

## Left out

- The libraries: the AES block cipher, CBC chaining, base64 and the Smaz2
  algorithms are not part of this model. They are parameters, and their
  expected behaviour is a precondition. No claim is made about decryption
  under a wrong key.
- `PayloadType`, `toUint` and `toPayloadType` are not part of this model.
  The type is uninterpreted and the two conversions are parameters.
- include/objects/payload.h, include/managers/connection_manager.h and
  include/connection.h do not match their .cpp files. The model follows the
  .cpp files. include/connection.h declares Arduino `String`s where
  src/connection.cpp uses `std::string`.
- The older connection and its manager work on `string`, whose elements
  are Unicode scalar values, where `std::string` and Arduino `String` hold
  bytes. One `char` of the model stands for one byte; reversal and the
  listing act on each element alike, so nothing else depends on it.
- src/objects/connection.cpp reads and writes `p.message`, which
  src/objects/payload.cpp does not have. It is modelled as the payload's
  `content`.
- `Connections.Connection.PrepareMessage`: the source never sets the
  payload type of its default-constructed `Payload`, so the type is a
  parameter.
- The clocks are parameters: `millis()` as `now: u32`, and the
  `system_clock` seconds as `now: int`, truncated to `uint32_t`.
- Debug printing and the compression-ratio computation in `encode` are left
  out; they have no effect on the result.
- `Payloads.Decompressed`, and with it `Payloads.DecodeSpec` and
  `Payloads.Decode`: the header-sized output buffer (`origSize + 1` bytes,
  src/objects/payload.cpp:67) is taken to be allocated. The firmware
  allocates it before calling Smaz2, so a header above the free heap (a
  frame under another key or corrupted in transit) throws `bad_alloc` or
  aborts, and `decode` never returns. The model instead hands the
  decompressor that capacity, and `Decode` returns false with the payload
  unchanged when the decompressor fails.
- Memory management (`new`/`delete`) and pointer identity are left out. The
  controllers' owned action pointers are optional values, and a deleted
  connection is just gone from the list.
- Only the `Vectors` functions model the erase-remove idiom and the linear
  search. The key, pad and unpad helpers duplicated in src/encryption.cpp
  and src/objects/payload.cpp are the `Encryption` members, except where
  the code differs: the inline loops in payload.cpp and the Arduino
  `String` handling.
- `RgbActions.InsertByPriority`: `std::sort` is not stable, so the source
  promises only a sorted queue with the right contents. The model inserts
  behind equal priorities, one order the sort may produce, and the
  controllers' contracts promise only sortedness and the multiset.
- All colour, brightness, interpolation and PWM output is left out. It is
  floating point and changes no controller state. This covers
  `applyInterpolation`, the pulse and gradient effects, `setLED`, `begin`
  and the LED output of `update`.
- A pulse or gradient action with interval 0 faults in `update`, and in
  the new controller's `transitionToAction` when the current action
  pulses. The pulse and gradient code computes the elapsed time modulo the action's
  interval, in integers, so an interval of 0 divides by zero
  (src/rgb/rgb_feedback.cpp:106, 230, 243; src/rgb_feedback.cpp:156, 167,
  225, 237). The model drops that code, so it does not capture the fault.
  Both `SetFeedbackConfig` methods and the new controller's constructor
  accept such an entry without complaint. Every pulse and gradient entry
  of the shipped defaults has a non-zero interval.
- `Feedback.UpdateState`: the transition ends when the interpolated
  parameter reaches 1.0. The model takes that moment to be when the elapsed
  time reaches the transition duration, as it is for linear interpolation
  and for the curves that map 1.0 to 1.0.
- `initializeDefaults` lives in src/rgb/effects.cpp, which is not part of
  this model. The new controller's constructor takes the defaults table as
  a parameter.
- include/rgb_feedback.h, the header of the older controller, is not part
  of this model. Its `DefaultConfig` is taken to have the same fields as
  the newer one. The interpolation style that the constructor and
  `setFeedbackConfig` leave out is value-initialised to linear.
- The older controller's entries for `ACTION_COMM_RECEIVED` and
  `ACTION_COMM_TRANSMITTED` are never written by its constructor. The model
  gives them the zero-initialised value of a global object: solid, 0, 0,
  linear.
- The transports, the program entry points, the command layer, the mesh
  manager, and the retry/acknowledgment sweep with its buffers and mutex
  are left out. They are I/O, concurrency or glue over code that is not
  part of this model.
- The controllers' destructors are left out; they only free memory.
