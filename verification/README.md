# stream-id3 in Dafny

A model of the ID3v2 tag reader of `stream-id3`: the streaming `'data'`
handler that finds the 10-byte tag header, reads frame headers and frame
payloads out of arbitrarily cut chunks, and emits decoded frames; the frame
decoder (`decodeFrame`) with its text decoder (`decode`), encoding byte
parser (`parseFrameEncoding`) and size readers (`syncSafeIntToInt`, the
tag-size formula); and the two collectors that turn the emitted frames into
a result map (a selective one for a list of wanted keys, and a full one).

Both builds of the library are modelled: the current `readId3`
(`src/index.ts`) and the older compiled `streamTag` (`lib/index.js`). Their
handlers are the same code, so one state machine (`TagStream`) serves both,
parameterised by a `Format`: the frame decoder and the keys a frame is
filed under.

Modules:

- `NodeBuffer`: the Node `Buffer` operations the reader relies on, written
  out: `slice` with negative and out-of-range indices, `indexOf` of a byte
  sequence from an offset, `readUIntBE`, and the `ascii` codec.
- `TextDecoder`: `decode` with byte-order-mark sniffing and the manual
  pairwise swap for UTF-16BE; both as a function and as the source's loop
  over a fresh buffer.
- `Sizes`: the tag size of the header and the frame sizes of versions 2.3
  and 2.4.
- `Id3Frames` / `LegacyFrames`: `parseFrameEncoding` and `decodeFrame` of
  each build; `FrameFacts` / `LegacyFacts`: what each decoder recovers from
  well-formed frames, where it departs from the ID3v2.4 frame layouts, and
  where the two builds agree.
- `TagStream`: the handler as a function from state and chunk to the next
  state; `Parser`: the same handler as a class whose fields are the
  closure variables, each method proved equal to the function;
  `StreamFacts`: what the handler keeps true from chunk to chunk.
- `Collect`: the collectors' bookkeeping; `ReadId3`: the entry points.

Behaviour of the code worth knowing, measured against the ID3v2.4
structure and frames documents:

- Terminators are searched for at every byte offset, not only at offsets
  aligned to the terminator width (`FrameFacts.UnalignedTerminator`).
- The current build starts every field at byte 1 and leaves the
  byte-order mark to `decode`; only the older build skips three bytes for
  encoding byte 1.
- `syncSafeIntToInt` masks with 0x7F and 0x7F00, so a version 2.4 frame
  size uses only the two low size bytes (`Sizes.SyncSafeFrameSize`).
- The tag size does not mask bit 7 of its bytes (`Sizes.TagSizeUnmaskedCollision`).
- The selective collector checks the composite keys of a frame whether or
  not its plain id matched.
- Requesting no keys does not stop at the header: the wanted set is only
  checked for emptiness when a frame is delivered.
- A well-formed tag (each frame starting with its id, sizes that fit, no
  id-shaped window in the padding) reads the same however the stream is
  cut into chunks (`Cutting.AnyCutting`). Otherwise the cutting can matter:
  bytes that state 1 skips are dropped from its buffer, so a frame id found
  after a cut can start a different value (`CutExample.CutAfterPaddingMatters`).
- An APIC frame with encoding byte 1 or 2 is expected to end its MIME type
  with 00 00, where section 4.14 of the ID3v2.4 frames document ends it
  with a single zero byte (`FrameFacts.WidePictureMisread`).

## Model

| member | source | states |
|---|---|---|
| NodeBuffer.Slice | src/index.ts:83 | `buf.slice(start, end)`: inside the buffer it is the plain subsequence; a start at or past the end, or an end at or before a non-negative start, gives nothing; an end past the buffer stops at its end; a negative end (as `slice(start, -1)` when a terminator is missing) counts from the end and gives nothing when that falls before the start; a negative start counts from the end |
| NodeBuffer.SliceFrom | src/index.ts:85 | `buf.slice(start)` is the suffix from `start`; a negative start counts from the end |
| NodeBuffer.IndexOf | src/index.ts:82 | `indexOf(needle, from)` is -1 or an offset at or after `from` where the needle occurs |
| NodeBuffer.IndexOfIsFirst | src/index.ts:82 | the offset found is the first occurrence at or after `from`, and -1 exactly when there is none |
| NodeBuffer.IndexOfFinds | src/index.ts:102 | an occurrence with none before it, from `from` on, is the one `indexOf` returns |
| NodeBuffer.BigEndianBound | src/index.ts:150 | `readUIntBE` of n bytes is below 256^n |
| NodeBuffer.BigEndian32RoundTrip | src/index.ts:150 | writing a 32-bit number as four big-endian bytes and reading it back with `readUIntBE` gives the number |
| NodeBuffer.AsciiString | src/index.ts:274 | the `ascii` codec maps each byte to one character and clears bit 7 |
| TextDecoder.SwappedPairs | src/index.ts:54-60 | swapping byte pairs never lengthens the buffer |
| TextDecoder.SwappedPairsLength | src/index.ts:56-60 | the swapped buffer holds 2*floor(n/2) bytes: an odd trailing byte is dropped |
| TextDecoder.SwappedPairsAt | src/index.ts:57-58 | byte 2k of the result is byte 2k+1 of the input and byte 2k+1 is byte 2k |
| TextDecoder.SwappedPairsInvolution | src/index.ts:54-60 | swapping twice gives back the even-length prefix |
| TextDecoder.Decode | src/index.ts:39-64 | `decode` of an empty buffer is the empty string, in every encoding |
| TextDecoder.DecodeBuffer | src/index.ts:39-64 | the source's `decode`, re-assigning encoding and buffer on the mark and filling a fresh buffer pair by pair, returns exactly `Decode` |
| TextDecoder.Utf16MarksAgree | src/index.ts:40-46 | the same UTF-16 text written big-endian after FE FF or little-endian after FF FE decodes to the same string |
| TextDecoder.Utf16WithoutMarkIsBigEndian | src/index.ts:47-49 | without a mark `utf16` is read as big-endian and nothing is stripped |
| Sizes.TagSize | src/index.ts:245 | the tag size from header bytes 6..9 at seven bits per byte is below 2^30 |
| Sizes.SyncSafeBytes | src/index.ts:245 | the sync-safe encoding of a 28-bit size is four bytes below 0x80 |
| Sizes.TagSizeRoundTrip | src/index.ts:245 | a 28-bit size written sync-safe into bytes 6..9 reads back as itself |
| Sizes.TagSizeUnmaskedCollision | src/index.ts:245 | since bit 7 is not masked, 00 00 80 00 and 00 01 00 00 declare the same size |
| Sizes.SyncSafeIntToInt | src/index.ts:76 | `syncSafeIntToInt(x)` is 128 times bits 8..14 of x plus bits 0..6, below 2^14 |
| Sizes.SyncSafeMasks | src/index.ts:76 | `x & 0x7F00` shifted right by one is 128 times bits 8..14 |
| Sizes.SyncSafeFrameSize | src/index.ts:278 | for a version 2.4 frame only the low seven bits of the two last size bytes count |
| Sizes.FrameSize | src/index.ts:275-278 | version 3 reads the size bytes big-endian, whatever their number; any other version reads four bytes sync-safe, and with fewer than four size bytes `readUIntBE` throws |
| Id3Frames.ParseFrameEncoding | src/index.ts:69-74 | encoding bytes 0..3 select ascii, utf16 with mark sniffing, utf16be and utf8, anything else or no byte selects ascii; the UTF-16 encodings end fields with 00 00, the others with 00; both directions |
| Id3Frames.TimeStampWidth | src/index.ts:136-137 | SYLT timestamps are four bytes exactly for formats 01 and 02, otherwise none |
| Id3Frames.LyricRound | src/index.ts:146-153 | one round of the SYLT loop takes at most `width` timestamp bytes, and when it takes some the rest is shorter |
| Id3Frames.SyncedLyrics | src/index.ts:142-154 | the SYLT loop ends with no more lyrics than bytes, and with none for no bytes |
| Id3Frames.ReadSyncedLyrics | src/index.ts:142-154 | the source's `while` loop pushing onto `syncText` returns what `SyncedLyrics` defines, including the RangeError |
| Id3Frames.DecodeLyrics | src/index.ts:118-129 | USLT yields a lyrics frame with the given id |
| Id3Frames.DecodeSyncedLyrics | src/index.ts:132-157 | SYLT yields a synchronised-lyrics frame or a RangeError and nothing else |
| Id3Frames.DecodePicture | src/index.ts:160-175 | APIC yields a picture frame with the given id |
| Id3Frames.DecodeFrame | src/index.ts:78-181 | the branch taken for each id (TXXX before T*, WXXX before W*, USLT, SYLT, APIC, else raw bytes), the frame keeps its id, and only SYLT can throw |
| Id3Frames.SelectKeys | src/index.ts:311-331 | the selective collector checks the plain id first; then, for SYLT, `id:contentType` and `id:contentType:descriptor`; for other frames with a descriptor `id:descriptor`; and nothing more for frames without one |
| Id3Frames.AllKeys | src/index.ts:343-348 | the full collector files under the plain id, then under `id:descriptor` exactly when the frame has a descriptor |
| FrameFacts.ParseFrameEncodingFirstByte | src/index.ts:69-74 | only the first byte of a frame chooses its encoding |
| FrameFacts.FindTerminatorAt | src/index.ts:82 | searching from the start of a field free of the terminator stops exactly at its end |
| FrameFacts.FieldSplits | src/index.ts:82-85 | a terminated field reads back as itself and the value starts right after its terminator |
| FrameFacts.TextRoundTrip | src/index.ts:91-96 | a text frame other than TXXX decodes to its text, in the encoding its first byte selects |
| FrameFacts.UrlRoundTrip | src/index.ts:111-115 | a URL frame other than WXXX is its whole content read as `ascii`, first byte included |
| FrameFacts.TextMarksAgree | src/index.ts:91-96 | a UTF-16 text frame gives the same text stored big-endian after FE FF or little-endian after FF FE |
| FrameFacts.UserTextRoundTrip | src/index.ts:79-88 | a TXXX frame laid out as encoding, descriptor, terminator, value decodes to that descriptor and value |
| FrameFacts.UserUrlRoundTrip | src/index.ts:99-108 | a WXXX frame decodes to its descriptor and its URL read as `ascii` |
| FrameFacts.LyricsRoundTrip | src/index.ts:118-129 | a USLT frame decodes to its language, descriptor and lyrics |
| FrameFacts.PictureRoundTrip | src/index.ts:160-175 | an APIC frame decodes to its MIME type, picture type as hex, description, and the picture data, which keeps the second terminator byte in front when the terminator is 00 00 |
| FrameFacts.WidePictureEnds | src/index.ts:161-169 | in a UTF-16 APIC frame laid out by section 4.14 of the ID3v2.4 frames document, the first 00 00 searched from byte 1 is the description's terminator, and none follows |
| FrameFacts.WidePictureMisread | src/index.ts:160-175 | such a frame comes out with the MIME type running into the description, the byte after it as picture type, an empty description and the whole frame as picture data |
| FrameFacts.UnalignedTerminator | src/index.ts:82 | a UTF-16LE descriptor ending in 41 00 followed by 00 00 is cut one byte early and the value starts one byte too soon |
| FrameFacts.UnalignedDescriptorNotFree | src/index.ts:82 | that descriptor is not free of the terminator, so the round trips above do not cover it |
| FrameFacts.EncodeLyrics | src/index.ts:142-154 | the stored lyrics are text, terminator and four timestamp bytes per line |
| FrameFacts.DecodedLyrics | src/index.ts:152 | the expected `syncText` pairs each stored timestamp with its decoded text, in order |
| FrameFacts.SyncedLyricsRoundTrip | src/index.ts:142-154 | the SYLT loop with four-byte timestamps reads back every stored (timestamp, text) pair in order |
| FrameFacts.SyncedLyricsFrameRoundTrip | src/index.ts:132-157 | a whole SYLT frame with timestamp format 01 or 02 decodes to its language, format, content type, descriptor and lyrics |
| FrameFacts.ZeroWidthTimeStampThrows | src/index.ts:137-150 | with any other timestamp format a non-empty lyric section throws a RangeError |
| LegacyFrames.LegacyDecode | lib/index.js:6-21 | the old `decode` agrees with the current one on every encoding the old build passes it |
| LegacyFrames.LegacyDecodeKeepsMark | lib/index.js:6-21 | the old `decode` swaps a leading FE FF along with the text instead of stripping it |
| LegacyFrames.ParseFrameEncoding | lib/index.js:22-54 | encoding byte 1 skips three bytes and reads big-endian only after FE FF; bytes 0, 2, 3 skip one; other bytes skip none and read ascii; both directions |
| LegacyFrames.MarkedUtf16Agrees | lib/index.js:29-37 | with a mark after encoding byte 1 the old build reads the text as the current one does |
| LegacyFrames.UnmarkedUtf16Differs | lib/index.js:29-37 | without a mark the two builds read different bytes in different byte orders |
| LegacyFrames.DecodePicture | lib/index.js:80-90 | APIC yields a picture frame with the given id |
| LegacyFrames.DecodeFrame | lib/index.js:56-94 | the branch taken for each id (TXXX, T*, WXXX, W*, APIC, else raw bytes) and the frame keeps its id |
| LegacyFrames.LegacyKeys | lib/index.js:192-201 | the old collector checks the id first, then `id:descriptor` for frames with a descriptor, and nothing else |
| LegacyFacts.TextRoundTrip | lib/index.js:64-68 | a text frame other than TXXX decodes to what follows its head (one byte, or three for UTF-16) in the encoding the head selects |
| LegacyFacts.UrlRoundTrip | lib/index.js:76-79 | a URL frame other than WXXX is its whole content read as `ascii` |
| LegacyFacts.TextMarksAgree | lib/index.js:29-37 | the old build also gives the same text for a UTF-16 frame stored big-endian after FE FF or little-endian after FF FE |
| LegacyFacts.UserTextRoundTrip | lib/index.js:57-63 | a TXXX frame with a zero-free descriptor decodes to that descriptor and value |
| LegacyFacts.UserUrlRoundTrip | lib/index.js:69-75 | a WXXX frame decodes to its descriptor and its URL read as `ascii` |
| LegacyFacts.UnknownEncodingByteJoinsDescriptor | lib/index.js:46-49 | an encoding byte above 3 is read as the first byte of the descriptor |
| LegacyFacts.PictureRoundTrip | lib/index.js:80-90 | an APIC frame decodes to its MIME type, picture type, description and the whole picture data |
| LegacyFacts.AsCurrent | lib/index.js:56-94 | an old frame maps to the current record with the same id and the same descriptor |
| LegacyFacts.KeysAgree | lib/index.js:192-201 | the old collector's keys are the current collectors' keys of the same frame |
| LegacyFacts.SingleByteEncodingsMatch | lib/index.js:22-54 | for encoding bytes 0 and 3 both builds choose the same encoding, a one-byte terminator and offset 1 |
| LegacyFacts.BuildsAgreeOnSingleByteEncodings | lib/index.js:56-94 | for encoding bytes 0 and 3 both builds decode every frame id they share alike |
| TagStream.Initial | src/index.ts:199-226 | a parse starts reading the header, with nothing emitted, everything wanted and nothing filed |
| TagStream.Signal | src/index.ts:237-244 | `emit('error')` reaches a subscriber as an error event and changes nothing else, so parsing goes on; the collectors have no listener, so it throws an unhandled-error exception, which is recorded, and the parse aborts |
| TagStream.CountDown | src/index.ts:253-257 | each chunk counts the declared size down by its length, and a chunk that overruns is cut to exactly what remains |
| TagStream.FindFrameId | src/index.ts:266 | the search finds the leftmost window reading `[A-Z]{3}[A-Z0-9]`, or reports none |
| TagStream.ScanFrameHeader | src/index.ts:262-283 | state 1 never changes the declared tag size |
| TagStream.Deliver | src/index.ts:292 | emitting a frame appends exactly that frame event, touches only the events, the wanted set, the result and the end flag, and the selective collector ends the parse exactly when nothing is wanted any more |
| TagStream.StepOnce | src/index.ts:260-299 | every pass of the `while(true)` loop that goes on leaves less to do |
| TagStream.Handle | src/index.ts:228-305 | once `'end'` was emitted or an exception escaped, a chunk changes nothing |
| TagStream.Cancel | src/index.ts:204-205 | a consumer's `emit('end')` ends the parse |
| TagStream.Resolution | src/index.ts:336-338 | the promise resolves to the result map exactly when `'end'` came and no exception escaped |
| Parser.Parser.constructor | src/index.ts:191-226 | a new handler holds the initial state |
| Parser.Parser.SignalError | src/index.ts:238 | the handler's `emit('error')` does what `Signal` defines |
| Parser.Parser.Emit | src/index.ts:292 | the handler's `emit('frame')` and the listener's updates do what `Deliver` defines |
| Parser.Parser.Cancel | src/index.ts:204-205 | the `'end'` listener sets `end` |
| Parser.Parser.HeaderBlock | src/index.ts:233-250 | state 0, in place, computes `ReadHeader` and never merely breaks |
| Parser.Parser.VersionBlock | src/index.ts:240-249 | the version check and the switch to state 1, in place, compute `ReadVersion` |
| Parser.Parser.FrameHeaderBlock | src/index.ts:262-283 | state 1, in place, computes `ScanFrameHeader`; it returns from the handler exactly when the parse ended or aborted |
| Parser.Parser.FoundFrameId | src/index.ts:273-282 | the name, the size and the switch to state 2, in place, compute `FrameHeaderAt` |
| Parser.Parser.FrameValueBlock | src/index.ts:287-298 | state 2, in place, computes `ReadFrameValue`; it returns from the handler exactly when the parse ended or aborted |
| Parser.Parser.FrameLoop | src/index.ts:260-299 | the `while(true)` loop computes `Drain` and tells whether it left the whole handler |
| Parser.Parser.Feed | src/index.ts:228-305 | the whole `'data'` handler, run in place on the closure variables, computes `Handle` |
| StreamFacts.GrowsTransitive | src/index.ts:228-305 | what a parse has done is kept across successive steps |
| StreamFacts.ClaimSettles | src/index.ts:311-331 | filing a frame removes claimed keys from the wanted set, files nothing unrequested, and keeps earlier filed frames |
| StreamFacts.DeliverGrows | src/index.ts:292 | delivering a frame only appends events and keeps the collector's bookkeeping |
| StreamFacts.DrainGrows | src/index.ts:260-299 | the loop only appends events, never undoes `'end'` or an abort, and keeps the bookkeeping |
| StreamFacts.HandleGrows | src/index.ts:228-305 | so does the whole handler |
| StreamFacts.FeedAllGrows | src/index.ts:228 | so does any sequence of chunks |
| StreamFacts.FeedAllSplits | src/index.ts:228 | splitting the list of chunks in two and feeding the parts one after the other leads to the same state as feeding the whole list |
| StreamFacts.FinishedStaysFinished | src/index.ts:229 | after `'end'` or an escaped exception no chunk changes anything |
| StreamFacts.SelectFilesOnlyRequested | src/index.ts:307-335 | the filed and still-wanted keys split the requested keys, so nothing unrequested is ever filed |
| StreamFacts.FirstMatchWins | src/index.ts:312-330 | a filed key keeps the frame that first matched it whatever is read later |
| StreamFacts.ScanWaitsForTenBytes | src/index.ts:263-264 | state 1 waits for ten bytes and emits nothing before |
| StreamFacts.ScanWithoutIdKeepsTail | src/index.ts:268-271 | with no id-shaped window state 1 keeps only the last three bytes |
| StreamFacts.ScanFindsLeftmostId | src/index.ts:273-282 | the leftmost id window names the frame, its size follows it, and bytes from offset ten of the buffer go to state 2 whatever the id's offset |
| StreamFacts.ValueDecodesExactPrefix | src/index.ts:288-297 | state 2 decodes exactly the declared number of bytes, emits the frame and passes the surplus back to state 1 unless the listener ended the parse |
| StreamFacts.DrainKeepsTagSize | src/index.ts:260-299 | the loop never changes the declared tag size |
| StreamFacts.CountsDownToEnd | src/index.ts:253-257 | past the header each chunk counts the declared size down, never below zero, and `'end'` follows when it reaches zero unless an exception escaped |
| Cutting.Joined | src/index.ts:228 | the chunks of a stream laid end to end, first chunk first |
| Cutting.AfterHeader | src/index.ts:233-250 | after a header the handler accepts it is in state 1 with empty buffers, nothing emitted, everything wanted and nothing filed |
| Cutting.Finished | src/index.ts:302-304 | `'end'` is emitted once after the last frame, unless the parse already ended or aborted |
| Cutting.RunOutcome | src/index.ts:287-298 | decoding and emitting the frames of a body depends only on what a caller observes of the state it starts from |
| Cutting.PaddingSuffix | src/index.ts:266-271 | padding without an id-shaped window stays so from any offset on |
| Cutting.FrameSizeOfPrefix | src/index.ts:275-278 | a frame's size is read the same once its four size bytes are buffered, whatever follows |
| Cutting.ScanShort | src/index.ts:263-264 | state 1 with fewer than ten bytes buffered only waits, and nothing that is pending changes |
| Cutting.ScanPadding | src/index.ts:266-271 | state 1 over padding keeps the last three bytes and waits, and nothing that is pending changes |
| Cutting.FrameFound | src/index.ts:273-282 | state 1 with a frame's first ten bytes buffered finds the id at offset 0, reads its name and declared size, and passes the rest to state 2 |
| Cutting.ScanFrame | src/index.ts:262-283 | state 1 at a frame moves to state 2 with the same work pending |
| Cutting.ValueShort | src/index.ts:287-289 | state 2 short of the declared length waits with the same work pending |
| Cutting.ValueDelivered | src/index.ts:290-297 | state 2 with the whole value emits the frame and passes the surplus back to state 1 with the same work pending |
| Cutting.StepSettles | src/index.ts:260-299 | every pass of the loop over a chunk of a well-formed body keeps the pending work, or leaves the parse waiting or stopped with it |
| Cutting.DrainSettles | src/index.ts:260-299 | the loop over a chunk of a well-formed body stops waiting for the rest of it, or ended or aborted with the outcome the whole body would give |
| Cutting.NothingPending | src/index.ts:260-299 | waiting at the end of a well-formed body, nothing is left to do |
| Cutting.HandleSettles | src/index.ts:228-305 | one chunk past the header counts the tag size down and leaves the parse waiting for the rest, or finished with the outcome of the whole body |
| Cutting.FeedBody | src/index.ts:228-305 | the chunks after the header lead to the outcome of reading the rest of the body and then emitting `'end'` |
| Cutting.HeaderCompletes | src/index.ts:233-250 | the chunk that completes the header hands the bytes after the header to state 1 |
| Cutting.FeedHeader | src/index.ts:233-236 | chunks that only buffer the header change nothing but the buffer |
| Cutting.AnyCutting | src/index.ts:228-305 | however a stream starting with a well-formed tag is cut into chunks, the events, the end, the wanted set and the result are those of decoding its frames one after the other and then emitting `'end'` |
| Cutting.CuttingIrrelevant | src/index.ts:228-305 | any two cuttings of such a stream give the same events, end, wanted set and result |
| Cutting.RunSubscribes | src/index.ts:287-298 | a subscriber hears each frame of a well-formed body decoded in order, the parse never ends on its own, and it aborts exactly when a decoder exception escapes |
| Cutting.SubscriberHearsEveryFrame | src/index.ts:228-305 | a subscriber hears every frame of a well-formed tag in order, then `'end'` unless a decoder exception escaped, whatever the cutting |
| CutExample.CutAfterPaddingMatters | src/index.ts:266-281 | a body whose zero bytes precede the first frame id is not well formed, and cutting the stream after those zeros changes the frames heard: whole, the value read is 00 00, twice; cut, it is 02 00, once |
| Collect.KeySet | src/index.ts:309 | `new Set(needed)` holds exactly the listed keys |
| Collect.Claim | src/index.ts:311-331 | the claimed keys leave the wanted set and are filed with the frame; other keys keep their earlier frame |
| Collect.Overwrite | src/index.ts:343-348 | the full collector files the frame under all its keys, replacing earlier frames there, and keeps every other key |
| Collect.Lookup | src/index.ts:32-37 | reading a key gives the filed frame, and an empty record exactly when none is filed |
| ReadId3.ModeOf | src/index.ts:307-358 | an array selects keys, no argument collects everything, anything else returns the parser; both directions |
| ReadId3.LegacyModeOf | lib/index.js:188-213 | the old build selects keys for an array and returns the parser otherwise |
| ReadId3.Needed | src/index.ts:309 | the wanted set is the keys of the array, and empty otherwise |
| ReadId3.Run | src/index.ts:228 | feeding the chunks one by one to a fresh handler leaves it in the state `FeedAll` defines |
| ReadId3.ReadId3 | src/index.ts:188-358 | `readId3` runs the current decoder in the mode its second argument chooses |
| ReadId3.StreamTag | lib/index.js:95-214 | `streamTag` runs the old decoder in the mode its second argument chooses |
| ReadId3.ResolvesToRequestedKeys | src/index.ts:307-339 | a resolved map holds only requested keys, and every requested key is filed or still wanted |

## Left out

- Reading from a file or stream: `createReadStream` and `stream.close()` are not modelled; the input is a sequence of chunks.
- EventEmitter and Promise plumbing: listeners are modelled as the events the handler emits and the `Mode` that decides who listens; the promise is `Resolution` of the final state.
- Node's `ascii`, `utf8`, `utf16le` and `hex` codecs: a decoded string is the symbolic `Text(codec, bytes)`; only the byte-order-mark handling and the UTF-16BE pair swap are modelled.
- The regular expression `/[A-Z]{3}[A-Z0-9]/` over the `ascii` string is modelled as a byte predicate with the codec's clearing of bit 7.
- The `Proxy` with `defaultToObject` is modelled as `Lookup` on the result map.
- Result keys are `Key` values (an id and a list of qualifiers), not joined strings, so two keys whose joined strings collide (a descriptor containing `:`) stay apart.
- `patchVersion` is read by the source and never used.
- A subscriber's own `'error'` listener is assumed present: a subscriber without one would see the emit throw.
- Deliver, Cancel: a subscriber that calls `emit('end')` inside its `'frame'` listener stops the parse right after that frame in the source (src/index.ts:293); the model applies `Cancel` only between chunks, so the rest of that chunk is still read.
- Collect.Claim, Collect.Overwrite, ReadId3.Needed: keys compare the codec and the bytes of a symbolic `Text`, not the decoded string, so two encodings of the same descriptor give two keys here where the source has one.
- Handle: an exception escaping the `'data'` listener (an `emit('error')` nobody listens to, a RangeError from SYLT) is modelled as a final aborted state that ignores later chunks; in the source it is uncaught in the stream's `'data'` dispatch, and what happens next depends on the stream, which may deliver later chunks to a handler whose closure variables are half updated.
- Cutting.AnyCutting: the cutting is proved irrelevant only for well-formed tags; for others `CutExample.CutAfterPaddingMatters` shows that it can matter.
- LegacyFrames.LegacyDecode: requires an encoding other than `utf16`, because the old build never passes one.
- The older build has no full collector: `LegacyModeOf` never chooses `Everything`.
- `parseInt` of an empty hex string is NaN, which the source's slice and comparison treat as 0; the model uses 0.
