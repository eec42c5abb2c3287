# Verification of the byte-level HTTP code and the handoff and receipt logic

This Dafny project models the parts of the repository whose correctness is least obvious and proves what they
promise. `dafny verify dfyconfig.toml` checks everything.

**HTTP library** (`backend/whisper-custom/server/httplib.h`)

- *Multipart forms* (RFC 2046 section 5.1.1, RFC 7578 section 4): the incremental five-state parser over its
  compacting buffer (`Multipart`), exactly which cuttings of the input matter (`MultipartPieces`,
  `MultipartOpening`), what header lines mean, extended file names of RFC 5987 included (`MultipartHeaders`), the
  serializer and the round trip (`MultipartRoundTrip`), exactly which items survive it
  (`MultipartExact`), the streaming content provider (`MultipartProvider`) and a whole upload from provider to
  parser (`MultipartUpload`).
- *Chunked transfer coding* (section 4.1 of RFC 7230): the reader (`Chunked`), the writer (`ChunkedWriter`), that
  the first undoes the second and accepts no truncated body (`ChunkedRoundTrip`), and the grammar of exactly the
  bodies that it accepts (`ChunkedExact`).
- *Buffered readers* (`Streams`): a socket is the byte sequence its peer still has to deliver, with arbitrary
  short receives and failures; each reader is a refinement of that sequence.
- *Text codecs* (`TextCodec`, `UrlDecoding`, `QueryString`, `QueryExact`, `Base64`): percent-encoding (section
  2.1 of RFC 3986), query strings and exactly which parameters they carry, base64 (section 4 of RFC 4648).
- *Routes with parameters* (`PathRouter`).
- *Two concurrent protocols* as state machines whose runs are all interleavings: the client's socket in flight
  with `stop()` (`ClientInFlight`, and what closes it in `ClientClosing`) and the thread pool (`ThreadPool`, and what
  becomes of its callers' jobs in `ThreadPoolJobs`).

**Application**

- The V1 receipt validator (`qualification/v1/validate.ts`): the canonical JSON text as an equality test
  (`JsonText`, `JsonCanonical`), exactly which file rows and case lists are accepted (`Receipt`, `ReceiptCases`),
  and exactly which complaints are made (`ReceiptComplaints`).
- The agent handoff (`frontend/src-tauri/src/agent_handoff.rs`): the Markdown document and its extraction
  (`AgentHandoff`), that both exports are read back to the record (`HandoffJson`), the atomic write and the order of
  a save (`HandoffSave`).
- The summary aggregation of `backend/app/main.py` (`SummaryAggregation`, `SummaryLaws`) and the transcript
  chunks of `backend/app/transcript_processor.py` (`TranscriptChunks`).

`Bytes`, `Sequences` and `Wrappers` hold shared notions: first occurrence, repetition, results.

## How the models are built

Loops and objects of the source are methods and classes here. Each is proved equal to a specification function on
its inputs or its old state, and the theorems are about those functions. Bytes are characters below 256. A callback
of the source is a function of everything that was reported so far, so the theorems hold for every receiver. A
content provider is a state machine given as a function from its state and the offset to what it does. The
environment (short reads and writes, failing calls, spurious wake-ups, interleavings) is arbitrary.

What the proofs brought to light:

- An opening multipart delimiter that is split between two pieces is lost with the first piece, and the items with
  it, whatever they contain (`AnyCutting`, `CutOpeningNeverDelivers`).
- An epilogue is skipped when it comes with the closing delimiter, but parsed when it comes later. Which epilogues
  no cutting can spoil is proved exactly (`EpilogueExactly`); `"\r\nx\r\n"` is not one of them.
- `stop()` closes every socket there is, but a redirect that starts behind it resets the request to close and may
  connect another socket, which then stays open. A concrete run shows it (`StopCanBeForgotten`), and
  `StopLeavesOpenExactly` says exactly when a socket is left.
- An empty write ends a chunked body without its last chunk, and the peer then never takes it for a body. An upload
  is decoded exactly when every item provider completes in time (`UploadIsAllOrNothing`).
- Query keys are written without encoding. Which of them survive is proved exactly (`QueryRoundTripExactly`).
- A title line that contains the opening fence, also one that ends with the fence text, is exactly what breaks
  the handoff extraction.
- If the temporary name of an atomic write is already taken, the clean-up tries to remove the file that
  had it, which may then be gone.
- The test for incomplete cases in a receipt never decides: each such case has drawn a complaint already, also
  in a receipt that declares itself as awaiting its run.

## Model

| member | source | states |
|---|---|---|
| Multipart.MultipartFormDataParser.constructor | backend/whisper-custom/server/httplib.h:4272-4278 | a parser with a boundary set is in the opening state, invalid, with an empty window |
| Multipart.MultipartFormDataParser.StartWithAt | backend/whisper-custom/server/httplib.h:4440-4447 | true exactly when the text stands at that place of the live window |
| Multipart.MultipartFormDataParser.BufHead | backend/whisper-custom/server/httplib.h:4453 | the first bytes of the live window |
| Multipart.MultipartFormDataParser.BufStartWith | backend/whisper-custom/server/httplib.h:4455-4457 | true exactly when the live window starts with the text |
| Multipart.MultipartFormDataParser.BufFind | backend/whisper-custom/server/httplib.h:4459-4480 | the two nested loops give the first occurrence of the whole text in the live window, or the window length when there is none |
| Multipart.MultipartFormDataParser.BufAppend | backend/whisper-custom/server/httplib.h:4482-4498 | the compacting buffer: the new window is the old window followed by the data; nothing else changes |
| Multipart.MultipartFormDataParser.BufErase | backend/whisper-custom/server/httplib.h:4500 | drops that many bytes from the front of the window |
| Multipart.MultipartFormDataParser.Parse | backend/whisper-custom/server/httplib.h:4282-4411 | one call takes every branch of the five-state machine as the small-step form does on the window of unread bytes: same phase, flag, pending file, rest of the window, callbacks and result |
| Multipart.StartWithCaseIgnore | backend/whisper-custom/server/httplib.h:4420-4427 | the loop decides prefix up to letter case |
| Multipart.ReadHeaderLine | backend/whisper-custom/server/httplib.h:4317-4360 | what one header line does to the pending file, and when it makes the parser give up |
| Multipart.ParseDispositionParams | backend/whisper-custom/server/httplib.h:4204-4226 | the parameters in order of insertion, keys and values without their outer quotes |
| MultipartPieces.OneMorePiece | backend/whisper-custom/server/httplib.h:4282-4411 | parsing a window and then more bytes agrees with parsing both at once, for every view of the callbacks that cannot see where contents are cut; in particular the body state never reports a byte that starts a delimiter; for regular inputs, in which header lines stay within the limit and the epilogue is harmless |
| MultipartPieces.PieceIndependenceFrom | backend/whisper-custom/server/httplib.h:4282-4411 | the same for any number of pieces and any such view, again for regular inputs |
| MultipartPieces.PieceIndependence | backend/whisper-custom/server/httplib.h:4282-4411 | any cutting into pieces, the opening delimiter line whole in the first, gives the same verdict, the same final validity and the same parts as one call, when header lines stay within the limit that is tested only on entry to the header state, and the epilogue is harmless: the lines behind any line break in it are not empty, within that limit and would pass as header lines |
| MultipartPieces.MissingOpeningIsDropped | backend/whisper-custom/server/httplib.h:4289-4292 | a first piece without the whole opening delimiter line leaves no trace: the parser acts as if it had never come |
| MultipartPieces.EpilogueIsIdle | backend/whisper-custom/server/httplib.h:4390-4404 | once the closing delimiter has been seen, a harmless epilogue in any cutting changes neither validity nor report |
| MultipartPieces.EpilogueExactly | backend/whisper-custom/server/httplib.h:4390-4404 | exact: no cutting changes the verdict on an epilogue if and only if it is harmless |
| MultipartPieces.ShortEpilogueSpoils | backend/whisper-custom/server/httplib.h:4397-4400 | a concrete epilogue that is not: it is erased when it comes with the closing delimiter, and makes the parser refuse and turn invalid when it comes in a piece of its own |
| MultipartPieces.AnyCutting | backend/whisper-custom/server/httplib.h:4289-4292 | any cutting at all: what counts is the body from the first piece that holds the whole opening delimiter line; without such a piece the parser stays as it started |
| MultipartPieces.ParsePieces | backend/whisper-custom/server/httplib.h:4282-4411 | successive calls, stopping at the first refusal |
| MultipartRoundTrip.SerializeMultipartFormData | backend/whisper-custom/server/httplib.h:4581-4594 | the loop builds the parts in order, with or without the closing line |
| MultipartRoundTrip.ParamsRead | backend/whisper-custom/server/httplib.h:4204-4226 | name and filename are read back from the disposition line the serializer writes, for all values free of CR, LF, semicolon and equals sign |
| MultipartRoundTrip.ContentTypeLineReads | backend/whisper-custom/server/httplib.h:4319-4320 | the content type line is read back for all types without outer blanks and CRLF |
| MultipartHeaders.TypeMeans | backend/whisper-custom/server/httplib.h:4319-4320 | a type line in any letter case gives what follows, without outer blanks |
| MultipartHeaders.DispositionMeans | backend/whisper-custom/server/httplib.h:4322-4357 | a disposition line in any letter case and spacing with any plain parameters: accepted if and only if a name is given and an extended file name, if there is one, is in UTF-8; the first name counts, and the file name is the decoded extended one, else the plain one, else as before |
| MultipartHeaders.OthersAreRefused | backend/whisper-custom/server/httplib.h:4322-4360 | a line of another field and a disposition of another kind make the parser refuse |
| MultipartHeaders.ExtendedNameReads | backend/whisper-custom/server/httplib.h:4345-4351 | for every name and every byte string as file name, percent-encoded behind the UTF-8 mark, the line gives back both |
| MultipartHeaders.ExtendedPartReads | backend/whisper-custom/server/httplib.h:4282-4411 | the same for a whole body: a part with such a line is reported with exactly that file name, and its content |
| MultipartHeaders.ReceiverIsObeyed | backend/whisper-custom/server/httplib.h:4305-4308 | for every receiver: no callback follows a refused one, and a refusal makes the parser give up and turn invalid |
| MultipartHeaders.BehindDelimiter | backend/whisper-custom/server/httplib.h:4388-4404 | behind a delimiter a line end begins another part, two dashes end the body, and anything else stops the parser for good without a verdict |
| MultipartRoundTrip.ParseOfSerialize | backend/whisper-custom/server/httplib.h:4551-4594 | round trip in one call: for every non-empty list of carriable items the parser reports exactly the header and the content of every item, in order, and ends valid |
| MultipartRoundTrip.RoundTripInPieces | backend/whisper-custom/server/httplib.h:4282-4411 | round trip in any pieces: the parts reported are exactly the items, and the parser ends valid |
| MultipartOpening.CutOpeningNeverDelivers | backend/whisper-custom/server/httplib.h:4289-4292 | when the first piece of a serialized body holds only a part of the opening delimiter line, the parts reported are never the items, whatever they contain |
| MultipartOpening.RoundTripInPiecesExactly | backend/whisper-custom/server/httplib.h:4282-4411 | non-empty pieces of a serialized body deliver the items if and only if the first piece holds the opening delimiter line |
| MultipartExact.RunReports | backend/whisper-custom/server/httplib.h:4282-4411 | for every input and every receiver: reported names are free of CR, LF, semicolon and equals sign, reported types are trimmed and without line break, and no reported content has the delimiter |
| MultipartExact.RoundTripExactly | backend/whisper-custom/server/httplib.h:4282-4594 | exact round trip, for every non-empty list of items: the parser ends valid with exactly the items if and only if every name, file name, type and content is carriable and every first header line is within the limit; what an extended file name parameter can do is included |
| MultipartProvider.MultipartContentProvider.constructor | backend/whisper-custom/server/httplib.h:7339-7343 | a fresh closure is at the first provider item, not started |
| MultipartProvider.MultipartContentProvider.Call | backend/whisper-custom/server/httplib.h:7342-7375 | one call of the closure: its writes, its done, its result and its new captured variables, for every offset and every item provider |
| MultipartProvider.ItemBegins | backend/whisper-custom/server/httplib.h:7348-7354 | a zero start is a sound not-started flag: the item header is written once, in front of what the item provider then writes |
| MultipartProvider.ItemFills | backend/whisper-custom/server/httplib.h:7356-7369 | over any number of calls each item provider sees its own offset from 0 on and its pieces follow each other without gap until it is done |
| MultipartProvider.UploadSession | backend/whisper-custom/server/httplib.h:7336-7376 | driven by the running offset of the chunked writer, the provider writes the fixed items, then every provider item, then the closing line, and says done exactly once, at the end |
| MultipartProvider.DoneExactly | backend/whisper-custom/server/httplib.h:7336-7376 | a session of so many calls says done if and only if every item provider completes within them and they are enough for all items |
| MultipartProvider.UploadBytes | backend/whisper-custom/server/httplib.h:4551-4594 | the streamed bytes are those of the one-shot serializer on the items followed by the materialised provider items |
| MultipartUpload.UploadArrives | backend/whisper-custom/server/httplib.h:7336-7376 | end to end: the chunked reader delivers the serialized body and leaves what follows it, and the parser, fed that body in any pieces, reports exactly the items |
| MultipartUpload.UploadIsAllOrNothing | backend/whisper-custom/server/httplib.h:4029-4032 | whatever the item providers do (fail, stall, write nothing), the peer takes what arrived for a body if and only if every item provider completes and the calls are enough for all of them |
| ChunkedWriter.OutStream.WriteData | backend/whisper-custom/server/httplib.h:3933-3941 | over short writes: all of the data, or a proper front part when a write fails |
| ChunkedWriter.ChunkedSink.WriteChunk | backend/whisper-custom/server/httplib.h:4029-4054 | one chunk with its size in hexadecimal, nothing for an empty write; the offset grows, an empty write clears the availability flag, and after a failure nothing more happens |
| ChunkedWriter.ChunkedSink.DoneWithTrailer | backend/whisper-custom/server/httplib.h:4056-4104 | the last chunk, the trailer lines and the empty line; no effect after a failure |
| ChunkedWriter.ChunkedSink.Perform | backend/whisper-custom/server/httplib.h:4029-4104 | several sink operations in a row put exactly their texts on the wire, in order |
| ChunkedWriter.WriteContentChunked | backend/whisper-custom/server/httplib.h:4020-4121 | while the connection holds, the wire carries exactly what the provider did in the session, success means it neither failed nor was cut, and each error says which of the two it was |
| Chunked.FromIToHex | backend/whisper-custom/server/httplib.h:2219-2227 | the loop gives the hexadecimal digits, at least one |
| Chunked.ParseHeaderLoop | backend/whisper-custom/server/httplib.h:3656-3688 | the loops give key and value around the first colon, value trimmed and percent-decoded except for Location; no field without colon or value |
| Chunked.ReadContentWithLength | backend/whisper-custom/server/httplib.h:3729-3749 | over any short reads: exactly that many bytes are delivered and taken, or the socket failed, the stream was shorter, or the receiver refused |
| Chunked.ReadContentChunked | backend/whisper-custom/server/httplib.h:3781-3834 | success delivers exactly the decoded body and trailer fields and leaves exactly the bytes behind them; with an accepting receiver it fails only if the socket does or there is no such body; a receiver that refuses the whole body makes it fail |
| ChunkedExact.DecodesExactly | backend/whisper-custom/server/httplib.h:3781-3834 | exact: the reader accepts the texts of a grammar (size line, data, CRLF; a size line of zero; trailer lines within the limit; CRLF) and no others, and delivers exactly the data, the fields and the rest |
| ChunkedExact.NumberForms | backend/whisper-custom/server/httplib.h:3789-3795 | a size is read from blanks, a sign, 0x, digits in either case and anything that is no digit behind them, such as an extension |
| ChunkedExact.NoNumber | backend/whisper-custom/server/httplib.h:3792 | a line with no digit where the number should be gives none |
| ChunkedRoundTrip.SizeReads | backend/whisper-custom/server/httplib.h:4042-4043 | a chunk size written in hexadecimal is read back for every size below the largest unsigned long, which alone is refused |
| ChunkedRoundTrip.SelfDelimiting | backend/whisper-custom/server/httplib.h:3781-3834 | bytes behind a complete body never change what is decoded, and all of them are left |
| ChunkedRoundTrip.TruncationIsDetected | backend/whisper-custom/server/httplib.h:3781-3834 | a body cut short anywhere is never accepted |
| ChunkedRoundTrip.FieldReads | backend/whisper-custom/server/httplib.h:3656-3688 | what parse_header makes of a key, a colon and any value |
| ChunkedRoundTrip.NoColonNoField | backend/whisper-custom/server/httplib.h:3664-3669 | a line without a colon is no field |
| ChunkedRoundTrip.ReaderUndoesWriter | backend/whisper-custom/server/httplib.h:4020-4121 | round trip: any writes ended by done are read back as their concatenation, trailer fields as parse_header reads them, and the bytes behind are untouched |
| ChunkedExact.WriterFormat | backend/whisper-custom/server/httplib.h:4029-4104 | what the writer puts out is this body of the grammar: a chunk with a bare size for each write that is not empty, the zero line, the trailer lines, the empty line |
| ChunkedExact.SizeDigits | backend/whisper-custom/server/httplib.h:2219-2227 | sizes are written in lower case |
| ChunkedRoundTrip.UnfinishedIsRejected | backend/whisper-custom/server/httplib.h:4031 | writes without done, which is how an empty write ends the loop, are never taken for a body |
| ChunkedRoundTrip.FieldKeptExactly | backend/whisper-custom/server/httplib.h:3680-3682 | a field comes back as it was if and only if its value is not empty, has no outer blanks, and has no percent escape or belongs to Location |
| Streams.SocketStream.Read | backend/whisper-custom/server/httplib.h:5310-5354 | refines the raw socket: the bytes returned followed by window and socket are what was unread before; nothing is lost, repeated or reordered, and zero bytes mean the end of the stream |
| Streams.ReadMany | backend/whisper-custom/server/httplib.h:5310-5354 | the same for any sequence of read sizes |
| Streams.LineReader.Append | backend/whisper-custom/server/httplib.h:2545-2556 | the line grows by the byte, in the fixed buffer while it lasts and in the growing one afterwards |
| Streams.LineReader.GetLine | backend/whisper-custom/server/httplib.h:2519-2543 | for any buffer of at least two bytes: exactly the bytes through the first newline, or the rest of the stream |
| TextCodec.TrimRange | backend/whisper-custom/server/httplib.h:2450-2459 | the two cursors enclose exactly the trimmed text, or cross when it is empty |
| TextCodec.SplitLoop | backend/whisper-custom/server/httplib.h:2473-2491 | the loop gives the trimmed non-empty segments between the delimiters, in order |
| TextCodec.SplitOfJoin | backend/whisper-custom/server/httplib.h:2473-2491 | splitting undoes joining for pieces without delimiter and outer blanks |
| TextCodec.FromHexToI | backend/whisper-custom/server/httplib.h:2202-2217 | the value of that many hexadecimal digits, and failure exactly when one is missing |
| TextCodec.EncodeQueryParam | backend/whisper-custom/server/httplib.h:2342-2360 | the loop percent-encodes every byte but the self-encoding ones |
| UrlDecoding.EncodeExactly | backend/whisper-custom/server/httplib.h:2342-2360 | encoding keeps the unreserved characters of RFC 2396 and writes every other byte as two upper-case digits |
| TextCodec.DecodeUrl | backend/whisper-custom/server/httplib.h:2395-2430 | the loop is the left-to-right decoding with percent-u and percent escapes, malformed ones kept |
| UrlDecoding.HexDigitsExactly | backend/whisper-custom/server/httplib.h:2187-2200 | the digits are exactly the sixteen of each case, with their values |
| UrlDecoding.Utf8Writes | backend/whisper-custom/server/httplib.h:2229-2261 | every scalar value is written so that a reader made from section 3 of RFC 3629 gives it back, and a surrogate as nothing |
| UrlDecoding.DecodePlain | backend/whisper-custom/server/httplib.h:2422-2426 | every character but a percent sign is kept, and a plus sign becomes a blank only when asked to |
| UrlDecoding.DecodeByte | backend/whisper-custom/server/httplib.h:2411-2415 | two digits behind a percent sign give that byte |
| UrlDecoding.DecodeCode | backend/whisper-custom/server/httplib.h:2401-2407 | u and four digits give the UTF-8 form of that code, nothing for a surrogate |
| UrlDecoding.DecodeBare | backend/whisper-custom/server/httplib.h:2408-2420 | any other percent sign is kept |
| UrlDecoding.DecodeWithoutEscapes | backend/whisper-custom/server/httplib.h:2395-2430 | a text without percent sign keeps its length and every character but plus signs, and these too unless asked to |
| UrlDecoding.DecodeKeepsExactly | backend/whisper-custom/server/httplib.h:2395-2430 | decoding leaves a text alone if and only if it has no escape and no plus sign that means a blank |
| TextCodec.DecodeOfEncode | backend/whisper-custom/server/httplib.h:2342-2430 | decoding undoes encoding for every byte string, with either plus flag |
| TextCodec.EncodeAlphabet | backend/whisper-custom/server/httplib.h:2342-2360 | the encoded text consists of self-encoding characters and percent signs only |
| TextCodec.DecodeNotLonger | backend/whisper-custom/server/httplib.h:2395-2430 | decoding never lengthens a text |
| TextCodec.ParsePairsLoop | backend/whisper-custom/server/httplib.h:4170-4191 | the pieces as key and value, repeated pieces once |
| TextCodec.KeyValueReads | backend/whisper-custom/server/httplib.h:4176-4184 | with several equals signs the text before the first is the key and that behind the last the value |
| QueryString.ParamsToQueryStr | backend/whisper-custom/server/httplib.h:4158-4168 | the loop writes key, equals sign, encoded value, joined by ampersands; keys are not encoded |
| QueryString.ParseQueryText | backend/whisper-custom/server/httplib.h:4170-4191 | the loop inserts the decoded pairs of the distinct pieces into the multimap |
| QueryString.EmplaceKeepsOrder | backend/whisper-custom/server/httplib.h:4170-4191 | inserting keeps the multimap ordered by key and adds exactly that pair |
| QueryString.ParseOfQuery | backend/whisper-custom/server/httplib.h:4158-4191 | for all parameters with keys that survive unencoded, parsing the query gives the parameters without repeated pairs |
| QueryString.QueryRoundTrip | backend/whisper-custom/server/httplib.h:4158-4191 | for such parameters parsing undoes writing if and only if no pair is repeated |
| QueryExact.QueryRoundTripExactly | backend/whisper-custom/server/httplib.h:4158-4191 | for every parameter map: parsing undoes writing if and only if no pair is repeated and every key is non-empty, without outer blanks, ampersand and equals sign, and unchanged by decoding |
| Base64.PushByte | backend/whisper-custom/server/httplib.h:2270-2279 | one round of the outer loop on the wrapping accumulator emits exactly the sextets completed by the byte |
| Base64.Base64Encode | backend/whisper-custom/server/httplib.h:2263-2289 | on every byte string the result is the encoding of section 4 of RFC 4648, although the accumulator wraps |
| Base64.DecodeOfEncode | backend/whisper-custom/server/httplib.h:2263-2289 | a decoder written from RFC 4648 undoes the encoding of every byte string |
| Base64.EncodedLength | backend/whisper-custom/server/httplib.h:2263-2289 | the length is four times the number of groups of three, rounded up |
| PathRouter.MakeMatcher | backend/whisper-custom/server/httplib.h:5409-5452 | the constructor loop cuts the pattern into fragments and names, and refuses exactly the patterns that repeat a name |
| PathRouter.Match | backend/whisper-custom/server/httplib.h:5454-5495 | the loop over fragments decides the match and collects the captures under their names |
| PathRouter.MatchIsFilling | backend/whisper-custom/server/httplib.h:5454-5495 | sound and complete, for patterns without a NUL byte: a path matches with given captures if and only if those are free of slashes and the path is the filled pattern, up to the one slash that a parameter at the end allows |
| PathRouter.MatchTakesTexts | backend/whisper-custom/server/httplib.h:5454-5495 | for every pattern, NUL bytes included: a path matches if and only if it is put together from texts that strncmp cannot tell from the fragments, and captures free of slashes |
| PathRouter.CapturesByName | backend/whisper-custom/server/httplib.h:5480-5491 | with distinct names each name maps to its own capture and nothing else is captured |
| ClientInFlight.RunsAreSafe | backend/whisper-custom/server/httplib.h:6698-6863 | in every interleaving of send, nested sends and stop no assertion fails, the count equals the owner's nesting depth and never goes below zero, and a positive count means the recorded thread holds the request mutex |
| ClientInFlight.OnlyOwnerClosesSocket | backend/whisper-custom/server/httplib.h:6711-6728 | while a request is in flight only the thread that sent it changes the socket |
| ClientInFlight.SocketsAreClosed | backend/whisper-custom/server/httplib.h:6798-6852 | no socket leaks: every socket ever connected is closed, or it is the open one |
| ClientClosing.EndOfRequest | backend/whisper-custom/server/httplib.h:6838-6852 | in every run, after the end of a request the scope exit of that send closes the socket if the request failed, if the connection was to be closed or if a stop came, and leaves it open otherwise |
| ClientClosing.FailedWriteCloses | backend/whisper-custom/server/httplib.h:7132-7138 | a first write that fails, as on a socket that stop has shut down, makes the scope exit close the socket |
| ClientClosing.CloseAnswerCloses | backend/whisper-custom/server/httplib.h:6901-6917 | the answer Connection: close closes the socket while the request goes on |
| ClientClosing.OpenExactly | backend/whisper-custom/server/httplib.h:6776-6852 | in every run a socket is open if and only if some send has connected one and no later step closes, and it is that one |
| ClientClosing.AssertionsHold | backend/whisper-custom/server/httplib.h:6711-6728 | every step of every run meets the assertions: only the thread of the requests in flight closes or counts, and the count stays non-negative |
| ClientInFlight.StopIsHonoured | backend/whisper-custom/server/httplib.h:7859-7880 | stop in flight shuts the socket down: once no request is in flight any more, every socket that existed at the stop is closed, whatever was sent since |
| ClientClosing.StopLeavesOpenExactly | backend/whisper-custom/server/httplib.h:6776-6852 | exactly when: once no request is in flight a socket is open if and only if a send whose first critical section came after the stop has connected one and no later step closes; the closing steps are told by the choices made: the answer Connection: close, a request that failed or was not to keep the connection, a failed first write, a stop flagged since, a dead probe, a stop when idle |
| ClientInFlight.StopCanBeForgotten | backend/whisper-custom/server/httplib.h:6776-6852 | that the client then has no open socket is false: in a concrete run a redirect behind the stop resets the flag, finds the socket dead and connects another, which stays open when all is idle |
| ClientInFlight.NoDeadlock | backend/whisper-custom/server/httplib.h:6776-6863 | while any call is under way, some thread can move |
| ThreadPoolJobs.FifoExactlyOnce | backend/whisper-custom/server/httplib.h:603-658 | in every run the jobs of all calls of enqueue, read off the schedule, wait, are being run or are finished, each exactly once, except those whose call still waits for the critical section; they start in the order of enqueueing |
| ThreadPoolJobs.OrderIsKept | backend/whisper-custom/server/httplib.h:603-645 | what was enqueued, started and finished only grows at the end, so earlier calls have their jobs started first |
| ThreadPoolJobs.NobodyLeavesJobs | backend/whisper-custom/server/httplib.h:637-640 | no worker leaves before some call of shutdown, nor while jobs wait, unless one was pushed after the shutdown |
| ThreadPoolJobs.AllJobsDone | backend/whisper-custom/server/httplib.h:612-650 | when all workers have left or shutdown has returned, the finished jobs are exactly those of all calls of enqueue that are through, unless one was pushed after the shutdown |
| ThreadPool.WaitingJobsMove | backend/whisper-custom/server/httplib.h:603-640 | no wake-up is lost: while jobs wait and a worker is left, the pool itself can make a step |
| ThreadPool.DrainingDecreases | backend/whisper-custom/server/httplib.h:612-650 | after shutdown every internal step lowers a measure of jobs and live workers |
| ThreadPool.DrainingMoves | backend/whisper-custom/server/httplib.h:612-650 | after shutdown some internal step is possible until everything is settled |
| ThreadPool.ShutdownTerminates | backend/whisper-custom/server/httplib.h:612-650 | so every run after shutdown is bounded, and one that cannot go on has every worker gone and every call returned |
| JsonCanonical.CanonicalIsPrint | qualification/v1/validate.ts:135-141 | the canonical text is the plain text of the value with all members sorted |
| JsonCanonical.ReadsValue | qualification/v1/validate.ts:135-141 | the printed form is uniquely readable at every depth, whatever follows it |
| JsonCanonical.CanonicalDecidesSame | qualification/v1/validate.ts:135-141 | two well-formed values have the same canonical text if and only if they are equal up to the order of object members (non-finite numbers print as null) |
| Receipt.RejectUnknownFields | qualification/v1/validate.ts:100-109 | one complaint for each property that is not allowed, in order |
| Receipt.UnknownFields | qualification/v1/validate.ts:100-109 | no complaint exactly when all properties are allowed |
| Receipt.Field | qualification/v1/validate.ts:275 | the value of a property, absent exactly when no member has the key |
| Receipt.ParseHashRows | qualification/v1/validate.ts:264-287 | the rows and complaints that the loop with its set of seen ids gives |
| Receipt.ValidateHashRows | qualification/v1/validate.ts:289-317 | the complaints of the count check and of both loops, in order |
| Receipt.LastDeclarationCounts | qualification/v1/validate.ts:296 | of several declarations with one id the last counts |
| Receipt.GoodEntryMeans | qualification/v1/validate.ts:272-284 | an entry draws no complaint of its own and gives a row if and only if it holds exactly the texts of that row under id, path and sha256, the last a digest |
| Receipt.ParseAccepts | qualification/v1/validate.ts:264-287 | parsing complains about nothing exactly when every entry is good and no id repeats |
| Receipt.NoneMissing | qualification/v1/validate.ts:297-316 | pigeonhole: distinct declared ids in the right number leave no declaration out |
| Receipt.RowsAcceptedExactly | qualification/v1/validate.ts:264-317 | no complaint if and only if there is one entry for each declared file and no other, with the declared id and path and the digest of the file on disk under those very properties, each file inside the root and present |
| Receipt.EntriesExactly | qualification/v1/validate.ts:264-287 | the rows parsed from good entries are a permutation of the right rows if and only if the entries are those that the declarations ask for |
| ReceiptComplaints.ParseExactly | qualification/v1/validate.ts:264-287 | each kind of complaint about an entry is made if and only if some entry deserves it |
| ReceiptComplaints.MatchExactly | qualification/v1/validate.ts:289-317 | each kind of complaint about rows and files is made if and only if some row or declaration deserves it |
| Receipt.ValidateBoundRows | qualification/v1/validate.ts:319-332 | both calls together leave the error list unchanged exactly for such entries |
| ReceiptCases.CheckEntries | qualification/v1/validate.ts:634-687 | the first loop: complaints, seen ids and the incomplete flag |
| ReceiptCases.LastCaseCounts | qualification/v1/validate.ts:634 | of several contract cases with one id the last counts |
| ReceiptCases.CheckMissing | qualification/v1/validate.ts:688-693 | the second loop: contract cases that were not seen |
| ReceiptCases.CheckOutcome | qualification/v1/validate.ts:694-703 | the checks on outcome and code |
| ReceiptCases.ValidateCases | qualification/v1/validate.ts:629-704 | all complaints in order, and none exactly when every contract case is reported by one entry with the required texts under the right properties, no entry is left over, and the outcome fits its code |
| ReceiptCases.CasesAcceptedExactly | qualification/v1/validate.ts:629-704 | the same on case lists: exact acceptance; the incomplete flag decides nothing, so a receipt that awaits its run is held to the same cases |
| ReceiptCases.EntriesExactly | qualification/v1/validate.ts:644-687 | the accepted cases, told by the properties of the entries |
| ReceiptComplaints.LoopsExactly | qualification/v1/validate.ts:644-693 | each kind of complaint about cases is made if and only if some entry or contract case deserves it |
| ReceiptComplaints.OutcomeExactly | qualification/v1/validate.ts:694-703 | each complaint about the outcome is made if and only if outcome and code deserve it |
| ReceiptComplaints.IncompleteExactly | qualification/v1/validate.ts:644-687 | the incomplete flag of the first loop, told by the entries |
| AgentHandoff.PrettyIsTame | frontend/src-tauri/src/agent_handoff.rs:107-110 | in pretty-printed JSON a newline is never followed by a newline or a backtick |
| AgentHandoff.JsonHoldsTitle | frontend/src-tauri/src/agent_handoff.rs:82-105 | the JSON text starts with a brace and is longer than the title it contains |
| AgentHandoff.HandoffRoundTrip | frontend/src-tauri/src/agent_handoff.rs:112-121 | cutting the Markdown at the first opening fence and the first closing one gives the exact JSON text if and only if the title line does not hold an opening fence |
| HandoffJson.PrettyReadsBack | frontend/src-tauri/src/agent_handoff.rs:107-110 | a reader made from RFC 8259 gives back every printed value, at every depth |
| HandoffJson.JsonExportReads | frontend/src-tauri/src/agent_handoff.rs:179-180 | the JSON export is read as an object that holds each part of the record under its name |
| HandoffJson.MarkdownExportReads | frontend/src-tauri/src/agent_handoff.rs:181 | the Markdown export begins with the title line, and the text in its fence is read as the same object, unless the title line has a fence |
| HandoffJson.MarkdownFormat | frontend/src-tauri/src/agent_handoff.rs:112-121 | the whole Markdown text, piece by piece |
| HandoffSave.FileSystem.WriteAll | frontend/src-tauri/src/agent_handoff.rs:155-157 | over short writes nothing but the temporary file changes; success means it is complete |
| HandoffSave.FileSystem.WriteAtomic | frontend/src-tauri/src/agent_handoff.rs:134-164 | every state a crash could leave has the destination complete, old or new, and other files untouched; success leaves the new content and no temporary, failure the old one and, if removal succeeds, no temporary; a taken temporary name fails the write and may cost that file |
| HandoffSave.TemporaryIsElsewhere | frontend/src-tauri/src/agent_handoff.rs:148 | the temporary name is never the destination, lies in the same directory, and differs for different identifiers |
| HandoffSave.SaveAfterDestinationSelection | frontend/src-tauri/src/agent_handoff.rs:166-190 | a cancelled save reads and writes nothing; any other reads one version of the record, current at the selection or later, writes nothing when that is missing, and otherwise leaves the files, result and crash states that an atomic write of that version gives, also when the write fails |
| SummaryAggregation.FinalSummary.TakeCategory | backend/app/main.py:278-293 | the category list and the first section of the title grow by the blocks; no other list changes, because none is shared |
| SummaryAggregation.FinalSummary.TakeNotes | backend/app/main.py:268-275 | the sections of the notes join at the end, empty ones with lists of their own |
| SummaryAggregation.FinalSummary.TakeChunk | backend/app/main.py:264-293 | one chunk: names, categories and notes, in place, on lists that stay separate |
| SummaryAggregation.AggregateChunks | backend/app/main.py:244-293 | the loop over all chunks gives the aggregate of their values |
| SummaryAggregation.NotesConserveBlocks | backend/app/main.py:268-293 | every block occurs in the notes exactly as often as in all categories and all notes of all chunks together |
| SummaryAggregation.CategoriesConcatenate | backend/app/main.py:278-280 | each category keeps its title and holds the concatenation of its blocks in chunk order |
| SummaryLaws.FiledExactly | backend/app/main.py:281-293 | a category's blocks go to the end of the first section of its title, and to a new section only if there is none; all other sections stay as they are |
| SummaryLaws.SectionsOnlyGrow | backend/app/main.py:268-293 | further chunks keep every section in its place with its title and its blocks, and add blocks to first sections only |
| SummaryLaws.FirstSectionCollects | backend/app/main.py:268-293 | the first section of a title holds, in order, the blocks that the chunks have for this title |
| SummaryLaws.NamesAreLast | backend/app/main.py:264-276 | the meeting name and the name of the notes are the last ones that are not empty |
| TranscriptChunks.CheckParameters | backend/app/main.py:126-140 | refuses exactly the empty text, a chunk size that is not positive and a negative overlap; otherwise an overlap below the chunk size is passed on, and any other becomes the chunk size less one |
| TranscriptChunks.SplitTranscript | backend/app/transcript_processor.py:158-164 | the slices at every step |
| TranscriptChunks.ChunkCount | backend/app/transcript_processor.py:164-165 | the number of chunks is the length in steps, rounded up |
| TranscriptChunks.StartIsProduct | backend/app/transcript_processor.py:164 | chunk k starts at k times the step |
| TranscriptChunks.StepsIsCeiling | backend/app/transcript_processor.py:164-165 | that number of steps covers the text and one less does not |
| TranscriptChunks.ChunkAt | backend/app/transcript_processor.py:164 | each chunk is the slice at its multiple of the step |
| TranscriptChunks.HeadsRebuild | backend/app/transcript_processor.py:164 | the first step characters of all chunks, joined, are the text |
| TranscriptChunks.TailBeginsNext | backend/app/transcript_processor.py:164 | the rest of each chunk is a prefix of the next |
| TranscriptChunks.ShortTextsAreWhole | backend/app/transcript_processor.py:157-164 | every substring of at most overlap + 1 characters lies whole in some chunk |
| TranscriptChunks.LongerTextsAreCut | backend/app/transcript_processor.py:157-164 | the bound is exact: in any text longer than a chunk some overlap + 2 characters lie in none |

## Left out

- TLS, DNS, `select`/`poll`, memory mapping and socket options: foreign calls. `is_readable` and `is_writable` may
  fail at any time.
- Compression: the chunked writer is modelled with the pass-through compressor.
- `Stream::write` returning 0 for a non-empty buffer; the source would retry without end.
- Bodies of 2^64 bytes and more: running offsets are unbounded where the source has `size_t`.
- Regular expressions: the Content-Disposition and extended-value matches are replaced by their meaning on one line.
- Multimap lookup with several equal keys takes the earliest inserted one.
- The progress callbacks, the logger and the size limits of the server that surround the parsers.
- A provider or receiver whose answer depends on anything but what it was given or reported so far, and one that
  changes its result because a write failed.
- A trailer given to the sink of a multipart item: that sink has no such operation in the source.
- The liveness probe, connecting and the handler in `ClientInFlight` are free choices of the environment; jobs in
  `ThreadPool` always return; `on_idle` and exceptions thrown by a job are not modelled. Nested calls start after the
  request was written, not inside the header writer.
- Range headers, redirect targets, cookies, authentication, the regular-expression router.
- Number formatting in JSON: a finite number is given by its decimal text, which is assumed to distinguish all
  numbers but 0 and -0. In `AgentHandoff` all numbers are integers.
- The wording of complaints in `Receipt` and `ReceiptCases`: a message is modelled by its kind and id. Receipt
  fields outside file rows, cases and outcome, private-data scanning, Git and metrics are not modelled.
- Hashing, path resolution and existence of files are functions of the path; every digest is assumed to be 64
  lowercase hexadecimal digits.
- HandoffSave.FileSystem.WriteAtomic: the states a crash leaves are those between two steps, because what an
  unsynchronised disk may reorder after a power failure is not modelled.
- Sharing, the dialog and the database behind the handoff; a record's participants, generation and transcript are
  arbitrary values that are only printed.
- Chunk summaries that are not shaped like `SummaryResponse`, for which the source logs an error and goes on.
- The language-model calls, the database and the status handling around the aggregation.
