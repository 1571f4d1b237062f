# HTTP codec and playback pipeline: a verified model

This project models the two stateful cores of the player application and proves properties of them in Dafny 4.11.
`dafny verify dfyconfig.toml` checks all of it.

**The embedded HTTP server.** A connection is a stream that delivers its bytes in portions of any size. A session
accumulates bytes until it sees the end of a header, goes back to the first body byte, decodes the header, reads the body
and goes on with the next request. The proofs show for which requests the portions do not matter, that the keep-alive loop
recovers exactly the requests that were sent, that the sliding-window search for multipart boundaries is the naive search,
that multipart bodies, chunked bodies, responses and query strings survive being printed and read back, and that no
uploaded file is lost.

**The native playback pipeline.** A demuxer thread, decoder threads and render threads pass messages through mutex-protected
queues. The model is a transition system whose atomic steps are the lock-protected sections; its state keeps the logs of what
was read, pushed, popped, released and played. The proofs are about every reachable state of every interleaving, with stops,
restarts, loops, skipping and flushing: queue bounds, configs before packets, order, ownership of every payload, life of the
playing buffer. A second, finer transition system acquires and releases single mutexes and shows when deadlock is impossible.
The threads' own code is modelled as classes whose methods are proved to be steps and runs of the first system and to take and
give back the mutexes as the second one assumes.

## How it is laid out

| files | contents |
|---|---|
| Octets, Numerals, Lines, HeaderMeaning | bytes as characters (ISO-8859-1), numbers in text, lines and header ends, and what they mean |
| Streams, Requests, Framing, HeaderFields, Session, RequestMeaning | the input stream, the specification of a session pass, keep-alive framing, the session as it runs, what a handler sees of a printed request |
| Boundary, Uploads, Multipart, MultipartRoundTrip, FormMeaning | boundary search, file names, the multipart decoder and its round trip, what a form leaves in the maps |
| Chunked, Response, ResponseRoundTrip, ResponseMeaning | chunked coding, sending a response, what a client makes of it |
| Query, QueryMeaning | the two query decoders, and what they make of a query |
| Media, Player, PlayerControl | messages and queue sections, the transition system, its basic invariants |
| PlayerBounds, PlayerConfigs, PlayerDecoder, PlayerFrames, Subsequences, PlayerOrder, PlayerPlayback, PlayerOutput, PlayerStops | bounds, configs, order, the two-consumer queue and stopping |
| Tallies, PlayerOwnership | additive measures and ownership |
| PlayerReleases, PlayerOverlap, PlayerRuns | harmful releases, the overlapping callback, building blocks of concrete runs |
| LockOrder, PlayerVideoSource | the mutexes, and what the video source meets in its queue |
| Queues, NativeDemuxer, NativeAudio, NativeRender, NativeVideo, NativePlayer | the classes of the native code |

The standards are RFC 2616, section 3.6.1 (chunked coding) and section 4.4 (message length), and RFC 2046, section 5.1.1
(multipart).

## What turned out not to hold

Each of these has a lemma with the condition under which the code does meet the property, and an input or a run on which
it does not.

- A request with a known verb, a body and no content-length gets as its body what happened to arrive with the header
  (`Framing.ScheduleIrrelevantIff`; a POST of one byte: `Framing.UndeclaredBody`). Such a request is framed exactly if the
  reads stop at its header end (`Framing.PlainFramedIff`).
- A request whose header is longer than the buffer is not framed: if it is served, its header is taken for its body
  (`Framing.ExchangeFramedIff`, `Framing.LongHeaderIsBody`; `Framing.OversizedLost`).
- A window without a header end and with a declared length of zero or less is served without consuming anything, so the
  session repeats it (`Framing.NoProgressIff`; `Framing.ServedForever`).
- A client of a response whose data is shorter than its declared length takes the rest from the next message or waits
  (`ResponseRoundTrip.FixedResponseRoundTrip`; `ResponseRoundTrip.DeclaredTooLong`).
- The response to HEAD carries the body, so a client that expects none finds it in front of the next message, unless it is
  empty (`ResponseMeaning.HeadCarriesBody`; `ResponseMeaning.HeadedByte`).
- A multipart part whose head has 1020 bytes or more makes the decoder reject the body, with the parts before it stored
  (`MultipartRoundTrip.MultipartRoundTrip`; `MultipartRoundTrip.LongPartRejected`).
- The two query decoders differ for a name whose last token has no `=` (`Query.DecodersAgree`; `Query.DecodersDiffer`).
- In skip mode with a loop the bound of the audio queue is lost (`PlayerBounds.BoundIff`; `PlayerBounds.SkipLoopUnbounded`),
  and only by a reopening after a flush (`PlayerBounds.BoundBrokenOnlyByReopening`).
- Without a loop, a restart after the end of the file leaves the audio decoder without a codec when packets follow
  (`PlayerDecoder.DecoderConfiguredIff`; `PlayerDecoder.PacketMeetsNoCodec`).
- A buffer can be released while it is playing, or twice, when the player's call of the callback overlaps the render
  thread's own one, which OpenSL ES does not rule out. Not every overlap does harm (`PlayerOverlap.HarmlessOverlap`): a run
  is safe exactly if it has no harmful delete, that is, a delete of the render thread's own call that finds a buffer which
  the player's call is not about to release, or one of the player's call that finds what the other has just released
  (`PlayerReleases.RunSafeIff`). All runs are safe exactly if the render thread's own call never finds a buffer
  (`PlayerReleases.SafeIff`), which holds for serial completions and for no others (`PlayerOverlap.SerialIff`).
- The video source returns with the queue's mutex taken when it meets a message that is not a packet, and the demuxer then
  waits for it with the audio queue (`LockOrder.DeadlockFreeIff`; `LockOrder.OtherDeadlocks`). It meets one in a loop and
  after a restart, and never otherwise (`PlayerVideoSource.SourceDeadlockFreeIff`).

Where comments in the code promise more than the code does, the model follows the code: the header ends at CRLFCRLF or LFLF
only, not at any two line ends (NanoHTTPD.java:968-988), and a boundary whose last byte is the last byte of the body is not
reported (NanoHTTPD.java:990-1034).

## Model

| member | source | states |
|---|---|---|
| `Lines.HeaderEndMeaning` | app/src/main/java/fi/iki/elonen/NanoHTTPD.java:972-988 | the header ends after the earliest-starting CRLFCRLF or LFLF and is unended exactly when there is none |
| `Lines.HeaderEndStable` | app/src/main/java/fi/iki/elonen/NanoHTTPD.java:875-887 | once a header end is found on a prefix, every longer prefix has the same one |
| `Lines.HeaderEndOfPrefix` | app/src/main/java/fi/iki/elonen/NanoHTTPD.java:972-988 | a prefix shows the header end of the whole text exactly when it is long enough to reach it |
| `Lines.BlockStaysInHeader` | app/src/main/java/fi/iki/elonen/NanoHTTPD.java:699-706 | reading lines up to the blank one never leaves a terminated header, so body bytes that arrived with it do not change the lines read |
| `Lines.ReadPrintedBlock` | app/src/main/java/fi/iki/elonen/NanoHTTPD.java:699-706 | lines printed with CRLF and a blank line are read back one by one, and reading stops right after the blank line |
| `Lines.PrintedHeaderEnd` | app/src/main/java/fi/iki/elonen/NanoHTTPD.java:972-988 | a printed header is split from whatever follows exactly behind its blank line |
| `Session.HttpSession.FindHeaderEnd` | app/src/main/java/fi/iki/elonen/NanoHTTPD.java:972-988 | the scanning loop over the buffer computes the header end of the bytes read so far |
| `HeaderMeaning.HeaderEndText` | app/src/main/java/fi/iki/elonen/NanoHTTPD.java:972-988 | a header ends behind its first CRLFCRLF or LFLF, whichever starts earlier, and has no end in a text with neither |
| `HeaderMeaning.LineEnds` | app/src/main/java/fi/iki/elonen/NanoHTTPD.java:699-706 | CR, LF and both together each end a line |
| `HeaderMeaning.BlankEndsBlock` | app/src/main/java/fi/iki/elonen/NanoHTTPD.java:699-706 | a line of white space ends the header lines, and a line with anything else does not |
| `HeaderMeaning.ThreeWordLine` | app/src/main/java/fi/iki/elonen/NanoHTTPD.java:667-698 | three words with any gaps of space, tab, CR, LF or form feed are verb, target and version, and what follows does not matter |
| `HeaderMeaning.TwoWordLine` | app/src/main/java/fi/iki/elonen/NanoHTTPD.java:667-698 | two words are verb and target of version HTTP/1.1 |
| `HeaderMeaning.OneWordLine` | app/src/main/java/fi/iki/elonen/NanoHTTPD.java:667-676 | one word or none is a bad request |
| `HeaderMeaning.FieldLine` | app/src/main/java/fi/iki/elonen/NanoHTTPD.java:699-706 | a line with a colon gives the trimmed text behind the first one to the trimmed name before it in small letters, and a line without one gives nothing |
| `HeaderMeaning.TrimMeaning` | app/src/main/java/fi/iki/elonen/NanoHTTPD.java:703 | trimming takes away white space at both ends, all of it, and nothing else |
| `HeaderMeaning.LowerMeaning` | app/src/main/java/fi/iki/elonen/NanoHTTPD.java:703 | the 26 capital letters become the small ones, and nothing else changes |
| `HeaderMeaning.LongMeaning` | app/src/main/java/fi/iki/elonen/NanoHTTPD.java:1084-1091 | a length is read exactly from digits, maybe behind a sign, within the range of a long; any other text is no number |
| `HeaderMeaning.DigitMeaning` | app/src/main/java/fi/iki/elonen/NanoHTTPD.java:1368 | the digits printed are 0 to 9 and a to f, and those read in lengths are 0 to 9 |
| `Streams.BufferedInput.Read` | app/src/main/java/fi/iki/elonen/NanoHTTPD.java:643-649 | a read delivers at least one and at most the wanted bytes, as the schedule of the network decides, in stream order; -1 only at the end of the stream |
| `Streams.BufferedInput.Reset` | app/src/main/java/fi/iki/elonen/NanoHTTPD.java:884-887 | going back to the mark restores the position of the start of the request |
| `Streams.BufferedInput.Skip` | app/src/main/java/fi/iki/elonen/NanoHTTPD.java:884-887 | skipping moves forward by the wanted count, or by what is buffered if that is less |
| `Framing.ArrivedFindsHeaderEnd` | app/src/main/java/fi/iki/elonen/NanoHTTPD.java:875-882 | for every read schedule the accumulation loop stops with the header end of the whole 8192-byte window, or with the whole window if it has none |
| `Framing.DecodeIgnoresBody` | app/src/main/java/fi/iki/elonen/NanoHTTPD.java:896-901 | the decoded request line and fields depend on the header block alone, not on the body bytes that came with it |
| `Framing.ScheduleIrrelevant` | app/src/main/java/fi/iki/elonen/NanoHTTPD.java:846-966 | a request that declares its length, or has nothing behind its header, gives the same outcome for every read schedule |
| `Framing.ScheduleIrrelevantIff` | app/src/main/java/fi/iki/elonen/NanoHTTPD.java:1084-1091 | the outcome is the same for all schedules exactly for self-delimiting requests; an accepted one without content-length gets as body whatever arrived with its header |
| `Framing.ArrivalDecidesBody` | app/src/main/java/fi/iki/elonen/NanoHTTPD.java:1084-1091 | for a request that is not self-delimiting two schedules give two bodies: an empty one and all of the window's rest |
| `Framing.UndeclaredBody` | app/src/main/java/fi/iki/elonen/NanoHTTPD.java:1084-1091 | an input whose outcome depends on the reads: a POST without content-length and one byte behind its header has an empty body or that byte |
| `Framing.NoProgressIff` | app/src/main/java/fi/iki/elonen/NanoHTTPD.java:884-887 | for every stream and schedule a pass is served and consumes nothing exactly when the window shows no header end and its request declares no positive length; no served pass consumes more than there is |
| `Framing.ServedForever` | app/src/main/java/fi/iki/elonen/NanoHTTPD.java:884-887 | such an input: a GET whose header never ends, with content-length 0, is served, kept open and left in the stream |
| `Framing.ExchangeFramed` | app/src/main/java/fi/iki/elonen/NanoHTTPD.java:846-966 | whatever follows it and however it arrives, a well-formed request is served with exactly its header and body, keeps the connection as it asks, and leaves the stream on the first byte after it |
| `Framing.ExchangeFramedIff` | app/src/main/java/fi/iki/elonen/NanoHTTPD.java:858-887 | for every schedule and whatever follows, a request that declares its length is framed exactly if its header fits the 8192-byte buffer |
| `Framing.LongHeaderIsBody` | app/src/main/java/fi/iki/elonen/NanoHTTPD.java:858-887 | a request with a longer header, if it is served, gets bytes of its header as body |
| `Framing.OversizedLost` | app/src/main/java/fi/iki/elonen/NanoHTTPD.java:858-887 | such a request: a POST with a header field of 8192 bytes, which no schedule frames, whatever follows |
| `Framing.PlainFramedIff` | app/src/main/java/fi/iki/elonen/NanoHTTPD.java:1084-1091 | a request without content-length gets as body, and takes from the stream, what arrived with it; so it is framed exactly if the reads stop at its header end |
| `Framing.LengthsDeliver` | app/src/main/java/fi/iki/elonen/NanoHTTPD.java:1094-1118 | a stream of requests that declare their lengths is delivered one by one by any reads |
| `Framing.BytesDeliver` | app/src/main/java/fi/iki/elonen/NanoHTTPD.java:1084-1091 | a stream of such requests and of ones without a length is delivered one by one by reads of one byte |
| `Framing.FramingUnique` | app/src/main/java/fi/iki/elonen/NanoHTTPD.java:846-966 | a stream can be cut into well-formed requests in only one way, so the recovered pairs are the sent ones |
| `Framing.PrintedRequestWellFormed` | app/src/main/java/fi/iki/elonen/NanoHTTPD.java:659-712 | a printed request decodes to the printed verb, target, version, fields and length, so well-formed streams include all printed ones |
| `RequestMeaning.PrintedRequestServed` | app/src/main/java/fi/iki/elonen/NanoHTTPD.java:846-966 | whatever follows a printed request and however it arrives, the handler gets its verb, target, version, its fields each with the last value and no others, and its body; the connection stays open exactly if the version is HTTP/1.1 and the last connection field does not say close in any case; a malformed target and an unknown verb are rejected |
| `RequestMeaning.KeepsOpenIff` | app/src/main/java/fi/iki/elonen/NanoHTTPD.java:917-918 | the connection stays open behind a printed request exactly if it has version HTTP/1.1 and its last connection field, if any, does not hold the letters c-l-o-s-e in any case |
| `RequestMeaning.LocateQuery` | app/src/main/java/fi/iki/elonen/NanoHTTPD.java:680-687 | a target of a path, a question mark and a query gives the decoded path and the query's names with their last values, and is malformed exactly if the path or a name or value of the query does not decode |
| `RequestMeaning.LocatePath` | app/src/main/java/fi/iki/elonen/NanoHTTPD.java:680-687 | a target without a question mark gives the decoded path and no parameters |
| `RequestMeaning.PathAndQueryServed` | app/src/main/java/fi/iki/elonen/NanoHTTPD.java:846-966 | the handler of a printed request with path and query sees the decoded path and the last values of the query's names, for every schedule |
| `RequestMeaning.UnreadableLength` | app/src/main/java/fi/iki/elonen/NanoHTTPD.java:1084-1091 | a content-length that is no number is an error for every schedule |
| `RequestMeaning.FullReads` | app/src/main/java/fi/iki/elonen/NanoHTTPD.java:1094-1118 | a body that is there in full is read in pieces of 512 bytes |
| `RequestMeaning.RunStopsBehind` | app/src/main/java/fi/iki/elonen/NanoHTTPD.java:939-941 | on a stream with a request of another version or one that asks to close, the keep-alive loop serves that request and nothing behind it |
| `RequestMeaning.Verbs` | app/src/main/java/fi/iki/elonen/NanoHTTPD.java:1249-1278 | the sixteen verbs of the enumeration are known, and no others |
| `Session.HttpSession.ReadRequestLine` | app/src/main/java/fi/iki/elonen/NanoHTTPD.java:667-698 | the request line is split into verb, target and version, with HTTP/1.1 for a missing version and an error for a missing verb or target |
| `Session.HttpSession.DecodeTarget` | app/src/main/java/fi/iki/elonen/NanoHTTPD.java:680-687 | the target is cut at the first question mark, its path percent-decoded and its query string decoded, or it is rejected as malformed |
| `Session.HttpSession.ReadFields` | app/src/main/java/fi/iki/elonen/NanoHTTPD.java:699-706 | the loop over header lines builds the map of lower-cased names to trimmed values in which a later field replaces an earlier one |
| `Session.HttpSession.DecodeBuffer` | app/src/main/java/fi/iki/elonen/NanoHTTPD.java:659-712 | decoding the buffered bytes leaves verb, target, version, headers, path and query parameters of the decoded header in the session, or tells a bad request line from a malformed target |
| `Session.HttpSession.ParseBody` | app/src/main/java/fi/iki/elonen/NanoHTTPD.java:1094-1118 | for every read schedule the body is exactly the declared number of bytes, or all there is, and the stream is left right behind it, before a read that the schedule determines |
| `Session.HttpSession.FirstRead` | app/src/main/java/fi/iki/elonen/NanoHTTPD.java:858-874 | the first read marks the start of the request and delivers nothing exactly when the peer has closed the connection |
| `Session.HttpSession.Accumulate` | app/src/main/java/fi/iki/elonen/NanoHTTPD.java:875-882 | the loop that adds reads to the buffer ends with the bytes, the count, the header end and the next read that the schedule determines, nothing lost or repeated |
| `Session.HttpSession.ServeBuffered` | app/src/main/java/fi/iki/elonen/NanoHTTPD.java:884-941 | after reset and skip the request is decoded and its handler called on the first byte behind its header, and the stream ends up behind its body |
| `Session.HttpSession.Execute` | app/src/main/java/fi/iki/elonen/NanoHTTPD.java:846-966 | one pass of the session takes from the stream and hands to the handler exactly what the pass function says, for any content of the stream and any schedule, and makes exactly the reads that it determines |
| `Session.HttpSession.Run` | app/src/main/java/fi/iki/elonen/NanoHTTPD.java:185-212 | on a stream of requests with and without declared lengths, of which only the last may close, if the reads stop at the header ends of those without, the keep-alive loop hands over exactly their headers, targets and bodies, in order, and leaves what follows in the stream |
| `Session.NextInStream` | app/src/main/java/fi/iki/elonen/NanoHTTPD.java:191-193 | if the handlers have seen the first requests and the others are left in the stream and will be delivered one by one, then so after the next pass with one request more; a request that closes is the last |
| `Boundary.PositionsExact` | app/src/main/java/fi/iki/elonen/NanoHTTPD.java:995-1034 | the search result is strictly ascending and lists every occurrence that starts below body length minus boundary length, and nothing else |
| `Boundary.PositionsUnique` | app/src/main/java/fi/iki/elonen/NanoHTTPD.java:995-1034 | any ascending list with these members is the search result |
| `Boundary.MatchAt` | app/src/main/java/fi/iki/elonen/NanoHTTPD.java:1011-1021 | the byte-by-byte comparison succeeds exactly where the boundary stands in the window; an empty boundary is found nowhere |
| `Boundary.SearchWindow` | app/src/main/java/fi/iki/elonen/NanoHTTPD.java:1010-1022 | one window extends the list by exactly the occurrences that start in it |
| `Boundary.Slide` | app/src/main/java/fi/iki/elonen/NanoHTTPD.java:1025-1031 | after the end of the window is moved to its start and the rest refilled, the window shows the next stretch of the body without a gap |
| `Boundary.GetBoundaryPositions` | app/src/main/java/fi/iki/elonen/NanoHTTPD.java:995-1034 | the sliding-window search returns the naive search's list for every body and boundary: no misses and no duplicates where windows meet |
| `Multipart.Decoder.SkipOverNewLine` | app/src/main/java/fi/iki/elonen/NanoHTTPD.java:813-818 | moves behind the next line feed, or fails at the end of the buffer |
| `Multipart.Decoder.SkipHeader` | app/src/main/java/fi/iki/elonen/NanoHTTPD.java:774-777 | skips exactly the counted number of header lines |
| `Multipart.Decoder.ReadAttributes` | app/src/main/java/fi/iki/elonen/NanoHTTPD.java:749-765 | collects name and file name of a disposition line; from the second non-empty file name on, the field name gets the running number |
| `Multipart.Decoder.ReadPartHeader` | app/src/main/java/fi/iki/elonen/NanoHTTPD.java:741-773 | collects the attributes of all lines before the blank one, and counts those lines with the boundary line and the blank one |
| `Multipart.Decoder.ReadPart` | app/src/main/java/fi/iki/elonen/NanoHTTPD.java:727-783 | one part is cut as the cutting function says: header lines, start behind the counted lines, end four bytes before the next boundary, or its error |
| `Multipart.Decoder.StorePart` | app/src/main/java/fi/iki/elonen/NanoHTTPD.java:785-803 | a text part goes to the parameters, a file part to a free name in the files; a text part that would end before it starts is an error |
| `Multipart.Decoder.DecodePart` | app/src/main/java/fi/iki/elonen/NanoHTTPD.java:726-804 | one turn of the loop: header buffer refilled with stale bytes kept behind, part cut and stored, or the error with the maps unchanged |
| `Multipart.Decoder.DecodeMultipartFormData` | app/src/main/java/fi/iki/elonen/NanoHTTPD.java:717-811 | the whole decoder computes the decoding function of the body on the maps it is given, including what was stored before an error |
| `MultipartRoundTrip.CutPrintedPart` | app/src/main/java/fi/iki/elonen/NanoHTTPD.java:774-783 | a printed part whose head is below 1020 bytes is cut to exactly its header lines and its payload, whatever line breaks the payload holds |
| `MultipartRoundTrip.CutLongPart` | app/src/main/java/fi/iki/elonen/NanoHTTPD.java:769-780 | a printed part whose head is longer is always rejected, also if the buffer ends within a line or within a line break of it |
| `MultipartRoundTrip.StartsFacts` | app/src/main/java/fi/iki/elonen/NanoHTTPD.java:995-1034 | the delimiters of a printed body stand where they were printed, ascending, and inside the searched range |
| `MultipartRoundTrip.DecodePrintedParts` | app/src/main/java/fi/iki/elonen/NanoHTTPD.java:726-804 | from any part on, the loop stores the remaining printed parts one by one up to the first whose head is too long, whatever old bytes are in the header buffer |
| `MultipartRoundTrip.MultipartRoundTrip` | app/src/main/java/fi/iki/elonen/NanoHTTPD.java:717-811 | if the boundary occurs in the delimiters only, printing parts and decoding them gives each part's header lines and payload back exactly if each part's head is below 1020 bytes; otherwise the body is rejected at the first longer one, with the parts before it stored |
| `MultipartRoundTrip.LongPartRejected` | app/src/main/java/fi/iki/elonen/NanoHTTPD.java:769-780 | such a body: one part with a header line of 1020 bytes |
| `MultipartRoundTrip.NoUploadLost` | app/src/main/java/fi/iki/elonen/NanoHTTPD.java:791-803 | on any body, also one that ends in an error, each file part adds exactly one entry to the files and no entry is ever replaced |
| `FormMeaning.PrintedForm` | app/src/main/java/fi/iki/elonen/NanoHTTPD.java:717-811 | after a printed form each key holds the data of its last text part or the file name of its last file, each file has an entry of its own with its data under its name or the name with the least number from 2 on that is free, and no other key has changed; accepted exactly if all heads fit, and otherwise the same for the parts before the first that does not |
| `FormMeaning.InfoOf` | app/src/main/java/fi/iki/elonen/NanoHTTPD.java:736-773 | a part header gives the name and file name of its disposition, in any case, in either order and among other attributes; from the second named file of a form on, the number of files before it is put behind the name, or behind null |
| `FormMeaning.SecondFile` | app/src/main/java/fi/iki/elonen/NanoHTTPD.java:755-762 | the second named file of a form is stored under its name and the digit 1 |
| `FormMeaning.InvertedPart` | app/src/main/java/fi/iki/elonen/NanoHTTPD.java:785-803 | a part whose next boundary comes before its data could start is an error that leaves the maps alone if it is text, and a file without data otherwise |
| `Uploads.NumberedInjective` | app/src/main/java/fi/iki/elonen/NanoHTTPD.java:797-801 | a name with two different numbers gives two different keys |
| `Uploads.FirstFreeIsFirst` | app/src/main/java/fi/iki/elonen/NanoHTTPD.java:797-800 | the number chosen is the first one from 2 on whose key is free |
| `Uploads.FileKeyIsLeast` | app/src/main/java/fi/iki/elonen/NanoHTTPD.java:794-802 | the key of a new file is its name if that is free, and otherwise the name with the least number from 2 on that makes it free |
| `Uploads.StoringKeepsFiles` | app/src/main/java/fi/iki/elonen/NanoHTTPD.java:794-802 | storing a file adds one entry and keeps all others with their contents |
| `Uploads.ChooseKey` | app/src/main/java/fi/iki/elonen/NanoHTTPD.java:794-802 | the loop over numbers ends, since each clash uses up a stored name, and gives the name itself or the first free numbered one |
| `Chunked.SizeLine` | app/src/main/java/fi/iki/elonen/NanoHTTPD.java:1364-1371 | the hexadecimal size that is written is read back as the same number, and its line ends where it was ended |
| `Chunked.ChunkedRoundTrip` | app/src/main/java/fi/iki/elonen/NanoHTTPD.java:1345-1377 | for any sequence of writes, empty ones among them, a chunked decoder gives back exactly the bytes written and stops where the coding ends |
| `Chunked.ChunkedBodyRoundTrip` | app/src/main/java/fi/iki/elonen/NanoHTTPD.java:1345-1377 | writes followed by finish decode to the concatenation of the writes, and the bytes of the next message stay untouched; no empty write ends the body early |
| `Chunked.ChunkedOutputStream.Write` | app/src/main/java/fi/iki/elonen/NanoHTTPD.java:1364-1371 | a write appends one chunk with its data, and nothing if it is empty |
| `Numerals.PrintParse` | app/src/main/java/fi/iki/elonen/NanoHTTPD.java:1368 | printing a number in base 10 or 16 and parsing it gives the number |
| `Numerals.PrintParseLong` | app/src/main/java/fi/iki/elonen/NanoHTTPD.java:1563-1575 | a printed length is what Long.parseLong reads |
| `Response.BodyStream.Write` | app/src/main/java/fi/iki/elonen/NanoHTTPD.java:1577-1595 | what is written reaches the output chunked or plain, through the compressor or not, and is remembered in order |
| `Response.SendBody` | app/src/main/java/fi/iki/elonen/NanoHTTPD.java:1610-1625 | for any read sizes the body stream is given exactly the first pending bytes of the data, or all of it for -1, through a bounded buffer |
| `Response.HttpResponse.PrintLeading` | app/src/main/java/fi/iki/elonen/NanoHTTPD.java:1517-1541 | status line, own and server fields are printed in their order, and compression turns chunking on and is switched off by an own content-length |
| `Response.HttpResponse.PrintHead` | app/src/main/java/fi/iki/elonen/NanoHTTPD.java:1513-1575 | the printed header announces chunked coding, or a length, exactly as the body will be sent |
| `Response.HttpResponse.Send` | app/src/main/java/fi/iki/elonen/NanoHTTPD.java:1513-1625 | what goes on the wire is the printed header and then the data, or its compression, in writes whose concatenation is complete, framed as announced |
| `ResponseRoundTrip.ChunkedHeaders` | app/src/main/java/fi/iki/elonen/NanoHTTPD.java:1535-1546 | a client finds transfer-encoding chunked, and content-encoding gzip exactly if the response is compressed |
| `ResponseRoundTrip.FixedHeaders` | app/src/main/java/fi/iki/elonen/NanoHTTPD.java:1545-1575 | a client finds the declared length, and no transfer or content encoding |
| `ResponseRoundTrip.ChunkedResponseRoundTrip` | app/src/main/java/fi/iki/elonen/NanoHTTPD.java:1513-1625 | a client that decodes a chunked or compressed response by its header gets back all the data and then the next message |
| `ResponseRoundTrip.FixedResponseRoundTrip` | app/src/main/java/fi/iki/elonen/NanoHTTPD.java:1513-1625 | a client of a response that declares length n, by the handler's own content-length or the length of its data, gets exactly the first n bytes if the data has that many; otherwise it takes the missing ones from whatever follows on the connection, and waits if that is not enough |
| `ResponseRoundTrip.DeclaredTooLong` | app/src/main/java/fi/iki/elonen/NanoHTTPD.java:1513-1625 | such a response: one declared byte and no data, whose client waits or takes the first byte of the next message |
| `ResponseRoundTrip.CodingChosen` | app/src/main/java/fi/iki/elonen/NanoHTTPD.java:1535-1543 | data is compressed exactly if the client takes it and the handler has set no content-length, and chunked exactly if it is compressed or of unknown length and the request was not HEAD |
| `ResponseRoundTrip.SizeDeclared` | app/src/main/java/fi/iki/elonen/NanoHTTPD.java:1563-1575 | the declared length is the handler's own last content-length if that is a number, and otherwise the length of the data |
| `ResponseMeaning.ClientReads` | app/src/main/java/fi/iki/elonen/NanoHTTPD.java:1513-1561 | a client reads in the bytes of any response, HEAD and own lengths included: the status line with the description; the handler's own fields with their last values; connection keep-alive or close as decided, the date and the MIME type unless the handler set its own; and the framing fields that the body will follow |
| `ResponseMeaning.HeadCarriesBody` | app/src/main/java/fi/iki/elonen/NanoHTTPD.java:1546-1625 | behind the header of a response to HEAD come the declared bytes of the data, so that it ends there exactly if there are none |
| `ResponseMeaning.HeadedByte` | app/src/main/java/fi/iki/elonen/NanoHTTPD.java:1546-1625 | such a response: one byte for HEAD |
| `Query.DecodeParms` | app/src/main/java/fi/iki/elonen/NanoHTTPD.java:826-843 | the loop computes the single-value map of the query's tokens, or rejects the query |
| `Query.DecodeParameters` | app/src/main/java/fi/iki/elonen/NanoHTTPD.java:2022-2040 | the loop computes the map of value lists of the query's tokens, or rejects the query |
| `Query.SingleMeaning` | app/src/main/java/fi/iki/elonen/NanoHTTPD.java:826-843 | the single-value map has the names of the tokens, each with the decoded value of its last token, or empty if that has none |
| `Query.MultiMeaning` | app/src/main/java/fi/iki/elonen/NanoHTTPD.java:2022-2040 | the list map has the names of the tokens, each with all its values in order |
| `QueryMeaning.SingleOfPieces` | app/src/main/java/fi/iki/elonen/NanoHTTPD.java:826-843 | a query put together from names and values, or names alone, is rejected exactly if one of them does not percent-decode; otherwise each decoded and trimmed name has the decoded value of its last piece, or is empty |
| `QueryMeaning.MultiOfPieces` | app/src/main/java/fi/iki/elonen/NanoHTTPD.java:2022-2040 | the list decoder rejects the same queries and gives each decoded and trimmed name all its decoded values in order |
| `QueryMeaning.EmptyPieces` | app/src/main/java/fi/iki/elonen/NanoHTTPD.java:833-834 | further ampersands change nothing |
| `QueryMeaning.EveryQuery` | app/src/main/java/fi/iki/elonen/NanoHTTPD.java:833-834 | every query has the tokens of a query put together in this way |
| `Query.DecodersAgree` | app/src/main/java/fi/iki/elonen/NanoHTTPD.java:2022-2040 | both decoders reject the same queries and know the same names; the single value is the last of the list exactly when the name's last token in the query has a value, or has none and the last value given in the query is empty |
| `Query.DecodersDiffer` | app/src/main/java/fi/iki/elonen/NanoHTTPD.java:2022-2040 | a query on which the decoders differ: in a=1&a the single value is empty and the list holds 1 |
| `Media.GateDropsNewest` | app/src/main/jni/CDemuxer.cpp:121-145 | the section with both locks takes away at most the newest message of each queue, and in skip mode over the limit the newest of both, releases exactly those, and in wait mode lets the demuxer on exactly with room in both queues |
| `PlayerControl.ThreadsOff` | app/src/main/jni/CPlayer.cpp:66-82 | threads run only between start and stop, and when the decoder clears its codec the demuxer has left its loop |
| `PlayerControl.ReachableShape` | app/src/main/jni/CAudio.cpp:237-312 | in every reachable state each queue and each thread holds messages of its own kinds only, and the player object exists whenever a call is running |
| `PlayerBounds.WaitModeBounded` | app/src/main/jni/CDemuxer.cpp:121-174 | in wait mode both queues hold at most the limit and two messages, and at most the limit and one while the resend flag is clear |
| `PlayerBounds.BoundedBeforeFlush` | app/src/main/jni/CDemuxer.cpp:121-174 | in every mode, skipping and looping included, the queues hold at most the limit and one message until the first flush |
| `PlayerBounds.BoundBrokenOnlyByReopening` | app/src/main/jni/CDemuxer.cpp:149-163 | in every mode, more than that with a clear resend flag means skip mode with a loop, a flush, and a reopening while configs were sent with every packet |
| `PlayerBounds.BoundIff` | app/src/main/jni/CDemuxer.cpp:121-174 | in every reachable state with a clear resend flag the limit and one is not exceeded, exactly unless the demuxer skips packets and plays in a loop |
| `PlayerBounds.SkipLoopUnbounded` | app/src/main/jni/CDemuxer.cpp:149-163 | in skip mode with a loop a run with such a reopening leads to an audio queue beyond any bound with a clear flag |
| `PlayerConfigs.ReachableSent` | app/src/main/jni/CDemuxer.cpp:67-83 | in either mode, since the last flush no packet is pushed before a codec config of its own opening of the file |
| `PlayerConfigs.ConfigBeforePacket` | app/src/main/jni/CDemuxer.cpp:91-176 | in wait mode each queue is first in, first out since its last flush, and each packet taken was preceded by a config of its own opening |
| `PlayerStops.GenerationsCount` | app/src/main/jni/CDemuxer.cpp:149-156 | the generation of messages grows by one with each reopening in a loop and with nothing else |
| `PlayerDecoder.ReachableLeftClean` | app/src/main/jni/CDemuxer.cpp:110-119 | a started demuxer is gone only with an empty audio queue and the resend flag set, or after the end of the file |
| `PlayerDecoder.DecoderConfigured` | app/src/main/jni/CAudio.cpp:57-92 | in wait mode an audio packet meets a configured decoder unless the decoder was once stopped after the end of the file |
| `PlayerDecoder.PacketMeetsNoCodec` | app/src/main/jni/CDemuxer.cpp:149-160 | outside a loop a stop and start after a failed read leads to a packet that meets no codec |
| `PlayerDecoder.DecoderConfiguredIff` | app/src/main/jni/CAudio.cpp:77-92 | in wait mode every packet meets a configured decoder exactly if the file is played in a loop |
| `PlayerFrames.FramesAnnounced` | app/src/main/jni/CAudio.cpp:57-133 | in wait mode, unless the decoder was once stopped after the end of the file, each frame in the decoder's output is preceded by a render config of its own opening, which the render thread has taken before a call takes the frame |
| `PlayerPlayback.PlaybackInOrder` | app/src/main/jni/CAudio.cpp:57-133 | in wait mode, up to the first flush, played, decoded, held and waiting packets together are exactly the audio packets read, in order, and the played ones a prefix |
| `PlayerPlayback.NeverReordered` | app/src/main/jni/CDemuxer.cpp:110-178 | in every mode and over all stops, flushes and reopenings what is taken, played and waiting is a subsequence of what was read: nothing overtaken or played twice |
| `PlayerPlayback.ReachableLines` | app/src/main/jni/CAudio.cpp:57-133 | the invariant behind both: skipped, flushed and unconfigured packets disappear without disturbing the order of the others |
| `PlayerOutput.TwoConsumersOneFifo` | app/src/main/jni/CAudio.cpp:245-293 | render thread and calls together pop the output queue first in, first out; the calls get exactly its frames and the render thread the rest, each in order |
| `PlayerStops.NoFrameAfterCancel` | app/src/main/jni/CAudio.cpp:241-258 | until it is started again, a cancelled render thread and the player's calls take no frame but the one they may have been looking for |
| `PlayerOwnership.PayloadsConserved` | app/src/main/jni/utils.cpp:36-81 | what is in queues, hands, codec, playing buffer, released and forgotten adds up to everything allocated: for every additive measure if completions come after the render thread's own call, and in every configuration for those that do not see buffers already given to the player |
| `PlayerOwnership.ForgottenExactly` | app/src/main/jni/CDemuxer.cpp:164-175 | over any run exactly the packets of other streams and the packets that met no codec are forgotten; everything else that has left is released |
| `PlayerOwnership.SingleOwner` | app/src/main/jni/utils.cpp:36-81 | a payload allocated is in exactly one place: in every configuration until it is given to the player, and afterwards if completions come after the render thread's own call |
| `PlayerOwnership.HeldOnce` | app/src/main/jni/utils.cpp:36-81 | in every configuration a payload is at most once in the queues, the threads' hands, the codec or a call that has not enqueued it, and is then neither released nor forgotten nor with the video decoder |
| `PlayerOwnership.ReachableGivenGone` | app/src/main/jni/CAudio.cpp:261-267 | in every configuration a buffer that was given to the player is in no queue, no thread's hands and no codec again |
| `PlayerReleases.ReleasedOnce` | app/src/main/jni/utils.cpp:36-81 | in every configuration no released payload is in a queue; and one released twice is a buffer that was given to the player, and a harmful delete was made |
| `PlayerOwnership.ReachableOneCall` | app/src/main/jni/CAudio.cpp:237-269 | if completions come after the render thread's own call, the buffer given last is with the running call or in the field |
| `PlayerReleases.PlayingBufferAlive` | app/src/main/jni/CAudio.cpp:261-267 | in every configuration, until a harmful delete the buffer given to the player last is not released before a later one was given or the player was destroyed |
| `PlayerReleases.HarmsAtOnce` | app/src/main/jni/CAudio.cpp:261-267 | a harmful delete, of the render thread's own call that finds a buffer which the player's call is not about to release, or of the player's call that finds the one which the other has just released, at once releases the playing buffer or one for a second time |
| `PlayerReleases.StepSafeIff` | app/src/main/jni/CAudio.cpp:241-269 | before any harm a step of any thread leads to a state with a living playing buffer and no double release exactly if it is not a harmful delete |
| `PlayerReleases.RunSafeIff` | app/src/main/jni/CAudio.cpp:241-269 | run by run, in every configuration, all states are safe in that sense exactly if the run has no harmful delete |
| `PlayerReleases.SafeIff` | app/src/main/jni/CAudio.cpp:264 | in every configuration all reachable states are safe exactly if the render thread's own call never finds a buffer in the field when it comes to delete |
| `PlayerReleases.SerialFindsNothing` | app/src/main/jni/CAudio.cpp:295-305 | if completions come only after the render thread's own call then that call never finds a buffer and no delete is harmful |
| `PlayerOverlap.SerialIff` | app/src/main/jni/CAudio.cpp:261-305 | over all runs of a configuration: the playing buffer always stays alive, nothing is ever released twice, and the render thread's own call never finds a buffer, each exactly if no completion may overlap that call |
| `PlayerOverlap.HarmlessOverlap` | app/src/main/jni/CAudio.cpp:261-267 | an overlap that does no harm: the player's call has not stored its buffer when the render thread's own call comes to delete, and both end |
| `Tallies.CounterAdditive` | app/src/main/jni/utils.cpp:36-81 | counting the occurrences of one payload is an additive measure |
| `Subsequences.MovesKeep` | app/src/main/jni/CDemuxer.cpp:110-178 | a line that grows by what is read or loses elements stays a subsequence of what was read, and stays equal to it while nothing is lost |
| `LockOrder.SectionDisciplined` | app/src/main/jni/CDemuxer.cpp:67-145 | every section takes the audio queue before the video queue, everything else alone, and releases all it took on every branch, if the video source meets nothing but packets |
| `LockOrder.ReachableOrderly` | app/src/main/jni/utils.h:34-42 | if the video source meets nothing but packets, in every reachable state each thread will release exactly what it holds and only acquire upwards |
| `LockOrder.WaitingEnds` | app/src/main/jni/CDemuxer.cpp:121-145 | if the video source meets nothing but packets, waiting has no cycle: a blocked thread waits for one that can go on, or for one that waits for such a thread |
| `LockOrder.AllCanFinish` | app/src/main/jni/utils.h:34-42 | if the video source meets nothing but packets, from every reachable state the threads can finish their sections, and no mutex is taken |
| `LockOrder.LostForGood` | app/src/main/jni/CVideo.cpp:225-238 | once the video source has returned without releasing the mutex no run ever frees the video queue |
| `LockOrder.OtherDeadlocks` | app/src/main/jni/CVideo.cpp:225-238 | if the video source can meet a message that is not a packet, then a reachable state has lost the queue's mutex and another is a deadlock |
| `LockOrder.DeadlockFreeIff` | app/src/main/jni/CVideo.cpp:225-238 | the mutexes never deadlock exactly if no message that is not a packet is among what the video source meets in front of its queue |
| `PlayerVideoSource.SourceMeetsPackets` | app/src/main/jni/CVideo.cpp:225-238 | in every run without a loop and without a flush, once the first config has been taken the front of the video queue is a packet |
| `PlayerVideoSource.LoopMeetsConfig` | app/src/main/jni/CDemuxer.cpp:149-156 | in a loop, with any limit, a reachable state has a config in front of the video queue after a packet was taken |
| `PlayerVideoSource.RestartMeetsConfig` | app/src/main/jni/CDemuxer.cpp:161-163 | after a restart, in every configuration, a reachable state has a config in front of the video queue after a packet was taken |
| `PlayerVideoSource.SourceDeadlockFreeIff` | app/src/main/jni/CVideo.cpp:225-238 | with what the video source meets in the player's own runs, the mutexes never deadlock exactly if the file is not played in a loop and the player is never restarted |
| `Queues.Drain` | app/src/main/jni/CDemuxer.cpp:91-104 | the flush loop empties the queue and releases its payloads front first, each once, under the queue's mutex alone |
| `Queues.CThread.Stop` | app/src/main/jni/utils.h:56-64 | the cancel flag is set under the thread's own mutex, which is given back |
| `Queues.CThread.IsCancel` | app/src/main/jni/utils.h:66-71 | the cancel flag is read under the thread's own mutex, which is given back |
| `Queues.DropNewest` | app/src/main/jni/CDemuxer.cpp:126-133 | the newest message is removed and released, if there is one |
| `Queues.CHeap.Clear` | app/src/main/jni/utils.cpp:36-81 | clearing a message releases its payload, and nothing for an empty message |
| `NativeDemuxer.CDemuxer.CheckRoom` | app/src/main/jni/CDemuxer.cpp:121-145 | the two-lock section goes on, skips or waits as the gate says; on every branch it takes audio before video and gives both mutexes back |
| `NativeDemuxer.CDemuxer.PassGate` | app/src/main/jni/CDemuxer.cpp:121-145 | the section is the gate step of the transition system, and takes and gives back the mutexes as the lock model says |
| `NativeDemuxer.CDemuxer.SendVideoConfig` | app/src/main/jni/CDemuxer.cpp:68-74 | a config is appended to the video queue exactly if there is a video stream |
| `NativeDemuxer.CDemuxer.SendAudioConfig` | app/src/main/jni/CDemuxer.cpp:76-82 | a config is appended to the audio queue exactly if there is an audio stream |
| `NativeDemuxer.CDemuxer.OpenFile` | app/src/main/jni/CDemuxer.cpp:39-65 | opening a file clears the end-of-file mark, finds its streams and sends both configs |
| `NativeDemuxer.Opened` | app/src/main/jni/CPlayer.cpp:18-23 | a new demuxer whose file has been opened agrees with the initial state of every run, and the main thread has taken both queue mutexes one after the other |
| `NativePlayer.CPlayer.Open` | app/src/main/jni/CPlayer.cpp:18-46 | after opening a file the demuxer, the video input, the audio decoder and the audio render share their queues and all agree with the initial state of every run |
| `NativePlayer.CPlayer.Start` | app/src/main/jni/CPlayer.cpp:66-74 | starting the threads is the three start steps of the transition system |
| `NativeDemuxer.CDemuxer.Resend` | app/src/main/jni/CDemuxer.cpp:161-163 | with a packet in hand both configs are sent again, each under its queue's mutex alone, and the flag stays set |
| `NativeDemuxer.CDemuxer.Reopen` | app/src/main/jni/CDemuxer.cpp:151-156 | a loop reopens the file, sends its configs, each under its queue's mutex alone, and clears the resend flag |
| `NativeDemuxer.CDemuxer.Push` | app/src/main/jni/CDemuxer.cpp:164-175 | a packet goes to the queue of its stream under that queue's mutex alone; one of another stream is dropped and not released |
| `NativeDemuxer.CDemuxer.Flush` | app/src/main/jni/CDemuxer.cpp:91-108 | both queues are emptied and released, one after the other under its own mutex, and the resend flag is set |
| `NativeDemuxer.CDemuxer.ReadFails` | app/src/main/jni/CDemuxer.cpp:149-160 | a failed read reopens the file in a loop, and otherwise marks the end of the file and leaves without touching a mutex |
| `NativeDemuxer.CDemuxer.ReadSucceeds` | app/src/main/jni/CDemuxer.cpp:161-175 | a packet is read, preceded by configs while the flag is set, and pushed, with each queue's mutex taken and given back in turn |
| `NativeDemuxer.CDemuxer.ReadFrame` | app/src/main/jni/CDemuxer.cpp:148-175 | a read of any result leads to the state after its steps, and takes mutexes in whole sections only |
| `NativeDemuxer.CDemuxer.Pass` | app/src/main/jni/CDemuxer.cpp:113-176 | one pass of the loops, uninterrupted, is a run of the transition system from the object's state to its new state, and takes mutexes in whole sections only |
| `NativeDemuxer.CDemuxer.FileReading` | app/src/main/jni/CDemuxer.cpp:110-178 | the thread's loop, uninterrupted, is one run of the transition system over any results of the reads it comes to, takes mutexes in whole sections only, and ends only when cancelled or at the end of the file |
| `NativeAudio.CAudioDecoder.Pop` | app/src/main/jni/CAudio.cpp:63-75 | the input section takes the front message, or nothing from an empty queue |
| `NativeAudio.CAudioDecoder.Handle` | app/src/main/jni/CAudio.cpp:77-120 | a config replaces and frees the codec and becomes a render config; a packet becomes a frame and is released, or is forgotten without a codec |
| `NativeAudio.CAudioDecoder.Push` | app/src/main/jni/CAudio.cpp:83-86 | the output section appends the message |
| `NativeAudio.CAudioDecoder.Leave` | app/src/main/jni/CAudio.cpp:129-142 | leaving the loop frees the codec and flushes the output queue |
| `NativeAudio.CAudioDecoder.Pass` | app/src/main/jni/CAudio.cpp:60-126 | one uninterrupted pass of the decoder's loop is a run of the transition system, and takes mutexes in whole sections only |
| `NativeRender.CAudioRender.Peek` | app/src/main/jni/CAudio.cpp:282-293 | the render thread takes the front message unless it is a frame |
| `NativeRender.CAudioRender.Clear` | app/src/main/jni/CAudio.cpp:163-172 | the player is destroyed before its buffer is released and forgotten |
| `NativeRender.CAudioRender.Renew` | app/src/main/jni/CAudio.cpp:295-303 | a render config makes a new player once the old one and its buffer are gone |
| `NativeRender.CAudioRender.Pass` | app/src/main/jni/CAudio.cpp:275-308 | one uninterrupted pass of the render thread's loop, up to its own call of the callback, is a run of the transition system also while the player's callback runs, unless the pass destroys the player, which waits for the callback; it takes mutexes in whole sections only |
| `NativeRender.CAudioRender.TryFrame` | app/src/main/jni/CAudio.cpp:245-258 | the callback takes the front message only if it is a frame |
| `NativeRender.CAudioRender.Play` | app/src/main/jni/CAudio.cpp:261-268 | the new buffer is given to the player before the previous one is released, and is kept |
| `NativeRender.CAudioRender.CallPass` | app/src/main/jni/CAudio.cpp:241-269 | one uninterrupted pass of the callback's loop, by either caller, is a run of the transition system that ends the call when cancelled or when a frame was played, and takes mutexes in whole sections only |
| `NativeVideo.CVideoInput.TakeConfig` | app/src/main/jni/CVideo.cpp:330-342 | the video decoder takes the front message unless it is a packet |
| `NativeVideo.CVideoInput.Read` | app/src/main/jni/CVideo.cpp:225-238 | the video source takes the front message only if it is a packet, and keeps the mutex exactly when it meets something else, which is the section the lock model has for that front |

## Left out

- Sockets, TLS, temporary files, time-outs and the clock: the stream is a sequence with a read schedule, the date a parameter, and files hold their contents.
- Query.SingleMeaning: in terms of the tokens; what the tokens of a query are is in QueryMeaning.
- FormMeaning.PrintedForm: parts have at most one disposition with at most one name and one file name.
- The regular expressions of multipart headers are an abstract pair of functions, and percent-decoding is one too; character sets are not modelled, a byte is a character.
- Gzip is an abstract compression with an inverse. When it hands on its output is left open only as to the sizes of the pieces, not as to the time: all pieces come at the end.
- In decodeHeader and execute: the remote-address fields and cookies.
- parseBody after the body is read: the choice between form data, url-encoded data and PUT by content type, and the memory or file store. The multipart decoder takes the body as given.
- Handlers that do not call parseBody, that return no response, or that close the connection themselves; GET requests whose body nobody reads.
- Session.HttpSession.ServeBuffered: up to the handler's return; sending its response is Response.HttpResponse.Send, modelled by itself, and the answers to rejected, malformed and unreadable requests are outcomes only.
- Session.HttpSession.Execute: leaves out the response, cookies, the remote-address fields, and closing the connection after an error.
- Session.HttpSession.Run: is stated for streams whose requests are delivered one by one; what any other pass does is in Execute, and for one request the framing is an equivalence in ExchangeFramedIff and PlainFramedIff.
- MultipartRoundTrip.MultipartRoundTrip: the boundary occurs nowhere but in the delimiters, as RFC 2046 demands of the sender, and header lines are not blank.
- ResponseRoundTrip.FixedResponseRoundTrip: not for a transfer-encoding or content-encoding set by the handler, nor for negative lengths; HEAD is in ResponseMeaning.HeadCarriesBody, there without compression.
- ResponseRoundTrip.ChunkedResponseRoundTrip: the client's decoder knows no chunk extensions and no trailers, since the server sends none.
- Response fields with a key or value that does not fit on a line, which the server prints as they are.
- The order in which a hash map lists its entries: own response fields are a sequence.
- FFmpeg, OpenSL ES, OMX and OpenGL: opening a file finds any streams, a read gives a packet of any stream or fails, decoding one packet gives one frame, destroying the player waits for a running callback and ends its use of the buffer.
- Liveness: that waiting threads are woken, that busy-waiting loops end, usleep, thread attributes and joining.
- The video decoder's output queue, CDecoder::flush, CVideoRender and its drawing; of the video side the model has the input queue and its two consumers.
- Releasing everything in the end: packets of other streams and packets that meet no codec are counted as forgotten; the destructors and CPlayer::close are not modelled.
- PlayerBounds.BoundIff: says nothing about skip mode after a flush while the resend flag is set, where three messages enter for two that are dropped.
- PlayerOwnership.PayloadsConserved: for a buffer that was given to the player only if completions come after the render thread's own call; otherwise one can also be lost without harm, when both calls store their buffers.
- PlayerVideoSource.SourceDeadlockFreeIff: the two transition systems share what the video source meets, not their schedules; a front it could meet counts if the first config has been taken.
- PlayerConfigs.ConfigBeforePacket: wait mode only; in skip mode a config can be the newest message and be dropped.
- PlayerPlayback.PlaybackInOrder: up to the first flush; afterwards only NeverReordered holds, since a flush drops packets.
- Queues.CHeap.Clear: the release action per kind of message is reduced to noting the payload's number.
- NativeDemuxer.CDemuxer.Pass: no other thread acts between its sections; the single sections are steps of the transition system, which interleaves them with all others.
- NativeDemuxer.CDemuxer.FileReading: nobody consumes between its passes and the cancel flag does not change, so frames given behind a closed gate are counted as passes and never read.
- NativeAudio.CAudioDecoder.Pass: no other thread acts between its sections, as for the demuxer.
- NativeRender.CAudioRender.Pass: no other thread acts between its sections; a pass that destroys the player starts only when no callback is running.
- NativeRender.CAudioRender.CallPass: one pass of the callback's busy-waiting loop, which ends only when another thread acts; the overlapping of two calls is in the transition system.
- NativePlayer.CPlayer.Start: the video decoder and the video render, which have no thread in the transition system.
- Queues.CThread.Stop: the waiting for the thread and joining it.
- LockOrder.SectionDisciplined: requires that the video source meets packets only; the return of CVideoSource::read with the mutex taken is covered by OtherDeadlocks and LostForGood.
- The frame-rate counters, the user interface, the JNI glue, configuration, updates and shaders: no protocol among them.
