# Streamed record and replay, verified

A Dafny model of the streaming engine of xrr: how a gRPC connection is recorded frame by
frame into cassettes, how a cassette is replayed, how cassettes are addressed, and the
codecs and tree walk around it. Classes stand for the objects the program updates in
place; each method is proved against a function of the old state, and the lemmas prove
what the design promises about those functions, over all inputs and all runs.

| file | component |
|---|---|
| `Wire.dfy` | length-prefixed messages over arbitrarily cut payloads |
| `Demux.dfy` | one direction of a connection, demultiplexed into stream events |
| `Tracker.dfy` | what the events of a stream leave to be saved; header and status rules |
| `Headers.dfy` | those rules stated on header lists and texts: paths, numbers, statuses, half-closes |
| `Sanitize.dfy`, `Naming.dfy` | the header sanitizer; which frames name an RPC |
| `Projection.dfy` | when a saved log is all that its stream showed, and when it holds all messages |
| `TransportRecorder.dfy` | the tracker object, the recordings it writes and the files of a connection |
| `Connections.dfy` | several connections on one session |
| `Ordinals.dfy`, `Samples.dfy` | ordinals against the order of opens; concrete events for counterexamples |
| `StreamModel.dfy` | stream pairs and the Go, Rust and PHP validators |
| `Recording.dfy` | the recording object, the cassette, arrival order |
| `Replay.dfy` | the replay object, mismatches, record then replay |
| `CanonicalJson.dfy`, `EscapeRepair.dfy` | the canonical text of an open, and Go's repair of its encoder's output |
| `CanonicalTexts.dfy` | those texts against a JSON reader and against what the cassette format spells out |
| `Session.dfy`, `Probe.dfy` | occurrence counters, and the replay connection's shadow of them |
| `Base64.dfy`, `StatusText.dfy`, `Redact.dfy` | strict base64, status text, redaction of a YAML tree |
| `EndToEnd.dfy` | the claims that span all of it |

Conventions. Bytes are integers 0..255; strings are sequences of Unicode scalar values.
Fingerprint hash, SHA-256, scrub hook, header sanitizer, status rendering, clock and
credential patterns are arbitrary functions: every claim holds for all of them, and the few
that need a hash to tell texts apart say so (`Session.Injective`). `Sanitize.dfy` adds what
the program's own sanitizer keeps. A lock is modelled as atomic steps in an arbitrary order.
Integers are unbounded except where the program's width shows: the base64 accumulator
(32 bit), message lengths (32-bit big-endian), status codes (truncated to 32 bits) and
the 64-bit range of a parsed status.

## Where code and its promises part

- A message over 64 MiB fails the whole direction and drops the messages that the same
  payload completed: `Wire.FailureLosesOnePayload` says which, `Wire.NothingLostIff` when
  there are none, and `Wire.LostMessage` gives a payload that loses one.
- The replay connection decodes every DATA frame with a fresh decoder. That agrees with one
  decoder on every next frame exactly when each frame so far ended between messages
  (`Wire.FreshDecodersAgree`); a written message survives it exactly when it fits in one
  frame (`Wire.FreshDecodersNeedOneChunk`).
- The two directions of a recorded connection are decoded concurrently, and bytes reach the
  server before their mirror reaches the decoder (record.go:56-62), so a server event can be
  handled before the client event that caused it. What is handled before the client header
  block that names the RPC is lost: an answer is missing from the recording
  (`EndToEnd.LateOpenLosesMessage`), and a terminal leaves no recording at all
  (`EndToEnd.LateOpenLosesRpc`). What is handled after the terminal is lost too: a request is
  missing, and the RPC is filed as another stream type (`EndToEnd.EarlyEndLosesRequest`).
  `Tracker.SavedLog` says what is recorded in every case, `Projection.WholeLogIffQuiet` when
  it is everything up to the terminal, and `Projection.AllMessagesIff` when it holds every
  message of the stream.
- The shadow key joins `key=value` fields with NUL. It is exact for services and methods
  that do not contain the separator (`Probe.PlainKeyIsUnique`), and for every other tuple
  a colliding one exists (`Probe.OtherKeysCollide`). No such name reaches it over HTTP/2,
  whose field values carry no NUL (`Probe.NamesWithoutNulArePlain`); it is a limit of the
  key, not of a connection. A second connection on a session that
  has opened streams starts out of step (`Probe.ReplayConn.constructor`).
- The comment on `redactNode` says the key is empty inside sequences; the code passes the
  sequence's own key on, and so does the model. A mapping under a secret key is judged by
  its own keys.
- The comment on the secret words speaks of names with "a prefix/suffix of one"; the code, and
  the model, take whole words between underscores only (`Redact.SecretKeyIff`).
- Headers are redacted before the status is read off them, so a `grpc-message` that matches a
  credential pattern is recorded as a placeholder; `Sanitize.StatusSurvives` says when the
  status is recorded as it was sent.
- The transport recorder opens its recording at the terminal, while a replay connection
  opens when the client does. Ordinals count terminals (`TransportRecorder.OrdinalsFollowTerminals`,
  `TransportRecorder.FilesFollowTerminals`). They agree with the numbering of a client that
  counts its opens exactly when the RPCs of a method end in the order they were opened and no
  open before one of them goes unsaved (`Ordinals.OrdinalsFollowNamingsIff`, for methods of
  one stream type). Crossed streams break the first (`Ordinals.CrossedStreams`), a stream that
  never ends the second (`Ordinals.AbandonedStream`).
- The replay connection serves a failure with its recorded error text as the status message.
  That text is the rendering "rpc error: code = X desc = ..." of the whole status, so the
  message nests instead of coming back (`EndToEnd.StatusIsServed`, `EndToEnd.FailureTextNests`);
  the interceptor adapter strips that prefix. A failure with an empty text, which only a
  hand-written cassette holds, would be served as OK.
- Without the reserved-key check, canonical texts would collide
  (`CanonicalJson.ReservedKeysMatter`).

## Model

| member | source | states |
|---|---|---|
| EndToEnd.WireToReplay | go/adapters/grpctransport/record.go:258-374 | from frames to a replaying client, for a stream whose client sends at most one HEADERS frame that names an RPC: one pair is saved if and only if that frame was handled, is not compressed, and a terminal was handled after it, under the service and method of the frame's path and with code and text as the terminal's header texts read; a following replay client gets on its j-th read the (skip + j)-th message held by the server's own payload bytes, passed through the hook when there is one, skip being how many were handled before the naming, then the recorded error text or end of stream; with all server events handled it gets every message they hold if and only if none was handled before the naming or after the terminal |
| EndToEnd.RecordThenReopen | go/stream_session.go:231-262 | recording a connection in a fresh session and reopening from a replay session over the same cassette, hash and scrub hook: the k-th open of a tuple gets the replay of that tuple's k-th terminal, unless a later save took the same file name; under a hash that tells texts apart, always for a counter-addressed RPC |
| EndToEnd.LateOpenLosesMessage | go/adapters/grpctransport/record.go:311-317 | the same two directions handled in two orders: with an answer before the opening headers, that answer is missing from the recording |
| EndToEnd.LateOpenLosesRpc | go/adapters/grpctransport/record.go:299-301 | the same two directions handled in two orders: with the terminal before the opening headers, nothing is recorded |
| EndToEnd.EarlyEndLosesRequest | go/adapters/grpctransport/record.go:345-350 | the same two directions handled in two orders: with the terminal before the request, the request is missing and the RPC is typed client instead of server streaming, so it is filed under another kind of address |
| EndToEnd.StatusIsServed | go/adapters/grpctransport/replay.go:430-449 | for every saved RPC: a replay serves its status code if and only if that is OK or its rendering is not empty, and code and text together if and only if it is OK without text or a failure whose non-empty rendering is its text |
| EndToEnd.FailuresAreServed | go/adapters/grpctransport/replay.go:430-449 | whatever the payload on file says, a recorded error or a mismatch is never served as OK, a code other than OK is kept, and the text is the error's own |
| EndToEnd.FailureTextNests | go/adapters/grpctransport/replay.go:430-449 | under a rendering that prefixes the text, every failure is served with its code and never with its text |
| EndToEnd.RecordedIsRead | go/adapters/grpctransport/record.go:145-168 | for any cut into frames, any stream interleaving and any alternation of the two directions: a saved RPC was named by the one naming HEADERS frame of its client, with that frame's sanitized fields and END_STREAM flag, and per direction the messages in the log actually saved are a gap-free segment of the one reading of that stream's payload bytes, behind those handled before the naming; when all decoded events were handled the rest is what was handled after the terminal, and nothing is missing if and only if no message fell outside the two |
| EndToEnd.NamedByItsFrame | go/adapters/grpctransport/demux.go:191-197 | if its client sends at most one naming HEADERS frame, a stream's events hold at most one opening, which carries that frame's sanitized fields and END_STREAM flag; with all client events handled, there is one if and only if there is such a frame |
| EndToEnd.HandledForAFrame | go/adapters/grpctransport/demux.go:191-218 | every header or reset event handled for a stream comes from a consumed frame of that stream and direction, with its fields sanitized |
| EndToEnd.PairOfRpc | go/adapters/grpctransport/record.go:345-374 | the saved pair field by field: type and payload of the open, the status code, the rendered error text exactly for a failure, and per direction the log's messages in order, each as the hook returns it for its direction, adapter id and type |
| EndToEnd.FiledAs | go/adapters/grpctransport/record.go:345-374 | the k-th saved RPC is filed under the hash of the text that the cassette format spells out: with its number among the RPCs of its type, service and method saved before, or for a server stream with the hash of its one request as the hook leaves it |
| EndToEnd.StaysOnFileIff | go/stream_session.go:38-49 | under a hash that tells texts apart, the file of a saved RPC is overwritten by no later one of its connection if and only if it is counter-addressed or no later server stream has its identity |
| EndToEnd.StreamIsSavedOnce | go/adapters/grpctransport/record.go:258-374 | a stream named once, at any point among its events, yields one saved RPC if a terminal follows and it is not compressed, and none otherwise |
| EndToEnd.PairKeepsTheLog | go/adapters/grpctransport/record.go:345-374 | one pair is saved, holding the status code, and merging it by seq gives back the saved log in order, each message as the hook leaves it, then the end |
| EndToEnd.ReplayServesTheLog | go/stream_session.go:313-374 | the calls that the tracker makes, replayed: the j-th read gets the j-th received message of the log, later reads the error text or end of stream |
| EndToEnd.ReplayedBytesReadBack | go/adapters/grpctransport/replay.go:401-473 | the DATA bytes of the replay of a saved RPC read back as the served messages exactly when these are within the cap, which holds for every scrub hook that lengthens nothing |
| Wire.ParseFindsEveryReading | go/adapters/grpctransport/demux.go:109-135 | completeness of the reference reading: any way of seeing bytes as framed messages plus an unreadable rest is the one it finds |
| Wire.ParseIsAReading | go/adapters/grpctransport/demux.go:109-135 | soundness: what it finds concatenates back to the input, every message within the cap |
| Wire.ParseExtends | go/adapters/grpctransport/demux.go:109-135 | later bytes only extend a reading; an over-cap header blocks it for good |
| Wire.StreamDecoder.Feed | go/adapters/grpctransport/demux.go:109-135 | one call outputs the messages of the reading of buffer plus data and keeps its rest; at an over-cap length it returns the error and no message |
| Wire.ChunkingInvariance | go/adapters/grpctransport/demux.go:109-135 | however a byte stream is cut into payloads, outputs and final buffer are those of the one reading of the whole; it fails exactly when that reading meets an over-cap length, with a prefix output |
| Wire.FailureLosesOnePayload | go/adapters/grpctransport/demux.go:114-116 | on failure the outputs are the reading of all payloads before the failing one, and the reading of the whole stream is that of the payloads up to and including it: what is lost is exactly what it completed |
| Wire.NothingLostIff | go/adapters/grpctransport/demux.go:114-116 | no message is lost if and only if no payload fails or the failing one completes none before its over-cap header |
| Wire.LostMessage | go/adapters/grpctransport/demux.go:114-116 | an eleven-byte payload whose first message is complete and never output |
| Wire.WriteMessage | go/adapters/grpctransport/replay.go:453-473 | the payloads of one write are the 16 KiB cut of prefix plus message |
| Wire.WireRoundTrip | go/adapters/grpctransport/replay.go:453-473 | feeding everything written for a list of messages gives back the list with an empty buffer if and only if each message is at most 64 MiB |
| Wire.FreshDecoderBoundary | go/adapters/grpctransport/replay.go:247-266 | for one frame: a fresh decoder reads every continuation as one decoder would if and only if the frame ended between messages |
| Wire.ServeData | go/adapters/grpctransport/replay.go:247-266 | a decoder per DATA frame, up to the first refused frame, gives the concatenated readings of the frames |
| Wire.FreshDecodersAgree | go/adapters/grpctransport/replay.go:247-266 | for any list of frames: a decoder per frame agrees with one decoder, messages and error alike, on every next frame if and only if each frame so far ended between messages |
| Wire.FreshDecodersNeedOneChunk | go/adapters/grpctransport/replay.go:247-266 | a message cut as writeMessage cuts it survives a decoder per frame if and only if prefix and message fit in one 16 KiB frame |
| Demux.ConnDecoder.Next | go/adapters/grpctransport/demux.go:179-224 | each call removes the first of the events still to come, or reports end or error exactly when none is left; it ends although frames without events are skipped |
| Demux.ConnDecoder.Dispatch | go/adapters/grpctransport/demux.go:183-224 | one frame turns into the returned event and the queue, together exactly the events the frame stands for |
| Demux.ConnDecoder.FeedData | go/adapters/grpctransport/demux.go:227-249 | called only with an empty queue, so the queue never loses a message; returned and queued messages are those that the stream's buffer completes |
| Demux.ConnDecoder.FeedStream | go/adapters/grpctransport/demux.go:227-240 | only the buffer of the addressed stream changes |
| Demux.ConnDecoder.DrainQueued | go/adapters/grpctransport/demux.go:252-265 | queued messages leave one at a time in order, END_STREAM with the last |
| Demux.Decode | go/adapters/grpctransport/record.go:155-167 | the decoder loop hands on, in order, the events that the frame sequence means, and fails when it does |
| Demux.ControlIsRelayed | go/adapters/grpctransport/demux.go:191-216 | over the frames consumed, of a direction and of any one stream: HEADERS, RST_STREAM and GOAWAY frames come out one event each, in order and no other, a header event with the sanitized fields and the END_STREAM flag of its frame |
| Demux.RunsExtend | go/adapters/grpctransport/demux.go:179-224 | the events of the first k frames are the first events of the run, so every event stands where its frame does |
| Demux.EndStreamOnce | go/adapters/grpctransport/demux.go:227-265 | an END_STREAM DATA frame yields exactly one flagged event, its last, and any other DATA frame none |
| Demux.Isolation | go/adapters/grpctransport/demux.go:179-265 | the events of a stream are those of its own frames decoded alone, whatever is interleaved |
| Demux.DemultiplexedMessages | go/adapters/grpctransport/demux.go:179-265 | the messages emitted for an id are the readings of its own payload bytes, one per reset-delimited incarnation, over the frames consumed |
| Demux.MessagesAreTheReading | go/adapters/grpctransport/demux.go:179-265 | the same from any reachable buffer state |
| Demux.FailedRunIsAPrefixRun | go/adapters/grpctransport/demux.go:114-116 | a failed direction has emitted what the frames before the failing DATA frame emit, and nothing of that frame |
| Demux.FailsOnlyOnItsOwnBytes | go/adapters/grpctransport/demux.go:109-135 | a direction fails if and only if some stream's own bytes, read alone, reach an over-cap length |
| Tracker.RecordingIsolation | go/adapters/grpctransport/record.go:258-374 | what is saved for a stream among the events of many streams is what its own events save alone |
| Tracker.SavedLog | go/adapters/grpctransport/record.go:258-374 | for an id used for one RPC and named at any position: one save exactly when a terminal is observed after that and the RPC is not compressed, under its path, with the log being what the events from there to the terminal show, in order, first half-close only |
| Headers.FirstFieldCounts | go/adapters/grpctransport/headers.go:58-76 | of several fields of a name the first gives the value; without one the value is empty, and presence is told apart from it |
| Headers.CompressedIff | go/adapters/grpctransport/headers.go:132-135 | a block negotiates compression if and only if its first grpc-encoding is neither empty nor identity |
| Headers.SplitPathIff | go/adapters/grpctransport/headers.go:81-88 | a path splits into a service and a method if and only if it is /service/method, the leading slash optional, with both non-empty and no slash in the method |
| Headers.AtoiIff | go/adapters/grpctransport/headers.go:98-101 | a status text is accepted as n if and only if it is a sign or none, zeros, and the decimal text of a number of 64 bits |
| Headers.StatusIff | go/adapters/grpctransport/headers.go:93-103 | a block carries a status if and only if it has a grpc-status field: the 32-bit value of the number that the first one denotes, with the percent-decoded first grpc-message; UNKNOWN with the message as it stands when it denotes none |
| Headers.DecimalCode | go/adapters/grpctransport/headers.go:98-102 | the decimal text of any n below 2^63 is read as n in 32 bits |
| Headers.StatusFieldsReadBack | go/adapters/grpctransport/replay.go:477-525 | the trailers that a replay writes for a code and a text read back as that code and text, for every text of bytes, also as a trailers-only response |
| Headers.EndsIff | go/adapters/grpctransport/record.go:263-310 | an event ends a stream if and only if it is a reset or an uncompressed server block with a grpc-status field; a reset stands for code 1 and "stream reset", a block for what its texts say |
| Headers.FailsIff | go/adapters/grpctransport/record.go:270-306 | handling fails if and only if a compressed block names an RPC or answers a named stream |
| Headers.EventByEvent | go/adapters/grpctransport/record.go:258-320 | for every state of a stream and every event, in terms of header texts and flags: what the stream becomes and what is saved, also for a stream named twice |
| Headers.SavedAsRead | go/adapters/grpctransport/record.go:345-374 | the RPC saved for a stream has the service and method of its naming block's path, the code and text of the first terminal after it and the log shown in between; one is saved if and only if such a terminal exists and the block is not compressed |
| Headers.HalfCloseIff | go/adapters/grpctransport/record.go:279-297 | the log holds a half-close if and only if the client ended its side, on a message or on the naming block, before the terminal; it stands behind exactly the messages shown by then |
| Headers.ConnectionSavesNothing | go/adapters/grpctransport/record.go:259-261 | nothing is ever saved for stream 0 |
| Sanitize.SanitizeHeaders | go/adapters/grpctransport/headers.go:43-55 | names, order and pseudo-headers stay; any other value gives way to its name's placeholder exactly when it is not empty, its name is not allowed, and its value matches a pattern or its name is secret |
| Sanitize.NamingFramesSurvive | go/adapters/grpctransport/headers.go:36-42 | sanitizing never changes which HEADERS frames name an RPC: they are those of the frames as they came |
| Sanitize.NamingSurvives | go/adapters/grpctransport/headers.go:36-42 | a block names the same service and method before and after sanitizing |
| Sanitize.ValueSurvives | go/adapters/grpctransport/headers.go:43-55 | the first field of a name keeps its value if and only if it is a pseudo-header, is not replaced, or already is its placeholder |
| Sanitize.StatusSurvives | go/adapters/grpctransport/headers.go:43-103 | when the redactor replaces neither grpc-status nor grpc-message, the status read off the sanitized block is that of the block as sent |
| Projection.WholeLogIffQuiet | go/adapters/grpctransport/record.go:258-374 | the saved log is all the stream showed up to its first terminal, whatever events of the stream follow the naming header block, if and only if nothing handled before it showed anything or ended the stream (a half-close apart that the block repeats) |
| Projection.NotQuietLoses | go/adapters/grpctransport/record.go:285-317 | otherwise a continuation by events of the stream is given for which the two differ |
| Projection.AllMessagesIff | go/adapters/grpctransport/record.go:285-317 | per direction: the saved log holds all messages of the stream if and only if none was handled before the naming header block and none after the terminal |
| Projection.MessagesInParts | go/adapters/grpctransport/record.go:285-317 | what the stream showed of a direction is what was lost before, what is recorded, and what was lost after, in that order |
| Tracker.SavedAtMostOncePerOpen | go/adapters/grpctransport/record.go:345-351 | however ids are used, no more RPCs are saved than were opened |
| Tracker.HalfCloseAtMostOnce | go/adapters/grpctransport/record.go:325-335 | a recorded log holds one half-close if any was observed and none otherwise |
| Tracker.MessagesKept | go/adapters/grpctransport/record.go:325-335 | dropping repeated half-closes drops no message |
| Tracker.ServerStreamingSignature | go/adapters/grpctransport/record.go:390-412 | a log is taken for server streaming exactly when its client part is one message then the half-close, wherever server messages fall; otherwise at most one server message means client streaming |
| TransportRecorder.RecStream.NoteHalfClose | go/adapters/grpctransport/record.go:328-335 | logs the first half-close only, and keeps the flag that later decides the stream type equal to what the log says |
| TransportRecorder.RecStream.InferStreamType | go/adapters/grpctransport/record.go:403-412 | counters and flags decide the type that the log alone determines |
| TransportRecorder.RecStream.ClientHeaders | go/adapters/grpctransport/record.go:270-283 | names the RPC by its path, marks a compressed request and fails for it, and notes a half-close only otherwise; a header block without a gRPC path changes nothing |
| TransportRecorder.RecStream.ClientMessage | go/adapters/grpctransport/record.go:285-297 | ignored before the path is known, else logged, its half-close after it |
| TransportRecorder.RecStream.ServerMessage | go/adapters/grpctransport/record.go:311-317 | ignored before the path is known, else logged in arrival order; its end of stream is no half-close |
| TransportRecorder.StreamTracker.Handle | go/adapters/grpctransport/record.go:258-320 | one event changes the state of its own stream only, errors exactly for negotiated compression, and touches session and cassette exactly when it saves an RPC |
| TransportRecorder.StreamTracker.Finish | go/adapters/grpctransport/record.go:345-374 | the stream is forgotten, and its RPC saved unless it has no path or is compressed |
| TransportRecorder.Persist | go/adapters/grpctransport/record.go:350-374 | the file written is the pair that the RPC's calls save, under the fingerprint and ordinal that the counters give at the terminal |
| TransportRecorder.ReplayInto | go/adapters/grpctransport/record.go:356-365 | the buffered log reaches the recording call by call in observed order |
| TransportRecorder.StreamTracker.AbandonAll | go/adapters/grpctransport/record.go:376-381 | open streams vanish without a cassette |
| TransportRecorder.HandleAll | go/adapters/grpctransport/record.go:258-374 | a whole connection leaves the counters and files that folding its saves in terminal order gives |
| TransportRecorder.FilesFollowTerminals | go/adapters/grpctransport/record.go:345-374 | counters and cassette after a connection: one file per saved RPC, put there in terminal order, the k-th under the name of the k-th further open of the session |
| TransportRecorder.OrdinalsFollowTerminals | go/adapters/grpctransport/record.go:352-354 | the ordinal of a saved counter-addressed RPC is the number of earlier opens of its tuple, those of the connection being counted by terminal |
| TransportRecorder.LastWriteStays | go/stream_cassette.go:262-303 | under each name the last file written stays, and other names keep what they held |
| Connections.HandleAcross | go/adapters/grpctransport/record.go:107-118 | several connections on one session, a tracker each: their events in any alternation leave the counters and files of the one fold over all of them |
| Connections.FilesFollowAllTerminals | go/adapters/grpctransport/record.go:107-118 | that fold is one file per saved RPC, put there in the order of the terminals of all connections, the k-th under the name of the k-th further open |
| Connections.ConnectionIsolation | go/adapters/grpctransport/record.go:244-256 | the RPCs saved for a connection are those its own events save, whatever other connections do |
| Ordinals.OrdinalsFollowOpensIff | go/adapters/grpctransport/record.go:352-354 | among saved RPCs only: over any connection and for every counter-addressed tuple, each has as ordinal the number of those of its tuple opened before it if and only if they end in the order they were opened |
| Ordinals.OrdinalsFollowNamingsIff | go/adapters/grpctransport/record.go:352-354 | against a client that counts every open of a method: each saved RPC has as ordinal the number of earlier namings of its method, saved or not, if and only if the saved ones end in the order they were opened and every naming before one of them opened a saved RPC of the same type |
| Ordinals.AbandonedStream | go/adapters/grpctransport/record.go:352-354 | streams 1 and 3 of one method, of which only 3 ends: the second open of the method gets ordinal 0, although the saved RPCs end as opened |
| Ordinals.OpenedByTheirNames | go/adapters/grpctransport/record.go:270-283 | the opening event of every saved RPC names its service and method |
| Ordinals.CrossedStreams | go/adapters/grpctransport/record.go:352-354 | streams 1 and 3 of one method, opened 1, 3 and ended 3, 1: stream 3 gets ordinal 0 and stream 1 ordinal 1 |
| Ordinals.PlacesDiffer | go/adapters/grpctransport/record.go:270-283 | every saved RPC has an opening event, and no two have the same |
| Ordinals.SameRanksIffSameOrder | go/stream_session.go:23-33 | two orders of a session's opens number a tuple alike if and only if they order it alike |
| Recording.StreamRecording.RecordSend | go/stream_session.go:135-159 | appends what the hook makes of the message for the send direction, adapter id and type, or without a hook the message, under the next seq; nothing after Finish |
| Recording.StreamRecording.RecordRecv | go/stream_session.go:162-173 | the same for the other direction, numbered by the same counter |
| Recording.StreamRecording.RecordHalfClose | go/stream_session.go:177-185 | takes a seq the first time, changes nothing later |
| Recording.StreamRecording.Finish | go/stream_session.go:192-223 | saves one pair, spelled out field by field, unless already finished; the only save error left possible is an unknown stream type |
| Recording.FileCassette.SaveStream | go/stream_cassette.go:262-303 | files change if and only if the pair is well typed and properly numbered; an error names a rule the pair breaks |
| Recording.FileCassette.LoadStream | go/stream_cassette.go:63-111 | a loaded pair is the one on file and valid; a miss, a unary file and a broken pair are told apart |
| Recording.StepKeepsConsistent | go/stream_session.go:148-223 | every call keeps: used numbers are exactly 0..seq-1, each once, ascending per direction |
| Recording.FinishedPairIsValid | go/stream_session.go:192-223 | the pair that Finish builds in a consistent state is valid and densely numbered |
| Recording.SavedPairsAreValid | go/stream_session.go:148-223 | over every call sequence at most one pair is saved, and it passes the Go rules and the stricter dense rule |
| Recording.OnlyFinishSaves | go/stream_session.go:192-223 | a pair is saved if and only if the calls reach a terminal |
| Recording.FieldsOfSaved | go/stream_session.go:192-223 | the saved pair has the open's type and payload and the first finishing call's payload, error text and time |
| Recording.ArrivalIsRecoverable | go/stream_session.go:148-223 | for every call sequence, merging the saved pair's two logs and two scalar events by seq gives exactly the accepted events in arrival order, numbered 0, 1, 2, ... |
| Replay.StreamReplay.Send | go/stream_session.go:313-337 | below S what the hook makes of the message must equal the next recorded send, else the handle is poisoned with that ordinal and both digests; from S on the terminal, bytes uncompared, indices kept |
| Replay.StreamReplay.HalfClose | go/stream_session.go:342-357 | accepted after all recorded sends, any number of times; poisons the handle before |
| Replay.StreamReplay.Recv | go/stream_session.go:362-374 | the next recorded message verbatim, whatever was sent so far, then the terminal on every read |
| Replay.ReplayOutcomes | go/stream_session.go:313-374 | every outcome of every run: before any divergence what the recording holds, from the first divergence on that same mismatch with the state frozen |
| Replay.MismatchesIffDiverges | go/stream_session.go:313-357 | a run mismatches if and only if some send at ordinal i < S differs after scrubbing or a half-close comes before S sends |
| Replay.CleanState | go/stream_session.go:313-374 | without divergence the indices are the counts of sends and reads, capped; sends past the recording never change what reads return |
| Replay.Frozen | rs/src/stream_session.rs:313-394 | after a mismatch no operation changes anything |
| Replay.RecordedLogs | go/stream_session.go:135-223 | the pair on file holds each direction's messages in call order, the i-th being what the hook returns for it, or the message itself without a hook, and the terminal of the finishing call |
| Replay.ReplayMismatchesIffNotFollowing | go/stream_session.go:313-374 | a replay of a recording mismatches exactly when the client does not send what was recorded (up to scrubbing) or half-closes early |
| Replay.RecordThenReplay | go/stream_session.go:135-374 | a client that sends what the hook cannot tell from the recorded sends, reading at any points, gets on its j-th read what the hook made of the j-th recorded message, or without a hook that message, and then the recorded terminal forever |
| StreamModel.ValidateStreamPair | go/stream.go:96-150 | one pass with duplicate table, maximum and previous seq accepts exactly the pairs typed server, client or bidi whose frames ascend per list, share no number with each other or the half-close, and all lie from 0 to below the end; a refusal names a broken rule |
| StreamModel.SequencedIff | go/stream.go:104-150 | the rules over all numbers of a pair hold if and only if they hold of its frames and events one against another |
| StreamModel.SeqTable.AddFrames | go/stream.go:104-132 | accepts a list exactly as the pairwise rules say, given what was added before |
| StreamModel.ParseAndValidate | rs/src/stream.rs:195-215 | windows per list, then hash set and maximum over all numbers, accept the same pairs as Go |
| StreamModel.ValidateSeqs | rs/src/stream.rs:313-336 | collect-all, set and maximum decide pairwise distinctness and the end rule |
| StreamModel.ValidateSeqDomain | php/src/Stream/StreamParser.php:158-185 | count, uniqueness and maximum together hold exactly when the numbers are the set 0..N-1 with the end at the top |
| StreamModel.Maximum | php/src/Stream/StreamParser.php:172-178 | an element of the list that none exceeds |
| StreamModel.ParsePair | php/src/Stream/StreamParser.php:39-68 | accepts exactly the pairs Go accepts whose end has the number of all other events |
| StreamModel.DenseByCounting | php/src/Stream/StreamParser.php:172-184 | pigeonhole: distinct with maximum N-1 if and only if the numbers are exactly 0..N-1 |
| StreamModel.DistinctIffCounted | php/src/Stream/StreamParser.php:172-178 | a list is duplicate-free if and only if its set is as large as it is |
| CanonicalJson.StringReadsBack | php/src/Stream/StreamFingerprint.php:130-133 | an escaped string and what follows its quote are both recovered from the text |
| CanonicalJson.ValueReadsBack | php/src/Stream/StreamFingerprint.php:64-89 | kind, value and remaining text are recovered from a printed value |
| CanonicalJson.ObjectTextInjective | php/src/Stream/StreamFingerprint.php:64-89 | two input maps print alike if and only if they are equal |
| CanonicalJson.CanonicalIdentifies | go/stream.go:182-204 | two accepted opens have one canonical text if and only if identity, stream type, and presence and value of n agree |
| CanonicalJson.ReservedKeysMatter | go/stream.go:186-191 | without the reserved-key check two different opens print alike: a concrete pair |
| CanonicalJson.UnaryTextsDiffer | go/adapters/grpc/grpc.go:37-50 | no text without the stream discriminator equals a streaming text |
| CanonicalJson.CanonicalHasNoNul | go/stream_session.go:38-49 | canonical text holds no raw NUL, so NUL can separate it from the adapter id |
| CanonicalJson.CollectInputs | go/stream.go:186-199 | filled in any key order the inputs are the identity plus discriminator and ordinal; refused exactly for a reserved key |
| CanonicalJson.PhpCanonical | php/src/Stream/StreamFingerprint.php:64-89 | text assembled part by part over sorted keys is the canonical text |
| CanonicalJson.GrpcKeysInOrder | go/adapters/grpctransport/replay.go:140-153 | byte order of the gRPC identity keys and of its canonical inputs |
| CanonicalTexts.EscapedIsRead | php/src/Stream/StreamFingerprint.php:130-133 | a reader of JSON strings gets the code points back from the escaped text, and what follows the quote |
| CanonicalTexts.EscapedAs | spec/cassette-format-streaming.md:667-676 | each character has its one canonical form: itself in UTF-8, the letter escape of a control that has one, or lower-case hexadecimal |
| CanonicalTexts.DigitsAreDecimal | spec/cassette-format-streaming.md:660-662 | the ordinal is printed as its decimal digits |
| CanonicalTexts.CountedText | spec/cassette-format-streaming.md:653-664 | the canonical text of the n-th open of a client or bidi method is the text that the cassette format spells out |
| CanonicalTexts.HashedText | spec/cassette-format-streaming.md:636-640 | the canonical text of a server stream is the spelled-out one, with the hash of the request as the hook returns it |
| EscapeRepair.UnescapeLineTerminators | go/canonical.go:54-80 | the in-place index walk computes the specified repair on every byte string |
| EscapeRepair.UnescapeIsIdempotent | go/canonical.go:54-80 | repairing twice is repairing once, on all byte strings |
| EscapeRepair.RepairedString | go/canonical.go:44-53 | the repair of an encoder's string is the form of section 3.2.2.2 of RFC 8785, also where a literal backslash stands before the text u2028 |
| EscapeRepair.RepairedObject | go/canonical.go:23-33 | the same for whole objects |
| EscapeRepair.GoCanonicalJson | go/canonical.go:23-33 | encoder, newline trim and repair give the text that the other ports assemble directly |
| EscapeRepair.StreamCanonical | go/stream.go:182-204 | canonical text or the refusal, for every open |
| Session.StreamFingerprint | go/stream.go:212-226 | the hash of the canonical text with n for a counter-addressed open, which must bring one, and without n for any other |
| Session.FileSession.NextStreamN | go/stream_session.go:23-33 | returns the count of its key and bumps that key only |
| Session.FileSession.StreamOpenFingerprint | go/stream_session.go:38-49 | the hash of the canonical text with the count of the tuple for an accepted counter-addressed open, whose counter goes up by one, and without for any other, which consumes nothing |
| Session.FileSession.OpenStreamRecord | go/stream_session.go:51-96 | succeeds exactly in record mode with a cassette, an adapter id, a known type and no reserved key, with a fresh recording under the fingerprint of the next ordinal, its payload carrying that ordinal; a refused open leaves the counters alone |
| Session.FileSession.OpenStreamReplay | go/stream_session.go:231-262 | counts as recording does, hit or miss, and succeeds if and only if the file under that address is a valid stream pair of the open's type, which it then serves with the symmetric scrub hook |
| Session.CounterKeyIdentifies | go/stream_session.go:38-49 | two opens share a counter if and only if adapter id, stream type and identity agree |
| Session.CounterIsOpensOf | go/stream_session.go:23-33 | a counter is the number of earlier opens of its own tuple: no gaps |
| Session.CounterDeterminism | go/stream_session.go:23-49 | the k-th open of a tuple gets the same ordinal and fingerprint in any two sessions, whatever came in between |
| Session.AddressesAreDistinct | go/stream_session.go:38-49 | within a session no counter-addressed open shares its address text with any other accepted open of its adapter |
| Session.FingerprintsDiffer | go/stream.go:212-226 | under a hash that tells texts apart, two opens of one adapter in a session get one fingerprint if and only if both are content-addressed with the same type and identity |
| Session.StreamCounters.NextOpen | rs/src/stream_fingerprint.rs:167-170 | counts by the same key, and a reserved identity key consumes nothing |
| Session.StreamCounters.Next | rs/src/stream_fingerprint.rs:175-183 | the hand-written key text puts the gRPC shorthand in the same counter domain as opens |
| Probe.ShorthandSharesCounter | rs/src/stream_fingerprint.rs:175-183 | the gRPC shorthand and the open of a client or bidi stream share a counter if and only if type, service and method agree |
| Session.HandWrittenIsCanonical | rs/src/stream_fingerprint.rs:175-183 | the hand-written text is the canonical text of the open, for all services and methods |
| Probe.CounterKeyOf | go/adapters/grpctransport/replay.go:140-153 | adapter id, type and the identity fields in key order |
| Probe.PlainKeyIsUnique | go/adapters/grpctransport/replay.go:138-154 | a tuple whose service and method do not hold the key's field separator shares its shadow key with no other |
| Probe.OtherKeysCollide | go/adapters/grpctransport/replay.go:138-154 | every tuple that does hold it shares its key with a different one, given |
| Probe.NamesWithoutNulArePlain | go/adapters/grpctransport/replay.go:138-154 | names without NUL, which is all that HTTP/2 can carry, never hold it |
| Probe.KeysAgree | go/adapters/grpctransport/replay.go:104-110 | against a plain tuple, shadow key and session key identify the same opens |
| Probe.ReplayConn.constructor | go/adapters/grpctransport/replay.go:77-102 | a new connection is in lockstep if and only if no plain tuple was opened in the session before |
| Probe.ReplayConn.CassetteExists | go/adapters/grpctransport/replay.go:116-136 | in lockstep the probe answers whether the pair that the next open of the tuple will load is on file |
| Probe.ReplayConn.OpenReal | go/adapters/grpctransport/replay.go:306-325 | an open keeps lockstep if and only if the session accepts it, and misses exactly when the probed name is absent |
| Base64.Encode | rs/src/b64.rs:22-38 | the three-byte groups spell the reference encoding of section 4 of RFC 4648 |
| Base64.EncodedGroup | rs/src/b64.rs:22-38 | section 4 of RFC 4648 position by position: each group of three bytes as one number of 24 bits, in four letters of its table, padded |
| Base64.Decode | rs/src/b64.rs:43-83 | succeeds on s exactly when s is the encoding of its result; otherwise s encodes nothing; the last padding test never fires |
| Base64.RoundTrip | rs/src/b64.rs:22-83 | decode(encode(x)) is x for every byte string |
| Base64.EncodedInjective | rs/src/b64.rs:22-38 | different byte strings have different encodings |
| Base64.AccumulatorStep | rs/src/b64.rs:60-70 | the bits shifted out of the 32-bit accumulator never matter: the next byte depends on the last two sextets |
| Base64.OctetsReadBack | rs/src/b64.rs:60-73 | sextets with zero spare bits are those of the bytes they decode to |
| Base64.SextetsReadBack | rs/src/b64.rs:22-38 | the bytes of an encoding's sextets are the input, with zero spare bits |
| Base64.EncodingIsNotRefused | rs/src/b64.rs:43-83 | no refusal reason applies to an encoding |
| StatusText.EncodeGrpcMessage | go/adapters/grpctransport/replay.go:527-540 | the percent form with upper-case triplets; every byte of it is printable ASCII |
| StatusText.DecodeGrpcMessage | go/adapters/grpctransport/headers.go:108-125 | on arbitrary input: well-formed triplets, left to right, become their byte and all else is copied |
| StatusText.StatusTextRoundTrip | go/adapters/grpctransport/replay.go:527-540 | decoding an encoded text gives it back, for every byte string |
| StatusText.DecodingShrinks | go/adapters/grpctransport/headers.go:108-125 | decoding never grows its input, and leaves it alone if and only if it holds no well-formed triplet |
| StatusText.HexDigitIff | go/adapters/grpctransport/headers.go:116-120 | a byte is read as a hexadecimal digit if and only if it is one of the sixteen, in either case |
| StatusText.EncodedBytes | go/adapters/grpctransport/replay.go:527-540 | the encoded text is, byte by byte, the byte itself from space to tilde without the percent sign, or a triplet of its two upper-case digits |
| Redact.RedactNode | go/redact.go:293-322 | the in-place walk leaves the tree that the redaction of the old tree specifies |
| Redact.RedactChildren | go/redact.go:297-318 | child by child, each judged by the key it had before the walk |
| Redact.RedactScalar | go/redact.go:336-347 | only string scalars are rewritten, and become string scalars |
| Redact.RedactionKeepsShape | go/redact.go:293-347 | shape, mapping keys, order and non-string scalars are kept |
| Redact.RedactionIsIdempotent | go/redact.go:293-347 | redacting twice is redacting once |
| Redact.AllowedFieldsAreVerbatim | go/redact.go:269-280 | what is judged by an allow-listed key only is left as it is |
| Redact.ScalarIff | go/redact.go:269-347 | a string scalar becomes its key's placeholder if and only if redaction is on, the value is not empty, the normalized key is not allowed, and the value matches a pattern or the name is secret; every other scalar stays |
| Redact.SecretKeyIff | go/redact.go:199-230 | a name is secret if and only if it is denied, or not benign and one of: listed as a whole, begins with AWS_, or has a part between underscores or its ends that is a secret word |
| Redact.WordsByPosition | go/redact.go:222-228 | the words of a name are exactly its parts between underscores or ends that hold none |
| Redact.NormalizedByPosition | go/redact.go:194-260 | a name is compared trimmed, in upper case and with dashes as underscores, and shown in its placeholder trimmed and in upper case |
| Redact.ChildrenByKind | go/redact.go:297-333 | what the walk enters and under which name: elements and documents under the key they are reached by, a mapping's values under their own, envelope fields of the root not at all |
| Redact.PasswordIsHidden | go/redact.go:43-47 | for instance, without lists, `password: hunter2` becomes `password: <redacted:PASSWORD>` |
| Redact.SecretsLeaveNoTrace | go/redact.go:293-347 | trees that differ only in non-empty string scalars whose nearest key is not allowed and has a secret name, outside skipped envelope fields, redact to the same tree |

## Left out

- Cassette files: YAML encoding and parsing, `recorded_at`, base64 of stored messages and directory handling; a cassette is a map from adapter id and fingerprint to a pair. A Go cassette writes two files, one after the other; the model replaces the pair at once.
- Times: `at_ms` values are arbitrary non-negative numbers.
- Sockets, pipes, goroutine scheduling, HPACK and the HTTP/2 framer: the model starts at decoded frames. Continuation frames, padding, flow control and SETTINGS are not part of it.
- Header values are taken as well-formed Unicode strings, as the framer hands them on; only status text is treated as arbitrary bytes.
- Go's JSON encoder: its escapes are a specification function over well-formed Unicode, for string and integer values.
- SHA-256 and the 32-bit fingerprint: an arbitrary function; that two addresses have different fingerprints is claimed only under a hash that tells all texts apart, which 32 bits cannot do.
- Redact.RedactNode: assumes a tree, in which no node is shared; aliases are leaves, as they are in the program, and node styles are not modelled. Odd trailing mapping keys are covered. Credential patterns, white space and upper-casing are arbitrary functions; the allow and deny lists are given as normalized sets.
- Probe.ReplayConn.OpenReal: covers the counter step and the open of `advance`, not the choice of the stream type.
- TransportRecorder.HandleAll: events are handled in one given order; a direction that stops after an error is a sequence without its later events.
- `inferReplayType`: it breaks ties by what exists on file, and both a client and a bidi cassette may exist for one method, so no agreement with `inferStreamType` is claimed.
- Serving frames and trailers in the replay connection: framing around what `Replay`, `Wire`, `Headers.StatusFieldsReadBack` and `EndToEnd.StatusServed` cover.
- The recording and replay machines of the Rust, TypeScript, Python and PHP ports: the same steps as the Go machine, which is modelled once; the Rust one differs only in emptying its logs when it finishes.
- Key order of the TypeScript port, which sorts by UTF-16 code unit: equality with the other ports is not claimed for keys outside ASCII.
- `pair.RecordedAt`, typed payloads and payload normalisation: payloads are string and integer maps that nothing looks into.
- The gRPC library wrappers, the unary adapters (exec, http, redis, sql, fs), environment parsing, and the command-line tool: plumbing that would only add easy members.
