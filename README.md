# stompy frame engine, in Dafny

This project models the frame engine of stompy, a small STOMP 1.0 client (`stompy/frame.py`).
The engine has these parts:

- **Building a frame.** `build_frame` fills in a command, a header dictionary and a body. When a receipt is asked for, it adds a `receipt` header `<session>-<stamp>`.
- **Serialising it.** `as_string` produces the wire text: the command line, `key:value` lines, a blank line, the body and a NUL. On the way it rewrites `bytes_message` into `content-length` and adds `x-client`.
- **Sending it.** `send_frame` sends the text. When the frame asked for a receipt, it then waits for the reply.
- **Reading frames.** `_getline` reads the socket one byte at a time, until the buffer ends with NUL and newline. In non-blocking mode it may return `None`.
- **Parsing frames.** `parse_frame`, `parse_command` and `parse_headers` turn that text back into a frame.
- **Routing frames.** The two accessors sort incoming frames. `get_message` hands out `MESSAGE` frames and queues everything else as replies. `get_reply` hands out replies and passes messages to the intermediate queue, which drops those without a `destination`.
- **Connecting.** `connect` sends `CONNECT` and keeps the headers of the first reply as the session.

How the project is laid out:

- **Pure parts** are functions with lemmas about them: the string helpers, the header dictionary, the parser, the serialiser, the byte reader and the routing.
- **Stateful parts** are classes whose methods change their fields in place, each proved against one of those functions:
  - `IntermediateMessageQueue` becomes `Stomp.MessageQueue`;
  - `Frame` becomes `Stomp.Frame`;
  - the socket becomes `Transport.Socket`;
  - `_getline` becomes the method `Transport.GetLine`, a loop over the socket.
- **The socket** is a script of receive events. Each event is one byte, or a would-block error (`EAGAIN`). It also records what was sent and the blocking mode of each read.
- **Ghost fields on the frame** record every frame read (`arrived`), and every frame handed out by `get_reply` (`replies`) and by `get_message` (`messages`). The class invariant `Valid` relates them to the two queues across a whole session.

Two behaviours of `parse_frame` worth noting:

- A frame whose text has no blank line after the headers is not an error. All of that text is the header block and the body is empty (`Parser.NoBlankLineMeansNoBody`, `Parser.NoSeparatorExample`).
- Only an empty header part raises `UnknownBrokerResponseError`. Its message quotes the text after the command line, not the whole frame (`Parser.UnknownResponseExactly`).

Modules, one file each:

| module | file | what |
|---|---|---|
| `Common` | common.dfy | `Option`, `Result`, the engine's errors, sequence lemmas |
| `Strings` | strings.dfy | `find`, `split`, `partition`, slicing, `str` of a natural number |
| `Headers` | headers.dfy | the header dictionary, with insertion order |
| `Parser` | parser.dfy | `parse_command`, `parse_headers` and `parse_frame` on a text |
| `Serializer` | serializer.dfy | `as_string` and the `receipt` value |
| `Transport` | transport.dfy | the socket and `_getline` |
| `RoundTrip` | roundtrip.dfy | serialising and then parsing gives the frame back |
| `Demux` | demux.dfy | the two accessors' loops, the routing and the session invariant |
| `Stomp` | frame.dfy | the `IntermediateMessageQueue` and `Frame` objects |

## Model

| member | source | states |
|---|---|---|
| Headers.Lookup | stompy/frame.py:91 | `dict.get` finds a value exactly when the key is present |
| Headers.Put | stompy/frame.py:111-112 | `d[k] = v`: the key set gains `k`, `k` maps to `v`, every other key keeps its value, a new key goes last, and an existing key keeps its place (every entry stays at its index, the one for `k` now holding `v`) |
| Headers.Remove | stompy/frame.py:110 | `del d[k]`: `k` is gone, every other key keeps its value, and no entry is new |
| Headers.PutSame | stompy/frame.py:112 | assigning a key the value it already has leaves the dictionary identical, order included |
| Headers.Render | stompy/frame.py:116-117 | `%s` of a stored value: a string as itself, a length in decimal, `True`/`False`; no contract of its own, its facts are stated by `Strings.NatToStringPlain` and `Strings.ParseNatToString` |
| Headers.TextValues | stompy/frame.py:116-117 | rendering every value with `%s` keeps the size and the key set |
| Headers.TextValuesLookup | stompy/frame.py:116-117 | after rendering, each key maps to the rendering of its own value |
| Strings.IndexOf | stompy/frame.py:183 | the position found holds the character and no earlier position does; it is the length of the text when the character does not occur |
| Strings.SplitAll | stompy/frame.py:191 | `split("\n")`: at least one piece, no piece holds the separator, and joining the pieces gives the text back |
| Strings.SplitJoin | stompy/frame.py:191 | splitting a join of separator-free pieces gives the pieces back |
| Strings.SplitOnce | stompy/frame.py:191 | `split(":", 1)` gives two parts exactly when there is a colon; then the text is the first part, the colon and the second part, and the first part holds no colon |
| Strings.Partition | stompy/frame.py:167 | `partition("\n\n")` cuts at the first blank line; with none, the whole text is the head and the tail is empty |
| Strings.Drop | stompy/frame.py:166 | slicing from an index clamps past the end, as Python's slice does |
| Strings.NatToString | stompy/frame.py:89 | `str(n)` is a non-empty run of digits |
| Strings.ParseNatToString | stompy/frame.py:89 | the decimal text of `n` reads back as `n` |
| Strings.NatToStringPlain | stompy/frame.py:111 | a rendered number holds no newline, no colon and no dash, so it can travel as a header value and end a receipt value |
| Parser.ParseText | stompy/frame.py:165-179 | `parse_frame` once a non-empty line is read; no contract of its own, stated by `Parser.UnknownResponseExactly`, `Parser.NoBlankLineMeansNoBody`, `Parser.CommandOnlyIsUnknown`, `Parser.NoSeparatorExample` and, for frames this engine writes, `RoundTrip.WireRoundTrip` |
| Parser.ParseHeaders | stompy/frame.py:186-191 | `parse_headers`; no contract of its own, stated by `Parser.LaterDuplicateWins`, `Parser.TwoHeaderLines`, `Parser.ParseHeadersExample` and `RoundTrip.ParseHeaderBlock` |
| Parser.HeadersFrom | stompy/frame.py:191 | `dict(...)` over the lines; no contract of its own, stated by `Parser.HeadersFromErrors`, `Parser.HeadersFromLaterWins`, `Parser.HeaderLineStep` and `RoundTrip.HeadersFromLines` |
| Parser.ParseCommand | stompy/frame.py:181-184 | the command is a prefix of the text without a newline, and a newline follows it unless it is the whole text |
| Parser.AfterCommand | stompy/frame.py:165-166 | the text is the command, a newline and the rest when it holds a newline; otherwise the rest is empty |
| Parser.MarkBinary | stompy/frame.py:173-174 | a header block with `content-length` gains `bytes_message = True`; one without it is unchanged; no other key changes |
| Parser.UnknownResponseExactly | stompy/frame.py:165-170 | parsing raises `UnknownBrokerResponseError` exactly when the header part is empty, and the message quotes the text after the command line |
| Parser.HeadersFromErrors | stompy/frame.py:191 | building the dictionary fails exactly when some line has no colon, and it reports the first such line |
| Parser.HeadersFromLaterWins | stompy/frame.py:191 | a later line for a key already seen overwrites its value in place |
| Parser.LaterDuplicateWins | stompy/frame.py:186-191 | `parse_headers` of a block plus one more line `k:v` maps `k` to `v`, whatever the block said about `k` |
| Parser.TwoHeaderLines | stompy/frame.py:186-191 | two lines with different keys give two entries, in line order |
| Parser.ParseHeadersExample | stompy/frame.py:189-191 | `george:constanza\nelaine:benes` gives `{george: constanza, elaine: benes}` |
| Parser.HeaderLineStep | stompy/frame.py:191 | a first line `k:v` adds the entry `k = v` and the rest continues from there |
| Parser.NoBlankLineMeansNoBody | stompy/frame.py:165-179 | with no blank line after the command line, all the text is headers and the body is empty |
| Parser.OneHeaderLineNoBody | stompy/frame.py:165-179 | for a command without a newline, a key other than `content-length` without a colon or newline, and a value without a newline, `command\nk:v` parses to that command, the one header `k = v` and an empty body (a `content-length` key would also gain `bytes_message`, lines 173-174) |
| Parser.OneHeaderBlock | stompy/frame.py:171-174 | a one-line header part gives one entry, and no marker unless the key is `content-length` |
| Parser.CommandLine | stompy/frame.py:165-166 | with a newline-free command, the command and the rest are cut back out exactly |
| Parser.NoSeparatorExample | stompy/frame.py:165-179 | `MESSAGE\nfoo:bar` parses to a `MESSAGE` with `foo = bar` and an empty body |
| Parser.CommandOnlyIsUnknown | stompy/frame.py:165-170 | a frame that is only a command line is refused as an unknown broker response |
| Serializer.Show | stompy/frame.py:120 | `%s` of a command or body that may be `None`; no contract of its own, used by `Serializer.Serialize` and inverted by `RoundTrip.WireRoundTrip` for newline-free commands |
| Serializer.HeaderLines | stompy/frame.py:116-117 | one `key:value` line per entry, in dictionary order; no contract of its own, stated by `RoundTrip.HeaderLinesJoin` and `RoundTrip.NoBlankLine` |
| Serializer.Wire | stompy/frame.py:120 | the `"%s\n%s\n%s\x00"` text; no contract of its own, stated by `RoundTrip.WireText`, `RoundTrip.WireEnds` and `RoundTrip.WireRoundTrip` |
| Serializer.SessionId | stompy/frame.py:91 | `%s` of `session.get("session")`, `None` when absent; no contract of its own, used by `Serializer.ReceiptToken` |
| Serializer.Serialize | stompy/frame.py:103-122 | fails exactly when `bytes_message` is set and there is no body; otherwise `bytes_message` is gone, `content-length` is the body's length when it was set, `x-client` names the host, no other key changes, and the text is the command line, one line per header, a blank line, the body and a NUL |
| Serializer.SerializeIdempotent | stompy/frame.py:103-122 | serialising a second time changes no header and gives the same text |
| Serializer.ReceiptToken | stompy/frame.py:88-91 | the receipt value is the session id, a dash and a text that reads back as the stamp |
| Transport.Scan | stompy/frame.py:211-219 | the `while not buffer.endswith('\x00\n')` loop from a given buffer; a run that ends leaves no more events than it had, and fewer when it gives `None` or when the buffer was not already complete; stated further by `Transport.ScanExhaustedIff`, `Transport.ScanStartedHasData` and `Transport.ScanLineShape` |
| Transport.ScanLineShape | stompy/frame.py:211-219 | a scan from a started buffer that ends with a line consumed a prefix of the events; the buffer and that prefix's bytes are the line and the terminator, and the line holds no terminator |
| Transport.ReadLine | stompy/frame.py:207-222 | `_getline` on a socket: a line that ends always consumes at least one event; stated further by `Transport.ReadLineNoneIff`, `Transport.ReadLineShortest` and `Transport.ReadLineOfText` |
| Transport.ReadLineNoneIff | stompy/frame.py:211-219 | a read gives `None` exactly when the socket would block before the first byte, and consumes only that event; it never ends exactly when no terminator ever arrives |
| Transport.ReadLineShortest | stompy/frame.py:211-222 | the text returned, followed by NUL and newline, is the shortest prefix of the bytes that ends with them |
| Transport.ReadLineOfText | stompy/frame.py:211-222 | a socket delivering a text and the terminator is read as that text, and the events after it stay unread |
| Transport.ScanExhaustedIff | stompy/frame.py:211-219 | once a byte has been read, the loop runs out of events exactly when the bytes hold no terminator |
| Transport.ScanStartedHasData | stompy/frame.py:216-218 | once a byte has been read, a would-block is skipped and never gives `None` |
| Transport.Socket.SetBlocking | stompy/frame.py:207 | `sock.setblocking(flag)`: the flag is set and nothing else changes |
| Transport.Socket.Recv | stompy/frame.py:213 | `sock.recv(1)`: the next event is consumed and its read is logged with the current mode |
| Transport.Socket.SendAll | stompy/frame.py:195 | `sock.sendall(data)`: the data is appended to what was sent and nothing else changes |
| Transport.ReadsFrom | stompy/frame.py:207-221 | what `_getline(nb)` calls leave on a socket: no event consumed and the flag as it was, or events consumed, each read in mode `not nb`, and the flag at `nb` |
| Transport.ReadsFromThen | stompy/frame.py:207-221 | two stretches of reads with the same `nb` make one |
| Transport.GetLine | stompy/frame.py:200-222 | the loop returns what `ReadLine` describes and leaves the events after it; every receive happens in mode `not nb`, and the socket is left in mode `nb` |
| RoundTrip.SerializedTransmittable | stompy/frame.py:107-112 | the dictionary `as_string` leaves can be written as header lines and read back whenever the caller's could |
| RoundTrip.HeaderLinesJoin | stompy/frame.py:116-117 | the header lines are the `key:value` texts joined by newlines, with a final newline |
| RoundTrip.NoBlankLine | stompy/frame.py:116-120 | header lines that are non-empty and newline-free never form a blank line |
| RoundTrip.PartitionAt | stompy/frame.py:120 | the first blank line of the wire text is the one after the header lines |
| RoundTrip.HeadersFromLines | stompy/frame.py:191 | the lines of a dictionary read back as that dictionary with its values rendered |
| RoundTrip.ParseHeaderBlock | stompy/frame.py:186-191 | `parse_headers` of the joined header lines gives the dictionary back, rendered |
| RoundTrip.WireText | stompy/frame.py:120 | the wire text before its NUL is the command line, the header lines, a blank line and the body |
| RoundTrip.WireRoundTrip | stompy/frame.py:120 | parsing the wire text before the NUL gives the command, the rendered headers (marked when `content-length` is present) and the body |
| RoundTrip.AsStringRoundTrip | stompy/frame.py:103-122 | parsing what `as_string` returns gives `x-client` as the host; when `bytes_message` was set, it gives it back and a `content-length` that reads as the body's length; every other header comes back as its text |
| RoundTrip.ReadBackLookups | stompy/frame.py:171-174 | what the parser's dictionary maps each key to, given what `as_string` left |
| RoundTrip.DeliveredFrame | stompy/frame.py:161-179 | a frame sent by `as_string`, followed by the newline the broker adds, is read back by `parse_frame` as that frame |
| RoundTrip.WireEnds | stompy/frame.py:120 | the wire text is a non-empty text and then the NUL |
| Demux.PullFrame | stompy/frame.py:161-179 | a frame read always consumes at least one event |
| Demux.Interpret | stompy/frame.py:162-179 | what `parse_frame` makes of `_getline`'s result: no line or an empty one is no frame; a non-empty line gives the parsed frame when it parses and the parse's error otherwise |
| Demux.PullIsReadThenInterpret | stompy/frame.py:161-179 | `parse_frame` on a socket is `_getline` followed by `Interpret`, leaving the events `_getline` leaves |
| Demux.EmptyLineIsNoFrame | stompy/frame.py:161-163 | an empty line before the terminator gives `None` and consumes exactly that line |
| Demux.PullText | stompy/frame.py:161-179 | a non-empty text and the terminator give the parse of that text |
| Demux.Enqueue | stompy/frame.py:23-27 | `put` keeps a frame exactly when it has a `destination`, at the end |
| Demux.AfterPull | stompy/frame.py:141-147 | what one read from the socket does to the call: a pass that does not end the call has read exactly one frame |
| Demux.MessagePass | stompy/frame.py:126-133 | a pass of `get_message` that does not end the call consumed an event or a queued frame |
| Demux.ReplyPass | stompy/frame.py:137-147 | a pass of `get_reply` that does not end the call consumed an event, with the reply queue empty |
| Demux.NextMessage | stompy/frame.py:124-133 | `get_message(nb)` on a socket and two queues: passes until one ends the call; no contract of its own, stated by `Demux.MessageUnfolds`, `Demux.NextMessageRoutes`, `Demux.QueuedMessageFirst`, `Demux.NothingWaiting` and `Demux.MessageKeepsSession` |
| Demux.NextReply | stompy/frame.py:135-147 | `get_reply(nb)`, likewise; stated by `Demux.ReplyUnfolds`, `Demux.NextReplyRoutes`, `Demux.QueuedReplyFirst`, `Demux.BlockingReplyHasFrame`, `Demux.NothingWaiting` and `Demux.ReplyKeepsSession` |
| Demux.MessageUnfolds | stompy/frame.py:126-133 | a `get_message` call that returns is its first pass, then the rest of the call |
| Demux.ReplyUnfolds | stompy/frame.py:137-147 | a `get_reply` call that returns is its first pass, then the rest of the call |
| Demux.NextMessageRoutes | stompy/frame.py:124-133 | `get_message` returns only a `MESSAGE`, and `None` only when non-blocking. Replies it reads join the reply queue in order. The message it returns, then the queue, are the queue before and the messages it read. A queued message comes first, with nothing read |
| Demux.QueuedMessageFirst | stompy/frame.py:38-39 | a queued message is returned without reading the socket |
| Demux.MessagePassEnds | stompy/frame.py:126-131 | a pass that ends `get_message` from the socket keeps the routing |
| Demux.MessageRoutingStep | stompy/frame.py:132-133 | a reply read before the rest of the call keeps the routing |
| Demux.NextReplyRoutes | stompy/frame.py:135-147 | `get_reply` returns only a non-`MESSAGE`, and `None` only when non-blocking. The frame it returns, then the reply queue, are the queue before and the replies it read. The intermediate queue gains, in order, the messages it read that have a destination. A queued reply comes first |
| Demux.QueuedReplyFirst | stompy/frame.py:137-139 | a queued reply is returned without reading the socket |
| Demux.ReplyPassEnds | stompy/frame.py:141-143 | a pass that ends `get_reply` from the socket keeps the routing |
| Demux.ReplyPassGoesOn | stompy/frame.py:144-147 | a pass that does not end `get_reply` routed the one frame it read |
| Demux.ReplyRoutingStep | stompy/frame.py:144-147 | a frame read and routed before the rest of `get_reply` keeps the routing |
| Demux.QueuedMessage | stompy/frame.py:144-145 | a message offered to the intermediate queue precedes, there, the messages read after it |
| Demux.DeliverableAmongMessages | stompy/frame.py:25-27 | the messages with a destination are among the messages, in the same order |
| Demux.FilterAppend | stompy/frame.py:133 | filtering frames by kind distributes over appending |
| Demux.BlockingReplyHasFrame | stompy/frame.py:68-69 | a blocking `get_reply` that returns, returns a frame |
| Demux.NothingWaiting | stompy/frame.py:128-129 | in non-blocking mode, with nothing queued for the caller and a would-block first, both accessors return `None` and change no queue |
| Demux.SessionStart | stompy/frame.py:51-59 | a new frame object satisfies the session invariant |
| Demux.SessionAfterMessage | stompy/frame.py:124-133 | the routing `get_message` keeps preserves the session invariant |
| Demux.SessionAfterReply | stompy/frame.py:135-147 | the routing `get_reply` keeps preserves the session invariant |
| Demux.MessageKeepsSession | stompy/frame.py:124-133 | `get_message` keeps the session invariant: every reply that arrived is handed out or waiting, in order; messages handed out or waiting are, in order, among those that arrived and include every one with a destination |
| Demux.ReplyKeepsSession | stompy/frame.py:135-147 | `get_reply` keeps the session invariant |
| Stomp.MessageQueue.constructor | stompy/frame.py:20-21 | a new queue is empty |
| Stomp.MessageQueue.Put | stompy/frame.py:23-27 | the queue becomes `Enqueue` of the old queue and the frame |
| Stomp.MessageQueue.Get | stompy/frame.py:29-41 | the head of a non-empty queue, removed, with the socket untouched; otherwise `parse_frame` on the owner's socket, its reads in mode `not nb` and the socket left in mode `nb` |
| Stomp.Frame.constructor | stompy/frame.py:51-59 | no command, no headers, no body, no session, empty queues, the given socket and host name, and the session invariant |
| Stomp.Frame.BuildFrame | stompy/frame.py:71-92 | the command and body are the arguments. Without a receipt request, the headers are too. With one and a session, `receipt` becomes the receipt value and nothing else changes. With one and no session, the call fails |
| Stomp.Frame.AsString | stompy/frame.py:94-122 | the result and the new header dictionary are `Serialize` of the fields |
| Stomp.Frame.ParseFrame | stompy/frame.py:149-179 | the result and the unread events are `PullFrame` of the events; every read is in mode `not nb`, and the socket is left in mode `nb` |
| Stomp.Frame.MessageRound | stompy/frame.py:127-133 | one iteration of `get_message` performs `MessagePass` on the socket and the queues; the socket's mode and read log change as `ReadsFrom` says |
| Stomp.Frame.GetMessage | stompy/frame.py:124-133 | the loop's result, unread events and queues are `NextMessage`, and the session invariant holds; the socket's mode and read log change as `ReadsFrom` says (left in mode `nb` once anything was read) |
| Stomp.Frame.ReplyRound | stompy/frame.py:137-147 | one iteration of `get_reply` performs `ReplyPass` on the socket and the queues; the socket's mode and read log change as `ReadsFrom` says |
| Stomp.Frame.RouteReply | stompy/frame.py:141-147 | routing a frame `parse_frame` read performs `AfterPull` |
| Stomp.Frame.GetReply | stompy/frame.py:135-147 | the loop's result, unread events and queues are `NextReply`, and the session invariant holds; the socket's mode and read log change as `ReadsFrom` says (left in mode `nb` once anything was read) |
| Stomp.Frame.SendFrame | stompy/frame.py:193-198 | sends the text; without a `receipt` header it returns nothing and reads nothing, with one it is a blocking `get_reply`, whose reads leave the socket non-blocking as `ReadsFrom` says |
| Stomp.Frame.SendConnect | stompy/frame.py:63-65 | adopts the socket and sends the `CONNECT` frame, whose header dictionary is then only `x-client`; nothing is read and no queue changes |
| Stomp.Frame.Connect | stompy/frame.py:61-69 | sends the `CONNECT` frame and leaves the header dictionary holding only `x-client`; the reply's reads leave the socket non-blocking as `ReadsFrom` says, the queues and the ghost history advance as `Demux.NextReply` says (frames read appended to `arrived`, the reply to `replies`, `messages` unchanged), so `Valid` keeps the whole session's history; the session becomes the headers of the first reply; a call whose reply never comes is excluded, a blocking reply is always a frame, and an error raised while reading is returned with the session unchanged |

## Left out

- **Socket errors other than `EAGAIN`, and end of stream.** They are not modelled. The socket script only yields bytes and would-blocks. (On another error, the source appends the previous byte again and keeps looping. On end of stream, `recv` returns an empty string and the loop never ends.)
- **Calls that never return.** These are a read whose script runs out before the terminator, and a blocking accessor that waits forever. They are excluded by `requires` on `Transport.GetLine`, `Stomp.MessageQueue.Get`, `Stomp.Frame.ParseFrame`, `Stomp.Frame.MessageRound`, `Stomp.Frame.GetMessage`, `Stomp.Frame.ReplyRound`, `Stomp.Frame.GetReply`, `Stomp.Frame.SendFrame` and `Stomp.Frame.Connect`, and are described by `Stalled` in `Demux`.
- **Would-blocks in blocking mode.** The script may hold a would-block whatever the mode. A blocking read of a real socket waits instead, so a script for blocking reads is meant to hold none. `readModes` records the mode of every read so that this can be stated.
- **The host name.** `socket.gethostbyname(socket.gethostname())` is not modelled; the host name is the constructor's `myName` parameter.
- **The receipt stamp.** `random.randint(0, 10000000)` is not modelled; the stamp is a parameter of `Stomp.Frame.BuildFrame` with `stamp <= 10000000`.
- **Thread safety.** The locking inside Python's `Queue` is not modelled; the queues are sequences.
- **`__repr__`, and `stompy/distmeta.py`.** These are not part of this model.
- **`iteritems`.** `as_string` calls `headers.iteritems()`, which exists only in Python 2, while the file imports the Python 3 `queue` module. The model gives the evident intent, one line per entry in dictionary order.
- **The frames `parse_frame` creates.** They are `Parser.FrameData` values (command, headers, body), not new `Frame` objects sharing the socket.
- **Header dictionary aliasing.** `build_frame` stores the caller's dictionary, and `as_string` then changes that same dictionary in place. The model copies values, so the caller's own dictionary does not see the change.
- **A missing `headers` argument.** `Stomp.Frame.BuildFrame` takes `Args` whose `headers` is always a dictionary, so `args.get('headers')` returning `None` is not modelled.
- **Receipt without a session.** In the source, `build_frame` with a receipt request and no session raises `AttributeError`. The model returns the error `NoSession` and leaves the headers as given.
- **No frame in blocking mode.** When a blocking read gives no frame (an empty line), the source evaluates `frame.command` on `None` and raises `AttributeError`. The model reports this as `Raised(ReplyMissing)`. `Stomp.Frame.Connect` returns that error instead of setting the session.
- **Malformed header lines.** When a header line has no colon, `dict(...)` raises `ValueError`. The model returns `MalformedHeaderLine`, and the accessors pass it on as `Raised`.
- **Transport.GetLine's final mode.** It states that the socket is left in mode `nb`, as the `finally` clause sets it. This is the mode opposite to the one used for reading, not the mode the socket had before the call.
