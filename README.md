# sbtio LSP message framer, modelled in Dafny

sbtio relays Language Server Protocol traffic between standard input/output and
an sbt server socket. Messages are framed by `LspMessageReader` in `src/sbt.rs`.
It pulls bytes one at a time from a byte iterator and collects a header block up
to and including the first CR LF CR LF. It then collects a body, counting `{` and
`}` outside quoted strings (a backslash escapes the next byte inside a string).
The first time, right after a brace or a closing quote, that the count is no
longer positive, it checks the body with `serde_json` and returns the pair.
`LspMessage::write_into` writes the header block and then the body, and flushes.
`copy_messages` in `src/main.rs` repeats read and write until an error.

The model has six modules, one per file:

- `io.dfy` (`Io`) holds the parts of `std::io` the framer touches. It has bytes,
  the error kinds it tells apart, and the items of the iterator: a byte or an
  error, with the end of the sequence standing for `None`. It also has
  `DataBytes`, the bytes carried by a run of items, and `Sink`, a writer that
  records what was written and flushed.
- `framing.dfy` (`Framing`) is the reference grammar on bytes. It defines the
  first header terminator, a brace/quote scanner (`Scan`, `Step`, `Run`), where
  a body first stops, and `FindFrame`, the first frame at the front of a byte
  stream.
- `reading.dfy` (`Reading`) states, on values, what each of the three reading
  loops knows: its invariant, its outcome, and one lemma per kind of item read.
- `sbt.dfy` (`Sbt`) holds `LspMessage` and the `LspMessageReader` class. The
  class has the iterator (`input` with cursor `pos`) and the mutable `headers`
  and `message` buffers. Its methods are the Rust methods, loop for loop, each
  proved against the predicates of `Reading` and `Framing`.
- `relay.dfy` (`Relay`) models `copy_messages`.
- `samples.dfy` (`Samples`) works concrete bodies and streams through the model.

`serde_json::from_slice::<Value>` is the parameter `isJson` of the reader. The
framer needs nothing of it but its verdict.

The model follows the code: the JSON check runs only right after a `{`, a `}`
or the quote that closes a string, and only when the count is no longer
positive. It does not require that a `{` was seen first, so the body ` }` is
complete at once (`Samples.StrayBraceEndsBody`). A string closed at count 0 also ends the body.

## Model

| member | source | states |
|---|---|---|
| Sbt.LspMessageReader.constructor | src/sbt.rs:60-66 | a new reader is at the start of its iterator with both buffers empty |
| Sbt.LspMessageReader.Next | src/sbt.rs:78 | `inner.next()` yields the next item and advances past it, or yields `None` and stays at the end |
| Sbt.LspMessageReader.MatchByte | src/sbt.rs:91-110 | an interrupted read gives `Ok(None)` and nothing else does; a byte gives `Ok(Some(byte))`; the end of input gives `UnexpectedEof`; any other error is returned unchanged, so an error result is never `Interrupted` |
| Sbt.LspMessageReader.ParseHeaders | src/sbt.rs:76-89 | (`HeaderRead`) the buffer grows by exactly the bytes read. It returns `Ok` as soon as the buffer first ends with CR LF CR LF, right after a byte, and at no earlier length. Otherwise it returns the error that stopped the source, with only bytes and interrupted reads before it |
| Sbt.LspMessageReader.ParseMessage | src/sbt.rs:112-136 | (`BodyRead`) the body buffer is exactly the bytes read and no proper prefix of it ends a body. If it ends one, the last item read was a byte and the result is the JSON verdict (`InvalidData` on failure). Otherwise the result is the error that stopped the source |
| Sbt.LspMessageReader.ParseString | src/sbt.rs:138-155 | (`StringRead`) appends exactly the bytes read and never makes a body end inside the string. The string stays open after every byte but the last. On `Ok` the last byte is the first unescaped quote, which closes the string with the brace count unchanged, and the body ends there exactly when that count is not positive. On error the source stopped it with the string still open |
| Sbt.LspMessageReader.ReadMessage | src/sbt.rs:68-74 | (`MessageRead`) both buffers start empty, so `headers ++ message` is exactly the bytes read in this call. If they are one whole frame the last read was a byte and the result is that message, or `InvalidData` if the body is not JSON. Otherwise the buffers hold no frame and the result is the source's error |
| Sbt.LspMessage.WriteInto | src/sbt.rs:179-184 | the writer receives the header block and then the body, in that order, and is flushed |
| Sbt.WellFormedIffReadBack | src/sbt.rs:179-184 | a message is well formed exactly when its written bytes are framed back as one frame with the same split |
| Sbt.HeaderFailed | src/sbt.rs:71 | when the header loop fails, `read_message` returns that error with an empty body buffer, and the bytes read hold no frame |
| Sbt.BodyDone | src/sbt.rs:72-73 | a finished header loop followed by the body loop's outcome gives `read_message`'s outcome over the whole call |
| Sbt.ReadOk | src/sbt.rs:73 | a message returned consumed at least one item, is made of the bytes read, is well formed and has a JSON body |
| Sbt.ReadErr | src/sbt.rs:71-72 | an error returned is never `Interrupted`. Either the bytes read hold no frame and the source stopped with that error, or they are one frame whose body is not JSON and the error is `InvalidData` |
| Sbt.MessageIsFirstFrame | src/sbt.rs:112-136 | no over-read: the message returned is the first frame of the bytes the source offers, however many later items are looked at |
| Sbt.EndOfInputIsUnexpected | src/sbt.rs:92-99 | a source that runs out, without a hard error, before a whole frame makes `read_message` consume it all and return `UnexpectedEof` |
| Sbt.FrameOfBytesIsRead | src/sbt.rs:68-74 | read from a source of plain bytes whose rest, from the cursor, begins with a frame, `read_message` returns exactly that frame's bytes, split as the frame splits |
| Sbt.WrittenIsReadBack | src/sbt.rs:179-184 | what `write_into` writes for a well-formed JSON message is read back by `read_message` as the same message, from wherever the cursor stands in the stream, and the read stops at its last byte |
| Reading.Validate | src/sbt.rs:130-134 | the check passes exactly when the body is JSON and otherwise fails with `InvalidData` |
| Reading.HeaderStart | src/sbt.rs:76-77 | the header loop starts with nothing read and no terminator past the buffer's initial length |
| Reading.HeaderSkip | src/sbt.rs:79-82 | an interrupted read leaves the header loop's state as it was |
| Reading.HeaderStopped | src/sbt.rs:79-82 | a hard error or the end of input ends the header loop with that error |
| Reading.HeaderByte | src/sbt.rs:83-87 | a byte either completes the header block, at the first terminator, or keeps the loop going with no terminator yet |
| Reading.BodyStart | src/sbt.rs:113 | the body loop starts at count 0 outside any string, with no prefix ending a body |
| Reading.BodySkip | src/sbt.rs:115-119 | an interrupted read leaves the body loop's state as it was |
| Reading.BodyStopped | src/sbt.rs:115-119 | a hard error or the end of input ends the body loop with that error |
| Reading.BodyPlain | src/sbt.rs:125 | a byte other than a brace or a quote changes only the buffer and never ends the body |
| Reading.BodyBrace | src/sbt.rs:122-129 | a brace moves the count by one. The body ends there, with the JSON verdict, exactly when the count is then not positive |
| Reading.BodyQuote | src/sbt.rs:124 | a quote opens a string at the current count, and the body does not end there |
| Reading.BodyAfterString | src/sbt.rs:124-134 | after the string, the source's error is returned, or the same test as after a brace is made on the unchanged count |
| Reading.StringStart | src/sbt.rs:139 | the string loop starts unescaped, with the body not ending anywhere past the opening quote |
| Reading.StringSkip | src/sbt.rs:141-145 | an interrupted read leaves the string loop's state as it was |
| Reading.StringStopped | src/sbt.rs:141-145 | a hard error or the end of input ends the string loop with that error, and the body has not ended |
| Reading.StringByte | src/sbt.rs:146-153 | an escaped byte clears the escape, a backslash sets it, an unescaped quote closes the string, and any other byte keeps it open |
| Reading.HardStopEnds | src/sbt.rs:92-106 | an error item or the end of input ends a read with that error kind and adds no byte |
| Reading.SkipKeepsBytes | src/sbt.rs:100-103 | an interrupted read adds no byte and is not an error |
| Reading.ByteAppends | src/sbt.rs:108 | a byte item appends exactly that byte |
| Io.InterruptIgnored | src/sbt.rs:100-103 | an interrupted read inserted anywhere in a stream changes neither its bytes nor whether it is free of hard errors |
| Io.DataBytesJoin | src/sbt.rs:83 | the bytes of two runs read one after the other are the bytes of the first followed by those of the second |
| Io.Sink.WriteAll | src/sbt.rs:180-181 | `write_all` appends the data to what was written |
| Io.Sink.Flush | src/sbt.rs:182 | `flush` pushes out everything written |
| Framing.FirstHeaderEnd | src/sbt.rs:85 | returns the length of the shortest prefix that ends with CR LF CR LF, or none if no prefix does |
| Framing.HeaderEndFrom | src/sbt.rs:76-89 | searching from length `n`, with no terminator before it, finds the first terminator or shows there is none |
| Framing.AppendHeaderByte | src/sbt.rs:83-87 | one more header byte keeps shorter prefixes terminator-free, and the new length ends with the terminator exactly when the last four bytes are CR LF CR LF |
| Framing.HeaderEndExtends | src/sbt.rs:85 | a header block stays the header block whatever bytes follow |
| Framing.HeaderEndUnique | src/sbt.rs:85 | a stream has at most one header block end |
| Framing.FirstBodyEnd | src/sbt.rs:112-136 | returns the length of the shortest prefix at which the body ends, or none if no prefix does |
| Framing.BodyEndFrom | src/sbt.rs:112-136 | searching from length `n`, with no body end before it, finds the first body end or shows there is none |
| Framing.RunFromConcat | src/sbt.rs:120-126 | scanning two runs of bytes one after the other is scanning their concatenation |
| Framing.RunSnoc | src/sbt.rs:120-126 | the scan state after one more byte is one step from the state before it |
| Framing.AppendByte | src/sbt.rs:120-129 | one more body byte gives the next scan state. The new prefix ends the body exactly when the byte is checked and the count is not positive, and shorter prefixes are unaffected |
| Framing.StopsOutsideString | src/sbt.rs:127-135 | a body only ends outside a string |
| Framing.NoStopInString | src/sbt.rs:138-155 | while inside a string the body cannot end |
| Framing.BodyEndExtends | src/sbt.rs:127-135 | a body stays the body whatever bytes follow |
| Framing.StopsOnlyAfterBraceOrQuote | src/sbt.rs:121-129 | the JSON check is only reached right after `{`, `}` or a quote; whitespace, digits and all other bytes never end a body |
| Framing.InsideString | src/sbt.rs:147-153 | well-formed string content, escapes included, leaves the scan inside the string at the same count after every prefix |
| Framing.InStringAfterPrefix | src/sbt.rs:138-155 | after an opening quote and any part of well-formed string content, the scan is inside the string at the count it had before the quote |
| Framing.StringLiteralSkipped | src/sbt.rs:121-126 | a whole string literal, whatever braces or escaped quotes it holds, leaves the count unchanged, and the body cannot end before its closing quote |
| Framing.NotStopsInLiteral | src/sbt.rs:138-155 | no prefix ending inside a string literal, opening quote included, ends the body |
| Framing.NotStopsInContent | src/sbt.rs:147-153 | no prefix ending in the content of a string ends the body |
| Framing.FindFrame | src/sbt.rs:68-74 | a frame found is the first header block followed by the first body end after it, at least five bytes long. When none is found, no header block is followed by a body end |
| Framing.IncompleteHeader | src/sbt.rs:76-89 | bytes with no terminator hold no frame |
| Framing.IncompleteBody | src/sbt.rs:112-136 | a header block followed by bytes in which no body ends holds no frame |
| Framing.FrameRoundTrip | src/sbt.rs:179-184 | a header block followed by a body is framed as exactly that pair, whatever follows |
| Framing.FrameIgnoresWhatFollows | src/sbt.rs:112-136 | no over-read: replacing everything after a frame leaves the frame unchanged |
| Framing.HeaderEndExtendsBack | src/sbt.rs:85 | the header block of a stream is the header block of its own prefix |
| Framing.BodyEndBack | src/sbt.rs:127-135 | the body at the front of a stream is the body of its own prefix |
| Framing.TruncatedIsIncomplete | src/sbt.rs:92-99 | a stream cut anywhere before the end of its first frame holds no frame |
| Relay.CopyMessages | src/main.rs:90-101 | writes every message read until a read fails, and returns that error. The written bytes are exactly those consumed up to the end of the last message, and they decode back to the messages written, each well formed with a JSON body. Every item consumed before the failing read is a byte or an interrupted read, so no hard error is skipped. The read that failed is described in full by `read_message`'s outcome: the bytes it took hold no frame and the source stopped with the error, or they hold a frame whose body is not JSON and the error is `InvalidData` |
| Relay.ConcatSnoc | src/main.rs:96-100 | the bytes of one more message follow those of the earlier ones |
| Relay.WrittenGrows | src/main.rs:98 | writing one more message appends its bytes to what was written |
| Relay.Decode | src/main.rs:96-100 | every message decoded from a stream is well formed with a JSON body |
| Relay.DecodeConcat | src/main.rs:96-100 | well-formed JSON messages written one after another decode back to the same messages |
| Relay.CopyStep | src/main.rs:97-98 | one more message read from the events after those consumed keeps the bytes written equal to the bytes consumed |
| Relay.SameFirstMessage | src/main.rs:96-100 | two well-formed messages at the front of the same bytes are the same message, followed by the same bytes |
| Relay.ConcatPrefix | src/main.rs:96-100 | well-formed messages whose bytes begin a stream of well-formed messages are its first messages, and what follows them is the rest |
| Relay.CopiesWrittenMessages | src/main.rs:90-101 | the round trip through the reader: on a source that yields well-formed JSON messages written one after another, the loop writes back exactly those messages in order, consumes every byte and stops with `UnexpectedEof` |
| Samples.HeaderEndsOnce | src/sbt.rs:85 | `X` CR LF CR LF is a header block |
| Samples.QuotedBraceIsSkipped | src/sbt.rs:121-126 | `{"a":"}"}` is one body: the `}` inside the string is not counted |
| Samples.EscapedValueIsOneBody | src/sbt.rs:147-153 | `{"a":"\""}` is one body: the escaped quote does not close the string |
| Samples.EscapedQuoteStaysInString | src/sbt.rs:147-153 | in `{"\"}"}` the first `}` is inside the string, so the body ends only at the last byte |
| Samples.StrayBraceEndsBody | src/sbt.rs:127-129 | the body ` }` ends at its `}`, although no `{` was seen |
| Samples.TwoAreWellFormed | src/sbt.rs:179-184 | `X` CR LF CR LF `{"a":"}"}` and `X` CR LF CR LF `{"\"}"}` are well-formed messages (with JSON bodies when the JSON check accepts both), written as 26 bytes |
| Samples.TwoMessagesDecode | src/main.rs:96-100 | two messages written back to back are framed and decoded as those two messages |
| Samples.TwoMessagesRelayed | src/main.rs:90-101 | `copy_messages` on a source that yields those two messages writes both back, in order, consumes all 26 bytes and stops with `UnexpectedEof` |
| Samples.ReadsQuotedBrace | src/sbt.rs:68-74 | `read_message` on `X` CR LF CR LF `{"a":"}"}` followed by anything returns that message after exactly 14 bytes |
| Samples.TruncatedReadFails | src/sbt.rs:92-99 | the same stream without its last byte makes `read_message` return `UnexpectedEof` after all 13 bytes |

`LspMessage::new` (src/sbt.rs:175-177) is the datatype constructor
`LspMessage(headers, message)`.

## Left out

- `find_sbt_server_addr`, `parse_active`, `Active` and `to_uri` (src/sbt.rs:10-51) walk the filesystem, read a file and deserialise it with serde. There is no framing logic in them.
- The `Debug` impls (src/sbt.rs:158-167, 187-197) only format values for logging. The `error!` and `info!` logging calls are left out for the same reason.
- The inside of `serde_json::from_slice` is a foreign call. It is the reader's `isJson` parameter, and the model assumes nothing about it.
- `BufReader` and `Read::bytes` are the sequence of items `input`. Buffering does not change the bytes or their order.
- `Vec::with_capacity(64)` and the `clone` of the buffers in `read_message` have no observable effect. The buffers are sequence values.
- Sbt.LspMessage.WriteInto: the `Sink` never fails, so the error returns of `write_all` and `flush` are not modelled.
- Relay.CopyMessages: for the same reason it never stops on a write error. It ends because the model's source is finite, where the Rust loop would block on a live stream.
- Sbt.LspMessageReader.ParseMessage: `brace_count` is an `i32` in Rust. The model counts with an unbounded integer, so overflow after 2^31 unmatched `{` is not modelled.
- Sbt.LspMessageReader.ParseMessage: requires an empty body buffer. Its one caller, `read_message`, clears the buffer just before calling it.
- All of src/main.rs except `copy_messages` is left out: threads, the mpsc channel, the ctrl-c handler, syslog setup, `cleanup_conn` and process exit. So is all of src/conn.rs, which wraps `TcpStream`/`UnixStream` and URL parsing. These are concurrency and operating-system calls.
