# Verification of the parsers, the printer and the message paths

This project models, in Dafny, the parts of the repository whose correctness rests on state and
arithmetic, and proves what they are for:

- **HTTP** (`picohttpparser.c`): the resumable in-place decoder of the chunked transfer coding, and
  the incremental head parser with its block scan, its unrolled scan and its resume shortcut.
- **JSON** (`cJSON.c`): parsing, printing into a fixed or growing buffer, string escapes, minifying in
  place, comparing, the linked lists of children, and copying.
- **Messages** (`RuruLoop.cpp`, `RuruArena.cpp`, `RuruSctp.cpp`): the event queue whose events point
  into a bump arena, and the backlog in front of an unreliable send.

Each part has a pure specification (a byte automaton, a grammar, a parser of the whole buffer, a
rendering function, a sequence, a machine of steps), imperative code in the shape of the original
(classes with its fields, loops, arrays written in place, nodes linked by pointers) proved equal to it,
and theorems about the specification.

| part | modules |
|---|---|
| chunked coding | `ChunkedAutomaton` (automaton, split invariance), `ChunkedDecoder` (in-place decoder), `ChunkedBody` (grammar) |
| request and response heads | `HttpScan`, `HttpHead` (specification), `HttpParser`, `HttpPrefix`, `HttpResume`, `HttpRoundTrip`, `HttpResponseRoundTrip`, `HttpAccepted` |
| JSON text | `Utf`, `JsonString`, `JsonTree` (values and rendering), `JsonGrammar` (specification), `JsonLayout`, `JsonRoundTrip`, `JsonReprint`, `JsonMinify`, `JsonMinifyLaws`, `JsonMinifyLayout` |
| JSON nodes | `JsonList` (children lists), `JsonNodes` (trees, copying them), `JsonParse`, `JsonPrint`, `JsonCompare` (specification and loops) |
| event queue and arena | `EventMachine` (steps, runs), `EventLoop` |
| send backlog | `SendMachine` (steps, runs), `SendBacklog` |

`dafny verify dfyconfig.toml` checks everything.

## Where the code falls short of its intent

Four intended properties fail on some inputs. The model keeps the code as it is; in each case a lemma
gives an input and another lemma says exactly when the property holds.

- Resuming a bare header block (`phr_parse_headers` with `last_len`) fails for the empty block cut
  between its CR and LF: `HttpResume.EmptyBlockCounterexample`, `HttpResume.EmptyBlockWaits`,
  `HttpResume.ResumeHeadersExactly`.
- Minifying formatted print is not unformatted print when a string or key ends in a backslash and
  whitespace is printed behind it, because the minifier knows no escape but the escaped quote:
  `JsonMinifyLaws.BackslashCounterexample`, `JsonMinifyLaws.MinifyPrinted`.
- A value with a repeated key need not compare equal to its duplicate, since lookup finds the first
  member only: `JsonCompare.RepeatedKeyCounterexample`, `JsonCompare.DuplicateComparesEqual`.
- An event's length has 16 bits, so a message of 65536 bytes or more is delivered cut short:
  `EventMachine.LongMessageCounterexample`, `EventMachine.DeliveredWhole`.

A `\u` escape whose digits are not all hex is not refused but decodes to the byte 0
(`Utf.NonHexDigitsBecomeNul`); the size estimate of a string covers this case too.

## Model

| member | source | states |
|---|---|---|
| ChunkedAutomaton.SizeDigitFits | picohttpparser.c:555-567 | with fewer than 16 digits read and a value below 16 to their number, one more digit stays below the next power of 16 and within size_t, so the multiplication does not wrap |
| ChunkedAutomaton.StepConsistent | picohttpparser.c:549-646 | one byte keeps the bounds of every phase, in particular bytes_left_in_chunk < 16^_hex_count while a size is read |
| ChunkedAutomaton.RunConsistent | picohttpparser.c:543-656 | the same over any input from any reachable state |
| ChunkedAutomaton.RunSplit | picohttpparser.c:543-656 | feeding a and then b gives the output, verdict, undecoded tail and state of feeding a followed by b; once a verdict is reached, later bytes only lengthen the tail |
| ChunkedAutomaton.CutsDoNotMatter | picohttpparser.c:543-656 | the same for any number of cuts |
| ChunkedDecoder.BulkData | picohttpparser.c:591-607 | copying n bytes of chunk data at once is stepping through them one by one |
| ChunkedDecoder.MovedByCopy | picohttpparser.c:591-607 | the bulk copy of all the chunk, or of all the buffer has, takes the byte automaton from and to the same states with the same output |
| ChunkedDecoder.PhrChunkedDecoder.ReadChunkSize | picohttpparser.c:550-570 | reading the size digits ends where the automaton ends, with its verdict and state |
| ChunkedDecoder.PhrChunkedDecoder.SkipExtension | picohttpparser.c:572-589 | the same for the rest of the size line |
| ChunkedDecoder.PhrChunkedDecoder.ReadChunkEnd | picohttpparser.c:609-622 | the same for the line end behind the data: any number of CR, then LF, or an error |
| ChunkedDecoder.PhrChunkedDecoder.ReadTrailerLineHead | picohttpparser.c:623-632 | the same for the start of a trailer line |
| ChunkedDecoder.PhrChunkedDecoder.ReadTrailerLineMiddle | picohttpparser.c:634-643 | the same for the rest of a trailer line |
| ChunkedDecoder.PhrChunkedDecoder.CopyData | picohttpparser.c:591-607 | the memmove of chunk data inside the buffer is a move of the automaton over the same bytes |
| ChunkedDecoder.PhrChunkedDecoder.CloseGap | picohttpparser.c:651-655 | the undecoded tail ends up right behind the decoded bytes |
| ChunkedDecoder.PhrChunkedDecoder.DecodeUntilExit | picohttpparser.c:548-647 | the outer loop ends (every further turn leaves fewer bytes unread) in the automaton's verdict, state and output |
| ChunkedDecoder.PhrChunkedDecoder.Decode | picohttpparser.c:543-656 | one call leaves the decoded bytes at the front of the buffer, the undecoded tail right behind them, the automaton's state in the decoder, and returns -2, -1 or the tail's length; nothing beyond bufsz changes |
| ChunkedBody.BodyIsAccepted | picohttpparser.c:543-656 | a body of the grammar (sizes of 1 to 16 hex digits, extensions, trailers as consume_trailer says), whatever follows it, is decoded to its data and leaves exactly what follows |
| ChunkedBody.AcceptedIsBody | picohttpparser.c:543-656 | whatever is decoded to the end starts with a body of the grammar with that data |
| ChunkedBody.AcceptsExactlyBodies | picohttpparser.c:543-656 | both directions as one equivalence |
| HttpScan.TokenRangesAreSafe | picohttpparser.c:96-103 | the token table is tchar of section 3.2.6 of RFC 7230, and every byte outside the block ranges is a token character and neither space nor colon |
| HttpScan.TargetRangesAreSafe | picohttpparser.c:71-94 | the ranges of ADVANCE_TOKEN are exactly space and the control characters |
| HttpScan.EolRangesAreControls | picohttpparser.c:134-145 | the ranges of get_token_to_eol are exactly the control characters but HT |
| HttpScan.FindCharFast | picohttpparser.c:105-132 | the block scan skips only bytes in no range, stops only at a byte in one, and leaves fewer than 16 bytes if it stops nowhere |
| HttpScan.ScanSkips | picohttpparser.c:245-277 | jumping over bytes a scan passes does not change its result |
| HttpScan.ParseToken | picohttpparser.c:245-277 | with or without the vector instructions the result is that of the byte-at-a-time scan |
| HttpScan.AdvanceToken | picohttpparser.c:71-94 | the same for the request target |
| HttpScan.SkipPrintableUnrolled | picohttpparser.c:146-171 | the eight-way unrolled loop skips no control character but HT |
| HttpScan.GetTokenToEol | picohttpparser.c:134-195 | the same for a header value or reason phrase with its line end |
| HttpParser.ParseHttpVersion | picohttpparser.c:280-296 | wants nine bytes, then HTTP/1. and one digit |
| HttpParser.ParseHeaderName | picohttpparser.c:313-336 | the name goes into the array as soon as it is known, whatever follows; or it is a continuation and has none |
| HttpParser.ParseHeaderLine | picohttpparser.c:313-350 | a name, colon and blanks, or a continuation; then the value without trailing blanks; of a line that does not parse the value is never stored |
| HttpParser.ParseHeaders | picohttpparser.c:298-353 | fills the caller's array from the front with what the pure header parser gives and leaves the rest alone, but that a failure may leave the name of the unfinished header behind the finished ones |
| HttpParser.ParseRequestLine | picohttpparser.c:355-399 | the start line of a request |
| HttpParser.ParseStatusLine | picohttpparser.c:429-472 | the start line of a response, its reason phrase without leading spaces |
| HttpParser.IsComplete | picohttpparser.c:197-223 | the scan for two line ends in a row, from three bytes before last_len |
| HttpParser.PhrParse | picohttpparser.c:401-519 | the three entry points return the length, -1 or -2 of the pure parser, with its slices and headers; the array behind them as above |
| HttpPrefix.HeadExtends | picohttpparser.c:401-519 | parsed from the start, a success or refusal on a prefix is the answer on every extension, and a success that comes later ends beyond the prefix |
| HttpPrefix.HeadSlicesInside | picohttpparser.c:355-399 | on success every slice lies in the bytes consumed |
| HttpResume.HeadShape | picohttpparser.c:355-427 | a parsed head has no CR without LF and ends in a line end directly behind a LF |
| HttpResume.BlankLineFound | picohttpparser.c:197-223 | is_complete, started anywhere up to the LF before a blank line, finds a blank line: backing up three bytes never misses it |
| HttpResume.ResumeAgrees | picohttpparser.c:401-498 | if the first k bytes are no complete head, then on every extension parsing with last_len k succeeds exactly when parsing with 0 does, with the same length and slices |
| HttpResume.ResumeRefusalIsFinal | picohttpparser.c:401-498 | what the resumed call refuses no extension makes a head |
| HttpResume.ResumeHeadersExactly | picohttpparser.c:500-519 | for bare header blocks the same holds on all extensions exactly if the prefix is not a single CR |
| HttpResume.EmptyBlockCounterexample | picohttpparser.c:197-223 | the empty block CR LF cut after the CR: parsed from the start it is complete, resumed it is answered -2 |
| HttpResume.EmptyBlockWaits | picohttpparser.c:197-223 | over every sequence of buffers that ends with that block, once its CR was seen alone, the resuming loop never gets beyond -2 and the plain loop succeeds as soon as the LF is there |
| HttpResume.DriveAgrees | picohttpparser.c:401-498 | over any growing sequence of buffers the resuming loop and the plain loop succeed together, with the same result |
| HttpRoundTrip.RequestRoundTrip | picohttpparser.c:298-427 | a rendered request (token method, target without space or control characters, minor version digit, at most max_headers headers, folded ones and either line end included) is consumed exactly, and the slices read back as what was rendered, in order |
| HttpResponseRoundTrip.ResponseRoundTrip | picohttpparser.c:429-498 | a rendered response (minor version digit, spaces, three status digits, spaces and a reason phrase, or neither, headers as before) is consumed exactly, and status, slices and headers read back as what was rendered, in order |
| HttpAccepted.AcceptsExactlyRequests | picohttpparser.c:298-427 | a request head of n bytes is parsed exactly if the first n bytes are written as RequestRoundTrip says, with at most max_headers headers |
| HttpAccepted.AcceptsExactlyResponses | picohttpparser.c:429-498 | the same for responses |
| Utf.ParseHex4 | cJSON.c:609-643 | four hex digits give their value, anything else gives 0 |
| Utf.DecodeEncode | cJSON.c:705-757 | decoding section 3 of RFC 3629 undoes the encoding of every scalar value, whatever follows |
| Utf.EncodeDecode | cJSON.c:705-757 | and encoding undoes decoding, so the encoding is the only one |
| Utf.BitOperations | cJSON.c:690-745 | the masks and shifts of the C code are the remainders and quotients of the model |
| Utf.ScalarEscapeDecodes | cJSON.c:646-764 | the one- or two-unit escape of every scalar value (section 7 of RFC 8259) consumes 6 or 12 bytes and produces exactly its UTF-8 |
| Utf.AcceptedLiterals | cJSON.c:646-764 | with hex digits in the first unit, it is accepted alone exactly if it is no surrogate, and as a pair exactly if it is a high surrogate with the escape of a low one behind it, whose digits then are hex |
| Utf.NonHexDigitsBecomeNul | cJSON.c:609-643 | a literal whose digits are not all hex decodes to the byte 0 |
| Utf.WriteUtf8 | cJSON.c:705-757 | stores the encoding of the code point at the output position and nothing else |
| JsonString.MeasureString | cJSON.c:780-805 | the first pass finds the first unescaped quote and its estimate is the content length less the escapes |
| JsonString.LiteralFits | cJSON.c:646-764 | an escape of 6 or 12 bytes never writes more than its stretch of the estimate pays for, even where the first pass counted escapes inside it |
| JsonString.EstimateSuffices | cJSON.c:780-879 | for every input, whatever the second pass makes of it, at most the estimate is written |
| JsonString.UnescapeInto | cJSON.c:804-879 | the second pass stays inside an allocation of the estimate and one byte more, and yields the decoded text or the place of the bad escape |
| JsonString.CountIsExact | cJSON.c:908-965 | the counting pass predicts exactly the length of the escaped text, and nothing to escape means the text itself |
| JsonString.StringRoundTrip | cJSON.c:767-1015 | every printed string is read back as the same bytes, and reading ends right behind its closing quote |
| JsonPrint.PrintBuffer.Ensure | cJSON.c:435-520 | room for needed bytes and what is there already, or failure exactly if the fixed buffer or INT_MAX does not allow it |
| JsonPrint.PrintBuffer.UpdateOffset | cJSON.c:523-533 | the offset moves to the NUL of what was printed |
| JsonPrint.PrintBuffer.PrintStringPtr | cJSON.c:896-1015 | appends the quoted text; fails only for lack of room |
| JsonPrint.PrintBuffer.PrintNumber | cJSON.c:543-606 | appends the number's text and advances the offset itself |
| JsonPrint.PrintBuffer.PrintValue | cJSON.c:1361-1432 | appends the rendering of the value that the node and what hangs below it stand for |
| JsonPrint.PrintBuffer.PrintArray | cJSON.c:1533-1592 | appends the rendering of an array, walking from child to next |
| JsonPrint.PrintBuffer.PrintObject | cJSON.c:1708-1819 | appends the rendering of an object with its indentation, walking from child to next |
| JsonPrint.PrintPreallocated | cJSON.c:1286-1303 | succeeds exactly when length is at least the rendering's length plus 2; the buffer then holds the rendering and a NUL, and in no case is a byte at or beyond length written |
| JsonPrint.PrintBuffered | cJSON.c:1256-1284 | with any start size the growing buffer holds the same text and its NUL |
| JsonPrint.Print | cJSON.c:1181-1244 | the result is the rendering and its NUL and nothing more |
| JsonTree.RenderHasNoNul | cJSON.c:523-533 | the rendering of a printable value has no NUL inside, so strlen finds its end |
| JsonParse.ParseBuffer.BufferSkipWhitespace | cJSON.c:1032-1055 | skips the bytes up to 32 but never the last byte |
| JsonParse.ParseBuffer.ParseString | cJSON.c:767-893 | the string at the offset goes into the node, or the offset is left at the error |
| JsonParse.ParseBuffer.ParseNumber | cJSON.c:301-375 | the number of at most 63 copied characters, as far as strtod takes it, goes into the node |
| JsonParse.ParseBuffer.ParseValue | cJSON.c:1306-1358 | succeeds and fails with the offset of the pure parser; on success the node is the root of a tree of new nodes, every list in it linked, that stands for the pure parser's value |
| JsonParse.ParseBuffer.ParseArray | cJSON.c:1435-1530 | the same for arrays, with the nesting limit |
| JsonParse.ParseBuffer.ParseItem | cJSON.c:1470-1502 | one turn of the loop: a node is attached, then its value parsed into it; the list so far holds the elements so far, in order |
| JsonParse.ParseBuffer.ParseItems | cJSON.c:1469-1507 | the loop builds the chained list of exactly the elements the pure parser reads |
| JsonParse.ParseBuffer.ParseObject | cJSON.c:1595-1705 | the same for objects |
| JsonParse.ParseBuffer.ParseKey | cJSON.c:1651-1670 | the key is parsed as a string and moved into the node's key, and a colon has to follow |
| JsonParse.ParseBuffer.ParseMember | cJSON.c:1628-1678 | one turn of the loop over the members, keys included |
| JsonParse.ParseWithLengthOpts | cJSON.c:1089-1166 | the entry point: byte order mark, whitespace, optional check for the end; a tree that stands for the pure parser's value and the place behind it, or null and the place of the error, 0 for an empty text |
| JsonLayout.RenderJoins | cJSON.c:1361-1432 | the printed text, formatted or not, is the value's tokens with blanks between them |
| JsonRoundTrip.ValueLaid | cJSON.c:1306-1358 | where a value's tokens stand with whitespace between, parsing yields that value and stops behind it, or refuses, exactly as the nesting allows |
| JsonRoundTrip.AnyLayoutRoundTrip | cJSON.c:1089-1166 | any printable value, its tokens with any runs of the bytes 1 to 32 around them and a NUL behind, parses with the check for the end to the same value in the same order, exactly if it is nested at most 1000 deep, and else is refused |
| JsonRoundTrip.PrintedRoundTrip | cJSON.c:1169-1254 | in particular what printing gives, formatted or not |
| JsonReprint.ParseIsSound | cJSON.c:1089-1166 | every value that any text is parsed to is nested at most 1000 deep, has no NUL in strings and keys and short integers within their limit, and is printable exactly if all its numbers are short integers |
| JsonReprint.ParsePrintParse | cJSON.c:1089-1254 | what any text is parsed to prints, in either format, as text that is parsed to the same value, if its numbers are short integers |
| JsonMinify.SkipOnelineComment | cJSON.c:2765-2776 | ends behind the next LF or at the NUL |
| JsonMinify.SkipMultilineComment | cJSON.c:2778-2790 | ends behind the closing star and slash or at the NUL |
| JsonMinify.MinifyLiteral | cJSON.c:2792-2812 | copies a literal to its closing quote; the write cursor stays at or before the read cursor |
| JsonMinify.MinifyInPlace | cJSON.c:2814-2860 | the buffer holds the minified text and its NUL, and no byte behind them changes |
| JsonMinifyLaws.MinifyAgain | cJSON.c:2814-2860 | minifying is idempotent on every text |
| JsonMinifyLaws.QuotedStays | cJSON.c:2792-2812 | a printed string is copied whole, but if it ends in a backslash the literal is taken to go on behind it |
| JsonMinifyLaws.FormattedShrinks | cJSON.c:2814-2860 | a formatted value in front of any text minifies to the compact one exactly if no string or key that ends in a backslash has whitespace printed behind it; otherwise the two differ at a place inside the compact one |
| JsonMinifyLaws.MinifyPrinted | cJSON.c:2814-2860 | minified formatted print equals unformatted print under exactly that condition |
| JsonMinifyLaws.MinifyTame | cJSON.c:2814-2860 | it does for every value without a string or key that ends in a backslash |
| JsonMinifyLaws.BackslashCounterexample | cJSON.c:2792-2812 | the array of a string that is one backslash and of null keeps a space |
| JsonMinifyLayout.MinifyAnyLayout | cJSON.c:2814-2860 | in any layout of a value, with any bytes 1 to 32 and comments between its tokens, minifying changes the gaps only, if no string or key ends in a backslash; the unformatted print is left exactly if the gaps hold only whitespace and comments |
| JsonMinifyLayout.MinifyExactly | cJSON.c:2792-2812 | where whitespace or a comment stands behind every string or key that ends in a backslash, minifying changes the gaps only exactly if there is none |
| JsonMinifyLayout.MinifiedParses | cJSON.c:2814-2860 | so the parser, which knows no comments, reads the value from the minified text, exactly if it is nested at most 1000 deep |
| JsonMinifyLayout.MinifyKeepsMeaning | cJSON.c:2814-2860 | with any bytes 1 to 32 and no comments in the gaps the parser makes the same of the text before and after minifying |
| JsonCompare.CaseInsensitiveStrcmp | cJSON.c:129-150 | returns 0 exactly if the strings are equal after folding ASCII letters |
| JsonCompare.GetObjectItem | cJSON.c:1874-1904 | the first child whose key is equal under the chosen mode, or null |
| JsonCompare.CompareValues | cJSON.c:2962-3085 | true for one and the same node; for trees without a common node the recursion with its loops computes the comparison function on the values they stand for |
| JsonCompare.CompareArrays | cJSON.c:3020-3042 | elements are compared in order, and the lengths have to agree |
| JsonCompare.CompareObjects | cJSON.c:3044-3080 | each of the two loops finds an equal counterpart for every member |
| JsonCompare.CompareSymmetric | cJSON.c:2962-3085 | the comparison is symmetric, also with repeated keys, if that of numbers is |
| JsonCompare.CompareDecides | cJSON.c:2962-3085 | when keys are distinct under the chosen mode it decides equality with objects read as maps |
| JsonCompare.DuplicateComparesEqual | cJSON.c:2682-2763 | for every value and every notion of equal numbers: it compares equal to its duplicate exactly if every number equals itself and every member whose key was there before equals the first member with that key |
| JsonCompare.DistinctIsCoherent | cJSON.c:1874-1904 | values with distinct keys meet that condition, if numbers equal themselves |
| JsonCompare.RepeatedKeyCounterexample | cJSON.c:1874-1904 | with a repeated key a value need not equal its own duplicate |
| JsonList.GetArrayItem | cJSON.c:1845-1862 | the child at the index, or null |
| JsonList.AddItemToArray | cJSON.c:1950-1982 | refuses to put a node into itself; otherwise appends to the sequence of children and keeps the list linked, head pointing back to tail |
| JsonList.DetachItemViaPointer | cJSON.c:2181-2215 | removes from the sequence, keeps the rest linked, leaves the node in no list |
| JsonList.InsertBefore | cJSON.c:2272-2283 | inserts into the sequence before a child |
| JsonList.InsertItemInArray | cJSON.c:2257-2284 | inserts before the index, or appends; a negative index, or appending a node to itself, changes nothing |
| JsonList.ReplaceItemViaPointer | cJSON.c:2286-2333 | updates the sequence at the place of the replaced node, also where it is the only one, the first or the last |
| JsonList.ApplyEdits | cJSON.c:1950-2333 | any run of these operations leaves the list the same operations make of the sequence |
| JsonList.WithoutLinked | cJSON.c:2181-2215 | the pointers a removal leaves are those of a linked list of the shorter sequence |
| JsonList.InsertedLinked | cJSON.c:2272-2283 | the same for an insertion |
| JsonList.ReplacedLinked | cJSON.c:2286-2333 | the same for a replacement |
| JsonNodes.StrungIsLinked | cJSON.c:1512-1517 | the lists that parsing and copying build satisfy the invariant of the list operations |
| JsonNodes.Extend | cJSON.c:1485-1491 | attaching a node behind the last one keeps everything built so far |
| JsonNodes.NewLast | cJSON.c:1472-1491 | a new node, empty, stands at the end of the list, or starts it |
| JsonNodes.CloseList | cJSON.c:1512-1517 | setting the head's prev to the tail completes the list |
| JsonNodes.Duplicate | cJSON.c:2682-2763 | with recursion the copy is a tree of new nodes, every list in it linked, that stands for the same value; without, one node without children; the original is not touched |
| JsonNodes.Finish | cJSON.c:1509-1517 | the list becomes the children of the array or object, linked, the values in it unchanged |
| EventLoop.RuruLoop.ArenaAlloc | RuruArena.cpp:21-36 | hands out the next blockSize bytes, or nothing if there are not that many or blockSize is not positive |
| EventLoop.RuruLoop.PushClientRecvData | RuruSctp.cpp:82-100 | copies the message into the arena and queues its event, or drops it; no other byte changes |
| EventLoop.RuruLoop.UpdateEvent | RuruLoop.cpp:106-120 | hands out the first event, or resets the arena if there is none |
| EventLoop.RuruLoop.ScanClientCacheData | RuruLoop.cpp:232-253 | on every hundredth call queues one event for each client with a backlog, in order |
| EventLoop.RuruLoop.Loop | RuruLoop.cpp:200-213 | one call is one step of the machine |
| EventMachine.StepKeepsGood | RuruLoop.cpp:106-253 | every step keeps the invariant of queue, arena and history |
| EventMachine.QueuedDataIsIntact | RuruSctp.cpp:82-100 | in every reachable state the messages accepted since the last reset lie whole, apart from each other and below pos, and the queued events are those of the messages not handed out |
| EventMachine.DeliveredInOrder | RuruLoop.cpp:106-120 | over every run the messages delivered are the first accepted ones in order, as their 16-bit length shows them, and those still queued are all the others in order |
| EventMachine.DeliveredWhole | RuruSctp.cpp:82-100 | over every run delivered and then queued messages are the accepted ones unchanged, exactly if every delivered one is shorter than 65536 bytes |
| EventMachine.DroppedForLackOfRoom | RuruArena.cpp:21-36 | a message is accepted exactly if it is not empty and fits, and otherwise nothing changes |
| EventMachine.SeenWhole | RuruSctp.cpp:82-100 | the 16-bit length shows a sequence of messages unchanged exactly if all are shorter than 65536 bytes |
| EventMachine.LongMessageCounterexample | RuruSctp.cpp:82-100 | a message of 65536 bytes is accepted and then delivered with no byte at all |
| EventMachine.HandedOut | RuruLoop.cpp:106-120 | what the caller finds behind a handed-out event is the message's data as far as its length goes |
| EventMachine.HandedOutSurvives | RuruLoop.cpp:106-120 | a handed-out event's bytes stay until a call finds the queue empty |
| EventMachine.CallsDrain | RuruLoop.cpp:200-213 | as many calls as events are queued deliver every accepted message |
| SendBacklog.RuruSctp.SendSctpCacheData | RuruSctp.cpp:204-235 | the loop computes the machine's step for any answers of the sends |
| SendBacklog.RuruSctp.SendUsrSctpData | RuruSctp.cpp:237-267 | the same for submitting a message |
| SendBacklog.RuruSctp.RecvUsrSctpData | RuruSctp.cpp:269-292 | an accepted connection completes the handshake, once |
| SendMachine.CacheMovesToWire | RuruSctp.cpp:204-235 | sending from the cache moves messages from its front to the wire and loses none; failing keeps the rest, and only a hard error ends the session |
| SendMachine.SendKeepsOrder | RuruSctp.cpp:237-267 | a message goes out directly only behind all that waited; if it does not, it waits last, unless its own send failed for good |
| SendMachine.NothingElseIsLost | RuruSctp.cpp:193-267 | over any run and any answers, sent and then cached messages are the submitted ones in order without exactly those whose own direct send failed for good |
| SendMachine.AllOnRecord | RuruSctp.cpp:237-267 | every submitted message is accounted for once and in order |
| SendMachine.SilentUntilHandshake | RuruSctp.cpp:204-292 | without a handshake nothing is sent or tried and everything submitted is cached |

## Left out

- Numbers that are not integers of at most 15 digits: their text stays an opaque literal (`Other`), because
  strtod, sprintf and the comparison of doubles are library calls.
- Equality of numbers in `cJSON_Compare` is a parameter; symmetry and reflexivity are assumed of it only where stated.
- Allocation failure, allocator hooks, `NULL` arguments, `cJSON_Raw`, reference items, constant keys and locales.
- Minifying a layout where nothing stands behind a string or key that ends in a backslash: what then happens to the
  tokens behind it is characterised for the printer's own layout only.
- Threads of usrsctp: every callback is a step of a single thread.
- DTLS, certificates, sockets, epoll, `HttpRequestHandle`, `BodyParse`, the ring buffer and the JSON constructors and
  type predicates, which would only add easy members.
- HttpScan.FindCharFast: the vector instruction is taken by its result; bytes are 0 to 255, whatever the sign of char.
- HttpParser.PhrParse: start line slices left behind on failure, and lengths beyond the range of int, are not modelled.
- JsonPrint.PrintBuffer.Ensure: the allocator never fails.
- JsonPrint.PrintBuffer.PrintStringPtr: a string is never `NULL`, which the code prints as an empty one.
- JsonPrint.PrintBuffer.PrintNumber: what sprintf makes of a number is given, as at most 25 bytes.
- JsonPrint.PrintBuffer.PrintValue: no raw items; numbers as in PrintNumber.
- JsonPrint.PrintBuffer.PrintArray: as PrintValue.
- JsonPrint.PrintBuffer.PrintObject: as PrintValue.
- JsonPrint.PrintPreallocated: as PrintValue.
- JsonPrint.PrintBuffered: as PrintValue, and `prebuffer` is not 0.
- JsonPrint.Print: as PrintValue.
- JsonParse.ParseWithLengthOpts: the length of a text that is not empty includes a terminating NUL, and the text is
  not `NULL`; so for all procedures of `ParseBuffer`.
- JsonParse.ParseBuffer.BufferSkipWhitespace: as ParseWithLengthOpts.
- JsonParse.ParseBuffer.ParseString: as ParseWithLengthOpts.
- JsonParse.ParseBuffer.ParseNumber: `valueint` and its saturation, and the value of literals that are no short integers.
- JsonParse.ParseBuffer.ParseValue: as ParseWithLengthOpts; nodes that a failed parse leaves behind are not freed.
- JsonCompare.CompareValues: two different nodes of one tree, one of them below the other.
- JsonList.InsertItemInArray: the code lets a node be put before one of its own children; the caller must not.
- JsonList.ReplaceItemViaPointer: the replaced node is left in no list; its deletion is not modelled.
- JsonNodes.Duplicate: references and constant keys.
- EventLoop.RuruLoop.PushClientRecvData: takes messages below 2^31 bytes, which its 32-bit length can hold.
- EventLoop.RuruLoop.ScanClientCacheData: the count of calls does not overflow, and which clients have a backlog is a
  parameter.
- EventLoop.RuruLoop.Loop: the packets and connections `EpollWait` reports are steps of their own.
- SendBacklog.RuruSctp.SendSctpCacheData: closing the socket on a hard error; each try to send takes the whole message
  or none of it.
- SendBacklog.RuruSctp.SendUsrSctpData: as SendSctpCacheData, and the message is never `NULL`.
- SendBacklog.RuruSctp.RecvUsrSctpData: only its effect on the handshake; closing and replacing sockets is not modelled.
