# breutil: a verified model

This project models the parts of the C++ library breutil that carry an algorithm or a protocol, and
proves what they promise, for all inputs and all runs. `dafny verify dfyconfig.toml` checks everything.
One module per component:

| component | modules |
|---|---|
| JSON values, parser, printer, lenient pre-pass | `JsonValue`, `JsonGrammar`, `JsonParser`, `JsonCompleteness`, `JsonSoundness`, `JsonGenerator`, `JsonRoundTrip`, `JsonSpelling`, `JsonDoubles`, `JsonEscapes`, `JsonLenient`, `JsonHarmless`, `JsonExact`, `JsonComments`, `JsonCommas`, `JsonPrinted`, `Utf8` |
| framed TCP session (callback version) | `NetHeader`, `TcpSession`, `TcpRuns` |
| monitors with condition variables | `BlockQueue`, `BlockQueueCalls`, `ThreadPool` |
| byte buffer | `Buffer` |
| text codecs | `Base64`, `Ip`, `Ipv6`, `StrConv`, `StrQuote`, `StringUtil`, `Digits` |
| configuration store | `Config`, `ConfigRuns`, `KeyOrder` |
| shared | `Wrappers` |

Code that changes state is a class whose methods are proved against functions of the old state; the
theorems are then about those functions. Concurrent code is a class for its critical sections plus a
step relation: a state lists the threads that sleep, that were woken and that are inside a call, each
critical section is one step, each notification made outside the lock is a step of its own, and a run is
any sequence of enabled steps.

The main results:

- **JSON.** Strict parsing returns v exactly on the inputs that begin with a text, of an explicit
  grammar, that denotes v; what follows that text is ignored, unless it prolongs a number
  (`ParsesExactly`). With nothing but whitespace after it, the input is a text of the grammar
  (`AcceptsExactlyGrammar`). An RFC 8259 text is such a text exactly when each of its numbers is a
  32-bit integer or one the conversion to doubles reads (`Rfc8259Valid`, `Rfc8259Parses`), so always
  when its numbers are 32-bit integers. Strict parsing of printed text gives the value back under
  `operator==`, for any indent width, any order of members and any bytes in strings (`ParseGenerated`,
  `RoundTrip`); with doubles in it, exactly when each of them is read back from its spelling
  (`RoundTripExactly`). Printed text has the line breaks, indents, escapes and order of members that the
  options ask for, at every depth (`PrintedIsSpelled`). Lenient parsing of printed text gives the value
  back exactly when the guards that drop a comma or open a comment hold nowhere in it
  (`LenientExactly`), which is so unless a string ends in a backslash or has a quote right after one
  (`LenientRoundTrip`). Lenient parsing reads through comments (`CommentsAreSkipped`), and through
  trailing commas exactly when the filter's two bracket flags cover each of them
  (`TrailingCommasExactly`). Printed text is RFC 8259 exactly when no string holds a control character
  other than the five that are escaped (`PrintedIsRfcExactly`).
- **TCP.** In every reachable state of two sessions over a byte stream the delivered messages are a
  prefix of the non-empty payloads sent, with one write out at a time, and nothing is lost when the line
  is quiet, as long as each payload is below 2^32 bytes. That bound is exact: payloads can all arrive if
  and only if each is below it (`ArriveExactly`). Left to themselves the sessions come to rest, and then
  everything sent has been delivered (`InternalStepsEnd`, `RestMeansDelivered`). A failure closes a
  session for good and is announced once (`FailureEndsSession`, `DisconnectsOnce`).
- **BlockQueue, ThreadPool.** No wakeup is lost, items and tasks are conserved, each task is executed
  exactly once, `WaitAll` passes exactly when all accepted tasks have finished, and shutdown drains the
  queue. A batch push gives up only on a closed or full queue. Each monitor, left to itself, comes to
  rest after finitely many steps, and at rest every task is done and every call that could go on has
  returned (`RestMeansDone`, `RestMeansBlocked`).
- **Buffer** refines a byte sequence, with a bound on its capacity by the peak size.
- **Codecs.** A Base64 text is the number its bytes make, in base 64; validation accepts exactly the
  encoder's image and both directions are inverse; IPv6 parsing accepts exactly a stated language and
  printing gives the one text of RFC 5952; the validity test on address bytes holds exactly of 4 and 16
  bytes; integers and quoted strings come back from their text.
- **Config** behaves as a flat map from key paths over every run.

Where the code and its documentation disagree, the model follows the code:

- strict mode is documented to allow neither comments nor trailing commas, and the files that the JSON
  tests say must be rejected include an extra closing bracket and a comma after the value; but text
  after the value is never looked at, so such inputs are accepted (`TrailingTextIsIgnored`,
  `ExtraCloseIsAccepted`);
- trailing commas are documented as refused in strict mode only, and the comma filter as dropping them;
  but the filter keeps one flag for
  square brackets and one for braces, so closing an inner array makes it forget the outer one, the comma
  stays and the parse fails: the trailing comma of a text that is an array, with no other trailing comma
  in it, is read if and only if no item holds an array (`TrailingCommasExactly`, `ArrayCommaExactly`,
  `NestedCommaIsRefused`);
- a configuration key that only leads to a registered one can be set, although the header says that
  unregistered keys are refused (`UnknownExactly`, `UnregisteredPrefixIsSettable`);
- `GetAllKeys` is documented as alphabetical; it is ordered part by part, which is alphabetical exactly
  when no two paths clash (`AllKeysAfter`, `ListAlphabeticalExactly`), as "a.b" and "a-b" do
  (`ListedOutOfOrder`);
- a key registered with an empty validator throws on `Get` after `Reset`, where no value is documented
  (`ResetRestores`); if its type is an enumeration or a C string, `Get` throws from the start
  (`GetAfterRegister`).

Surprising behaviour that nothing documents:

- the signed integer parser takes its product modulo 2^64 before it compares it with the limit, so
  `"18446744073709551620"` reads as 4 (`WrappedNumeral`); `ParseIntExact` says exactly which numbers are
  affected;
- with base 0, octal digits after a leading zero are read as an octal number, but `"0"` itself is
  refused (`OctalByPrefix`);
- a colon after the last IPv6 group is let through (`TrailingColonAccepted`);
- a lone low surrogate in a JSON escape is emitted as three octets that are not UTF-8 (`LoneSurrogate`);
- a payload of 2^32 bytes or more never arrives as it was sent (`DeliveredSizes`); unless its size is a
  multiple of 2^32, a piece of it can arrive as a message of its own (`OversizedPayloadIsCut`);
- while a `Close` of the blocking queue is between setting its flag and notifying, a woken producer can
  leave without filling the free slot (`ClosingLeavesSlot`); the producers' half of `NoWakeupIsLost` is
  therefore about open queues, and the sleeper is covered by the notification still to come.

Characters stand for bytes. Library routines are function parameters: `std::from_chars` and
`std::to_string` on doubles, `sscanf("%2x")`, and stream extraction. Of `std::from_chars`
`Rfc8259Parses` asks that it reads the numbers of the text at hand that are not 32-bit integers; of
`std::to_string` the results on printed text ask that it writes the doubles of the value at hand in
fixed point, as it does for finite ones, and the round trips that these spellings are read back; quoting
asks of `sscanf` that it reads two hexadecimal digits as their value; IPv4 text asks of the stream that
it reads a number as printed, and the dot after it.

## Model

| member | source | states |
|---|---|---|
| `JsonValue.EqualIffSameMeaning` | breutil/json/json_tool.hpp:23-64 | `operator==` on well-formed values holds exactly when both denote the same abstract JSON value, whatever the iteration orders of their hash tables, and hold no NaN |
| `JsonGrammar.LastDuplicateWins` | breutil/json/json_parse.hpp:319 | a key of an object text denotes the value of its last occurrence |
| `Utf8.EncodeIsRfc3629` | breutil/json/json_parse.hpp:248-264 | the emitted bytes are the one octet sequence that represents the code point by section 3 of RFC 3629; surrogates, which the section gives no sequence, have none |
| `Utf8.LoneSurrogate` | breutil/json/json_parse.hpp:253-256 | for a surrogate three octets are emitted, the first of them ED, that represent no code point |
| `JsonEscapes.ShortEscapesExactly` | breutil/json/json_parse.hpp:161-194 | an escape other than `\u` is read as a character if and only if that pair is among the eight of section 7 of RFC 8259, and fails otherwise |
| `JsonEscapes.SpacesExactly` | breutil/json/json_parse.hpp:417-422 | whitespace is exactly the six characters of `std::isspace` |
| `JsonEscapes.UnicodeExactly` | breutil/json/json_parse.hpp:211-266 | a `\u` escape is read as these octets if and only if it spells, by four hexadecimal digits or by a surrogate pair, the code point that the octets are the UTF-8 layout of |
| `JsonParser.Parser.SkipWhitespace` | breutil/json/json_parse.hpp:417-422 | the cursor stops at the first character that is not a space, by the recursive definition |
| `JsonParser.Parser.Expect` | breutil/json/json_parse.hpp:424-430 | succeeds exactly when the expected text stands at the cursor, and then moves past it |
| `JsonParser.Parser.ParseNumber` | breutil/json/json_parse.hpp:91-148 | result and cursor are those of the specification parse of a number |
| `JsonParser.Parser.ParseUnicode` | breutil/json/json_parse.hpp:211-266 | result and cursor are those of the specification parse of a `\u` escape, surrogate pairs included |
| `JsonParser.Parser.ParseEscape` | breutil/json/json_parse.hpp:158-194 | result and cursor are those of the specification parse of one escape, whose table is fixed by `JsonEscapes.ShortEscapesExactly` |
| `JsonParser.Parser.ParseStringContent` | breutil/json/json_parse.hpp:152-209 | result and cursor are those of the specification parse of a string body |
| `JsonParser.Parser.ParseValue` | breutil/json/json_parse.hpp:40-89 | result and cursor are those of `ValueAt`; terminates on every input with the cursor inside it |
| `JsonParser.Parser.ParseArray` | breutil/json/json_parse.hpp:268-295 | result and cursor are those of the specification parse of an array |
| `JsonParser.Parser.ParseKey` | breutil/json/json_parse.hpp:309-317 | result and cursor are those of the specification parse of a key and its colon |
| `JsonParser.Parser.ParseMember` | breutil/json/json_parse.hpp:308-318 | result and cursor are those of the specification parse of one member |
| `JsonParser.Parser.ParseObject` | breutil/json/json_parse.hpp:297-336 | result and cursor are those of the specification parse of an object, a later key replacing an earlier one |
| `JsonParser.Parser.ParseSeparator` | breutil/json/json_parse.hpp:281-291 | a comma with the space around it, or the closing bracket, or a failure |
| `JsonParser.ValueAt` | breutil/json/json_parse.hpp:40-89 | a successful parse moves the cursor strictly forward and never past the end |
| `JsonCompleteness.NumberComplete` | breutil/json/json_parse.hpp:91-148 | every number of the grammar is read to its end with the value it denotes, whatever follows that does not prolong this number |
| `JsonCompleteness.BodyComplete` | breutil/json/json_parse.hpp:152-209 | every sequence of characters and escapes of the grammar is read to its closing quote as the bytes it denotes |
| `JsonCompleteness.ValueComplete` | breutil/json/json_parse.hpp:40-336 | every text of the grammar, at any place in the input, after any whitespace and before anything that does not prolong it, is read to its end with the value it denotes |
| `JsonCompleteness.TextParses` | breutil/json/json_parse.hpp:15-18 | a text at the start of the input parses to the value it denotes and the cursor stops right after it, whatever follows that does not prolong a number |
| `JsonCompleteness.Rfc8259Valid` | breutil/json/json_parse.hpp:91-148 | a text of sections 2 to 7 of RFC 8259 with paired surrogates is a text of the grammar if and only if each of its numbers is a 32-bit integer or is read as a double |
| `JsonCompleteness.Rfc8259Parses` | breutil/json/json_parse.hpp:40-336 | such a text, with whitespace around it, parses to the value it denotes and the cursor stops right after it |
| `JsonCompleteness.Rfc8259IntegersParse` | breutil/json/json_parse.hpp:126-136 | with 32-bit integers only this holds whatever the conversion to doubles does |
| `JsonSoundness.NumberSound` | breutil/json/json_parse.hpp:91-148 | whatever the number routine accepts is a number of the grammar with that value, and what follows does not prolong it |
| `JsonSoundness.BodySound` | breutil/json/json_parse.hpp:152-209 | whatever the string routine accepts is a string of the grammar with those bytes |
| `JsonSoundness.ValueSound` | breutil/json/json_parse.hpp:40-336 | whatever the parser accepts begins with whitespace and a text of the grammar that denotes the result, and what follows does not prolong it |
| `JsonSoundness.ParsesExactly` | breutil/json/json_parse.hpp:15-18 | strict parsing returns v if and only if the input begins with whitespace and a text of the grammar that denotes v, followed by anything that does not prolong it |
| `JsonSoundness.AcceptsExactlyGrammar` | breutil/json/json_parse.hpp:40-336 | it returns v and leaves nothing but whitespace if and only if the input is a text of the grammar that denotes v, with whitespace around it |
| `JsonSoundness.TrailingTextIsIgnored` | breutil/json/json_parse.hpp:15-18 | a text followed by anything that is not whitespace and does not prolong it parses, although the input is no text of the grammar |
| `JsonSoundness.ExtraCloseIsAccepted` | breutil/json.hpp:12-13 | a second closing bracket, or a comma, after an array is accepted |
| `KeyOrder.FirstDifferenceDecides` | breutil/json/json_generator.hpp:122-126 | a key is below another one exactly when they agree up to a place where the first one ends or has the smaller character |
| `JsonGenerator.SortAscends` | breutil/json/json_generator.hpp:118-127 | sorting the members puts them in key order |
| `JsonGenerator.VisitInOrder` | breutil/json/json_generator.hpp:118-140 | with sorting the members are visited in key order, without it in table order |
| `JsonGenerator.Generator.AppendIndent` | breutil/json/json_generator.hpp:41 | the indent is appended and nothing else changes |
| `JsonGenerator.Generator.AppendQuotedString` | breutil/json/json_generator.hpp:146-184 | the loop over runs appends the character-by-character quotation |
| `JsonGenerator.Generator.AppendValue` | breutil/json/json_generator.hpp:53-79 | the specified text of the value is appended |
| `JsonGenerator.Generator.AppendArray` | breutil/json/json_generator.hpp:81-97 | the specified text of the array is appended |
| `JsonGenerator.Generator.AppendMember` | breutil/json/json_generator.hpp:99-104 | the specified text of the member is appended |
| `JsonGenerator.Generator.AppendEntries` | breutil/json/json_generator.hpp:116-140 | the loop over the members, sorted or not, appends the text up to the closing brace |
| `JsonGenerator.Generator.AppendEntry` | breutil/json/json_generator.hpp:130-132 | a member, the comma when another one follows, and the line break are appended |
| `JsonGenerator.Generator.AppendObject` | breutil/json/json_generator.hpp:106-144 | the specified text of the object is appended, members in visiting order |
| `JsonGenerator.Generate` | breutil/json/json_generator.hpp:19-25 | the result is the specified text at level 0, with the indent width only when pretty; `JsonSpelling.PrintedIsSpelled` says what that text is |
| `JsonRoundTrip.LayoutText` | breutil/json/json_generator.hpp:53-184 | the printed text is the text of a grammar tree built from the value |
| `JsonRoundTrip.LayoutDenotes` | breutil/json/json_generator.hpp:53-184 | that tree is valid and denotes the printed value |
| `JsonRoundTrip.VisitKeepsMeaning` | breutil/json/json_generator.hpp:118-140 | visiting members in key order does not change what the object denotes |
| `JsonRoundTrip.ParseGenerated` | breutil/json/json_parse.hpp:40-336 | strict parsing of the printed text of a value, whose doubles are spelled in fixed point and read back, gives its meaning and stops at the end of the text |
| `JsonRoundTrip.RoundTrip` | breutil/json/json_tool.hpp:17-64 | the parsed value is equal to the printed one under `operator==` |
| `JsonRoundTrip.NoDoublesReadBack` | breutil/json/json_generator.hpp:63-66 | of a value without doubles nothing is asked |
| `JsonDoubles.RoundTripExactly` | breutil/json/json_generator.hpp:63-66 | strict parsing of printed text gives the value back if and only if each of its doubles is what the conversion makes of its spelling |
| `JsonSpelling.PrintedIsSpelled` | breutil/json/json_generator.hpp:41-184 | the printed text is the text of a tree in which, at every depth, members are in key order (or in table order), every item and member and the closing bracket stand on a line with the indent of their depth (or none when compact), a space follows the colon only when indented, characters are spelled by the seven escapes or as themselves, and integers without leading zeros |
| `JsonLenient.RemoveTailCommaLoop` | breutil/json/json_parse.hpp:339-376 | the loop computes the recursive comma filter |
| `JsonLenient.ClosesAfterSpace` | breutil/json/json_parse.hpp:364-370 | true exactly when only spaces stand between the comma and a closing bracket |
| `JsonLenient.RemoveCommentsLoop` | breutil/json/json_parse.hpp:379-415 | the loop computes the recursive comment filter |
| `JsonLenient.QuietUnchanged` | breutil/json/json_parse.hpp:339-415 | text without a trailing comma or comment opener outside strings, as each filter sees strings, passes both filters unchanged |
| `JsonLenient.UnchangedExactly` | breutil/json/json_parse.hpp:363-371 | each filter leaves a text as it is if and only if its guard, for dropping a comma or for opening a comment, holds at no position |
| `JsonHarmless.LenientIsStrict` | breutil/json/json_parse.hpp:15-24 | on every grammar text with clean strings the filters change nothing and lenient parsing agrees with strict parsing |
| `JsonHarmless.LenientRoundTrip` | breutil/json/json_parse.hpp:20-22 | lenient parsing of the printed text of a value with clean strings and doubles that read back returns the value, even with quotes, comment openers or `,]` in strings |
| `JsonHarmless.NoBackslashIsClean` | breutil/json/json_parse.hpp:350 | values without backslashes are clean |
| `JsonHarmless.CommaFilterChangesValue` | breutil/json/json_parse.hpp:350-370 | after a string that ends in a backslash the comma filter drops a comma inside the next string: another value results |
| `JsonHarmless.CommentFilterLosesValue` | breutil/json/json_parse.hpp:398-404 | a backslash before a quote in a string ends the string for the comment filter: the parse fails |
| `JsonExact.ReadNeedsMarks` | breutil/json/json_parse.hpp:40-336 | a text in the printer's spelling that the parser reads as a value has at least the commas and slashes of the printed text |
| `JsonExact.SameValueSameText` | breutil/json/json_parse.hpp:15-24 | if lenient parsing of printed text gives the value, neither filter changed the text |
| `JsonExact.LenientExactly` | breutil/json/json_parse.hpp:15-24 | lenient parsing of the printed text of a value, whose doubles read back, gives the value if and only if the guards of the two filters hold nowhere in the text |
| `JsonComments.CommentsAreSkipped` | breutil/json/json_parse.hpp:378-415 | comments free of quotes, wherever whitespace may stand in a clean text, are taken out, and lenient parsing gives the value of the text without them, even when the comma filter has taken commas out of the comments |
| `JsonCommas.TrailingCommasExactly` | breutil/json/json_parse.hpp:338-376 | a clean text with trailing commas parses leniently to the value of the text without them if the two flags cover every one of the commas, and fails otherwise |
| `JsonCommas.FlagsSurvive` | breutil/json/json_parse.hpp:353-362 | a flag is still set after a text exactly when it was set before and the text has no bracket of its kind |
| `JsonCommas.ArrayCommaExactly` | breutil/json/json_parse.hpp:340-343 | the trailing comma of an array, with none further in, is read if and only if no item holds an array |
| `JsonCommas.NestedCommaIsRefused` | breutil/json/json_parse.hpp:340-343 | `[[],]` is refused and `[{},]` is not |
| `JsonPrinted.PrintedIsRfcExactly` | breutil/json/json_generator.hpp:146-184 | the printed text of a value is an RFC 8259 text if and only if no key or string holds a control character other than the five that are escaped |
| `NetHeader.HeaderRoundTrip` | breutil/net/net_header.hpp:29-53 | parsing a written header gives its size back if and only if the size is below 2^32 |
| `NetHeader.HeaderLayout` | breutil/net/net_header.hpp:11-14 | byte by byte: the letters B, R, E, Z, the size from its least significant byte on, zeros; and the size is read from those bytes of any data that is long enough and begins so |
| `NetHeader.Header.constructor` | breutil/net/net_header.hpp:21-27 | a fresh header carries the magic and size 0 |
| `NetHeader.Header.Parse` | breutil/net/net_header.hpp:29-45 | accepts exactly 32 bytes or more with the magic, and reads the little-endian size |
| `NetHeader.Header.GetHeaderData` | breutil/net/net_header.hpp:49-53 | the header of the size modulo 2^32 |
| `TcpSession.TCPSession.constructor` | breutil/net/tcp/tcp_session_impl_v1.hpp:164-171 | the initial session |
| `TcpSession.TCPSession.Send` | breutil/net/tcp/tcp_session_impl_v1.hpp:127-146 | the step Send: header and payload posted, unless closed |
| `TcpSession.TCPSession.RunStrand` | breutil/net/tcp/tcp_session_impl_v1.hpp:143-145 | the step that executes the oldest post |
| `TcpSession.TCPSession.EnqueueWrite` | breutil/net/tcp/tcp_session_impl_v1.hpp:246-253 | appends to the write queue and starts a write when none is out |
| `TcpSession.TCPSession.DoWrite` | breutil/net/tcp/tcp_session_impl_v1.hpp:255-275 | writes the front of the queue, or clears the flag when there is none |
| `TcpSession.TCPSession.OnWritten` | breutil/net/tcp/tcp_session_impl_v1.hpp:274-291 | the steps that complete a write |
| `TcpSession.TCPSession.OnWriteFailed` | breutil/net/tcp/tcp_session_impl_v1.hpp:280-287 | a failed write clears the flag and stops the session, an aborted one does nothing |
| `TcpSession.TCPSession.Stop` | breutil/net/tcp/tcp_session_impl_v1.hpp:108-125 | closes once |
| `TcpSession.TCPSession.Start` | breutil/net/tcp/tcp_session_impl_v1.hpp:90-103 | starts reading once, unless closed |
| `TcpSession.TCPSession.OnHeader` | breutil/net/tcp/tcp_session_impl_v1.hpp:190-215 | the step that completes a header read |
| `TcpSession.TCPSession.AsyncReadData` | breutil/net/tcp/tcp_session_impl_v1.hpp:217-226 | a length of zero goes back to reading a header |
| `TcpSession.TCPSession.OnBody` | breutil/net/tcp/tcp_session_impl_v1.hpp:226-243 | the step that completes a body read and delivers the message |
| `TcpSession.TCPSession.OnReadFailed` | breutil/net/tcp/tcp_session_impl_v1.hpp:194-202 | the step ReadFailed, which by `TcpRuns.FailureCloses` closes the session unless the read was aborted |
| `TcpSession.StepKeepsSender` | breutil/net/tcp/tcp_session_impl_v1.hpp:127-292 | every step keeps the sender invariant: queue and posts are the frames not yet written, the wire ends in a part of the front one |
| `TcpSession.ReceiverStepKeeps` | breutil/net/tcp/tcp_session_impl_v1.hpp:190-244 | every step keeps the receiver invariant: the reader stands at the boundary of the frame it counted to, or inside it |
| `TcpSession.RunKeeps` | breutil/net/tcp/tcp_session_impl_v1.hpp:127-292 | both invariants hold in every reachable state of the two sessions, in both directions |
| `TcpSession.DeliveredIsPrefix` | breutil/net/tcp/tcp_session_impl_v1.hpp:127-146 | in every reachable state the delivered messages are a prefix, in order, of the non-empty payloads sent, each below 2^32 bytes |
| `TcpSession.OneWriteInFlight` | breutil/net/tcp/tcp_session_impl_v1.hpp:246-292 | of each open session the flag holds exactly when a write is out, and that write is the queue front |
| `TcpSession.QuietMeansDelivered` | breutil/net/tcp/tcp_session_impl_v1.hpp:190-292 | in each direction, when an open sender is idle and the reader has nothing unread, every non-empty payload was delivered |
| `TcpSession.OversizedPayloadIsCut` | breutil/net/net_header.hpp:49-53 | for every payload of 2^32 bytes or more, not a multiple of 2^32, some run delivers a piece of it as a message |
| `TcpSession.DeliveredSizes` | breutil/net/tcp/tcp_session_impl_v1.hpp:213-240 | no run delivers an empty message or one of 2^32 bytes or more |
| `TcpSession.ArriveExactly` | breutil/net/tcp/tcp_session_impl_v1.hpp:127-146 | some run sends these payloads and delivers all the non-empty ones if and only if each is below 2^32 bytes |
| `TcpSession.OneArrivesExactly` | breutil/net/tcp/tcp_session_impl_v1.hpp:127-146 | some run delivers a payload as the one message if and only if it has 1 to 2^32 - 1 bytes |
| `TcpRuns.FailureCloses` | breutil/net/tcp/tcp_session_impl_v1.hpp:194-212 | a failed read or write, a header without the magic and Stop close the session |
| `TcpRuns.OnlyFailuresClose` | breutil/net/tcp/tcp_session_impl_v1.hpp:127-292 | nothing else closes it, and an aborted operation has no other effect than to end |
| `TcpRuns.StopInTwoHalves` | breutil/net/tcp/tcp_session_impl_v1.hpp:108-125 | Stop run to its end is its two steps |
| `TcpRuns.ShutForever` | breutil/net/tcp/tcp_session_impl_v1.hpp:108-132 | in every later state a closed session is closed, has accepted nothing more and was not started, and a closed socket has sent nothing more; for both sessions |
| `TcpRuns.FailureEndsSession` | breutil/net/tcp/tcp_session_impl_v1.hpp:194-233 | in every state after a failure the session is closed and has accepted nothing more; for both sessions |
| `TcpRuns.DisconnectsOnce` | breutil/net/tcp/tcp_session_impl_v1.hpp:122-124 | in every reachable state the disconnect callback has been called once if the session is closed and no Stop is under way, and never otherwise; the socket is closed then |
| `TcpRuns.InternalStepsEnd` | breutil/net/tcp/tcp_session_impl_v1.hpp:190-292 | every step that is no new call and no failure decreases a lexicographic measure, so sessions left to themselves come to rest |
| `TcpRuns.RestMeansDelivered` | breutil/net/tcp/tcp_session_impl_v1.hpp:190-292 | at rest every non-empty payload below 2^32 bytes that an open session accepted has been delivered to the other one, if that one reads; in both directions |
| `BlockQueue.BlockQueue.TryPush` | breutil/block_queue.hpp:92-100 | accepts exactly when open and not full, and appends the item; this is the TryPush step of the run model |
| `BlockQueue.BlockQueue.TryPop` | breutil/block_queue.hpp:170-179 | takes the front item, if any; this is the TryPop step |
| `BlockQueue.BlockQueue.PushAll` | breutil/block_queue.hpp:240-248 | the batch under one lock: all of it when it fits an open queue, otherwise nothing; this is the first step of a batch push |
| `BlockQueue.BlockQueue.PushRange` | breutil/block_queue.hpp:233-259 | an undisturbed batch push puts in the first elements, as many as there are free slots, none on a closed queue |
| `BlockQueue.BlockQueue.PopUpTo` | breutil/block_queue.hpp:269-274 | takes the front items up to the limit, in order; this is the step of a batch pop that does not wait |
| `BlockQueue.BlockQueue.Push` | breutil/block_queue.hpp:112-122 | a push that has waited: fails on a closed queue, otherwise appends; this is the Push step |
| `BlockQueue.BlockQueue.Clear` | breutil/block_queue.hpp:26-30 | empties the queue; this is the Clear step |
| `BlockQueue.BlockQueue.SetCapacity` | breutil/block_queue.hpp:67-73 | sets the capacity; this is the SetCapacity step |
| `BlockQueue.BlockQueue.Close` | breutil/block_queue.hpp:43-46 | sets the flag; this is the first step of Close |
| `BlockQueue.StepKeepsWakeups` | breutil/block_queue.hpp:26-279 | every step other than Peek and a zero batch keeps the wakeup invariant |
| `BlockQueue.NoWakeupIsLost` | breutil/block_queue.hpp:92-279 | a consumer sleeps only with as many woken consumers as queued items; a producer sleeps on an open queue only with as many woken producers as free slots; once Close has notified nobody sleeps |
| `BlockQueue.PeekLosesWakeup` | breutil/block_queue.hpp:197-209 | a run with Peek ends with an item queued, a pop asleep and nobody woken |
| `BlockQueue.ClosingLeavesSlot` | breutil/block_queue.hpp:42-49 | a run inside a Close in which a producer sleeps beside a free slot with nobody woken |
| `BlockQueue.RunIsSafe` | breutil/block_queue.hpp:26-279 | in every run accepted items are the removed ones in order followed by the queue, and nothing is accepted after close |
| `BlockQueue.PushRespectsCapacity` | breutil/block_queue.hpp:92-167 | no push takes the size above the capacity of that moment |
| `BlockQueue.BatchPushAcceptsPrefix` | breutil/block_queue.hpp:233-259 | a batch push that returned k accepted exactly its first k elements, in order, whatever came between; how large k is, say the next two |
| `BlockQueueCalls.ShortBatchMetFullQueue` | breutil/block_queue.hpp:250-258 | in every run a batch push that returned fewer elements than it was given returned from a state in which the queue was closed or full |
| `BlockQueueCalls.UndisturbedBatch` | breutil/block_queue.hpp:233-259 | with no other step between its own, a batch push returns the smaller of its size and the free slots, and has put in that many elements from the front; none on a closed queue |
| `BlockQueueCalls.PushOutcome` | breutil/block_queue.hpp:92-167 | a push leaves once the queue is closed or has room or its time is up, and leaves its item at the end of the queue exactly if the queue is open and not full then; a call that waits keeps waiting |
| `BlockQueueCalls.PopOutcome` | breutil/block_queue.hpp:170-279 | a pop leaves once the queue is closed or has an item or its time is up, and takes from the front what there is up to its maximum |
| `BlockQueueCalls.OthersKeepWaiting` | breutil/block_queue.hpp:26-290 | no other step adds or removes a waiting call |
| `BlockQueueCalls.NotifyOutcome` | breutil/block_queue.hpp:281-288 | Flush wakes one sleeping consumer, NotifyAll everybody |
| `BlockQueueCalls.WokenForAReason` | breutil/block_queue.hpp:26-288 | spurious wakeups apart, a call is woken only where what it waits for may have become true, or by an explicit notification |
| `BlockQueueCalls.InternalStepsEnd` | breutil/block_queue.hpp:26-279 | every step of a call that is under way decreases a lexicographic measure, so the queue comes to rest when nobody calls it |
| `BlockQueueCalls.RestMeansBlocked` | breutil/block_queue.hpp:92-279 | at rest no batch push and no Close is under way, a push waits only on an open full queue and a pop only on an open empty one |
| `ThreadPool.Pool.Enqueue` | breutil/thread_pool.hpp:132-141 | accepts unless stopped: queues the task and counts it; this is the Enqueue step of the run model |
| `ThreadPool.Pool.Take` | breutil/thread_pool.hpp:103-106 | takes the oldest task, or none when stopped and empty; this is the step of a worker that holds the lock |
| `ThreadPool.Pool.CountOff` | breutil/thread_pool.hpp:113-119 | counts one task off and notifies the waiters at zero; this is the CountOff step |
| `ThreadPool.Pool.SetStop` | breutil/thread_pool.hpp:77-80 | sets the flag; this is the first step of the destructor |
| `ThreadPool.StepKeeps` | breutil/thread_pool.hpp:69-144 | every step of workers, callers, waiters and the destructor keeps the invariant |
| `ThreadPool.NoWakeupIsLost` | breutil/thread_pool.hpp:69-144 | a worker sleeps only when woken workers and outstanding notifications cover the queue; after stop only while the destructor still has to notify; no waiter sleeps with nothing unfinished |
| `ThreadPool.CountersExact` | breutil/thread_pool.hpp:109-119 | unfinished equals queued plus held, active equals running, so neither counter goes below zero |
| `ThreadPool.ExactlyOnce` | breutil/thread_pool.hpp:95-120 | an accepted task is queued, held by one worker or finished, in one place only, and is started exactly once by the time it is finished |
| `ThreadPool.Pool.Passes` | breutil/thread_pool.hpp:71-73 | the test of WaitAll; a call passes, and a woken one leaves, exactly when it holds |
| `ThreadPool.WaitAllPassesExactly` | breutil/thread_pool.hpp:69-74 | in every run a WaitAll call passes, and a woken one leaves, if and only if the finished tasks are exactly those accepted so far |
| `ThreadPool.WaitAllOutcome` | breutil/thread_pool.hpp:69-74 | a WaitAll call stays inside exactly while something is unfinished, and is woken, spurious wakeups apart, only when nothing is |
| `ThreadPool.EnqueueOutcome` | breutil/thread_pool.hpp:132-144 | Enqueue accepts a task and owes one notification exactly when the pool is not stopped |
| `ThreadPool.StoppedForever` | breutil/thread_pool.hpp:76-80 | from the first step of the destructor on nothing is accepted |
| `ThreadPool.QueueInOrder` | breutil/thread_pool.hpp:89-106 | a pool has the workers it was made with, two if none were asked for, and its queue holds the tasks not yet taken in the order of acceptance |
| `ThreadPool.InternalStepsEnd` | breutil/thread_pool.hpp:69-144 | every step that is no new call and no spurious wakeup decreases a lexicographic measure, so the pool comes to rest when nobody calls it |
| `ThreadPool.RestMeansDone` | breutil/thread_pool.hpp:69-144 | at rest every accepted task has finished, every WaitAll call has left, and after the destructor has begun every worker has exited |
| `ThreadPool.ShutdownDrains` | breutil/thread_pool.hpp:76-87 | when all workers have exited the queue is empty and every accepted task has finished |
| `ThreadPool.QueueHasWorker` | breutil/thread_pool.hpp:99-106 | while a task is queued and every notification was made, some worker is awake |
| `Buffer.SlideIsSafe` | breutil/buffer.hpp:404-417 | the sliding branch is reached only with the read index above 8, so the forward copy is safe, and leaves room |
| `Buffer.EnsuredHasRoom` | breutil/buffer.hpp:332-336 | afterwards there is room, the size is kept and the array did not shrink |
| `Buffer.Buffer.constructor` | breutil/buffer.hpp:163-168 | an empty buffer of 8 bytes more than asked for |
| `Buffer.Buffer.RetrieveAll` | breutil/buffer.hpp:288-291 | nothing is readable any more |
| `Buffer.Buffer.Retrieve` | breutil/buffer.hpp:267-273 | the readable bytes without the first ones; all of them when too many are asked for |
| `Buffer.Buffer.RetrieveUntil` | breutil/buffer.hpp:279-283 | the readable bytes from the position on; nothing happens outside them |
| `Buffer.Buffer.RetrieveAsString` | breutil/buffer.hpp:304-311 | returns and removes the first readable bytes |
| `Buffer.Buffer.RetrieveAllAsString` | breutil/buffer.hpp:296-298 | returns and removes all readable bytes |
| `Buffer.Buffer.Slide` | breutil/buffer.hpp:408-416 | the element-by-element forward copy keeps the readable bytes |
| `Buffer.Buffer.Grow` | breutil/buffer.hpp:405-407 | a larger array with the same bytes and indices |
| `Buffer.Buffer.MakeSpace` | breutil/buffer.hpp:404-417 | room is made and the readable bytes are kept |
| `Buffer.Buffer.EnsureWritableBytes` | breutil/buffer.hpp:332-336 | room for the bytes, readable bytes kept |
| `Buffer.Buffer.HasWritten` | breutil/buffer.hpp:342-346 | moves the write index when that stays inside the array |
| `Buffer.Buffer.Append` | breutil/buffer.hpp:318-322 | the readable bytes followed by the new ones |
| `Buffer.Buffer.Prepend` | breutil/buffer.hpp:367-374 | the new bytes followed by the readable ones, or a refusal that changes nothing |
| `Buffer.Buffer.Shrink` | breutil/buffer.hpp:379-387 | an array of exactly the size asked for with the same readable bytes |
| `Buffer.Buffer.FindCRLF` | breutil/buffer.hpp:244-255 | the first CR LF at or after the start, or none |
| `Buffer.SizesAgree` | breutil/buffer.hpp:267-387 | the indices after an operation are as far apart as the bytes of the plain sequence are many |
| `Buffer.SpaceOutcome` | breutil/buffer.hpp:332-417 | eight bytes are free in front after everything was read, after sliding and after shrinking; the array grows only when the free bytes, less eight, are too few, and then just enough; shrinking leaves exactly the reserve behind |
| `Buffer.Perform` | breutil/buffer.hpp:267-417 | one operation on an object changes the readable bytes as it would a plain byte sequence, and the indices as specified; only a prepend larger than the space in front is refused |
| `Buffer.Drive` | breutil/buffer.hpp:267-417 | over every run the readable bytes of an object are those of a plain byte sequence, and its indices stay in order inside an array of at least 8 bytes |
| `Buffer.CapacityBound` | breutil/buffer.hpp:318-417 | over every run of appends, prepends and retrieves the capacity is at most max(8 + initialSize, 2 * peak + 7) |
| `Base64.AlphabetIsDigits` | breutil/encoding/base64.hpp:90-91 | the alphabet string lists the digits in order |
| `Base64.DecodeRoundTrip` | breutil/encoding/base64.hpp:30-58 | the decode table inverts the alphabet |
| `Base64.EncodesTheNumber` | breutil/encoding/base64.hpp:159-189 | section 4 of RFC 4648: the digits, characters of the alphabet, are those of the bytes read as one number with zero bits added up to a whole digit, and `=` fills the last group of four |
| `Base64.EncodeFromArray` | breutil/encoding/base64.hpp:159-189 | the loop over groups of three fills a text sized beforehand with the specified encoding |
| `Base64.ValidateScalar` | breutil/encoding/base64.hpp:106-149 | the scalar scan computes the validity predicate |
| `Base64.ValidateBlocks` | breutil/encoding/base64.hpp:120-140 | the scan of sixteen characters at a time with a scalar tail gives the same verdict |
| `Base64.ValidateIsQuanta` | breutil/encoding/base64.hpp:106-149 | validity is validity of every group of four, padding only in the last |
| `Base64.DecodeTo` | breutil/encoding/base64.hpp:191-229 | refuses exactly the texts that do not validate, and otherwise returns the decoded bytes |
| `Base64.PaddingBitsAgree` | breutil/encoding/base64.hpp:202 | the padding the decoder counts is the padding that was validated |
| `Base64.DecodeEncode` | breutil/encoding/base64.hpp:159-229 | every encoding validates and decodes to the bytes it was made from |
| `Base64.EncodeDecode` | breutil/encoding/base64.hpp:191-229 | encoding what was decoded gives the validated text back |
| `Base64.ValidatesExactlyEncodings` | breutil/encoding/base64.hpp:106-149 | a text validates if and only if it is the encoding of some bytes |
| `Ipv6.ParseIPv6Group` | breutil/net/ip.hpp:141-163 | accepts exactly one to four hexadecimal digits and returns their value; sixteen bits suffice |
| `Ipv6.NetworkOrder` | breutil/net/ip.hpp:241-243 | of the two bytes of a group the first counts 256, both ways |
| `Ipv6.LeadingGroups` | breutil/net/ip.hpp:214-243 | the groups before `::`, or of the whole text, written into the address |
| `Ipv6.TrailingGroups` | breutil/net/ip.hpp:246-271 | the groups after `::` |
| `Ipv6.FillRight` | breutil/net/ip.hpp:278-285 | the groups after `::` are written to the end of the address, zeros between |
| `Ipv6.ToBytesV6` | breutil/net/ip.hpp:196-333 | the bytes of the specified parse, none when the text is refused |
| `Ipv6.ParsesExactlyTexts` | breutil/net/ip.hpp:196-333 | a text is accepted with an address if and only if it spells eight groups, or fewer around one `::`, with that address |
| `Ipv6.ParsedExactly` | breutil/net/ip.hpp:196-333 | the bytes returned are those of an address that the text spells, and every address a text spells is returned |
| `Ipv6.TrailingColonAccepted` | breutil/net/ip.hpp:300-326 | a colon added after the last group changes nothing |
| `Ipv6.FindRun` | breutil/net/ip.hpp:367-399 | the run found is the leftmost of the longest zero runs, or there is none of two groups |
| `Ipv6.ToStringV6` | breutil/net/ip.hpp:364-415 | the text printed for 16 bytes is the canonical text of section 4 of RFC 5952 |
| `Ipv6.Rfc5952Unique` | breutil/net/ip.hpp:357-418 | an address has only one canonical text |
| `Ipv6.CanonicalIsText` | breutil/net/ip.hpp:357-418 | the canonical text is one of the texts of its address |
| `Ipv6.PrintedParses` | breutil/net/ip.hpp:196-333 | parsing the canonical text of any 16 bytes gives these bytes |
| `Ip.ToBytesV4` | breutil/net/ip.hpp:164-195 | the loop over four numbers and three dots computes the specified reading |
| `Ip.FourNumbersExactly` | breutil/net/ip.hpp:164-195 | IPv4 text is accepted with four bytes if and only if the stream reads them as numbers with dots between them and nothing after the last |
| `Ip.BytesOfExactly` | breutil/net/ip.hpp:335-345 | bytes come back if and only if the text spells the IPv6 address with them, or has no colon and is read as these four numbers; the empty text has none |
| `Ip.ToString` | breutil/net/ip.hpp:357-418 | four bytes are printed dotted, sixteen canonically, others not at all |
| `Ip.ToBytes` | breutil/net/ip.hpp:335-345 | the reading of IPv4 text, of IPv6 text when there is a colon, none of the empty text |
| `Ip.PrintedParses` | breutil/net/ip.hpp:335-418 | parsing the printed text of an address of either kind gives its bytes |
| `Ip.IsValidIp` | breutil/net/ip.hpp:443-450 | the validity test holds exactly of byte strings of length 4 and 16 |
| `StringUtil.SplitLoop` | breutil/string_util.hpp:82-91 | the loop computes the recursive split |
| `StringUtil.JoinLoop` | breutil/string_util.hpp:94-102 | the loop computes the recursive join |
| `StringUtil.FindAllLoop` | breutil/string_util.hpp:104-112 | the loop computes the positions of the leftmost occurrences that do not overlap |
| `StringUtil.Text.ReplaceAll` | breutil/string_util.hpp:114-121 | the edited text is the old one split by the old part and joined by the new one, even when the new part contains the old one |
| `StringUtil.SplitIsLeftmost` | breutil/string_util.hpp:82-102 | joining the parts gives the text back, and the parts show no delimiter earlier |
| `StringUtil.SplitExactly` | breutil/string_util.hpp:82-102 | the parts are the only ones with these two properties |
| `StringUtil.SplitCutsAtFindAll` | breutil/string_util.hpp:82-112 | the parts lie between the positions found, one part more than positions |
| `Digits.NumeralRoundTrip` | breutil/strconv.hpp:100 | reading a numeral gives the number back, in every base |
| `Digits.NumeralUnique` | breutil/strconv.hpp:100 | the numeral is the only lower-case digit string without leading zero for its number |
| `Digits.DigitsAreTheAlphabet` | breutil/strconv.hpp:158-165 | the digits are the ten numerals and the letters in order, in both cases |
| `StrConv.BufferSuffices` | breutil/strconv.hpp:95-117 | the 65-byte buffer holds every 64-bit value, signed or not, in every base |
| `StrConv.ParseUint` | breutil/strconv.hpp:197-256 | returns exactly the number denoted by the optionally signed digits when it is below 2^64 (or 2^32 on demand); no step wraps |
| `StrConv.ParseInt` | breutil/strconv.hpp:121-195 | returns the number modulo 2^64 when it and all its quotients by the base, so reduced, are within the limit |
| `StrConv.ParseIntExact` | breutil/strconv.hpp:170-178 | on a well-formed text the signed parser meets the exact specification if and only if the number does not escape by wrapping; ill-formed texts are refused |
| `StrConv.NoEscapeBelow64` | breutil/strconv.hpp:170-178 | no number below 2^64 escapes |
| `StrConv.BinaryNeverEscapes` | breutil/strconv.hpp:170-178 | in base 2 no non-negative number escapes |
| `StrConv.WrappedNumeral` | breutil/strconv.hpp:170-178 | in bases 3 to 36 the numeral of 2^64 + k, for every k below 2^63, is read as k |
| `StrConv.BadBasesRefused` | breutil/strconv.hpp:96-98 | outside the bases 2 to 36 nothing is written, and, base 0 apart, nothing is read |
| `StrConv.PromisedRange` | breutil/strconv.hpp:121-256 | every integer, written in any base, is promised to come back if it is in the 32- or 64-bit range asked for, and to be refused otherwise |
| `StrConv.PrefixChoosesBase` | breutil/strconv.hpp:132-152 | with base 0, after any sign, each of the prefixes makes the number after it be read in its base, and without a leading zero the base is ten |
| `StrConv.UintRoundTrip` | breutil/strconv.hpp:107-256 | parsing inverts formatting on all unsigned 64-bit values, and refuses those above 32 bits when 32 are asked for |
| `StrConv.IntRoundTrip` | breutil/strconv.hpp:95-195 | parsing inverts formatting on all signed 64-bit values, and refuses those outside 32 bits when 32 are asked for |
| `StrConv.CanonicalTextReturns` | breutil/strconv.hpp:107-256 | formatting inverts parsing on texts without sign, capital or leading zero |
| `StrConv.OctalByPrefix` | breutil/strconv.hpp:143-152 | with base 0, octal digits that start with 0 are read as the octal number, unless they are exactly "0", which is refused |
| `StrQuote.Quote` | breutil/strconv.hpp:376-460 | the loop computes the specified quotation, in each of the three styles |
| `StrQuote.Unquote` | breutil/strconv.hpp:475-537 | the loop computes the specified reading |
| `StrQuote.UnquoteQuote` | breutil/strconv.hpp:376-537 | unquoting gives every byte string back from each of the three quotations |
| `StrQuote.QuotedPrintable` | breutil/strconv.hpp:422-440 | QuoteToASCII writes printable ASCII only, and no style writes a control character |
| `StrQuote.PieceSpells` | breutil/strconv.hpp:376-460 | every byte becomes one element that means it: two hexadecimal digits exactly where the style asks for them, an escape for the quote, the backslash and, in the plain style, the seven characters that have a letter, itself otherwise |
| `StrQuote.CutEscapeRefused` | breutil/strconv.hpp:490-524 | a text whose last escape is cut off by the closing quote is refused |
| `StrQuote.UnquoteMeans` | breutil/strconv.hpp:475-537 | between two equal quote characters every sequence of characters and escapes is read as what it means, between back quotes everything stands for itself, and without two equal characters around it no text is accepted |
| `Config.StoreLookup` | breutil/config.hpp:163-179 | after storing at a path every lookup is as before, except there and at the nodes made on the way |
| `Config.StoreAgrees` | breutil/config.hpp:163-179 | storing in the tree is putting in the flat map |
| `Config.Config.constructor` | breutil/config.hpp:736 | an empty store |
| `Config.Config.Register` | breutil/config.hpp:141-209 | the flat map with the path, its missing prefixes and the default; an invalid key part changes nothing |
| `Config.Config.Find` | breutil/config.hpp:280-292 | the walk down the maps finds what the flat map holds |
| `Config.Config.Set` | breutil/config.hpp:271-334 | the flat map with the validated value, the old value as result, and every listener called once, in order, with the stored value; an unknown key, a type mismatch or a refusal changes and calls nothing |
| `Config.Config.NotifyChange` | breutil/config.hpp:472-492 | a listener is added to the entry of a key that is there; an unknown key changes nothing |
| `Config.Config.Get` | breutil/config.hpp:365-417 | the value, or the default, or none, or a type mismatch, as the flat map says |
| `Config.Config.Has` | breutil/config.hpp:427-447 | true exactly for the paths of the flat map |
| `Config.Config.Reset` | breutil/config.hpp:713-732 | every entry of the flat map reset |
| `Config.Config.GetAllKeys` | breutil/config.hpp:678-694 | the keys of the flat map, ascending part by part |
| `Config.ToDefault` | breutil/config.hpp:715-730 | the recursive visit resets every node and changes no key |
| `Config.CollectKeys` | breutil/config.hpp:681-691 | the recursive visit lists every path below a node once, ascending |
| `ConfigRuns.Drive` | breutil/config.hpp:131-732 | an object driven through any calls holds what the flat map holds, and has called the listeners of the successful Set calls in order |
| `ConfigRuns.RegisterAcceptsExactly` | breutil/config.hpp:153-161 | Register accepts a key if and only if it has no space, no dot at either end, no two dots in a row, and no two underscores at its start or after a dot |
| `ConfigRuns.KeysArePrefixes` | breutil/config.hpp:163-175 | after any run the keys are exactly the non-empty prefixes of the registered paths |
| `ConfigRuns.HasAfter` | breutil/config.hpp:427-447 | Has holds exactly for prefixes of registered keys |
| `ConfigRuns.SetSucceedsExactly` | breutil/config.hpp:292-322 | setting a checked key succeeds exactly when the type is its own and the check accepts |
| `ConfigRuns.SetUncheckedExactly` | breutil/config.hpp:292-322 | a key without a check takes a value exactly when the old one, if it is to be returned, has its type; the old value is returned exactly when there is one and the key is serialisable |
| `ConfigRuns.NonSerializableExactly` | breutil/config.hpp:186-189 | a key is marked as not serialisable exactly when some accepted Register call for it had such a type |
| `ConfigRuns.UnregisteredHasNoValue` | breutil/config.hpp:365-417 | a key that nobody registered has no value until it is set, and none after Reset |
| `ConfigRuns.GetAfterSet` | breutil/config.hpp:271-417 | Get after Set yields the validated value, Set returns the old one, every other key is untouched |
| `ConfigRuns.UnknownExactly` | breutil/config.hpp:283-290 | Set reports an unknown key exactly when it is no prefix of a registered one |
| `ConfigRuns.UnregisteredPrefixIsSettable` | breutil/config.hpp:292-300 | a proper prefix of a registered key can be set |
| `ConfigRuns.ValidatorIsLastRegistered` | breutil/config.hpp:181-206 | whatever was called since, a key has the validator of the last accepted Register call for it |
| `ConfigRuns.ResetRestores` | breutil/config.hpp:713-732 | whatever was called since, Get after Reset yields the default of the last accepted Register call for the key; if its validator was empty, Get throws |
| `ConfigRuns.GetAfterRegister` | breutil/config.hpp:191-208 | right after Register a key has its default, except that the default of an empty validator cannot be read when its type is not a normalised one |
| `ConfigRuns.ListenersInOrder` | breutil/config.hpp:472-492 | after any run the listeners of a key are exactly those added for it while it was there, in order |
| `ConfigRuns.AlphabeticalExactly` | breutil/config.hpp:667 | two paths in order have their keys in alphabetical order if and only if they do not clash |
| `ConfigRuns.ListAlphabeticalExactly` | breutil/config.hpp:667 | a list of paths in order is alphabetical as dotted keys if and only if no two of them clash |
| `ConfigRuns.ClashingKeysClash` | breutil/config.hpp:684-690 | registering two keys whose paths clash makes a list that is not alphabetical |
| `ConfigRuns.ListedOutOfOrder` | breutil/config.hpp:667 | registering "a.b" and "a-b" is an instance |
| `ConfigRuns.AllKeysAfter` | breutil/config.hpp:678-694 | after any run every key is listed once, and the list is alphabetical if and only if no two paths clash |

## Left out

- JSON doubles: their conversions are parameters; results that need something of them say what. The two zeros, which are equal, are one value.
- JSON error texts and positions: a failed parse is one outcome; the position after a failure is not stated.
- Texts with comments and trailing commas at once, comments with quotes in them, and trailing commas beside strings that confuse the quote tests.
- The rest of the JSON value interface (accessors, iterators, removal, moved-from values) would add easy members only.
- Width of `int` in `level * indentWidth` and of `size_t` in lengths: indentation and sizes are unbounded here.
- TCP timers, socket options and initialisation (a session starts with its socket), the error callback, the resolver, client, server, coroutine session, UDP and the context pool; a timeout is a Stop at any time.
- BlockQueue.NoWakeupIsLost: says nothing about runs with Peek or with a batch pop of zero, which can take a notification without an item, nor about the producers of a queue that is being closed.
- BlockQueue: Front, Back, Size and the like only read, and are left out; the move overloads do what the copying ones do.
- ThreadPool: futures and exceptions of tasks; a task is a number that ends. No fairness of scheduling is assumed: what is proved is that only finitely many steps remain, and what holds when none does.
- Buffer: moved-from buffers; pointers are indices. FindEOL and ToString only read.
- Base64 null pointers and the output container types.
- Ip.ToBytesV4: what the stream extraction does with whitespace, signs and ill-formed numbers is not specified.
- StrConv.ParseInt: negating the smallest 64-bit value, which C++ leaves undefined, is taken as two's complement.
- StrQuote.Unquote: `sscanf` on anything but two hexadecimal digits is not specified. QuotedPrefix, QuoteChar32 and UnquoteChar are left out.
- Config: children maps are values in the tree, so sharing of maps through pointers is not captured; a null children map, which only JSON import makes, is not told from an empty one.
- Config validators are pure functions whose default does not throw; callbacks do not throw; JSON import and export and error texts are left out.
- hex, binary_io and mac codecs, ini, flag, settings, timers, files, processes and logging.
