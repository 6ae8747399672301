# Verified model of the EdoyumIMServer core

The project models the parts of the chat server whose correctness is hard to see by reading: the JSON reader and styled
writer that carry its messages, calendar and time-zone arithmetic, the event loop with its functor queue, timers and
pollers, asynchronous logging, streaming MD5, and the byte path from fields over frames and buffers to the socket.
The language is Dafny 4.11; `dafny verify dfyconfig.toml` checks all files together.

Each component has a specification in functions or as a state machine over all interleavings, theorems about it for all
inputs or all runs, and, where the source changes state in place, a class or a loop proved against the specification.

| files | component |
|---|---|
| `Bytes`, `Endian` | bytes, text at an offset, byte order |
| `JsonValue`, `JsonNumber`, `JsonText`, `JsonReader`, `JsonWriter`, `JsonReaderObject` | the JSON library: values, numbers, strings, reader, writer, the mutable reader |
| `JsonRoundTrip`, `JsonByValue`, `JsonRecovery` | theorems on printing and parsing, and on arbitrary documents |
| `JsonGrammar` | the documents of RFC 8259 and what the reader takes beyond them, defined without the reader |
| `JsonNumberScan`, `JsonStringScan`, `JsonGapScan`, `JsonTokenScan` | tokens of the reader against the grammar, both ways |
| `JsonAcceptance`, `JsonSoundness` | the grammar is read, and nothing else is |
| `JsonStyledGrammar` | what the writer prints is RFC 8259 |
| `Calendar`, `TimeZone` | Julian days, broken-down time, transition tables |
| `EventLoop`, `AsyncLogging` | functor queue and wakeup, double buffering |
| `TimerQueue`, `TimerBatch`, `TimerQueueObject` | timers, whole batches with their callbacks |
| `Pollers`, `PollerRuns` | `poll` and `epoll` registration, sequences of calls and their assertions |
| `Md5`, `Md5Format` | streaming digest, byte formats |
| `TcpConnection`, `TcpDelivery`, `TcpHistory`, `NetBuffer`, `BinaryCodec`, `Framing` | output side, which sends are dropped, the state read off the steps, network buffer, field codec, frames |

## Conventions

- Bytes are integers 0..255; shifts and masks are written as division and remainder. C++ division is `Calendar.Quot`.
- Integer widths are explicit where they matter: 64-bit in `JsonNumber`, 32-bit counts, lengths and indexes in `Md5`,
  `BinaryCodec` and `Framing`, the 32-bit bound of the calendar formulas in `Calendar.NoOverflow`.
- Reads, writes, clocks, the kernel's answers and the allocator's choices are parameters of the steps. A critical section
  of a mutex, one read and one write of a descriptor are atomic steps.
- The conversion between text and doubles is a parameter of reader and writer. The round trip covers the doubles for which
  the two conversions are inverse and the text is a number token that is no integer.
- The compression function of MD5 is a parameter, so the streaming results do not depend on its rounds.

## What the code does that its comments or callers do not expect

- `queueInLoop` by the loop thread before `loop()` does not wake the loop (`EventLoop.EarlyQueueStuckIff`).
- `quit()` outside `loop()` is forgotten (`EventLoop.QuitTakesEffectIff`).
- `cancel` that runs before the timer's `addTimerInLoop` is ignored (`TimerQueue.EarlyCancelIgnored`).
- `MD5::digest` read again, or continued, with 56 or more bytes pending works on overwritten bytes
  (`Md5.ResumedUnchangedIff`), and `MD5::update` never returns once pending bytes and input reach 2^32
  (`Md5.UpdateReturnsIff`).
- `shutdown()` or `forceClose()` of another thread that overlaps `handleClose` sets the closed connection back to
  Disconnecting, because test and setState are separate (`TcpConnection.OverlappingShutdownIsEarly`,
  `TcpConnection.OrderlyIff`).
- `send` followed by `shutdown` in another thread can lose the message; `TcpDelivery.QueuedMessageLostIff` says when.
- The early half of the first and of the last repeated local interval is converted back to the later second, under both
  settings (`TimeZone.ReturnsIff`, `TimeZone.FirstRepeatIsLost`), and at a first transition that skips time the setting
  makes no difference (`TimeZone.FirstSkipIgnoresSetting`).
- A size field of -4 to 5 makes `OnRead` throw after it has consumed the size; a smaller one waits for bytes that never
  come (`Framing.ThrowsIff`).
- `Send` leaves only the frame header in the writer, so the second member of a group receives that header
  (`Framing.ResentIsHeader`).
- `BinaryWriter::operator=` leaves the index at 0, so the next integer replaces the text
  (`BinaryCodec.BinaryWriter.Assign`, `BinaryCodec.BinaryWriter.WriteNumber`).
- Reading a string where no whole string stands can succeed past the end of the buffer (`BinaryCodec.TextInsideIff`,
  `BinaryCodec.TextPastEnd`).
- A payload of 2^31 - 10 bytes or more is not sent, since the frame length is passed as an int
  (`Framing.SentReadsBackIff`).
- `PollPoller::removeChannel` leaves the old index in the channel, so the object cannot be registered again, and a channel
  first registered with an empty mask cannot be removed; `EPollPoller` allows both (`PollerRuns.ReturningChannel`,
  `PollerRuns.EmptyFirstMask`).
- Beyond RFC 8259 the JSON reader takes comments wherever a token may stand that is skipped with skipCommentTokens, any
  token but a closing brace as the comma between members when a comment stands before it, an object that ends after a
  comma when the last name was empty, control characters in strings, numbers with leading zeros, without digits in any
  part, or with a minus alone, and anything behind the value (`JsonSoundness.AcceptedIff`, `JsonReader.GoesOnIff`,
  `JsonReader.ClosesAfterCommaIff`, `JsonReader.LoneMinusIsZero`, `JsonNumberScan.TakenIntegerIsGrammaticalIff`). It
  refuses a document whose only fault is a high surrogate that stands alone (`JsonSoundness.AcceptsDocumentIff`), and
  takes the low ten bits of whatever escape follows a high surrogate.

## Model

| member | source | states |
|---|---|---|
| `JsonSoundness.AcceptedIff` | EdoyumIMServer/newJson/jsoncpp.cpp:350-773 | For every byte string: parse succeeds with a value if and only if the document begins with white space and comments, a text of the grammar at most 1000 levels deep that stands for this value, and a rest that does not make it go on; the grammar is RFC 8259 widened by exactly what the code also takes, and is defined without the reader |
| `JsonSoundness.AcceptsDocumentIff` | EdoyumIMServer/newJson/jsoncpp.cpp:350-387 | A document that ends behind its text, but for white space and comments, is accepted if and only if it has at most 1000 levels, no high surrogate is written without another escape behind it, and every number that is no 64-bit integer converts to a double; the root then holds its tree and the cursor is at the end |
| `JsonSoundness.Unambiguous` | EdoyumIMServer/newJson/jsoncpp.cpp:350-464 | Two derivations of one document that have values have the same value and the same rest |
| `JsonSoundness.RefusesOther` | EdoyumIMServer/newJson/jsoncpp.cpp:389-464 | A document whose first byte behind white space and comments begins no value, or that has none, is answered with an error, whatever follows |
| `JsonSoundness.FindDoc` | EdoyumIMServer/newJson/jsoncpp.cpp:389-464 | From every success of readValue a derivation is found whose text covers exactly the bytes from the gap to the cursor |
| `JsonSoundness.FindItems` | EdoyumIMServer/newJson/jsoncpp.cpp:737-773 | Whatever the readArray loop succeeds on is a list of items, commas and the closing bracket |
| `JsonSoundness.FindEntries` | EdoyumIMServer/newJson/jsoncpp.cpp:681-735 | Whatever the readObject loop succeeds on is a list of names, colons, values and separators and the closing brace |
| `JsonAcceptance.ReadsDoc` | EdoyumIMServer/newJson/jsoncpp.cpp:389-464 | Wherever a value of the grammar stands, readValue takes exactly its text and gives its tree, or does not succeed |
| `JsonAcceptance.ReadsArrayItems` | EdoyumIMServer/newJson/jsoncpp.cpp:737-773 | readArray over the items of any array of the grammar |
| `JsonAcceptance.ReadsEntries` | EdoyumIMServer/newJson/jsoncpp.cpp:681-735 | readObject over the members of any object of the grammar; a later member of the same name replaces the earlier one |
| `JsonStringScan.QuotedToken` | EdoyumIMServer/newJson/jsoncpp.cpp:669-679 | Every string of the grammar is one token and decodes to its meaning by the tables of section 7 of RFC 8259, or to none when a high surrogate stands alone |
| `JsonStringScan.DecodeUnits` | EdoyumIMServer/newJson/jsoncpp.cpp:866-968 | decodeString gives raw bytes, the eight short escapes, single and paired hexadecimal escapes in either letter case the meaning of those tables, in order |
| `JsonStringScan.FindUnits` | EdoyumIMServer/newJson/jsoncpp.cpp:866-917 | Every string token that decodes is a string of the grammar with that meaning |
| `JsonNumberScan.NumeralToken` | EdoyumIMServer/newJson/jsoncpp.cpp:647-667 | Every numeral that does not go on is scanned as one token |
| `JsonNumberScan.FindNumeral` | EdoyumIMServer/newJson/jsoncpp.cpp:647-667 | Every number token is a numeral of the grammar that does not go on |
| `JsonNumberScan.DecodeOfNumeral` | EdoyumIMServer/newJson/jsoncpp.cpp:785-826 | decodeNumber gives a numeral the integer its digits denote by powers of ten, if it has no fraction and no exponent and fits 64 bits, unsigned above 2^31-1; any other goes to the double conversion |
| `JsonNumberScan.TakenIntegerIsGrammaticalIff` | EdoyumIMServer/newJson/jsoncpp.cpp:785-826 | Text taken as a 64-bit integer is a number of RFC 8259 if and only if it has digits and no leading zero |
| `JsonGapScan.GapSkipped` | EdoyumIMServer/newJson/jsoncpp.cpp:466-474 | skipCommentTokens passes over any white space and comments |
| `JsonGapScan.FindGap` | EdoyumIMServer/newJson/jsoncpp.cpp:547-645 | What is passed over before a token is white space and comments, with a comment in it exactly when the first token is one |
| `JsonTokenScan.JunkIsToken` | EdoyumIMServer/newJson/jsoncpp.cpp:715-732 | The tokens taken for a comma behind a comment are scanned as one token each |
| `JsonTokenScan.FindJunk` | EdoyumIMServer/newJson/jsoncpp.cpp:476-545 | Every token but a closing brace or a comment, with something behind it, is one of those |
| `JsonStyledGrammar.StyledIsStandard` | EdoyumIMServer/newJson/jsoncpp.cpp:5015-5126 | For every tree, the styled text is a document of RFC 8259 and a line end: no raw control characters, no leading zeros, commas only between |
| `JsonStyledGrammar.StyledStandsFor` | EdoyumIMServer/newJson/jsoncpp.cpp:5015-5126 | By the grammar, without the reader, that document stands for the tree as it comes back |
| `JsonStyledGrammar.StyledLayout` | EdoyumIMServer/newJson/jsoncpp.cpp:5041-5126 | The layout of a nested tree, byte by byte: tabs, line breaks, spaces around the colon, the bracket of a member value on its own line |
| `JsonText.Utf8Denotes` | EdoyumIMServer/newJson/jsoncpp.cpp:125-151 | codePointToUTF8 gives for every code point the shortest byte sequence that denotes it by the table of section 3 of RFC 3629 |
| `JsonValue.LessIff` | EdoyumIMServer/newJson/jsoncpp.cpp:2721-2736 | A name is below another if and only if the first differing byte is smaller or it is a proper prefix |
| `JsonValue.LookupFinds` | EdoyumIMServer/newJson/jsoncpp.cpp:3483-3500 | operator[] finds the first member of the name, or null |
| `JsonByValue.StyledRoundTripByValueIff` | EdoyumIMServer/newJson/jsoncpp.cpp:330-773 | For every writable tree, parsing the styled text succeeds and returns an equal tree (integers by number) if and only if the tree is at most 1000 levels deep and all its strings and names are well-formed UTF-8 |
| `JsonRoundTrip.StyledRoundTripIff` | EdoyumIMServer/newJson/jsoncpp.cpp:350-773 | The same with integer tags compared too: the exact tree returns if and only if it is within 1000 levels, its texts are well formed and its integers carry the tag the reader gives |
| `JsonRoundTrip.ParseOfStyled` | EdoyumIMServer/newJson/jsoncpp.cpp:3862-3870 | On the styled text of any writable tree, parse throws exactly above 1000 levels; otherwise it reports no error, ends with the cursor at the end of the text and leaves the tree `Back` in the root, whatever the root held |
| `JsonRoundTrip.ReadsValue` | EdoyumIMServer/newJson/jsoncpp.cpp:5015-5126 | Anywhere in a document, at any indentation and nesting, readValue on the text writeValue printed gives the tree back and stops right behind it, or throws when the nesting passes the limit |
| `JsonRoundTrip.ReadsItems` | EdoyumIMServer/newJson/jsoncpp.cpp:737-773 | readArray over the printed items reads the remaining ones in order up to the closing bracket |
| `JsonRoundTrip.ReadsMembers` | EdoyumIMServer/newJson/jsoncpp.cpp:681-735 | readObject over the printed members enters each under the name read, in order, up to the closing brace |
| `JsonRoundTrip.ReadsScalar` | EdoyumIMServer/newJson/jsoncpp.cpp:389-464 | Every printed null, boolean, integer, double or string is read back as one token and one value |
| `JsonRoundTrip.NumberToken` | EdoyumIMServer/newJson/jsoncpp.cpp:647-667 | A number text before a line end, comma or the end of the document is one token, no more and no less |
| `JsonRoundTrip.BackUnchangedIff` | EdoyumIMServer/newJson/jsoncpp.cpp:785-826 | What comes back is the tree itself if and only if texts are well formed and integers are tagged as the reader tags them |
| `JsonByValue.BackSameIff` | EdoyumIMServer/newJson/jsoncpp.cpp:866-917 | What comes back equals the tree up to integer tags if and only if every string and name is well-formed UTF-8 |
| `JsonText.QuotedReadsBack` | EdoyumIMServer/newJson/jsoncpp.cpp:669-679 | Wherever a quoted string stands, readString stops exactly behind its closing quote and decodeString yields the reread bytes |
| `JsonText.RereadUnchangedIff` | EdoyumIMServer/newJson/jsoncpp.cpp:4262-4309 | For every byte string, quoting and reading back returns the same bytes if and only if they are well-formed UTF-8 (table of section 4 of RFC 3629) |
| `JsonText.RereadIsWellFormed` | EdoyumIMServer/newJson/jsoncpp.cpp:125-151 | Whatever bytes were quoted, malformed ones included, what is read back is well-formed UTF-8 |
| `JsonText.DecodePair` | EdoyumIMServer/newJson/jsoncpp.cpp:919-942 | A code point above the basic plane, written as a surrogate pair, is decoded as the one code point the pair denotes |
| `JsonText.Hex4OfHexEscape` | EdoyumIMServer/newJson/jsoncpp.cpp:944-968 | Four hexadecimal digits written for a 16-bit value decode to that value |
| `JsonText.ShortcutIsEscape` | EdoyumIMServer/newJson/jsoncpp.cpp:4254-4260 | Text for which no character requires escaping is what escaping it would give, so the copying shortcut changes nothing |
| `JsonText.QuoteLoop` | EdoyumIMServer/newJson/jsoncpp.cpp:4349-4424 | The scan and the escaping loop compute the quoted text of the whole value |
| `JsonText.DecodeLoop` | EdoyumIMServer/newJson/jsoncpp.cpp:866-917 | The loop of decodeString computes the decoding between the quotes, or reports the same errors |
| `JsonNumber.DecodeNumberLoop` | EdoyumIMServer/newJson/jsoncpp.cpp:785-826 | The threshold loop takes the integer branch exactly when an optional minus and digits denote a value in -2^63 .. 2^64-1, returns that value, and no intermediate value leaves 64 bits |
| `JsonNumber.DecodeInvertsPrint` | EdoyumIMServer/newJson/jsoncpp.cpp:785-826 | Decoding the printed text of any 64-bit integer gives the integer back, signed up to 2^31-1 and unsigned above |
| `JsonNumber.TooLarge` | EdoyumIMServer/newJson/jsoncpp.cpp:805-814 | Leaving the loop at the threshold means that the whole text does not fit, whatever digits follow |
| `JsonNumber.UIntToString` | EdoyumIMServer/newJson/jsoncpp.cpp:153-173 | Into any buffer, digits are written backwards before a terminating zero, at most 21 bytes in all and none outside them; the text is the shortest decimal of the value |
| `JsonNumber.ValueToString` | EdoyumIMServer/newJson/jsoncpp.cpp:4168-4182 | Every 64-bit signed value, the smallest one included, prints as its decimal text inside the 25-byte buffer |
| `JsonNumber.UnsignedToString` | EdoyumIMServer/newJson/jsoncpp.cpp:4184-4190 | Every 64-bit unsigned value prints as its decimal text inside the 25-byte buffer |
| `JsonNumber.UInt64Length` | EdoyumIMServer/newJson/jsoncpp.cpp:153-165 | No 64-bit value needs more than 20 digits |
| `JsonValue.PutIsMapUpdate` | EdoyumIMServer/newJson/jsoncpp.cpp:3483-3500 | Entering a member keeps the name order, sets that name and changes no other, on every ordered member list |
| `JsonValue.PutAtEnd` | EdoyumIMServer/newJson/jsoncpp.cpp:2721-2736 | A name above all present ones in byte order goes to the end |
| `JsonReader.ReadToken` | EdoyumIMServer/newJson/jsoncpp.cpp:476-545 | Every token lies in the rest of the document, and every one but the end of the stream consumes at least one byte |
| `JsonReader.ReadValue` | EdoyumIMServer/newJson/jsoncpp.cpp:389-464 | On every byte string the cursor never moves backwards or leaves the document, success consumes input, and success holds exactly when no error was recorded |
| `JsonReader.Recover` | EdoyumIMServer/newJson/jsoncpp.cpp:979-990 | Error recovery terminates with the cursor inside the rest of the document |
| `JsonReader.Parse` | EdoyumIMServer/newJson/jsoncpp.cpp:350-387 | For every document, parse answers with a cursor inside it, successfully exactly when no error was recorded, or throws |
| `JsonRecovery.RecoverStopsAtFirst` | EdoyumIMServer/newJson/jsoncpp.cpp:979-990 | Recovery stops behind the first token of the remaining document that is the target or the end of the stream, skipping none |
| `JsonRecovery.ThrownNeedsOpeners` | EdoyumIMServer/newJson/jsoncpp.cpp:389-398 | The nesting exception needs as many opening brackets ahead as levels are missing to the limit |
| `JsonRecovery.ParseThrowsOnlyWhenDeep` | EdoyumIMServer/newJson/jsoncpp.cpp:350-387 | parse throws only on documents with at least 1000 opening brackets; all others get an answer |
| `JsonReader.ClosesAfterCommaIff` | EdoyumIMServer/newJson/jsoncpp.cpp:681-700 | A closing brace where a name is due ends the object if and only if the name before it was empty |
| `JsonReader.GoesOnIff` | EdoyumIMServer/newJson/jsoncpp.cpp:715-732 | After a member value, another member is looked for if and only if a comma comes next, or a comment and behind it any token but the closing brace; otherwise the object ends, successfully if and only if the closing brace comes next or behind comments |
| `JsonReader.LoneMinusIsZero` | EdoyumIMServer/newJson/jsoncpp.cpp:785-826 | A lone minus is read as the integer 0 |
| `JsonReaderObject.Reader.SkipBlanks` | EdoyumIMServer/newJson/jsoncpp.cpp:547-555 | The cursor loop stops at the first byte that is no white space |
| `JsonReaderObject.Reader.ReadNumberToken` | EdoyumIMServer/newJson/jsoncpp.cpp:647-667 | The three digit loops, with the look-ahead pointer, stop at the end of the number token |
| `JsonReaderObject.Reader.ReadStringToken` | EdoyumIMServer/newJson/jsoncpp.cpp:669-679 | The scan loop stops behind the closing quote or at the end |
| `JsonReaderObject.Reader.ReadCommentToken` | EdoyumIMServer/newJson/jsoncpp.cpp:568-645 | Block and line comments end where the comment functions say, with the same success |
| `JsonReaderObject.Reader.Match` | EdoyumIMServer/newJson/jsoncpp.cpp:557-566 | The backward comparison accepts exactly when the pattern stands at the cursor, and moves only then |
| `JsonReaderObject.Reader.NextRawToken` | EdoyumIMServer/newJson/jsoncpp.cpp:476-545 | readToken by character dispatch produces the token of the specification and leaves the cursor at its end |
| `JsonReaderObject.Reader.SkipCommentTokens` | EdoyumIMServer/newJson/jsoncpp.cpp:466-474 | The loop returns the first token that is no comment |
| `JsonReaderObject.Reader.RecoverFromError` | EdoyumIMServer/newJson/jsoncpp.cpp:979-990 | The recovery loop ends where Recover says and drops the errors it met |
| `JsonReaderObject.Reader.ReadNode` | EdoyumIMServer/newJson/jsoncpp.cpp:389-464 | readValue on the mutable cursor, node count and error list equals the functional reader, exception included |
| `JsonReaderObject.Reader.ReadArray` | EdoyumIMServer/newJson/jsoncpp.cpp:737-773 | The item loop equals the functional reader and restores the node count |
| `JsonReaderObject.Reader.ReadObject` | EdoyumIMServer/newJson/jsoncpp.cpp:681-735 | The member loop, with the kept name and the comment-as-comma rule, equals the functional reader |
| `JsonReaderObject.Reader.ParseDocument` | EdoyumIMServer/newJson/jsoncpp.cpp:350-387 | parse restarts cursor, errors and nodes, reads the root and the token behind it, and gives the result of the functional reader |
| `JsonWriter.StyledWriter.WriteValue` | EdoyumIMServer/newJson/jsoncpp.cpp:5015-5076 | Through the digit and escaping loops, appends to the stream exactly the text of the value at the current indentation, restores the indentation and clears or keeps the indented flag as the callers expect |
| `JsonWriter.StyledWriter.WriteArrayValue` | EdoyumIMServer/newJson/jsoncpp.cpp:5078-5126 | The multi-line branch writes one item a line between brackets; an empty array is two brackets |
| `JsonWriter.StyledWriter.WriteAllItems` | EdoyumIMServer/newJson/jsoncpp.cpp:5088-5107 | The item loop writes the items in order, with commas between and none behind |
| `JsonWriter.StyledWriter.WriteAllMembers` | EdoyumIMServer/newJson/jsoncpp.cpp:5055-5070 | The member loop writes the members in name order, with commas between and none behind |
| `JsonWriter.ItemsSnoc` | EdoyumIMServer/newJson/jsoncpp.cpp:5088-5107 | A further item adds one comma, one line break and its own text |
| `Calendar.JulianOfCivil` | EdoyumIMServer/base/Date.cc:30-43 | Every day number from -32044 on gives a date of the proleptic Gregorian calendar, and that date gives the number back |
| `Calendar.CivilOfJulian` | EdoyumIMServer/base/Date.cc:21-28 | Every calendar date from 1 March -4800 on is recovered from its day number |
| `Calendar.CivilIsDateIff` | EdoyumIMServer/base/Date.cc:30-43 | getYearMonthDay gives a calendar date if and only if the number is at least -32044 |
| `Calendar.CivilOfJulianIff` | EdoyumIMServer/base/Date.cc:21-43 | A calendar date is recovered from its day number if and only if it is not before 1 March -4800 |
| `Calendar.JulianOfNextDay` | EdoyumIMServer/base/Date.cc:21-28 | The day after a date, by month lengths and the leap rule, has the next number |
| `Calendar.CivilOfNext` | EdoyumIMServer/base/Date.cc:30-43 | Consecutive numbers are consecutive dates |
| `Calendar.NoOverflow` | EdoyumIMServer/base/Date.cc:30-43 | From -32044 to 536838867 no intermediate value of getYearMonthDay leaves 32 bits |
| `Calendar.OverflowNext` | EdoyumIMServer/base/Date.cc:30-34 | The next day number overflows, so that bound is the last |
| `Calendar.JulianNoOverflow` | EdoyumIMServer/base/Date.cc:21-28 | On every date with a day number in that range no intermediate value or partial sum of getJulianDayNumber leaves 32 bits |
| `Calendar.EpochDay` | EdoyumIMServer/base/Date.cc:45-45 | 1 January 1970 is day 2440588 |
| `TimeZone.JoinOfBreak` | EdoyumIMServer/base/TimeZone.cc:285-312 | Breaking any second from 1 March -4800 to the last day the 32-bit formulas can take, negative ones included, gives a calendar date and clock time whose second it is |
| `TimeZone.BreakOfJoin` | EdoyumIMServer/base/TimeZone.cc:498-504 | Putting a calendar date and clock time together and breaking the second gives them back |
| `TimeZone.AddingKeepsIndexed` | EdoyumIMServer/base/TimeZone.cc:49-58 | Tables built by addLocalTime and addTransition always name present types and carry the shifted local time |
| `TimeZone.PeriodOffset` | EdoyumIMServer/base/TimeZone.cc:318-356 | The offset found for a UTC second is the one of the period it lies in |
| `TimeZone.ReturnsIff` | EdoyumIMServer/base/TimeZone.cc:461-491 | For every table spaced wider than any offset difference, converting to local time and back returns the second under some postTransition if and only if it is not in the early half of the first or the last repeated interval |
| `TimeZone.UniqueReturns` | EdoyumIMServer/base/TimeZone.cc:358-430 | A second whose local time no other second has comes back under both settings |
| `TimeZone.RepeatedResolved` | EdoyumIMServer/base/TimeZone.cc:406-430 | Across an inner transition that repeats local times, the setting decides: without postTransition the earlier second returns, with it the later one, and never the other |
| `TimeZone.EarlyEdge` | EdoyumIMServer/base/TimeZone.cc:358-430 | In the early half of the first or last repeated interval both settings pick the later offset |
| `TimeZone.NoImageIff` | EdoyumIMServer/base/TimeZone.cc:461-478 | A local second is shown for no UTC second if and only if some transition jumps over it |
| `TimeZone.SkippedDifference` | EdoyumIMServer/base/TimeZone.cc:380-404 | For a jumped-over local time the two settings differ by exactly the jump, and not at all at the first transition |
| `TimeZone.SkippedResolved` | EdoyumIMServer/base/TimeZone.cc:380-404 | A jumped-over local time is read with the offset before the transition, with postTransition with the one after it, and at the first transition always with the one before |
| `TimeZone.EpochIsZero` | EdoyumIMServer/base/TimeZone.cc:498-504 | fromUtcTime counts from 1 January 1970, in seconds, minutes of 60 and hours of 3600 |
| `TimeZone.FirstRepeatIsLost` | EdoyumIMServer/base/TimeZone.cc:406-430 | A table and a second in the early half of a first repeated hour that neither setting returns |
| `TimeZone.FirstSkipIgnoresSetting` | EdoyumIMServer/base/TimeZone.cc:363-367 | A table and a local time skipped at the first transition, for which the setting makes no difference |
| `EventLoop.RunInPushOrder` | EdoyumIMServer/net/EventLoop.cc:103-171 | In every interleaving the functors run are a prefix of those the steps push, and the rest is the running batch followed by the queue: each once, in push order, none lost |
| `EventLoop.NoLostWakeup` | EdoyumIMServer/net/EventLoop.cc:148-171 | In every interleaving, the loop sits in poll with queued work only while the eventfd is readable or a pusher is before its wakeup, unless the loop thread queued outside loop() |
| `EventLoop.DisciplinedNeverStuck` | EdoyumIMServer/net/EventLoop.cc:160-171 | Runs in which the loop thread queues nothing outside loop() never leave unannounced work in poll |
| `EventLoop.EarlyQueueStuckIff` | EdoyumIMServer/net/EventLoop.cc:160-171 | In every state outside loop(): after the loop thread queues a functor and enters the loop, it sits in poll with unannounced work if and only if the eventfd was not readable and nobody was about to signal it |
| `EventLoop.WakeReportedOnce` | EdoyumIMServer/net/EventLoop.cc:234-252 | After handleRead, in every run, poll reports the wakeup channel only behind a later wakeup(), and behind one it can |
| `EventLoop.QuitWakesLoop` | EdoyumIMServer/net/EventLoop.cc:136-146 | In every interleaving, in poll with quit_ set the eventfd is readable or a thread is before its wakeup |
| `EventLoop.QuitTakesEffectIff` | EdoyumIMServer/net/EventLoop.cc:103-146 | In every state and for every quit(), of any thread: poll is never entered again before loop() returns, in every run, if and only if the call came while the loop thread was inside loop() |
| `EventLoop.QuitLeaves` | EdoyumIMServer/net/EventLoop.cc:103-134 | From every state inside loop() with quit_ set some run leaves it without entering poll |
| `EventLoop.EarlyQuitForgotten` | EdoyumIMServer/net/EventLoop.cc:103-108 | After a quit() in any state outside loop(), entering it clears the flag and goes on to poll |
| `EventLoop.SignalledWorkIsRun` | EdoyumIMServer/net/EventLoop.cc:244-269 | From poll with a readable eventfd the loop thread alone runs everything queued, in order, by the end of the iteration |
| `EventLoop.InvStep` | EdoyumIMServer/net/EventLoop.cc:103-171 | Every step of every thread keeps the conservation and wakeup invariant |
| `EventLoop.Loop.Enqueue` | EdoyumIMServer/net/EventLoop.cc:160-171 | The critical section appends the functor; a wakeup is owed exactly when the caller is another thread or functors are being called |
| `EventLoop.Loop.QueueInLoop` | EdoyumIMServer/net/EventLoop.cc:160-171 | After queueInLoop the functor is last in the queue, and the eventfd is signalled, except that it is left alone when the loop thread queued outside its functors |
| `EventLoop.Loop.DoPendingFunctors` | EdoyumIMServer/net/EventLoop.cc:254-269 | Exactly the queued functors are run, in order; what they queue while running stays queued in order for the next iteration, with the eventfd signalled |
| `EventLoop.Loop.QueueAll` | EdoyumIMServer/net/EventLoop.cc:160-171 | Every functor a running functor queues goes to the end of the queue, with a wakeup |
| `AsyncLogging.Conservation` | EdoyumIMServer/base/AsyncLogging.cc:34-135 | In every interleaving, stop() at any point included, output, batch, full buffers and current buffer hold the lines of all append steps in order if and only if no byte was lost |
| `AsyncLogging.NeverReordered` | EdoyumIMServer/base/AsyncLogging.cc:34-135 | In every interleaving, also after a loss, what is held is a subsequence of the lines appended: none twice, none out of order |
| `AsyncLogging.CarefulConserves` | EdoyumIMServer/base/AsyncLogging.cc:34-135 | With lines shorter than a buffer and no batch above 25 buffers nothing is lost or reordered |
| `AsyncLogging.LostByStep` | EdoyumIMServer/base/AsyncLogging.cc:34-101 | A step loses bytes only when a line is as long as a buffer, which loses exactly that line, or a batch has more than 25 buffers, which loses exactly those behind the first two and writes down how many |
| `AsyncLogging.NeverAborts` | EdoyumIMServer/base/AsyncLogging.cc:58-135 | The assertions on spare and recycled buffers hold in every run, because the spare buffer is missing only while full ones wait |
| `AsyncLogging.InvStep` | EdoyumIMServer/base/AsyncLogging.cc:34-135 | Every step of appenders and of the logging thread keeps the invariant |
| `AsyncLogging.FixedBuffer.Append` | EdoyumIMServer/base/LogStream.h:39-47 | All of the text is added when strictly more than its length is free, else nothing |
| `AsyncLogging.Logger.AppendText` | EdoyumIMServer/base/AsyncLogging.cc:34-56 | append changes the buffers exactly as the append step |
| `AsyncLogging.Logger.SwapOut` | EdoyumIMServer/base/AsyncLogging.cc:69-88 | The critical section of the thread is the swap step, also when stop() came after the test of running_ |
| `AsyncLogging.Logger.CutBatch` | EdoyumIMServer/base/AsyncLogging.cc:90-101 | A long batch is cut to two buffers with one notice of how many were dropped |
| `AsyncLogging.Logger.WriteBatch` | EdoyumIMServer/base/AsyncLogging.cc:103-107 | The loop writes the batch in order, whatever lines other threads append between two writes, and keeps the invariant |
| `AsyncLogging.Logger.RecycleBuffers` | EdoyumIMServer/base/AsyncLogging.cc:109-131 | Recycling always finds the buffers it takes and leaves two empty spares and no batch |
| `TimerQueue.TimersSafe` | EdoyumIMServer/net/TimerQueue.cc:132-259 | Over every run, also with pointers reused by the allocator, no assertion fails, no deleted timer is used or deleted again, none leaks, and the two indexes hold the same timers |
| `TimerQueue.NoTimerWithoutAlarm` | EdoyumIMServer/net/TimerQueue.cc:132-141 | Over every run, outside a batch the timerfd is armed no later than any pending timer |
| `TimerQueue.CancelledNeverExpires` | EdoyumIMServer/net/TimerQueue.cc:143-161 | Once a cancellation is accepted, from a callback too, the timer is in no later batch |
| `TimerQueue.CancelAccepted` | EdoyumIMServer/net/TimerQueue.cc:143-161 | Cancelling a timer that was added is accepted; it is deleted at once unless it is in the running batch |
| `TimerQueue.StaleCancelHarmless` | EdoyumIMServer/net/TimerQueue.cc:143-161 | Cancelling an id that no live timer has changes no timer, index, alarm or mark of a live timer |
| `TimerQueue.EarlyCancelIgnored` | EdoyumIMServer/net/TimerQueue.cc:126-161 | A cancellation that overtakes addTimerInLoop has no effect: the timer is added all the same |
| `TimerQueue.ExpiredIsDue` | EdoyumIMServer/net/TimerQueue.cc:183-202 | The sentry takes exactly the entries whose expiration is not after now |
| `TimerQueue.InvStep` | EdoyumIMServer/net/TimerQueue.cc:132-259 | Every step keeps the invariant of indexes, numbers, cancellations and alarm |
| `TimerQueue.InvFire` | EdoyumIMServer/net/TimerQueue.cc:163-202 | Taking a batch keeps the invariant: exactly the due entries leave both indexes |
| `TimerQueue.ResetAllInv` | EdoyumIMServer/net/TimerQueue.cc:204-233 | reset restarts exactly the repeating timers that were not cancelled and deletes all others of the batch, each once |
| `TimerQueue.InvFinish` | EdoyumIMServer/net/TimerQueue.cc:204-233 | After reset the alarm is set no later than the first pending timer |
| `TimerBatch.AddedInBatchWaits` | EdoyumIMServer/net/TimerQueue.cc:163-181 | A timer that any callback of a batch adds, and that no later request of the batch cancels, waits in both indexes when handleRead is over, with its own number, expiration and interval, and the alarm is no later than it |
| `TimerBatch.FinishRestarts` | EdoyumIMServer/net/TimerQueue.cc:204-233 | At the end of a batch a repeating timer of it that was not cancelled waits at the time of the batch plus its interval, every other one of it is deleted, and all other timers stay as they are |
| `TimerBatch.EachRunOnce` | EdoyumIMServer/net/TimerQueue.cc:163-181 | Every way from the start of a batch to its end runs the due timers once each, in order of expiration |
| `TimerBatch.AlarmWasPending` | EdoyumIMServer/net/TimerQueue.cc:132-141 | Over every run, what the timerfd is armed for was the earliest pending expiration when it was armed |
| `TimerBatch.AlarmStep` | EdoyumIMServer/net/TimerQueue.cc:204-233 | A step leaves the alarm alone, takes it when it goes off, or sets it for the earliest expiration then pending |
| `TimerBatch.WaitsToTheEnd` | EdoyumIMServer/net/TimerQueue.cc:163-181 | A timer that waits at some request of a callback and is not cancelled later in the batch waits when it is over |
| `TimerQueueObject.Queue.InsertTimer` | EdoyumIMServer/net/TimerQueue.cc:235-259 | The entry goes to its place in the order, the id to the second index; the result says whether the earliest expiration changed |
| `TimerQueueObject.Queue.AddTimerInLoop` | EdoyumIMServer/net/TimerQueue.cc:132-141 | The timer is inserted, and the timerfd armed for it exactly when it became the earliest |
| `TimerQueueObject.Queue.CancelTimerInLoop` | EdoyumIMServer/net/TimerQueue.cc:143-161 | An active timer leaves both indexes and is deleted; otherwise, during callbacks, its id is marked |
| `TimerQueueObject.Queue.GetExpired` | EdoyumIMServer/net/TimerQueue.cc:183-202 | The due prefix is split off in order and its ids leave the second index |
| `TimerQueueObject.Queue.Reset` | EdoyumIMServer/net/TimerQueue.cc:204-233 | The loop restarts or deletes each entry and arms for the first pending one |
| `TimerQueueObject.Queue.HandleRead` | EdoyumIMServer/net/TimerQueue.cc:163-181 | Exactly the due timers are taken, in order of expiration; the result is the batch begun, each callback run with all it adds and cancels, and the batch reset; the whole invariant holds again |
| `TimerQueueObject.Queue.RunCallback` | EdoyumIMServer/net/TimerQueue.cc:169-176 | The requests of a callback are served one after the other; the running batch is left as it is and the invariant kept |
| `TimerQueueObject.Queue.Serve` | EdoyumIMServer/net/TimerQueue.cc:116-161 | A request is a cancelInLoop, or a new timer and its addTimerInLoop, and changes nothing when it cannot be made |
| `TimerQueueObject.Queue.ResetEntry` | EdoyumIMServer/net/Timer.cc:16-26 | A restarted timer expires its interval after now and waits again |
| `Md5.DigestOfChunks` | EdoyumIMServer/FileServer/MD5.cpp:94-101 | However a message is cut into updates that return, the first digest is the padded one-shot digest of sections 3.1 to 3.5 of RFC 1321 |
| `Md5.DigestResumed` | EdoyumIMServer/FileServer/MD5.cpp:94-101 | Reading the digest, adding more and reading again gives the digest of the resumed message and the rest |
| `Md5.ResumedUnchangedIff` | EdoyumIMServer/FileServer/MD5.cpp:188-216 | A digest leaves the message intact if and only if under 56 bytes were pending or they equal the padding that overwrites them |
| `Md5.ResumableWhenShort` | EdoyumIMServer/FileServer/MD5.cpp:188-216 | With under 56 bytes pending the digest can be read again or the message continued |
| `Md5.UpdateReturnsIff` | EdoyumIMServer/FileServer/MD5.cpp:164-174 | With a whole block to take, the block loop ends if and only if pending bytes and input are together fewer than 2^32; otherwise its 32-bit guard holds at every index |
| `Md5.RereadCanDiffer` | EdoyumIMServer/FileServer/MD5.cpp:188-216 | A message of 56 ones is not intact after a digest, whatever the compression; for one compression made up for this the second digest differs |
| `Md5Format.DigestWords` | EdoyumIMServer/FileServer/MD5.cpp:188-216 | Bytes 4i to 4i+3 of the digest, low-order byte first, are word i of the state the padded message is folded to |
| `Md5Format.OutputWords` | EdoyumIMServer/FileServer/MD5.cpp:306-314 | The same of any state |
| `Md5Format.OutputOfInit` | EdoyumIMServer/FileServer/MD5.cpp:104-114 | The start state written out is 01 23 45 67 89 ab cd ef fe dc ba 98 76 54 32 10, as in section 3.3 of RFC 1321 |
| `Md5Format.LengthFieldValue` | EdoyumIMServer/FileServer/MD5.cpp:198-208 | The eight length bytes are the number of bits modulo 2^64, low-order byte first |
| `Md5Format.PaddedShape` | EdoyumIMServer/FileServer/MD5.cpp:200-208 | The padded message is the message, 0x80, zeros and the length field, in the first blocks that have room |
| `Md5.CountAdd` | EdoyumIMServer/FileServer/MD5.cpp:158-162 | The low word that became smaller is the carry: the two words hold the bit length modulo 2^64 |
| `Md5.FoldUpdate` | EdoyumIMServer/FileServer/MD5.cpp:149-183 | Partial block, whole blocks and rest compress the same blocks as the concatenated message |
| `Md5.BufferHoldsPending` | EdoyumIMServer/FileServer/MD5.cpp:149-183 | After an update the front of the buffer holds exactly the bytes that fill no block |
| `Md5.FinalBuffer` | EdoyumIMServer/FileServer/MD5.cpp:188-216 | What the buffer holds after the two updates of final |
| `Md5.MD5.Update` | EdoyumIMServer/FileServer/MD5.cpp:149-183 | State, count and buffer stand for the message with the input added |
| `Md5.MD5.TransformBlocks` | EdoyumIMServer/FileServer/MD5.cpp:172-174 | The loop compresses every whole block in order, and its index stays in 32 bits |
| `Md5.MD5.Final` | EdoyumIMServer/FileServer/MD5.cpp:188-216 | The digest is the one of the message; the object then stands for the resumed message |
| `Md5.MD5.GetDigest` | EdoyumIMServer/FileServer/MD5.cpp:94-101 | digest returns the digest of the absorbed message, computed afresh because final clears the flag |
| `TcpConnection.OutputConserved` | EdoyumIMServer/net/TcpConnection.cc:139-213 | Over every run in which no shutdown() or forceClose() of another thread is between its test and its setState when the connection is closed, while not disconnected: bytes taken and output buffer make up, in order, all bytes handed over by sends that met an open connection if and only if nothing was dropped; write interest is on exactly when bytes wait; shutdownWrite was never issued with bytes waiting |
| `TcpConnection.OrderlyIff` | EdoyumIMServer/net/TcpConnection.cc:194-203 | Over every run, test, setState and queueing of other threads as separate steps: write interest and shutdown stay right at every point if and only if no setState overwrites Disconnected with bytes left |
| `TcpConnection.EarlyShutdownIff` | EdoyumIMServer/net/TcpConnection.cc:205-213 | In an orderly state shutdownWrite is issued with bytes waiting exactly when a queued shutdown is run in a closed connection that still holds bytes |
| `TcpConnection.OverlapBreaksIff` | EdoyumIMServer/net/TcpConnection.cc:408-421 | When a close overlaps a caller, the setState that follows leaves the connection right if and only if the close left no bytes |
| `TcpConnection.OverlappingShutdownIsEarly` | EdoyumIMServer/net/TcpConnection.cc:194-213 | A run in which an overlapping shutdown() revives the closed connection and is issued with a byte waiting |
| `TcpConnection.BytesConserved` | EdoyumIMServer/net/TcpConnection.cc:94-192 | Over every run, disconnected and overlapping ones included, bytes taken and waiting are, in order, the bytes of every step that met an open connection and no broken pipe; they are all bytes handed over if and only if nothing was dropped |
| `TcpConnection.SendNowDelivers` | EdoyumIMServer/net/TcpConnection.cc:94-98 | send() on the loop thread of a connected connection puts the whole message behind what was taken and waits, unless the pipe breaks with nothing waiting |
| `TcpConnection.StepDelivers` | EdoyumIMServer/net/TcpConnection.cc:139-192 | Every step puts exactly what it hands over behind what was taken and waits, or drops all of it on a broken pipe |
| `TcpHistory.TakenIsAnswered` | EdoyumIMServer/net/TcpConnection.cc:139-192 | Over every run the socket holds as many bytes as the answers of the kernel add up to, the first ones kept, and the output buffer the others |
| `TcpHistory.QueueRun` | EdoyumIMServer/net/TcpConnection.cc:94-117 | The functor queue is everything the steps queue, in order, without the functors run so far |
| `TcpHistory.StatusStep` | EdoyumIMServer/net/TcpConnection.cc:194-421 | Which steps connect, begin to end and close the connection, and that all others leave its state alone |
| `TcpHistory.NeverConnectedAgain` | EdoyumIMServer/net/TcpConnection.cc:194-421 | A connection that left kConnected is never connected again, in any run |
| `TcpHistory.OnlySetStateReopens` | EdoyumIMServer/net/TcpConnection.cc:408-421 | A closed connection stays closed and takes no more bytes unless a setState overwrites its state |
| `TcpHistory.CallGoesThrough` | EdoyumIMServer/net/TcpConnection.cc:194-269 | shutdown() or forceClose() of another thread, with any steps of others between its three moments, sets Disconnecting and queues its own functor |
| `TcpConnection.ShutdownNotForgotten` | EdoyumIMServer/net/TcpConnection.cc:194-213 | Over every run, a disconnecting connection whose output is drained, with no caller before its functor and all functors run, has shut its sending side |
| `TcpConnection.InvStep` | EdoyumIMServer/net/TcpConnection.cc:139-421 | Every operation of every thread under every answer of the kernel keeps the invariant |
| `TcpConnection.TidyStep` | EdoyumIMServer/net/TcpConnection.cc:139-421 | Every step but a setState that revives a closed connection with bytes left keeps write interest and shutdown right, and that one always breaks them |
| `TcpConnection.LostOnlyOnBrokenPipe` | EdoyumIMServer/net/TcpConnection.cc:139-192 | Bytes are dropped only by a send that meets EPIPE or ECONNRESET with nothing waiting |
| `TcpConnection.ShutdownAfterCloseIsEarly` | EdoyumIMServer/net/TcpConnection.cc:205-213 | Once disconnected, a queued shutdown can be issued with bytes waiting |
| `TcpDelivery.NothingLostIff` | EdoyumIMServer/net/TcpConnection.cc:139-192 | Over every run whose kernel breaks the pipe only after shutdownWrite: nothing is dropped if and only if no non-empty queued message is run in an open connection with the sending side already shut |
| `TcpDelivery.LostByStep` | EdoyumIMServer/net/TcpConnection.cc:139-192 | A step drops exactly the message it runs against the shut side, and nothing else |
| `TcpDelivery.QueuedMessageLostIff` | EdoyumIMServer/net/TcpConnection.cc:376-391 | A message queued with no shutdown queued before it, such as one whose own thread calls shutdown() afterwards, is dropped if and only if before its turn handleWrite emptied the output of the disconnecting connection or the loop thread shut down an idle one; otherwise all its bytes are taken or wait |
| `TcpDelivery.AheadRun` | EdoyumIMServer/net/TcpConnection.cc:368-406 | First in, first out: until the turn of the message only those two steps shut the sending side |
| `TcpDelivery.SentBeforeShutdownCanBeLost` | EdoyumIMServer/net/TcpConnection.cc:368-406 | A run in which a message sent before shutdown() is dropped because the waiting bytes drain first |
| `TcpConnection.Connection.Send` | EdoyumIMServer/net/TcpConnection.cc:139-192 | Direct write, remainder and write interest follow the specification |
| `TcpConnection.Connection.Drain` | EdoyumIMServer/net/TcpConnection.cc:368-406 | What the socket takes leaves the buffer; an emptied buffer ends write interest and completes a pending shutdown |
| `TcpConnection.Connection.Shutdown` | EdoyumIMServer/net/TcpConnection.cc:194-213 | shutdown on the loop thread closes the sending side only without write interest |
| `TcpConnection.Connection.ForceCloseTask` | EdoyumIMServer/net/TcpConnection.cc:261-269 | A connected or disconnecting connection is closed, any other left alone |
| `PollerRuns.PollAssertionsIff` | EdoyumIMServer/net/poller/PollPoller.cc:75-140 | Over every sequence of calls on channel objects, no assertion of PollPoller fails if and only if no descriptor of another channel is registered, no removed channel is updated, and a channel is removed only after an update emptied its mask |
| `PollerRuns.EPollAssertionsIff` | EdoyumIMServer/net/poller/EPollPoller.cc:107-170 | The same for EPollPoller, which needs only the first and an empty mask at removal; then the kernel refuses nothing |
| `PollerRuns.BothWatchTheSame` | EdoyumIMServer/net/poller/PollPoller.cc:75-140 | After any sequence that PollPoller allows, slots are in bijection with the registered channels and both pollers watch the same descriptors for the same non-empty masks |
| `PollerRuns.PollRun` | EdoyumIMServer/net/poller/PollPoller.cc:75-140 | Along a sequence PollPoller follows the registry as long as every call is allowed, and is broken from the first that is not |
| `PollerRuns.EPollRun` | EdoyumIMServer/net/poller/EPollPoller.cc:107-170 | The same for EPollPoller: ADD meets only absent, MOD and DEL only present descriptors |
| `PollerRuns.ReturningChannel` | EdoyumIMServer/net/poller/PollPoller.cc:92-109 | A channel registered, emptied, removed and registered again is fine for EPollPoller and fails an assertion of PollPoller, because it kept its index |
| `PollerRuns.EmptyFirstMask` | EdoyumIMServer/net/poller/PollPoller.cc:75-91 | A channel first registered with an empty mask can be removed from EPollPoller and fails an assertion of PollPoller |
| `Pollers.DropSlotKeeps` | EdoyumIMServer/net/poller/PollPoller.cc:112-140 | Swapping the last slot into the freed place keeps every index at its own slot and removes just that registration |
| `Pollers.RewriteSlotKeeps` | EdoyumIMServer/net/poller/PollPoller.cc:92-109 | Rewriting a slot, negated for an empty mask, changes just that registration |
| `Pollers.AddSlotKeeps` | EdoyumIMServer/net/poller/PollPoller.cc:75-91 | A new slot at the end adds just that registration |
| `Pollers.EPollAddKeeps` | EdoyumIMServer/net/poller/EPollPoller.cc:113-130 | Adding a new or deleted channel is a request the kernel accepts and sets just that mask |
| `Pollers.EPollChangeKeeps` | EdoyumIMServer/net/poller/EPollPoller.cc:131-148 | Modifying or deleting an added channel is a request the kernel accepts and sets just that mask |
| `Pollers.EPollRemoveKeeps` | EdoyumIMServer/net/poller/EPollPoller.cc:151-170 | A removal deletes from the kernel exactly what it still holds |
| `Pollers.PollPoller.UpdateChannel` | EdoyumIMServer/net/poller/PollPoller.cc:75-110 | Vector, map and channel index become the updated slots, by the index the channel holds |
| `Pollers.PollPoller.RemoveChannel` | EdoyumIMServer/net/poller/PollPoller.cc:112-140 | Vector, map and the moved channel index become the reduced slots; the removed channel keeps its old index |
| `Pollers.PollPoller.FillActiveChannels` | EdoyumIMServer/net/poller/PollPoller.cc:55-73 | Exactly the channels of the slots with events, in slot order, each holding its received events; the asserted lookups succeed |
| `Pollers.EPollPoller.Update` | EdoyumIMServer/net/poller/EPollPoller.cc:172-192 | The interest set changes by the one request, or the refusal is recorded and nothing changes |
| `Pollers.EPollPoller.UpdateChannel` | EdoyumIMServer/net/poller/EPollPoller.cc:107-149 | Map, index and interest set become those of the specification, by the index the channel holds, with no refused request |
| `Pollers.EPollPoller.RemoveChannel` | EdoyumIMServer/net/poller/EPollPoller.cc:151-170 | The channel leaves map and interest set and is new again |
| `Pollers.Channel.constructor` | EdoyumIMServer/net/Channel.cc:24-35 | A new channel has no events, no received events and index -1 |
| `NetBuffer.Buffer.Append` | EdoyumIMServer/net/Buffer.h:182-187 | The readable bytes become the old ones followed by the input, through growth or compaction |
| `NetBuffer.Buffer.MakeSpace` | EdoyumIMServer/net/Buffer.h:390-409 | Room is made without changing the readable bytes; the array grows only when the room at both ends does not suffice; the asserted front gap exists |
| `NetBuffer.Buffer.MoveToFront` | EdoyumIMServer/net/Buffer.h:400-408 | The overlapping forward copy preserves the readable bytes |
| `NetBuffer.Buffer.EnsureWritableBytes` | EdoyumIMServer/net/Buffer.h:194-201 | Enough room, same readable bytes |
| `NetBuffer.Buffer.Retrieve` | EdoyumIMServer/net/Buffer.h:113-124 | The front bytes are dropped; an emptied buffer starts over |
| `NetBuffer.Buffer.RetrieveAsString` | EdoyumIMServer/net/Buffer.h:164-170 | The front bytes are returned and dropped |
| `NetBuffer.Buffer.Prepend` | EdoyumIMServer/net/Buffer.h:354-360 | The input is put in front of the readable bytes |
| `NetBuffer.Buffer.Unwrite` | EdoyumIMServer/net/Buffer.h:215-219 | The last bytes are dropped |
| `NetBuffer.Buffer.Shrink` | EdoyumIMServer/net/Buffer.h:362-369 | A fresh array holds the readable bytes and the reserve, all of them below 2^31; the length passes through an int, and a negative one fails without a change |
| `NetBuffer.Buffer.ReadFd` | EdoyumIMServer/net/Buffer.cc:25-57 | Bytes split between the tail and the extra buffer arrive in order; an error changes nothing |
| `NetBuffer.Buffer.AppendInt` | EdoyumIMServer/net/Buffer.h:221-249 | Network order, two's complement, any width |
| `NetBuffer.Buffer.PrependInt` | EdoyumIMServer/net/Buffer.h:325-352 | Network order in front, any width |
| `NetBuffer.Buffer.ReadInt` | EdoyumIMServer/net/Buffer.h:254-284 | The signed value of the front bytes in network order, which are dropped |
| `NetBuffer.IntReadsBack` | EdoyumIMServer/net/Buffer.h:221-323 | An integer put at the front of any bytes is read back, whatever its width and sign |
| `BinaryCodec.FieldsReadBackIff` | EdoyumIMServer/BinaryReader.cpp:5-51 | Any integers in network order and strings written one after the other are read back field by field with the cursor at their end, if and only if every string is shorter than 2^31 and the fields end below 2^32, the range of the cursor |
| `BinaryCodec.TextReadsBackIff` | EdoyumIMServer/BinaryReader.cpp:5-28 | A string behind its prefix is read back if and only if its length fits a 32-bit int and its end the 32-bit cursor; a length from 2^31 to 2^32 makes reading throw |
| `BinaryCodec.TextInsideIff` | EdoyumIMServer/BinaryReader.cpp:5-28 | For every buffer and every index inside it, a read succeeds with the cursor inside the buffer if and only if a whole string, a prefix of any form and as many bytes, stands there, and the text is that string |
| `BinaryCodec.TextPastEnd` | EdoyumIMServer/BinaryReader.cpp:5-28 | The other reads that succeed occur: at the end of any buffer, with the terminating zero taken as text, with a length that never ends |
| `BinaryCodec.ReadPrefix` | EdoyumIMServer/BinaryReader.cpp:11-20 | The length loop on any prefix, the shortest one or not, gives its groups as a 32-bit int |
| `BinaryCodec.PrefixIsShortest` | EdoyumIMServer/BinaryReader.h:176-200 | The length prefix is one, stands for the length, is the shortest that does, and has at most five bytes below 2^35 |
| `BinaryCodec.Compress` | EdoyumIMServer/BinaryReader.h:176-200 | The loop over five groups writes the shortest prefix of the low 35 bits of any length |
| `BinaryCodec.SwapTwice` | EdoyumIMServer/BinaryReader.h:96-115 | htonl puts a value in memory in network order, and twice gives it back |
| `BinaryCodec.HostOrderReadsSwapped` | EdoyumIMServer/BinaryReader.h:140-148 | An integer written without htonl is read back byte-swapped |
| `BinaryCodec.BinaryWriter.WriteNumber` | EdoyumIMServer/BinaryReader.h:140-148 | The bytes of the value in memory, at the index, whatever was behind it cut off |
| `BinaryCodec.BinaryWriter.WriteText` | EdoyumIMServer/BinaryReader.cpp:31-51 | Prefix and bytes are appended, and the index moves by their number |
| `BinaryCodec.BinaryWriter.WriteFields` | EdoyumIMServer/BinaryReader.h:140-200 | A run of writes keeps the index at the buffer size and holds exactly the fields |
| `BinaryCodec.BinaryWriter.Assign` | EdoyumIMServer/BinaryReader.h:132-138 | Assigning a text leaves the index at 0 |
| `BinaryCodec.BinaryReader.ReadNumber` | EdoyumIMServer/BinaryReader.h:96-115 | The reversing loop yields the network-order value; a field that does not fit is refused and nothing moves |
| `BinaryCodec.BinaryReader.ReadString` | EdoyumIMServer/BinaryReader.cpp:5-28 | The length loop and the unchecked copy behave as specified, running outside the string included |
| `Framing.DeliveredExactly` | EdoyumIMServer/ClientSession.cpp:33-64 | For every list of payloads sent, every cutting of the stream into reads and a last frame cut anywhere, exactly those payloads are handed over, once each and in order, and only the incomplete frame stays |
| `Framing.MessagesDelivered` | EdoyumIMServer/ClientSession.h:47-63 | Messages written field by field, framed, cut into reads and reassembled read back as written |
| `Framing.FeedIsDeframe` | EdoyumIMServer/ClientSession.cpp:33-64 | For every byte stream, well formed or not, what is handed over does not depend on how it is cut into reads |
| `Framing.DeframeAppend` | EdoyumIMServer/ClientSession.cpp:33-64 | Bytes that arrive later change nothing that was already handed over |
| `Framing.DeframeAccounts` | EdoyumIMServer/ClientSession.cpp:36-53 | Every byte is accounted for: the input is the packets handed over, then an idle rest, or a bad size |
| `Framing.ThrowsIff` | EdoyumIMServer/ClientSession.cpp:41-49 | OnRead throws if and only if behind well-formed packets stands a size below 6 with enough bytes to act on it |
| `Framing.SentReadsBackIff` | EdoyumIMServer/ClientSession.h:47-63 | What conn->send is given for a payload, the frame length passed as an int, comes apart into just that payload if and only if the whole frame is shorter than 2^31 bytes |
| `Framing.FrameFields` | EdoyumIMServer/ClientSession.h:47-63 | A frame begins with the payload length plus six in host order, the payload length in network order and two zero bytes |
| `Framing.ResentIsHeader` | EdoyumIMServer/ClientSession.cpp:958-971 | Sending the same writer again delivers the first frame header in place of the payload, except for the one payload equal to its own header |
| `Framing.Send` | EdoyumIMServer/ClientSession.h:47-63 | The frame of the writer content is given to the connection with its length narrowed to int, nothing when that is negative, and the writer is left with the header alone |
| `Framing.OnRead` | EdoyumIMServer/ClientSession.cpp:33-64 | The loop on the buffer hands over and leaves exactly what the specification says, in every case |
| `Framing.HandleRead` | EdoyumIMServer/net/TcpConnection.cc:347-366 | One read into the connection buffer and OnRead are one step of the reassembly; an empty read or an error hands over nothing |
| `Framing.Receive` | EdoyumIMServer/ClientSession.cpp:33-64 | Reading a stream through one buffer, each read as long as the kernel likes, hands over the payloads of the whole stream and leaves its rest |
| `Framing.FramesThenCut` | EdoyumIMServer/ClientSession.h:47-63 | A stream of sent frames and the beginning of another comes apart into exactly the payloads and that beginning |

## Left out

- MySQL access, `UserManager`, `QueryResult` and the chat and group handlers of `ClientSession`: SQL text and field plumbing.
- `FileSession` and `FileManager`: file input and output; their framing repeats `OnRead` with an 8-byte header.
- JSON comment text and offsets stored in values, `OurReader`, `Path`, other writers, locale handling and the memory management of `Value`; values are an immutable datatype.
- The text of doubles: `valueToString(double)` and `decodeDouble` are parameters; `JsonStyledGrammar.StyledIsStandard` covers the trees whose doubles the platform prints as numbers of RFC 8259.
- `readDataBlock` and `readTimeZoneFile`: tables start in memory.
- HTTP, inspectors, protobuf RPC and zlib.
- Mutexes, conditions, threads, latches, queues and thread pools, other than as atomic steps; weak-memory effects on `quit_` and `callingPendingFunctors_`.
- Sockets, acceptor, connector, process information, log formatting, `main` files.
- The rounds and constants of `MD5::transform`.
- The high-water-mark and write-complete callbacks of a connection, delayed closing and reading on and off.
- The handlers `Channel::handleEvent` and the event callbacks behind it; `Channel` is reduced to descriptor, mask and index.
- TimeZone.JoinOfBreak: stated up to the last day number whose products fit 32 bits; beyond it the calendar formulas of the source overflow.
- JSON names of 2^30 bytes and more in a document: the source keeps their length modulo 2^30.
- BinaryCodec.TextInsideIff: stated for buffers the 32-bit cursor can count past, that is below 2^32 - 1 bytes.
- Md5.MD5.Update: stated for the calls that return; the others are those of `Md5.UpdateReturnsIff`.
- Pollers.Channel.constructor: callbacks, the owner tie and the debugging flags of a channel are not modelled.
- EventLoop.Loop.QueueInLoop: the object is stepped without another thread between push and wakeup; `EventLoop.Loop.Enqueue` and `EventLoop.Loop.Wakeup` hold in every state, and interleavings are covered by the state machine.
- TcpConnection.Connection.Send: the object holds the output as a byte sequence, which `NetBuffer.Buffer` refines.
- AsyncLogging.NeverAborts: lines appended after the thread found `running_` false stay in the buffers, as in the source.
