# vmime core: a Dafny model

This project models the pure core of the vmime mail library (the 0.x C++
sources) and proves properties of it:

- the `Received:` trace field (`relayField`): the parser that splits off
  the date at the last `;`, tokenises the rest on white space, tracks a
  comment mode and routes words into the from / by / via / with* / id /
  for clauses, and the generator that writes the clauses back in a fixed
  order. The clause grammar is the one of section 4.1 of RFC 822 (the
  source's comment labels it RFC 2822, whose section 3.6.7 gives
  `Received:` only a generic name-value list and a date, not the from /
  by / via / with / id / for clauses);
- `charset`: the name value with case-insensitive equality, verbatim
  parse and generate, and the two transcoding drivers around the
  conversion primitive (`iconv`): the buffer form `iconvert` and the
  streaming form with its `prevIsInvalid` retry flag, modelled as an
  explicit Fresh / PendingRetry state machine;
- `word`: a (buffer, charset) pair, its equality and conversion;
- the header-field variants `relayField`, `mailboxListField` and
  `contentEncodingField` as one tagged union with the checked `copyFrom`
  (a `dynamic_cast` that fails before anything changes), and `bodyPart`
  (header, CRLF, body; `clone` detaches the part from its parent);
- `random::next`, the multiplicative congruential generator;
- the pure helpers of `SMTPTransport`: reply code and reply text
  (section 4.2 of RFC 5321), the end-of-reply test and CRLF strip of
  `readResponse`, the argument checks of `send`, and the dot-stuffing
  transparency loop of `send` (section 4.5.2 of RFC 5321).

Collaborators whose code is not part of this model are function
parameters: the date parser and generator, the mailbox-list parser and
generator, the encoding parser and generator, the header and body parsers
and generators, the field-name prefix writer (`headerField::generate`),
`encodeAndFoldText`, the locale charset, and `iconv_open` / `iconv`
(an `Opener` returning an optional `Converter`; a converter step reports
its output and how many input bytes it consumed, and failure is
consuming fewer than all). `isStringEqualNoCase` (in `parserHelpers.hpp`,
not part of this model) is modelled as ASCII case folding; its
three-argument form is taken to mean "the word has at least n characters
and its first n match the keyword ignoring case".

Files: `exceptions.dfy` (errors, `Option`, `Result`, `Outcome`),
`field_types.dfy` (stand-in value types), `parser_helpers.dfy` (case
folding, white-space tokenising, search), `charset.dfy`, `word.dfy`,
`relay_field.dfy`, `relay_properties.dfy`, `header_fields.dfy`,
`mailbox_list_field.dfy`, `content_encoding_field.dfy`, `body_part.dfy`,
`random.dfy`, `smtp_replies.dfy`, `dot_stuffing.dfy`.

The streaming conversion is modelled as the code behaves. The
`prevIsInvalid` flag is meant to keep a false `?` away from a multibyte
sequence that is only cut off at the end of the 5-byte input buffer: the
first failure keeps the unconverted bytes for a retry with more input.
But the flag is cleared only by a call that fails nowhere, so once one
invalid byte has been replaced, the next failing call emits `?` and drops
the byte where it stopped, wherever that is. In particular, a sequence
that is merely cut off at the buffer boundary after an invalid byte gets a
`?`. `Charset.StreamRetryIgnoresPosition` shows such an input ("ZbcdeMy",
where 'Z' is invalid and "My" is one two-byte character split across
refills), on which the streaming form gives "?bcde?y" and the buffer form
"?bcdeMy".

## Model

| member | source | states |
|---|---|---|
| Charset.Default | src/charset.cpp:43-46 | the default charset is named US-ASCII (compared ignoring case) |
| Charset.Parse | src/charset.cpp:55-62 | the name is exactly the bytes of [position, end) and the new position is end |
| Charset.Generate | src/charset.cpp:65-72 | the column advances by the length of the text written, and parsing that text gives the same charset back |
| Charset.GenerateAfterParse | src/charset.cpp:55-72 | generating a parsed charset reproduces the parsed range byte for byte and advances the column by its length |
| Charset.AssignName | src/charset.cpp:286-290 | assigning a string makes the charset generate exactly that string |
| Charset.EqualIffSameLowerName | src/charset.cpp:293-302 | `Equal` (`operator==`) holds exactly when the lower-cased names agree, and `NotEqual` (`operator!=`) exactly when they differ |
| Charset.EqualIsEquivalence | src/charset.cpp:293-296 | `==` is reflexive, symmetric and transitive |
| Charset.Convert | src/charset.cpp:259-262 | conversion fails with a conversion error exactly when no converter exists for the pair |
| Charset.IConvert | src/charset.cpp:170-216 | the loop (output cleared, primitive called on the rest, `?` and one skipped byte per blocking byte, stop when all input is consumed) computes the recursive buffer-form definition, and fails when there is no converter |
| Charset.TranscodeReplacesBlockingBytes | src/charset.cpp:188-207 | with a primitive that blocks on one byte value, the buffer form replaces each occurrence of that byte by exactly one `?` and keeps every other byte |
| Charset.Advance | src/charset.cpp:98-148 | one iteration keeps at most five bytes buffered, only appends to the output, ends flagged exactly when the call failed, and from an unflagged state writes exactly the converted bytes (no `?`) |
| Charset.ConvertStream | src/charset.cpp:84-158 | the streaming loop computes the state-machine run over the input, and fails exactly when no converter exists |
| Charset.RunReplacesBlockingBytes | src/charset.cpp:108-148 | from any loop state, with a primitive that blocks on one byte value, the output is what was written plus the unread input with each blocking byte replaced by one `?` |
| Charset.StreamReplacesBlockingBytes | src/charset.cpp:84-216 | on such a primitive the streaming form agrees with the buffer form |
| Charset.StreamRetryIgnoresPosition | src/charset.cpp:112-135 | a second failure at a different place still emits `?` and drops a byte, so the two forms differ on "ZbcdeMy" for a two-byte encoding |
| Word.Empty | src/word.cpp:27-30 | the default word is empty and in the locale charset |
| Word.FromBuffer | src/word.cpp:39-42 | a word from a buffer alone is that buffer in the locale charset |
| Word.Make | src/word.cpp:45-48 | buffer and charset are stored unchanged (the charset name keeps its case), and the word is `==` exactly to the words with a byte-equal buffer and a charset whose name is equal ignoring case |
| Word.AssignBuffer | src/word.cpp:73-77 | assigning a string replaces the buffer, keeps the charset, and the result equals the old word exactly when the buffer was already that string |
| Word.NotEqualIsNegation | src/word.cpp:80-89 | `NotEqual` (`operator!=`, written as its own disjunction of the two differences) is the exact negation of `Equal` (`operator==`), and `Equal` is byte equality of buffers plus case-insensitive equality of charset names |
| Word.EqualIsEquivalence | src/word.cpp:80-83 | word equality is reflexive, symmetric and transitive |
| Word.ConvertedText | src/word.cpp:92-99 | the converted text is the buffer converted from the word's own charset to the destination, and conversion fails exactly when no converter exists |
| RelayField.Parse | src/relayField.cpp:49-185 | the new position is always end; without `;` nothing is assigned; otherwise the date parser, called on the date the field holds, reads the bytes after the last `;`, and the clauses are scanned from the bytes before it; with-entries are never removed |
| RelayField.ScanTextKeepsWith | src/relayField.cpp:152-179 | scanning only appends to the with-list and leaves the date alone |
| RelayField.GenerateValue | src/relayField.cpp:194-207 | the value ends with "; " followed by the generated date |
| RelayField.Generate | src/relayField.cpp:209-216 | the field prefix is written first, and the value is handed to the folder with the `forceNoEncoding` flag set, from the column where the prefix ended |
| RelayFieldProperties.KeywordOfKeywordText | src/relayField.cpp:111-141 | `Keyword` (the chain of `isStringEqualNoCase` tests) recognises each keyword as generated as its own clause |
| RelayFieldProperties.AnyFoWordIsFor | src/relayField.cpp:111-139 | `Keyword` compares prefixes only: every word whose first two letters are 'f' and 'o', in any case, opens the `for` clause (it can never match the four letters of "from") |
| RelayFieldProperties.AnyViWordIsVia | src/relayField.cpp:111-124 | likewise every word whose first two letters are 'v' and 'i', in any case, opens the `via` clause |
| RelayFieldProperties.FromNeedsFourLetters | src/relayField.cpp:111-115 | `Keyword` needs all four letters for `from`: "FROM" opens it but "frog" opens nothing |
| RelayFieldProperties.ScanTextIsAssignAll | src/relayField.cpp:88-179 | scanning keyword-led clauses of plain words applies each clause in order, as an independent reference definition |
| RelayFieldProperties.WithAccumulates | src/relayField.cpp:170 | the with-list gains exactly the with-values, in order |
| RelayFieldProperties.LastOccurrenceWins | src/relayField.cpp:165-174 | a repeated from/by/via/id/for clause keeps the last value given |
| RelayFieldProperties.LeadingWordsDiscarded | src/relayField.cpp:152-179 | words before the first keyword reach no clause |
| RelayFieldProperties.AssignAllClauses | src/relayField.cpp:194-205 | the clauses generation writes rebuild the field from an empty one |
| RelayFieldProperties.PiecesAreClauseTexts | src/relayField.cpp:194-205 | the generated pieces are the non-empty from, by, via, every with, id and for, in that order, each as "keyword value" |
| RelayFieldProperties.GenerateThenParse | src/relayField.cpp:49-207 | parsing the generated value of a well-formed field (plain words, no `;`) into a fresh field gives the field back, when the date parser, called on the fresh field's date, reads back the generated date |
| RelayFieldProperties.GenerateFieldThenParse | src/relayField.cpp:49-216 | when the folder writes a value unchanged under `forceNoEncoding` (the flag `generate` passes), the whole generated field, read past its field-name prefix, parses back into a fresh field as the field |
| RelayFieldProperties.TypicalTraceLine | src/relayField.cpp:36-47 | "from o by r with p id i; date" parses into those four clauses and the date |
| RelayFieldProperties.CommentHidesKeywords | src/relayField.cpp:95-109 | `ScanWord` (one turn of the word loop): in comment mode a word without `)` is buffered and nothing else changes, even when it is a keyword |
| RelayFieldProperties.ClosingWordIsSplit | src/relayField.cpp:97-104 | `ScanWord`: a word closing a comment is buffered through its `)` and its rest is scanned as a word of its own outside comment mode |
| RelayFieldProperties.OpeningWordStartsComment | src/relayField.cpp:143-149 | `ScanWord`: a non-keyword word containing `(` is buffered and turns comment mode on |
| RelayFieldProperties.SelfClosedCommentSwallowsKeyword | src/relayField.cpp:143-149 | after "(x)" comment mode is on, so a following "by" is buffered as a plain word |
| HeaderFields.RelayCopyFrom | src/relayField.cpp:220-236 | from a relay field the target becomes the source (all clauses, the with-list and the date, then the common state); from another variant it fails with a cast error and stays unchanged |
| HeaderFields.MailboxListCopyFrom | src/mailboxListField.cpp:50-56 | from a mailbox-list field the list and common state are copied; otherwise a cast error and no change |
| HeaderFields.ContentEncodingCopyFrom | src/contentEncodingField.cpp:53-59 | from a content-encoding field the value, parameters and common state are copied; otherwise a cast error and no change |
| HeaderFields.CopyFrom | src/relayField.cpp:220-236 | the dispatched copy succeeds exactly between fields of the same variant |
| HeaderFields.CopyFromIsIdempotent | src/mailboxListField.cpp:50-56 | copying twice from the same source is copying once |
| MailboxListField.Parse | src/mailboxListField.cpp:32-36 | the list comes from the list parser, called on the list held and [position, end); the new position is the list parser's, and the common state is kept |
| MailboxListField.ParseReplacesList | src/mailboxListField.cpp:32-36 | `parse` only forwards to the held list's parser and adds no memory of its own: for a range on which that parser ignores the list it holds, two fields with the same common state parse to the same field |
| MailboxListField.Generate | src/mailboxListField.cpp:39-47 | the prefix is written first, the list starts at the column where the prefix ended, and the final column is the list's |
| MailboxListField.ParseGeneratedValue | src/mailboxListField.cpp:32-47 | when the list parser, whatever list it holds, reads back every list text the list generator writes after any prefix, parsing the generated field text from the end of its prefix gives the field back, with the new position at the end |
| ContentEncodingField.ParseValue | src/contentEncodingField.cpp:33-37 | the encoding comes from the encoding parser on [position, end) and the parameters and common state are kept |
| ContentEncodingField.AssignEncoding | src/contentEncodingField.cpp:46-50 | assigning an encoding replaces the value and nothing else |
| ContentEncodingField.AssignTwice | src/contentEncodingField.cpp:46-50 | a second assignment overrides the first |
| ContentEncodingField.ParseGeneratedValue | src/contentEncodingField.cpp:33-43 | when the encoding parser, whatever encoding it holds, reads back every generated encoding name, parsing the generated value gives the encoding back |
| ContentEncodingField.GenerateAfterAssign | src/contentEncodingField.cpp:40-50 | after assigning an encoding the generated value is that encoding's text |
| BodyPart.NewPart | src/bodyPart.cpp:27-30 | a new part has no parent |
| BodyPart.Parse | src/bodyPart.cpp:33-45 | the header parser, called on the header held, reads from position; the body parser, called on the body held and the new header, reads from where the header stopped up to end; the parent is kept and the new position is end |
| BodyPart.ParseForgetsContents | src/bodyPart.cpp:33-45 | `parse` only forwards to the header and body parsers and adds no memory of its own: for a range on which those ignore what they hold, two parts with the same parent parse to the same part |
| BodyPart.Generate | src/bodyPart.cpp:48-59 | the text is the header text, CRLF, then the body text (the body generated under the part's header), both generated at column 0 with the same line length, and the final column is 0 |
| BodyPart.GenerateIgnoresColumn | src/bodyPart.cpp:48-49 | the incoming column does not affect the output |
| BodyPart.ParseGenerated | src/bodyPart.cpp:33-59 | when the header parser, whatever it holds, reads a generated header followed by CRLF and any rest, stopping just after that CRLF, and the body parser, whatever it holds, given a header reads back any body generated under that same header after any prefix (so bodies that depend on the content type, such as multipart ones, are covered), parsing a generated part gives its header and body back |
| BodyPart.Clone | src/bodyPart.cpp:62-71 | a clone has no parent and the source's header and body |
| BodyPart.CloneGeneratesAlike | src/bodyPart.cpp:62-71 | a clone generates the same text as its source |
| BodyPart.CloneIsIdempotent | src/bodyPart.cpp:62-71 | cloning a clone changes nothing, and a part without a parent is its own clone |
| Random.Seed | src/utility/random.cpp:30 | the state is the clock value converted to a 32-bit unsigned int |
| Random.Next | src/utility/random.cpp:33-43 | the new state is the value returned; on ILP32 it is 16807 x mod 2^31 and on LP64 16807 x mod 2^32 |
| Random.Ilp32IsPowerOfTwoModulus | src/utility/random.cpp:38-41 | on ILP32 the wrapped product reduced by `1 << 31` is 16807 x mod 2^31 |
| Random.Lp64IsTruncation | src/utility/random.cpp:38-41 | on LP64 the `%` never reduces and only the cast truncates to 32 bits |
| Random.Ilp32Bound | src/utility/random.cpp:39-41 | on ILP32 every value is below 2^31 |
| Random.ZeroIsFixed | src/utility/random.cpp:41 | a zero state stays zero under either data model |
| Random.ParityIsKept | src/utility/random.cpp:41 | the lowest bit never changes: odd seeds give only odd values, even seeds only even ones |
| Random.ParkMiller | src/utility/random.cpp:35-37 | the generator the comment describes: below 2^31 - 1, congruent to 16807 x, and never zero from a non-zero state |
| Random.ParkMillerOrbitStaysInRange | src/utility/random.cpp:35-37 | from a non-zero seed below 2^31 - 1 every iterate of the described generator stays in [1, 2^31 - 2] |
| Random.Ilp32ReachesParkMillerModulus | src/utility/random.cpp:39-41 | as written, seed 868985321 steps to 2^31 - 1, where the described generator gives 6800 |
| Random.Ilp32DiffersFromParkMiller | src/utility/random.cpp:35-41 | as written, seed 127774 steps to 13970, where the described generator gives 13971 |
| Random.Lp64ExceedsParkMillerRange | src/utility/random.cpp:39-41 | on LP64, seed 127774 steps to 2147497618, beyond 2^31 - 1 |
| SmtpReplies.ResponseCode | src/messaging/SMTPTransport.cpp:437-449 | 0 for a response shorter than three characters; for one starting with three digits, a value in 0..999 whose decimal digits are those three |
| SmtpReplies.CodeRoundTrip | src/messaging/SMTPTransport.cpp:441-446 | reading the code of a reply that starts with a formatted code gives that code, whatever follows |
| SmtpReplies.CodeDigitsRoundTrip | src/messaging/SMTPTransport.cpp:441-446 | formatting the code of a digit-led reply gives its first three characters |
| SmtpReplies.ResponseCodeExample | src/messaging/SMTPTransport.cpp:437-449 | "250 OK" gives 250 and "25" gives 0 |
| SmtpReplies.LinesOfJoin | src/messaging/SMTPTransport.cpp:456-459 | splitting joined non-empty lines as `getline` does gives the lines back |
| SmtpReplies.Lines | src/messaging/SMTPTransport.cpp:456-459 | the `getline` split yields lines that hold no '\n' |
| SmtpReplies.ResponseText | src/messaging/SMTPTransport.cpp:452-470 | the empty reply has no text; a one-line reply loses its first four characters (or none if shorter) and gains a '\n' |
| SmtpReplies.ResponseTextOfLines | src/messaging/SMTPTransport.cpp:452-470 | for any reply of non-empty lines joined by '\n', long and short lines mixed, the text is each line without its first four characters (kept whole when shorter than four), each followed by '\n' |
| SmtpReplies.ShortLastLineKeptWhole | src/messaging/SMTPTransport.cpp:459-464 | for a line of at least four characters followed by a non-empty line of fewer than four (such as "250-first\r" then "250"), the text is the first line without its four-character prefix, '\n', the second line whole, '\n' |
| SmtpReplies.ReplyTextRoundTrip | src/messaging/SMTPTransport.cpp:452-470 | for a reply whose lines are a four-character code prefix and a text, the reply text is exactly those texts, each ended by '\n' |
| SmtpReplies.ScanStop | src/messaging/SMTPTransport.cpp:508-520 | the backward scan stops at 0 or at the last '\n' before the final character |
| SmtpReplies.HasTerminator | src/messaging/SMTPTransport.cpp:505-521 | the loop sets the flag exactly when the buffer has at least two characters, ends in '\n', and the scan stop plus 4 is below its length |
| SmtpReplies.ScanStopIsUnique | src/messaging/SMTPTransport.cpp:508-520 | any position with the scan-stop properties is the scan stop |
| SmtpReplies.TerminatorLooksAtLastLine | src/messaging/SMTPTransport.cpp:505-521 | `TerminatorFound` (the test as written): a buffer ending in a line and '\n' is complete when that line has at least 3 characters after an earlier line, or at least 4 as the only line, whatever the line holds |
| SmtpReplies.ContinuationLineEndsRead | src/messaging/SMTPTransport.cpp:505-521 | "250-first\r\n" passes the terminator test though a continuation line follows; the corrected test waits for "250 last\r\n" |
| SmtpReplies.ReplyCompleteLooksAtLastLine | src/messaging/SMTPTransport.cpp:505-521 | the corrected test accepts a buffer exactly when its last line has at least three characters and no '-' after the code, so continuation lines never end the reply |
| SmtpReplies.StripLineEnding | src/messaging/SMTPTransport.cpp:524-531 | the strip returns a prefix; it shortens exactly when the buffer has two or more characters and ends in '\n', and by two exactly when it ends in "\r\n" |
| SmtpReplies.StripCrlf | src/messaging/SMTPTransport.cpp:524-531 | stripping text + "\r\n" gives the text back |
| SmtpReplies.StripLf | src/messaging/SMTPTransport.cpp:524-531 | stripping text + "\n" gives the text back when the text is non-empty and does not end in '\r' |
| SmtpReplies.SendPrecheck | src/messaging/SMTPTransport.cpp:332-336 | no-recipient exactly when the list is empty, no-expeditor exactly when the list is non-empty and the sender is empty, and success otherwise |
| DotStuffing.UnstuffStuff | src/messaging/SMTPTransport.cpp:385-404 | removing the line-initial dots again gives the message back |
| DotStuffing.StuffedLineDotsDoubled | src/messaging/SMTPTransport.cpp:385-404 | after stuffing every '.' that starts a line is followed by a second '.' |
| DotStuffing.StuffAppend | src/messaging/SMTPTransport.cpp:385-404 | stuffing a concatenation stuffs the second part from the line state the first leaves |
| DotStuffing.SendChunk | src/messaging/SMTPTransport.cpp:385-404 | the find loop sends the chunk with one extra '.' before each '.' preceded by '\n' in the same chunk |
| DotStuffing.ChunkStartNeverDoubled | src/messaging/SMTPTransport.cpp:392 | a '.' at index 0 of a chunk is sent once |
| DotStuffing.AsWrittenMissesChunkBoundary | src/messaging/SMTPTransport.cpp:381-404 | `StuffChunksAsWritten` (each chunk stuffed on its own): chunks "a\n" and ".\r" go out as "a\n.\r", which leaves a lone '.' at a line start |
| DotStuffing.AsWrittenMissesFirstLine | src/messaging/SMTPTransport.cpp:392 | any single chunk that starts with '.' and holds no other '.' (".\r\nrest", whose first line is ".", for one) is sent unchanged, so its line-initial '.' is not doubled |
| DotStuffing.ChunkingIsInvisible | src/messaging/SMTPTransport.cpp:381-404 | with the line state carried across chunks, the output does not depend on how the message is cut |
| DotStuffing.DataPayload | src/messaging/SMTPTransport.cpp:381-419 | the corrected payload ends with "\r\n.\r\n", unstuffs to the message, and has every line-initial '.' doubled |
| DotStuffing.CorrectedStuffsChunkBoundary | src/messaging/SMTPTransport.cpp:381-404 | the corrected transfer sends chunks "a\n" and ".\r" as "a\n..\r" |
| DotStuffing.CorrectedStuffsFirstLine | src/messaging/SMTPTransport.cpp:392 | the corrected transfer doubles the '.' that starts the message: "." followed by a dot-free rest goes out as ".." and that rest |

## Left out

- The SMTP session: `connect`, the greeting and EHLO/HELO dialogue, authentication, `sendRequest`, the MAIL / RCPT / DATA exchange in `send`, the socket loop, time-outs and the wait of `readResponse`, and progress callbacks. These are network I/O; only the pure helpers are modelled, and `readResponse` is modelled on the buffer as it stands after a read.
- The 64 KiB chunk size of `send`: chunks are any sequence of strings, so every cut is covered.
- `iconv` itself and the charset tables: the primitive is a parameter. The 32 KiB output buffer of the streaming form and the 64 KiB one of `iconvert` are left out; a call is taken to convert everything it consumes in one go, so E2BIG never arises. Each call is also taken to depend on its own input bytes only: the conversion state `iconv` keeps in the descriptor between calls (the shift state of stateful encodings such as ISO-2022-JP or UTF-7, byte-order-mark handling) is not modelled, so both drivers are modelled faithfully only for stateless charsets.
- `charset::decode`, `charset::encode` and `word::getDecodedText`: wide-character forms, compiled only with wide-character support.
- `charset::getLocaleCharset` and `random::time` / `random::process`: platform calls; the locale charset and the clock value are parameters.
- Copy construction and copy assignment of `word` and `charset`: values are immutable here, so a copy is the value itself.
- `headerField::copyFrom` and `parameterizedHeaderField::copyFrom`: their code is not part of this model; they are taken to copy the common field state and the parameter list whole.
- `mailbox::empty`: its code is not part of this model; a mailbox is taken to be empty when its address is empty (`SmtpReplies.MailboxIsEmpty`).
- The date, mailbox-list, encoding, header and body types: stand-in values produced by parameter parsers. `relayField::parse` hands the date parser the date the field holds and the bytes after the last `;`, rather than the buffer and a range.
- The deep copy of children in `bodyPart::clone`: the header and body are values and are copied whole.
- The signedness of `char`: characters compare by code point, so `responseCode` on non-digits is `c - '0'` over code points.
- `random::next` on a platform whose `int` is not 32 bits wide: only the ILP32 and LP64 data models are modelled.
- ContentEncodingField.GenerateValue: has no contract of its own; the generator is a parameter, and `ContentEncodingField.GenerateAfterAssign` and `ContentEncodingField.ParseGeneratedValue` state what it returns.
- RelayField.Generate: states only how the prefix and the folded value are put together and which flag the folder gets; `encodeAndFoldText` is a parameter, so nothing is claimed about folding itself (`RelayFieldProperties.GenerateFieldThenParse` assumes a folder that leaves the value alone).
- MailboxListField.ParseReplacesList: `mailboxList::parse` is not part of this model, so whether it keeps anything of the list held before is not known; the lemma states only that the field adds no memory of its own, under the hypothesis that the list parser ignores the held list.
- BodyPart.ParseForgetsContents: `header::parse` and `body::parse` are not part of this model, so whether they keep anything of what they held is not known; the lemma states only that the part adds no memory of its own, under the hypothesis that both parsers ignore what they hold.

## Findings

| source | as written | input that shows it | evidently intended | confidence | as-written member | corrected member |
|---|---|---|---|---|---|---|
| src/utility/random.cpp:35-41 | `c = 1 << 31`, so on ILP32 the state is 16807 x mod 2^31 (and on LP64 mod 2^32), which reaches 2^31 - 1 and keeps the parity of the seed | seed 868985321 steps to 2147483647; seed 127774 steps to 13970 instead of 13971 | Park and Miller's minimal standard, 16807 x mod (2^31 - 1), as the comment says | high, not executed | Random.Next, Random.Ilp32ReachesParkMillerModulus | Random.ParkMiller, Random.ParkMillerOrbitStaysInRange |
| src/messaging/SMTPTransport.cpp:381-404 | each chunk is stuffed on its own, and a '.' is doubled only when the byte before it in the same chunk is '\n', so a '.' at the start of a chunk or of the message is never doubled | chunks "a\n" and ".\r" are sent as "a\n.\r"; the message ".\r\nrest" is sent unchanged and its first line ends the data | every line-initial '.' doubled, the line state carried from the start of the data across chunks (section 4.5.2 of RFC 5321) | high, not executed | DotStuffing.StuffChunksAsWritten, DotStuffing.AsWrittenMissesChunkBoundary, DotStuffing.AsWrittenMissesFirstLine | DotStuffing.StuffChunks, DotStuffing.DataPayload, DotStuffing.CorrectedStuffsChunkBoundary |
| src/messaging/SMTPTransport.cpp:505-521 | the terminator test only checks that the last line has at least four characters (three after an earlier line), not that it is a final line rather than a continuation line "ddd-" | a read that ends after "250-first\r\n" stops, though the reply continues with "250 last\r\n" | the reply ends at a line whose code is not followed by '-' (section 4.2.1 of RFC 5321) | medium, not executed | SmtpReplies.TerminatorFound, SmtpReplies.ContinuationLineEndsRead | SmtpReplies.ReplyComplete, SmtpReplies.ReplyCompleteLooksAtLastLine |
