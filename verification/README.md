# fing, modelled in Dafny

`fing` is a client library for the FairyDB database server. This project models the parts of it whose
correctness is not visible in the code, and proves what they promise.

- **Calendar dates** (`Calendar`, `Civil`, `DateText`). `Calendar` is the proleptic Gregorian calendar defined
  by stepping one day at a time from 1970-01-01, with the leap rule of Appendix C of RFC 3339. `Civil` is the
  closed-form conversion the client uses, on checked 64-bit integers and with truncating division. It is proved
  equal to the stepped calendar up to the final cast of the year to 32 bits, and exactly equal on one interval of
  days whose endpoints are given. `DateText` prints and reads `YYYY-MM-DD`.
- **Decimals** (`Digits`, `Decimals`, `Values`). Printing an unscaled integer with a scale, and its exact inverse.
- **The statement guard** (`SqlTokens`, `SqlGuard`, `SqlLaws`, `SqlCharacters`, `SqlNames`, `SqlBytes`). `SqlTokens` is a token
  grammar (`Lexes`) that says, token by token, what a token looks like and what may follow it; every text has
  exactly one lexing. `SqlGuard.Scan` is the one-pass byte scanner, proved to return what the lexing says. The
  other four modules hold the facts that relate different inputs.
- **Column names** (`Schemas`). The two-phase search, against the rule `Resolves`.
- **Tables** (`Tables`, `TableReading`, `ValueReading`). The aligned table printer, a reader that undoes it, and a
  reader of values by their column types.
- **Framing and sessions** (`Codec`, `Framing`, `Session`, `SessionLaws`, `SessionAnswers`, `SessionPace`, `Client`,
  `Lists`). `Codec` reads and writes frames in place over a stream of arrivals, where a fault may come between any two
  bytes and a write may break off anywhere. `Client.Client` is the client object; each method is proved to be one
  `Session.Step` and any sequence of them one `Session.Run`. `SessionLaws` proves what holds over every run,
  `SessionAnswers` what each call sends and returns for each answer, and `SessionPace` when the answer that is read
  is the answer to the request. The body encoding is a parameter.

Some promises turned out to hold only under a condition, which is then stated and proved:

- A day count converts to its date, and its text names that date, exactly for
  `-784353015833 <= days <= 784351576776` (`Civil.CivilCorrectExactly`, `DateText.DateTextExact`); outside it the
  cast of the year wraps, and for example day 1568704592610 prints `1970-01-01` (`DateText.FarDayPrintsAsEpoch`).
  Above `i64::MAX - 719468` the first addition overflows (`Civil.Convertible`).
- Outside those days the result is still a real date unless the cast takes the leap year from under a 29 February
  (`Civil.CivilRealExactly`): day 784351630892, 29 February 2147483796, converts to -2147483500-02-29
  (`Civil.LeapDayLost`).
- Requests and answers stay in step after every call of a run if and only if each request that the server answers
  is written whole, takes its answer's frame with no fault before the end of it, and has an answer of at most
  512 MiB, and each request that it leaves unanswered takes no data: its write breaks off, or its read meets a fault
  such as a timeout, or the end (`SessionPace.PaceKeptExactly`, for any set of answered requests, and for a session
  some answers behind too). If the server answers every request that reaches it, this says that it answers no other,
  that the answers fit, and that no fault comes before the end of a frame that is read
  (`SessionPace.PaceKeptWhenAnswered`). An answer that cannot be decoded keeps the step, and so does a broken write
  that the server never answers. An answered request whose write breaks off, or whose read times out in front of
  the answer, puts the session one answer further behind; a fault inside a frame and an answer that is too long
  leave the next read to start inside that frame (`SessionPace.ExchangePace`, `Framing.ReadFrameExactly`). A later
  accident can make up for it: there is a run that falls out of step and ends in step
  (`SessionPace.RealignedByAccident`), which is why the condition speaks of every call.
- A session that keeps pace `lag` answers behind records what those older answers acknowledge
  (`SessionPace.RecordFollowsAnswers`); only with a lag of zero is that the server's own view. `use_database` can
  then record a database although the server refused it (`SessionPace.NameRecordedExactly` says when,
  `SessionPace.StaleAnswerIsRecorded` is such a run).
- A printed table reads back if and only if each row is as wide as the schema, no name or cell holds a line break,
  none has a space of its own on its padded side, and none at the end of a line ends in other white space
  (`TableReading.TableReadsBack`); each cell is judged by itself (`TableReading.CellReadsBack`), and only character
  data can fail (`TableReading.OnlyTextIsLost`).
- The values come back too if every column can print its own: a null in a column of character data cannot be told
  from the text `NULL`, nor a date whose year does not fit from another (`ValueReading.TableValuesReadBack`).
- Reordering columns moves the answer of a column search along with its column exactly when the first column of
  that name stays the first (`Schemas.ReorderingMovesAnswer`).
- A list of names survives the server's prose exactly when every name is non-empty, trimmed and free of commas
  (`Lists.ParseUndoesListing`).

A second terminator, white space or a comment behind the first terminator is not a second statement: `SELECT 1;;` is
accepted, as the code has it (src/sql.rs:69-72).

Characters: a Dafny `char` stands for one character of text. In `SqlTokens` and `SqlGuard` it may also stand for one
byte of UTF-8, which is what the scanner walks; `SqlBytes.BytesInspectAsText` proves that both give one answer.

Every day count, unscaled integer and scale is a checked fixed-width integer (`Machine`); lengths, widths and
positions are natural numbers.

## Model

| member | source | states |
|---|---|---|
| Machine.CastI32 | src/value.rs:218 | The cast keeps the year modulo 2^32, and keeps it exactly if and only if it fits 32 bits. |
| Machine.TruncDiv | src/value.rs:209 | The remainder of the source's division is smaller than the divisor and on the dividend's side of zero, for negative dividends too, which leaves one quotient: it rounds toward zero. |
| Calendar.DateOfCounts | src/value.rs:204-206 | The date reached by stepping `n` days from the epoch, forward or back, is a real date and summing year and month lengths up to it gives `n`. |
| Calendar.DateOfInverts | src/value.rs:204-206 | Every real date is the one its day count steps to, so day counts and real dates correspond one to one. |
| Calendar.DayNumberOrders | src/value.rs:53-68 | Day counts order dates exactly as year, then month, then day does. |
| Civil.Convertible | src/value.rs:208 | Says exactly when the first addition fits 64 bits. |
| Civil.Era | src/value.rs:208-209 | The truncating division with its negative branch is the floor of `z / 146097`. |
| Civil.YearOfEraInRange | src/value.rs:210-213 | The year of the era lies in 0..399 and the day of the year within that year's own length, at every century and era boundary. |
| Civil.EraParts | src/value.rs:209-213 | Era, year and day of year add up to the day count again, and no 64-bit step overflows. |
| Civil.MonthFormula | src/value.rs:214-216 | The `153` formula names the month the day falls in and the day within it. |
| Civil.MarchFirst | src/value.rs:213 | The day count of 1 March, summed year by year from 1970, has the closed form with the leap corrections. |
| Civil.CivilFromDays | src/value.rs:207-219 | For every day count that does not overflow, month and day are those of the calendar stepped one day at a time and the year is its year cast to 32 bits; no 64-bit step overflows. |
| Civil.YearFitsInterval | src/value.rs:218 | The days whose year fits 32 bits are one interval, with both endpoints given. |
| Civil.CivilCorrectExactly | src/value.rs:207-219 | The conversion returns the stepped calendar's date if and only if the day lies in that interval. |
| Civil.CivilEpoch | src/value.rs:293 | Day 0 is 1970-01-01. |
| Civil.CivilSteps | src/value.rs:207-219 | The next day converts to the calendar successor, on both sides of the epoch and across eras, on the days whose year fits 32 bits; there every result is a real date. |
| Civil.CivilStepsExactly | src/value.rs:207-219 | For all other days too, the next day converts to the calendar successor if and only if the year does not wrap between them and, on a 28 February, the cast keeps whether the year is a leap year. |
| Civil.CivilRealExactly | src/value.rs:207-219 | For every day count that does not overflow, the result is a real date if and only if the cast does not turn the year of a 29 February into one that is not a leap year. |
| Civil.LeapDayLost | src/value.rs:218 | A concrete day whose result is not a date. |
| Civil.CivilBijection | src/value.rs:207-219 | Summing year and month lengths is the two-sided inverse of the conversion on the days and dates that fit. |
| Civil.CivilMonotone | src/value.rs:207-219 | Later days convert to later dates, and only later days do. |
| DateText.ZeroPaddedReads | src/value.rs:180 | Sign-aware zero padding keeps the number, for negative and five-digit years too. |
| DateText.ZeroPaddedFills | src/value.rs:180 | Padding fills up to the width, a minus sign included, and adds nothing beyond it. |
| DateText.DateTextReads | src/value.rs:178-181 | The printed date reads back to the converted year, month and day, whatever the sign and length of the year. |
| DateText.DateTextExact | src/value.rs:178-181 | The text names the day it was printed from if and only if the year fits 32 bits. |
| DateText.DateTextSame | src/value.rs:178-181 | Two days print alike if and only if month and day agree and the years differ by a multiple of 2^32. |
| DateText.DateTextInjective | src/value.rs:178-181 | On the days whose year fits, no two days print alike. |
| DateText.FarDayPrintsAsEpoch | src/value.rs:218 | Outside that interval two days can print alike: a concrete pair. |
| DateText.DateTextSorts | src/value.rs:53-68 | For the years 0 to 9999 the text has ten characters and texts sort exactly as days do. |
| Decimals.PrecisionBounds | src/value.rs:165-168 | The precision is the number of digits: it brackets the magnitude between powers of ten, is 1 at zero and at most 19, the minimum integer included. |
| Decimals.FormatShape | src/value.rs:188-202 | The text has max(precision, scale + 1) digits, `scale` of them after the point, no leading zero but a lone one, and the sign only for negative values. |
| Decimals.DecimalRoundTrip | src/value.rs:188-202 | Reading the text recovers the unscaled integer and the scale, for every 64-bit integer and every scale. |
| Decimals.DecimalReprint | src/value.rs:188-202 | Every canonical decimal text that fits is the print of what it reads as. |
| Decimals.DecimalInjective | src/value.rs:188-202 | Two decimals print alike only if integer and scale are the same. |
| Decimals.DecimalDenotes | src/value.rs:188-202 | The text denotes exactly `whole / 10^scale`. |
| Values.DecimalTypeCountsDigits | src/value.rs:92-103 | The type reported for a decimal accounts for the digits it prints. |
| Values.OnlyTextPrintsWhitespace | src/value.rs:170-186 | Only character data can print as empty or with white space. |
| ValueReading.ValueReads | src/value.rs:170-186 | A printed value of any kind reads back to itself at a type if and only if it is of that type, or a null and the type is not character data, and as a date has a year that fits. |
| ValueReading.OwnTypeReads | src/value.rs:92-104 | At the type reported for it every value reads back, but for dates whose year does not fit; only a null is reported as untyped. |
| SqlTokens.FirstTokenFits | src/sql.rs:53-113 | In front of any text stands a token of the grammar. |
| SqlTokens.FittingIsFirst | src/sql.rs:53-113 | No other token fits there: kind and extent are determined. |
| SqlTokens.LexingExistsUniquely | src/sql.rs:53-113 | Every text has exactly one lexing. |
| SqlGuard.SkipLineComment | src/sql.rs:56-61 | Ends exactly where the grammar ends the comment. |
| SqlGuard.SkipBlockComment | src/sql.rs:62-68 | Ends behind the first closer, or at the end of input. |
| SqlGuard.SkipLiteral | src/sql.rs:73-87 | Ends behind the first quote that is not doubled, or at the end of input. |
| SqlGuard.SkipQuotedName | src/sql.rs:88-95 | Ends behind the next quote, or one past the end for an open name. |
| SqlGuard.SkipWord | src/sql.rs:97-104 | Ends where the word ends, and never inside a UTF-8 sequence, so the slice cannot panic. |
| SqlGuard.Scan | src/sql.rs:39-117 | On every text, terminates within bounds and returns what the unique lexing says: more than one statement if and only if something significant follows a terminator, otherwise the first two words in capitals. |
| SqlGuard.Inspect | src/sql.rs:18-35 | Classifies by the lexing's leading words, with the source's error for each other case. |
| SqlLaws.AcceptedExactly | src/sql.rs:18-35 | Each kind is returned if and only if the lexing has one statement and its first word, or first two, spell the right ones in any letter case, whatever quotes, comments and symbols stand around them. |
| SqlLaws.WordlessIsEmpty | src/sql.rs:21-23 | A statement without a word is refused as empty. |
| SqlLaws.OtherWordRefused | src/sql.rs:25-34 | A single statement is refused as unsupported, with its first word in capitals, if and only if that is none of the four keywords; `CREATE` alone is refused as incomplete. |
| SqlLaws.CreateRefused | src/sql.rs:28-32 | Of the statements that create something only tables pass; any other is refused with its second word in capitals. |
| SqlLaws.AppendAfterTerminator | src/sql.rs:69-72 | Behind a text that ends outside quotes and comments, a terminator and more text leave the answer as it was if nothing significant follows, and otherwise mean more than one statement. |
| SqlLaws.SecondStatementSeen | src/sql.rs:69-72 | A second statement without quotes, slashes and line breaks is seen behind a text if and only if the text ends outside quotes and comments; behind any other text the answer stays as it was. |
| SqlLaws.LiteralsAreOpaque | src/sql.rs:73-87 | A string literal may hold any payload, quotes doubled, without changing the answer, whatever follows it. |
| SqlLaws.CaseInsensitive | src/sql.rs:106 | Texts that differ only in the case of the letters a to z get one answer. |
| SqlCharacters.TrailingCharacter | src/sql.rs:96 | Behind a terminator exactly tab, line feed, form feed, carriage return, space and a further terminator are nothing; every other character begins a second statement. |
| SqlCharacters.WordTextExactly | src/sql.rs:97-104 | A text is one word if and only if it begins with a digit, a letter or the underscore and goes on with these and with characters beyond ASCII. |
| SqlNames.EscapingGlues | src/sql.rs:88-95 | A scanner that reads `""` as an escape sees the same tokens with adjacent quoted names joined. |
| SqlNames.EscapedNamesDoNotMatter | src/sql.rs:88-95 | On every text, open names included, that scanner gives the same verdict. |
| SqlBytes.Utf8Carries | src/sql.rs:40 | Each character is encoded in the shortest UTF-8 sequence that carries its code point. |
| SqlBytes.BoundariesExactly | src/sql.rs:106 | A byte position is one where the text may be sliced if and only if it lies between the encodings of two characters, or at an end. |
| SqlBytes.TokenizeBytes | src/sql.rs:40-54 | The lexing of the UTF-8 bytes is the lexing of the text, with a symbol beyond ASCII as one symbol a byte. |
| SqlBytes.BytesInspectAsText | src/sql.rs:18-40 | Inspecting the bytes gives the kind or error that inspecting the text gives. |
| Schemas.IndexOf | src/schema.rs:94-109 | Returns the first exact match; failing that the only column whose part after the last dot matches; failing that nothing. |
| Schemas.ResolutionUnique | src/schema.rs:89-94 | That rule leaves one answer. |
| Schemas.UnqualifiedDropsQualifier | src/schema.rs:100 | The part after the last dot is what is compared, whatever stands before it. |
| Schemas.FullNameResolves | src/schema.rs:94-97 | A column resolves from its full name if and only if no earlier column has that name. |
| Schemas.DottedResolvesExactly | src/schema.rs:91-93 | A name with a dot resolves only to a column of exactly that name. |
| Schemas.ReorderingMovesAnswer | src/schema.rs:94-109 | Reordering columns keeps whether a name resolves, and moves the answer along with its column if and only if the first exact match, if any, stays the first. |
| Tables.WriteBody | src/rows.rs:262-277 | Writes each row as one trimmed line, in order. |
| Tables.Display | src/rows.rs:220-286 | Appends header, rule, rows and count line to what was written before, and for a result without columns the bare count, whatever its rows hold. |
| TableReading.Layout | src/rows.rs:247-275 | Every untrimmed line has the summed widths plus two each plus separators; field `i` lies at its offset with the separator before it. |
| TableReading.SeparatorsAlign | src/rows.rs:247-276 | Whatever the cells hold, the separators of the header, with or without rows, and of every row that reaches them stand under the rule's, after trimming too. |
| TableReading.TrimKeepsSeparators | src/rows.rs:253 | Trimming never removes a separator. |
| TableReading.WidthsAreTight | src/rows.rs:233-245 | Each width holds the name and every cell of its column and is attained by one of them. |
| TableReading.PaddingUndone | src/rows.rs:266-273 | Stripping the padding gives the cell back if and only if it was printed unchanged and has no space of its own on that side. |
| TableReading.RuleReadsBack | src/rows.rs:255-260 | The widths can be read off the rule. |
| TableReading.CellReadsBack | src/rows.rs:262-277 | Whatever its neighbours hold, a cell is recovered from its column range of the trimmed line if and only if it has no space of its own on the padded side and, at the end of the line, no other white space that trimming takes. |
| TableReading.LineReadsBack | src/rows.rs:262-277 | A trimmed line reads back to its cells by position alone if and only if each of them is recoverable where it stands. |
| TableReading.OnlyTextIsLost | src/value.rs:170-186 | Every printed value that is not character data is recoverable wherever it stands. |
| TableReading.TableReadsBack | src/rows.rs:220-286 | The whole printed text of a table with columns reads back to the column names and the printed cells if and only if every row is as wide as the schema, every name and cell is recoverable where it stands and none holds a line break. |
| ValueReading.TableValuesReadBack | src/rows.rs:220-286 | The printed text gives back the values of the table if and only if it gives back the cells and every column can print its values without loss. |
| TableReading.NumbersStandRight | src/rows.rs:213-218 | Integers and decimals end where their column ends; all other cells begin where it does. |
| TableReading.CountLineReads | src/rows.rs:279-284 | The text ends with the number of rows, in the singular for exactly one row of a result with columns. |
| Lists.ParseUndoesListing | src/client.rs:374-384 | Parsing undoes the server's listing if and only if every name is non-empty, trimmed and free of commas; the empty list included. |
| Lists.ParsedNamesAreListable | src/client.rs:374-384 | Whatever the message, every name that comes out is non-empty, trimmed and free of commas. |
| Lists.UnprefixedListing | src/client.rs:375-384 | A message without the prefix is read as the list itself. |
| Lists.BlankItemsIgnored | src/client.rs:381 | Blank items are passed over wherever they stand. |
| Text.TrimExactly | src/client.rs:366-372 | Trimming takes all the white space at both ends and nothing else. |
| Text.WhitespaceCodes | src/client.rs:366-372 | White space is the 25 characters of Unicode that have the property. |
| Lists.ImportCountReads | src/client.rs:386-391 | The row count is recovered from the server's sentence, whatever the table is called. |
| Lists.ImportedExactly | src/client.rs:386-391 | In any message the count is that of the first word that is digits, perhaps behind a plus sign, fitting 64 bits; without one there is an error. |
| Codec.Stream.ReadExact | src/codec.rs:38-40 | Fills the buffer with the next bytes, or reports the first failure met. |
| Codec.WriteRequest | src/codec.rs:31-36 | Writes nothing if the request cannot be encoded or its encoding has more than 1024 bytes, and otherwise its bytes or as many as get through. |
| Codec.ReadResponse | src/codec.rs:38-56 | Reads one frame: the empty frame, the oversized length, the short body and the undecodable body each as the source has them. |
| Codec.BigEndianReads | src/codec.rs:41 | An 8-byte length reads back. |
| Codec.HighByteFirst | src/codec.rs:41 | The first byte of a length is the highest. |
| Framing.ReadFrameGets | src/codec.rs:38-56 | A framed body reads as what it says, and exactly its bytes are consumed. |
| Framing.ReadFrameConsumes | src/codec.rs:38-56 | Whatever arrives, one whole frame is consumed if and only if the read reports neither a failed connection nor an oversized length. |
| Framing.ReadFrameExactly | src/codec.rs:38-56 | Where the data begin with an answer's frame, exactly that frame is taken if and only if the answer fits and no fault comes before its end, and then the answer is returned; nothing is taken if and only if a fault comes first; otherwise the read stops inside the frame. |
| Framing.ReadManyGets | src/codec.rs:38-56 | Any concatenation of frames reads back in order, leaving exactly what followed. |
| Framing.ResponsesRoundTrip | src/codec.rs:38-56 | Responses whose encoding decodes and fits are received as sent. |
| Framing.CutStreamCloses | src/error.rs:123-132 | A stream cut anywhere short of its end gives the complete responses and then a closed connection. |
| Client.Client.RoundTrip | src/client.rs:313-316 | One request out and one response in, or nothing at all if it cannot be encoded. |
| Client.Client.UseDatabase | src/client.rs:207-212 | Is the session's step: the trimmed name is recorded only behind a checked response. |
| Client.Client.ResetServer | src/client.rs:275-279 | Is the session's step: the record is cleared only behind a checked response. |
| Client.Client.Run | src/client.rs:229-243 | A statement is refused locally by the guard or for being blank, and otherwise sent as it is. |
| Client.Client.PerformAll | src/client.rs:183-279 | Any sequence of calls on the client object, each method included, is the session's run, state and results, so every law below holds of the object. |
| SessionLaws.RefusalIsLocal | src/client.rs:206-243 | A call refused locally changes nothing at all; any other puts exactly one request on the wire, a statement as it was given. |
| SessionAnswers.CallSends | src/client.rs:199-279 | For every call: the request it sends, with its arguments in order, and that it sends nothing if and only if a name is blank, the guard rejects the statement (or, without the guard, it is blank), or the encoding fails or exceeds 1024 bytes. |
| SessionAnswers.RefusalsExplained | src/client.rs:229-234 | The error of a call refused before encoding: the blank argument by its name, or the error of the inspection. |
| SessionAnswers.SizeDecides | src/codec.rs:20-28 | A request of more than 1024 bytes is refused with its size and leaves the session as it was; one of up to 1024 goes out whole. |
| SessionAnswers.GuardSwitches | src/client.rs:183-185 | Switched on, the guard decides by inspection what happens to the next statement; switched off, only blankness does. |
| SessionLaws.RunKeepsWireLawful | src/codec.rs:20-36 | Over every run, whatever fails: each request on the wire has at most 1024 bytes, and each statement sent under the guard is one the guard accepts. |
| SessionLaws.StepRecords | src/client.rs:206-212 | Selecting succeeds if and only if the request went out and its reply passed the check; the name recorded is the name sent; nothing else touches the record. |
| SessionAnswers.ReportedFailure | src/client.rs:319-331 | A call that receives one of the four reports of failure returns the error it reports, with its message, and leaves the record as it was. |
| SessionAnswers.Acknowledgement | src/client.rs:199-279 | With any other response a creation, selection, commit or reset succeeds, and the record is the name selected, nothing after a reset, otherwise what it was. |
| SessionAnswers.StatementAnswers | src/client.rs:229-243 | From the frame read to the outcome of a statement: rows with schema and paging, the count and table of an insert, a message, the empty message of an acknowledgement, and an error for anything else. |
| SessionAnswers.QueryAnswers | src/client.rs:246-248 | From the frame read to the result of a query: the rows, schema and paging sent, and an error if no rows were sent. |
| SessionAnswers.MessageAnswers | src/client.rs:269-272 | Help returns the message sent; it and the listings and imports fail on a response without one. |
| SessionAnswers.ProseAnswers | src/client.rs:214-260 | From the frame read to the names listed and the rows counted. |
| SessionAnswers.UndecodableAnswer | src/codec.rs:55 | A body that does not decode is an error and is consumed. |
| SessionAnswers.FailedConnection | src/error.rs:123-132 | A call whose write or read fails returns a closed connection for an end or a reset and a plain failure otherwise. |
| SessionAnswers.OversizedAnswer | src/codec.rs:46-51 | An answer announced as longer than 536870912 bytes is refused with its length and its body left unread. |
| SessionLaws.ListingArrives | src/client.rs:215-226 | The names the server lists are the names the call returns. |
| SessionLaws.ImportCountArrives | src/client.rs:254-260 | The row count the server reports is the count the call returns. |
| SessionLaws.DatabaseIsLastSelection | src/client.rs:206-212 | In every reachable state the recorded database is the trimmed name of the last selection that succeeded, or none after a reset that succeeded. |
| SessionLaws.RunConsumesFrames | src/client.rs:313-316 | In every run without a lost frame one whole frame is consumed for each request, and the n-th reply is the n-th frame's meaning. |
| SessionPace.ExchangePace | src/client.rs:313-316 | An exchange keeps its lag if and only if the request is answered and it takes the answer (its write is accepted, the answer fits, no fault comes before the end of its frame), or the request is unanswered and it takes nothing; it falls one further behind if and only if the request is answered and it takes nothing. It takes an answer if and only if its reply reports no lost frame, so with no answer left the call fails. |
| SessionPace.PaceKeptExactly | src/client.rs:313-316 | Over every run, whichever requests the server answers, the session keeps its lag after every call if and only if the input and the writes hold, request by request, an accepted write and a whole frame for an answered one, and a broken write, a fault or the end for another; then request `n` gets the answer `lag` places back from its own, and an unanswered one a lost frame. |
| SessionPace.PaceKeptWhenAnswered | src/client.rs:313-316 | Over every run in which each request that arrives is answered, the lag is kept after every call if and only if no other request is answered, every answer read fits and no fault comes before the end of a frame read. |
| SessionPace.OwnAnswer | src/client.rs:313-316 | With a lag of zero the answer a request gets is the one the server sends for it. |
| SessionPace.RealignedByAccident | src/codec.rs:38-56 | A concrete run of two calls that falls out of step and ends in step. |
| SessionPace.RecordFollowsAnswers | src/client.rs:206-212 | A session that keeps pace records what the server's answers acknowledge, each taken for the request `lag` places on, and nothing for unanswered requests; in step that is the server's own view. |
| SessionPace.NameRecordedExactly | src/client.rs:206-212 | `use_database` records its name if and only if its exchange takes the answer `lag` places back and that passes the check; with no answer left it fails. |
| SessionPace.StaleAnswerIsRecorded | src/client.rs:206-212 | A concrete run, of a timed-out commit and a selection, in which the recorded database is one the server refused. |

## Left out

- Sockets, timeouts, address resolution, the builder, and `shutdown_server` and `close`, which end a session: the connection is a sequence of bytes and faults, and writes follow a script.
- The CBOR bytes: the body codec is a pair of functions, and the theorems say what they need of it.
- Overflow of a date beyond `i64::MAX - 719468` in a build that wraps instead of panicking: printing such a date is excluded by `Civil.Convertible`.
- `as_f64`, the conversions of src/convert.rs, error texts, type names and plain accessors: each is settled by reading one branch.
- The debug text inside an unexpected-response error: the error carries no text here.
- Column constraints, tuple ids and the paging fields' use: nothing modelled depends on them.
- The formatting machinery's own limits on width and precision: scales and widths are unbounded here.
- Codec.Stream.ReadExact: an interrupted system call, which the reader retries by itself, is not an arrival.
- FairyDB itself: the server appears only as the frames it sends, and in `SessionPace` as at most one answer to each request, in the order of the requests.
