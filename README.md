# elblog in Dafny

A model of the core of `elblog`, a Go library that parses AWS Elastic Load
Balancer access-log lines. The model covers:

- **the tokenizer `scan`** (`ElbScan`, scan.dfy). It cuts a line into
  space-separated words. A run in double quotes, spaces included, stays in
  one word. When a word has balanced quotes, its first and last byte are
  dropped.
- **`Parse`** (`ElbParse`, parse.dfy). It scans at most 30 tokens from a
  line and converts token *i* into field *i* of the `Log` record. It stops at
  the first token that does not convert. From the thirtieth token on, the
  rest of the line is kept verbatim as `OtherFields`.
- **the `Log` record and its positional field table** (`ElbLog`, log.dfy):
  which conversion each position gets, and the endpoint (`host:port`)
  conversion.
- **the streaming `Decoder`** (`ElbDecoder`, decoder.dfy):
  - a line scanner that stands for `bufio.Scanner` with `ScanLines`;
  - `More` and `Decode`, which share a one-line look-ahead buffer;
  - the `for More() { Decode() }` loop.
- **`ELBLogToALBLogSchema`** (`AlbSchema`, alblog.dfy). It maps a parsed
  `Log` to the `ALBLogSchema` row of the Parquet table.
- **the library conversions the core relies on**: `strconv.ParseInt(s, 10, 32)`,
  `strconv.Itoa` and `int32(x)` in `Strconv` (strconv.dfy), and
  `bytes.Split`/`strings.Split` in `ByteStrings` (bytestrings.dfy).

How each part is proved:

- **`scan`.** The method `Scan` is the source's index loop. It is proved to
  compute `NextToken`, a reference definition written as a state machine over
  the positions of the span.
- **`Parse`.** The method `Parse` is the source's loop. It is proved to
  compute `ParseLine`, the same loop written as a recursive function.
  `ParseLine` in turn is proved equal to `ParseSpec`, a two-phase reference
  definition:
  - `Spans` lists the suffixes of the line that the tokenizer sees;
  - `Dispatch` and `Apply` convert the typed tokens of those spans into a
    table of field values.

  The properties of Parse are proved against `ParseSpec`: what success
  writes, what failure reports, and which lines fail.
- **`LineScanner` and `Decoder`.** These are classes whose methods update
  their fields. The `Decoder` is specified through `Pending()`: the buffered
  line followed by the unread lines. `DecodeAll` proves the drain loop yields
  exactly one result per line, each equal to `ParseSpec` of that line.

Library calls the model does not define are passed in as function-valued
fields of records:

- in `Conversions`: `time.Parse` with the RFC3339Nano layout (the date-time
  format of RFC 3339, section 5.6), and `strconv.ParseFloat` followed by the
  scaling to nanoseconds;
- in `Formatters`: `Time.Format(time.RFC3339)`, `IP.String()` of
  `net.ParseIP(host)`, and `Duration.Seconds()`.

A byte of the input is one `char`. Only `' '`, `'"'`, `':'`, `'+'`, `'-'`,
`'\n'`, `'\r'` and the digits are interpreted.

Two behaviours of the code a reader might not expect are modelled as
written:

- **An address token with two or more ':'** (three or more parts) leaves the
  address nil without an error (`ElbLog.EndpointManyColons`). It is not
  treated as a field error.
- **A line with fewer than 29 typed tokens** leaves the remaining fields at
  their zero value, with no error (`ElbParse.ParseSuccess`).

Two tokenizer behaviours of the source are modelled as written and pinned
down by lemmas:

- **Balanced quotes trim the outer bytes of a word even when those bytes are
  not quotes:** `a"b c"` yields `"b c` (`ElbScan.TrimsOuterBytes`).
- **Two spaces after the last word** leave a span of one space. Scanning it
  hands the next field a nil token (`ElbParse.TrailingSpaces`).

## Model

| member | source | states |
|---|---|---|
| ByteStrings.Split | elblog.go:77 | Splitting on a one-byte separator always yields at least one part; the empty string gives one empty part |
| ByteStrings.SplitParts | schemas/alblog.go:63-65 | No part contains the separator, and there is exactly one more part than separators |
| ByteStrings.JoinSplit | schemas/alblog.go:63-65 | Joining the parts of a split with the separator gives the input back |
| ByteStrings.SplitJoin | schemas/alblog.go:63-65 | Joining separator-free parts and splitting again gives the same parts |
| Strconv.ParseInt32 | elblog.go:114 | `ParseInt(s, 10, 32)`: an accepted value always lies in the signed 32-bit range |
| Strconv.NatDigitsValue | schemas/alblog.go:59 | The decimal rendering consists of digits only, denotes the number, and starts with '0' only for 0 |
| Strconv.Itoa | schemas/alblog.go:59 | `strconv.Itoa`: a '-' for negative numbers, then the decimal digits without leading zeros (`NatDigitsValue`, `ParseItoa`) |
| Strconv.ParseItoa | schemas/alblog.go:59 | Rendering any integer with Itoa and parsing it back gives the integer if it fits in 32 bits, and an error otherwise (both directions) |
| Strconv.ParsePlusSign | elblog.go:114 | A leading '+' is accepted and does not change the value |
| Strconv.ParseRejectsNonDigit | elblog.go:114 | A byte that is neither a digit nor a leading sign makes the parse fail |
| Strconv.ToInt32 | schemas/alblog.go:53 | `int32(x)` lies in the 32-bit range, is congruent to x modulo 2^32, and equals x when x already fits |
| ElbScan.NextToken | elblog.go:172-209 | Reference tokenizer step: it never advances past the span, consumes at least one byte of a non-empty span, and consumes the whole span when it yields no token |
| ElbScan.Scan | elblog.go:172-209 | The source's two loops (skip spaces, then walk to the first space outside quotes, tracking `open` and `trim`) return exactly `NextToken(data)` |
| ElbScan.SkipSpacesStops | elblog.go:173-183 | Leading-space skipping passes only spaces and stops at the first non-space byte or at the end |
| ElbScan.SkipSpacesOver | elblog.go:177-183 | A run of spaces followed by a non-space byte (or the end) is skipped exactly up to that byte |
| ElbScan.NoTokenIffOnlySpaces | elblog.go:200-208 | scan yields a nil token if and only if the span holds nothing but spaces |
| ElbScan.WordEndCounts | elblog.go:185-199 | The quote-toggling walk ends at a space with an even number of quotes before it, and passes no earlier such space |
| ElbScan.WordEndIsFirstUnquotedSpace | elblog.go:184-199 | The word ends at the first space outside quotes: the quotes before it are balanced, and no earlier space has balanced quotes before it |
| ElbScan.WordEndPlain | elblog.go:185-199 | Bytes that are neither spaces nor quotes never end a word outside quotes |
| ElbScan.WordEndQuoted | elblog.go:188-193 | Inside an open quoted run, nothing but a quote changes the state, so spaces do not end the word |
| ElbScan.QuotesNone | elblog.go:188-192 | A stretch with no '"' byte makes no quote count |
| ElbScan.QuotesFront | elblog.go:188-192 | A word starting with '"' has one quote more than its remainder |
| ElbScan.QuotesSplit | elblog.go:188-192 | Quote counts add up over adjacent ranges |
| ElbScan.PlainWord | elblog.go:193-205 | A quote-free, space-free word after leading spaces is returned untouched; the advance includes the space that ends it |
| ElbScan.QuotedWord | elblog.go:188-203 | A quoted run without inner quotes is one token: the inner text, spaces included, without the quotes |
| ElbScan.UnclosedQuote | elblog.go:201-205 | An unclosed quote makes the rest of the span one untrimmed token; it is tolerated, not an error |
| ElbScan.TrimsOuterBytes | elblog.go:194-195 | Balanced quotes drop the first and last byte of the word even when those are not quotes: `a"b c"` gives `"b c` |
| ElbLog.Slots | elblog.go:15-45 | The 29 typed fields of a Log in token order, each of the kind the switch assigns to its position |
| ElbLog.SlotsOfFromSlots | elblog.go:15-45 | A table of well-kinded values read into a Log gives back exactly those values as its typed fields |
| ElbLog.Store | elblog.go:69-155 | Writing token i's value changes field i and nothing else, OtherFields included |
| ElbLog.ParseEndpoint | elblog.go:76-103 | An address token split on ':' gives a host without ':' and a 32-bit port; a bad port is an error |
| ElbLog.KindAt | elblog.go:69-155 | Which conversion each case of the switch applies: time at 1, address at 3 and 4, duration at 5-7, integer at 8, 10 and 11, text elsewhere |
| ElbLog.Convert | elblog.go:69-164 | The conversion for position i yields a value of that field's kind; integers and ports are 32-bit; text positions copy the token (nil reads as empty) |
| ElbLog.EndpointWithPort | elblog.go:83-88 | `host:port` whose port text parses as a base-10 32-bit integer (`080` and `+80` included) gives exactly that host and that value; with `EndpointBadPort`, both directions |
| ElbLog.EndpointWithoutPort | elblog.go:79-82 | A bare host gives that host with port 0 |
| ElbLog.EndpointBadPort | elblog.go:83-88 | A port that is not a base-10 32-bit integer makes the field fail |
| ElbLog.EndpointManyColons | elblog.go:77-89 | Two or more ':' leave the address nil without an error |
| ElbParse.SpansFrom | elblog.go:63-65 | From position i, the tokenizer is handed between 1 and 30 - i spans, the first being the given one |
| ElbParse.Spans | elblog.go:60-65 | A line is handed to the tokenizer in at most 30 spans; the empty line in none |
| ElbParse.SpansFromChained | elblog.go:63-65 | The spans from any position form a chain: each non-empty, each next one what the token's advance leaves, stopping at the end of the data or at position 29 |
| ElbParse.SpansFromStep | elblog.go:63-65 | Each span is followed by what the token's advance leaves, and the list stops exactly at the end of the data or at position 29 |
| ElbParse.SpansStep | elblog.go:63-65 | The first span is the line; each next one is the previous span after the token's advance; the list stops exactly when nothing is left or position 29 is reached |
| ElbParse.SpansAreSuffixes | elblog.go:156-160 | Every span is a suffix of the line, strictly shorter than the one before, so OtherFields is the line's own tail |
| ElbParse.TypedTokens | elblog.go:65-69 | One token per span for the typed positions; the span at position 29 gives no typed token |
| ElbParse.Apply | elblog.go:69-164 | Converting the typed tokens in turn into the table keeps it 29 slots long |
| ElbParse.DispatchStep | elblog.go:63-165 | Dispatching a span and then the rest is: convert its token (failing with that token and index), then dispatch the rest |
| ElbParse.ParseFromLast | elblog.go:156-160 | At position 29 the loop and the two-phase definition both take the whole remaining span as OtherFields |
| ElbParse.ParseFromDispatch | elblog.go:63-166 | From any position, scanning and converting token by token equals the two-phase definition |
| ElbParse.ParseLine | elblog.go:50-168 | Parse's loop as a function: the empty line gives the zero Log, otherwise the spans are scanned and converted in turn (`Parse`, `ParseLineIsSpec`) |
| ElbParse.ParseLineIsSpec | elblog.go:50-168 | Parse's loop computes the two-phase reference definition for every line, the empty line included |
| ElbParse.JoinedHead | elblog.go:193-198 | In words joined by single spaces, the first plain word is scanned as it is, together with the space after it |
| ElbParse.JoinedWordsStep | elblog.go:63-65 | The spans of joined words are the whole line, then the line from the second word on |
| ElbParse.JoinedWordsSpans | elblog.go:63-65 | Words joined by single spaces give one span per word; span k is the line from word k on |
| ElbParse.JoinedWordsTokens | elblog.go:50-168 | In a line of up to 30 plain words joined by single spaces, typed token k is word k, one token per word up to 29 |
| ElbParse.JoinedWordsOtherFields | elblog.go:156-160 | When such a line parses, OtherFields is its thirtieth word, or empty when it has fewer |
| ElbParse.TrailingSpaces | elblog.go:60-68 | One trailing space is consumed with the last word; two leave a one-space span, which hands the next field a nil token |
| ElbParse.ApplySuccess | elblog.go:69-161 | A successful run writes, at each position it covers, the value its token converts to; it changes no other slot, and values keep their kinds |
| ElbParse.ApplyFailure | elblog.go:162-164 | A failed run names the first position whose token does not convert, with that token's text; every earlier token converts |
| ElbParse.ApplyFailsIff | elblog.go:162-164 | The conversions fail exactly when some typed token does not convert |
| ElbParse.ParseSuccess | elblog.go:69-161 | On success, every typed field holds its token's conversion, fields past the last token keep their zero value, and OtherFields is the thirtieth span or empty |
| ElbParse.ParseFailure | elblog.go:162-164 | On failure, the error gives the index of the first token that does not convert, and that token's text; all earlier tokens convert |
| ElbParse.ParseFailsIff | elblog.go:162-164 | Parse fails if and only if some typed token of the line does not convert |
| ElbParse.Parse | elblog.go:50-168 | The source's loop (scan, dispatch on i, OtherFields at 29, stop at the first error) returns exactly `ParseLine`, which equals the reference `ParseSpec` |
| ElbDecoder.Lines | elblog.go:219-220 | The lines `bufio.ScanLines` cuts the input into: split at each newline, a carriage return dropped before it, and an empty last piece is no line (`LinesFromSplit`, `LinesOfTerminated`) |
| ElbDecoder.DropCR | elblog.go:219-220 | A line loses at most one trailing carriage return |
| ElbDecoder.DropCRs | elblog.go:219-220 | One output line per input line |
| ElbDecoder.TerminatedIsJoin | elblog.go:219-220 | Newline-terminated lines followed by a last piece are those pieces joined by newlines |
| ElbDecoder.SplitTerminated | elblog.go:219-220 | Splitting newline-terminated lines at newlines gives the lines back, then the last piece |
| ElbDecoder.LinesFromSplit | elblog.go:219-220 | The lines of an input are its newline-separated pieces less carriage returns; an empty last piece is no line |
| ElbDecoder.LinesOfTerminated | elblog.go:219-220 | Writing lines out, each with its newline, and then an unterminated last line, gives exactly those lines back; an empty last piece is no line |
| ElbDecoder.LineScanner.constructor | elblog.go:219-220 | The scanner starts before the first line of the input, with empty Bytes |
| ElbDecoder.LineScanner.Scan | elblog.go:237-241 | Returns true exactly while lines remain, then hands out the next line; otherwise it stays put with empty Bytes |
| ElbDecoder.AsDecoded | elblog.go:228-242 | Decode passes Parse's record through, or wraps its error, and never adds end-of-input |
| ElbDecoder.Decoder.NewDecoder | elblog.go:218-225 | A new decoder has an empty buffer and all the input's lines pending |
| ElbDecoder.Decoder.More | elblog.go:245-255 | Reports whether a line is pending. It buffers at most one line, and reads nothing while one is buffered, so repeated calls do not advance the source |
| ElbDecoder.Decoder.Decode | elblog.go:228-242 | Parses the buffered line if there is one, else the next line; clears the buffer even when Parse fails; gives end-of-input exactly when no line is pending |
| ElbDecoder.DecodedLines | elblog_test.go:324-338 | Decoding lines in turn gives one result per line |
| ElbDecoder.DecodedLinesAt | elblog_test.go:324-338 | Result k of decoding lines in turn is what Parse makes of line k |
| ElbDecoder.DecodeAll | elblog_test.go:324-338 | The loop `for dec.More() { dec.Decode() }` yields exactly one result per line of the input, in order, each `ParseSpec` of that line |
| AlbSchema.ToAlbLog | schemas/alblog.go:47-80 | The request verb, URL and protocol hold no space. Both ports are in the int32 range and congruent to the endpoint ports modulo 2^32 |
| AlbSchema.JoinThree | schemas/alblog.go:63-65 | Joining three or more parts gives the first three, separated by spaces, followed by the join of the rest |
| AlbSchema.JoinFront | schemas/alblog.go:63-65 | The first three parts, space-separated, are a prefix of the join, and the whole of it exactly when there are three parts |
| AlbSchema.RequestParts | schemas/alblog.go:63-65 | Verb, URL and protocol, separated by single spaces, are a prefix of the request that ends at its third space or at its end; they are the whole request if and only if it has exactly two spaces |
| AlbSchema.RequestOfParts | schemas/alblog.go:63-65 | A request made of three space-free parts is convertible and gives exactly those parts back |
| AlbSchema.StatusCodeText | schemas/alblog.go:59 | ELBStatusCode is the decimal text of a 32-bit code: parsing it back gives the code |
| ElbLog.ZeroSlots | elblog.go:61 | Every field of the zero Log holds its kind's zero value |
| AlbSchema.TextSlot | elblog.go:69-155 | In a table filled from typed tokens, a text slot holds its token's text, or empty when no token reached it |
| AlbSchema.FilledClientTexts | elblog.go:70-133 | Type, Name, BackendStatusCode, UserAgent, SSLCipher, SSLProtocol, TargetGroupARN and TraceID of a filled log are their tokens' texts |
| AlbSchema.FilledRuleTexts | elblog.go:134-147 | DomainName through ErrorReason of a filled log are their tokens' texts |
| AlbSchema.FilledPorts | elblog.go:76-103 | A filled log with both addresses set has 32-bit ports |
| AlbSchema.FilledStatus | elblog.go:114-116 | A filled log has a 32-bit ELB status code, whether token 8 was there or not |
| AlbSchema.SchemaOfParsedLine | schemas/alblog.go:47-80 | For a row built from a parsed line, the copied columns are the line's tokens at their positions. Type, ELB, TargetStatusCode and UserAgent through ErrorReason are covered, and OtherFields is the thirtieth span. Ports pass through unchanged, and the status code text parses back to the code |

## Left out

- **Parsing time, seconds and IP strings.**
  - Not modelled: `time.Parse` with RFC3339Nano, `strconv.ParseFloat`, and
    the `dur * 1000 * 1000 * 1000` conversion to a Duration.
  - These are calls into the Go standard library over floating point and
    calendar arithmetic.
  - They are parameters (`Conversions`). The model proves what Parse does
    around them, whatever they return.
  - A parsed time is an `Instant`: the moment and the zone offset the text
    named, which `Format(time.RFC3339)` prints back. Whether Go's location is
    a fixed zone or Local is not kept; the printed text is the same.
- **Formatting in the schema mapping.**
  - Not modelled: `Time.Format(time.RFC3339)`, `net.ParseIP` with
    `IP.String()`, and `Duration.Seconds()`. All are foreign library calls.
  - They are parameters (`Formatters`).
  - The float64 results of `Seconds()` are the reals the parameter returns;
    rounding is not modelled.
- **Input source and read failures.** The `io.Reader` is the whole input as
  one byte string, so the model has no read failure. In the source a read
  failure is not a separate error: `Scan` returns false, and `More`/`Decode`
  report the end of input exactly as at a normal end.
- **bufio.Scanner's buffer.** Its maximum token size, and the `ErrTooLong`
  stop when a line exceeds it, are not modelled. Lines are unbounded, so
  every line is reached.
- **The scan error branch in Parse** (elblog.go:66-68) is not modelled. scan
  always returns a nil error, so the branch is unreachable.
- **Error text.** The formatted message of the error, including the library
  error text of the failed conversion, is not modelled. `ParseError` keeps
  the token and the field index that the message names.
- **Parse's result.** The `*Log` Parse returns is a `Result`, with nil on error.
- **UTF-8 decoding in scan.** scan steps by rune; the model steps by byte.
  The two cut identically: ' ' and '"' are single-byte ASCII and never occur
  inside a multi-byte sequence, and an invalid byte is stepped over alone.
- **Preconditions of the schema mapping.**
  - `AlbSchema.ToAlbLog` requires non-nil `From` and `To`, and at least two
    spaces in the request (`Convertible`). Without them the Go function
    panics.
  - The panic is not modelled as an outcome.
- **int64 and int32 columns.** In the schema these are unbounded integers.
  - `ReceivedBytes`/`SentBytes` are copied, and Parse only accepts 32-bit
    values for them.
  - The ports are narrowed explicitly with `ToInt32`.
- **Tests.**
  - The benchmarks and the goroutine fan-out in elblog_test.go are
    concurrency and timing measurements.
  - `TestExample` reads an external `data.log`.
  - The expected record of `TestParse` depends on the foreign time and
    duration conversions.
