# httpDemo connection handler, modelled in Dafny

This project models the per-connection logic of the httpDemo server
(`internal/server/http_server.go`):

- `handleConnection` reads one request line with `bufio.Reader.ReadString('\n')`.
- It trims the line with `strings.TrimSpace` and splits it on single spaces.
  It gives up silently when there are fewer than three pieces.
- It answers 405 at once to any method but `GET`.
- For a `GET` it skips header lines up to the first line that trims to empty.
  It gives up silently if the connection ends first.
- It then answers from a fixed route table: `/`, `/health`, and the 404 page
  for every other path.
- `sendResponse` and `sendErrorResponse` build the response text: the status
  line, `Content-Type`, `Content-Length`, `Connection: close`, an empty line
  and the body.

The connection is modelled as its whole input, a finite string. End of input
stands for the read error. One handled connection gives a `Step`: its
`Outcome` (`NoResponse`, or `Response(wire)` with the exact text written) and
the input the handler never read.

Modules, one per file:

- `wrappers.dfy`: `Option`.
- `strings.dfy`: Go's `strings.TrimSpace` on ASCII white space and
  `strings.Split(s, " ")`, with Go's empty pieces between adjacent spaces.
  `Join` is Split's inverse.
- `decimal.dfy`: the `%d` formatting of `fmt`, with a parser as its inverse.
- `bufio.dfy`: `ReadString('\n')`, as the function `ReadLine` and as the method
  of a `Reader` class whose cursor moves through the input.
- `responses.dfy`: `sendResponse` and `sendErrorResponse` as functions.
  `ParseMessage` is a client-side reader of the response format, with which
  the round-trip lemmas are stated: the status line of section 4 of RFC 9112,
  CRLF-terminated header fields, an empty line, then the body. Every response
  reads back as what was written.
- `server.dfy`: the handler and its route table. `Handle` is the specification function.
  `HandleConnection` is the imperative handler over a `Reader`; its header
  loop is `SkipHeaderBlock`. `HandleConnection` is proved equal to `Handle`.
- `properties.dfy`: what the handler promises. This covers the route table,
  the silent aborts, the framing and Content-Length of every response, and
  which parts of the input can change the answer.
- `scenarios.dfy`: whole connections written out, and what each one gets.

## Model

| member | source | states |
|---|---|---|
| HttpServer.HandleConnection | internal/server/http_server.go:57-110 | the method that reads through a cursor returns exactly the outcome and the unread input that `Handle` specifies, for every input |
| HttpServer.SkipHeaderBlock | internal/server/http_server.go:88-99 | the header loop stops right after the first line that trims to empty, reporting success. If the input ends first, it reports failure with all input consumed |
| HttpServer.Handle | internal/server/http_server.go:57-110 | one connection's outcome. The input left unread is never longer than the input |
| HttpServer.Answer | internal/server/http_server.go:81-109 | the answer once the request line has been parsed. The input left unread is never longer than what followed the request line |
| HttpServer.ParseRequestLine | internal/server/http_server.go:70-79 | a request is found exactly when the trimmed line holds at least two spaces (at least three pieces). Method and path hold no space, and the trimmed line begins with "method path " |
| HttpServer.SkipHeaders | internal/server/http_server.go:88-99 | when the header block ends, what remains is strictly shorter than the input |
| Bufio.ReadLine | internal/server/http_server.go:64 | no line exactly when the input holds no '\n'. Otherwise it returns a complete line ending in its only '\n', and the line followed by the rest is the input |
| Bufio.ReadLineAt | internal/server/http_server.go:64 | a complete line is returned as it is, whatever follows it |
| Bufio.Reader.constructor | internal/server/http_server.go:61 | a new reader over the connection has the whole input unread |
| Bufio.Reader.ReadString | internal/server/http_server.go:89 | the cursor moves past exactly the line `ReadLine` finds, or to the end when none is left |
| Strings.TrimSpace | internal/server/http_server.go:71 | the result is empty exactly when the line is all white space. Otherwise it begins and ends with a visible character |
| Strings.TrimSpaceIs | internal/server/http_server.go:71 | TrimSpace keeps exactly the part between the leading and trailing white space |
| Strings.Split | internal/server/http_server.go:72 | one more piece than there are spaces, no piece holds a space, and joining the pieces with spaces gives back the input |
| Strings.SplitJoin | internal/server/http_server.go:72 | splitting the space-joined pieces gives back the pieces, when none holds a space |
| Strings.SplitCons | internal/server/http_server.go:72 | a space-free first token followed by a space splits off as the first piece |
| Decimal.FormatInt | internal/server/http_server.go:114 | the numeral is non-empty and starts with '-' exactly for negative numbers. The rest is all digits |
| Decimal.FormatNat | internal/server/http_server.go:116 | the `%d` numeral of a length is non-empty and all digits, with no leading zero except in "0" itself. `ValueOfFormatNat` shows it denotes the length |
| Decimal.ValueOfFormatNat | internal/server/http_server.go:116 | the digits of the numeral of n denote n |
| Decimal.FormatIntRoundTrip | internal/server/http_server.go:114 | parsing the `%d` numeral of a status code gives back the code |
| Decimal.FormatNatRoundTrip | internal/server/http_server.go:116 | parsing the `%d` numeral of a length gives back the length |
| Responses.StatusLineOf | internal/server/http_server.go:114 | the status line "HTTP/1.1 code text" that both serialisers begin with reads back as exactly that code and text |
| Responses.SendResponse | internal/server/http_server.go:113-122 | the response begins with the status line and ends with the body. Its whole layout is `SendResponseLines`; reading it back is `ParseSendResponse` and `ContentLengthMatchesBody` |
| Responses.SendResponseLines | internal/server/http_server.go:113-122 | the response is exactly the status line, Content-Type, Content-Length and Connection: close, in that order and each CRLF-terminated, then an empty line and the body |
| Responses.ParseSendResponse | internal/server/http_server.go:113-122 | reading a response back gives the status code, the reason, the three fields in order, and the body, for every code and body, whenever neither reason nor content type holds a CR |
| Responses.ContentLengthMatchesBody | internal/server/http_server.go:116 | the Content-Length value read back equals the length of the body that follows the empty line |
| Responses.ErrorBody | internal/server/http_server.go:126 | the error page's h1 heading, read back, is the code's numeral, a space and the text |
| Responses.SendErrorResponse | internal/server/http_server.go:125-135 | the error response is the ordinary response with content type text/html and the generated HTML page as body, so everything proved of `SendResponse` holds of it |
| Responses.CutHeadOf | internal/server/http_server.go:114-118 | CRLF-terminated lines, each non-empty and free of '\r', followed by an empty line, read back as those lines, with everything after them as the body |
| HttpServer.Route | internal/server/http_server.go:102-109 | the path switch is the route table: "/" gets Hello, World! as text/plain and "/health" the JSON health object, both 200 OK. Any other path gets 404 Not Found with its HTML page |
| HttpServer.NotFoundPage | internal/server/http_server.go:126 | the 404 body is `<html><body><h1>404 Not Found</h1></body></html>`, sent as text/html |
| HandlerProperties.NotAllowedFollowsTable | internal/server/http_server.go:83 | the 405 answer is 405 Method Not Allowed with body `<html><body><h1>405 Method Not Allowed</h1></body></html>`, sent as text/html |
| HandlerProperties.NoLineNoResponse | internal/server/http_server.go:64-68 | input without a '\n' gets no response and is consumed entirely |
| HandlerProperties.ShortRequestLineNoResponse | internal/server/http_server.go:71-76 | a request line with fewer than three pieces gets no response, whatever follows. Nothing after it is read |
| HandlerProperties.NonGetAnswers405 | internal/server/http_server.go:82-85 | any first piece other than exactly "GET" gets the 405 response, and nothing after the request line is read |
| HandlerProperties.GetWithoutBlankLineNoResponse | internal/server/http_server.go:88-99 | a GET whose following input holds no blank line gets no response |
| HandlerProperties.GetAnswersFromRouteTable | internal/server/http_server.go:102-109 | a GET followed by a blank line is answered from the route table by its path. The input after the blank line stays unread |
| HandlerProperties.SkipHeadersFindsBlankLine | internal/server/http_server.go:88-99 | the header loop ends exactly when the input holds a complete line of white space |
| HandlerProperties.ReplyFraming | internal/server/http_server.go:113-122 | each table reply reads back as its code, reason, three fields and body, and is well framed |
| HandlerProperties.TableRepliesClean | internal/server/http_server.go:102-109 | the table's reasons and content types hold no CR, and its codes are 200 or 404 |
| HandlerProperties.ResponsesAreWellFramed | internal/server/http_server.go:113-135 | every response the handler writes reads back with:<br>- code 200, 404 or 405;<br>- exactly Content-Type, Content-Length and Connection: close;<br>- a Content-Length equal to the body length |
| HandlerProperties.OutcomeDependsOnlyOnRequest | internal/server/http_server.go:78-99 | two connections whose request lines parse alike, and which agree on whether a blank line follows, get the same outcome |
| HandlerProperties.AnswerOutcome | internal/server/http_server.go:81-109 | the outcome of a parsed request:<br>- 405 for a method other than GET;<br>- otherwise the route for its path if a blank line follows;<br>- otherwise nothing |
| HandlerProperties.RequestLineOf | internal/server/http_server.go:70-79 | "method path rest" parses to that method and path whatever the rest holds, provided the method starts with a visible character, neither token holds a space, and the rest is not all white space |
| HandlerProperties.VersionAndExtraTokensIgnored | internal/server/http_server.go:78-79 | changing the version token, or adding tokens after it, changes neither the response nor the unread input |
| HandlerProperties.SkipHeaderLines | internal/server/http_server.go:88-99 | non-blank header lines are skipped whatever they say |
| HandlerProperties.HeaderContentsIgnored | internal/server/http_server.go:96 | adding, removing or rewriting non-blank header lines does not change the outcome |
| HandlerProperties.SkipHeadersPrefix | internal/server/http_server.go:88-99 | the header loop reads up to its blank line and no further: anything may follow |
| HandlerProperties.AnswerIgnoresUnreadInput | internal/server/http_server.go:57-110 | once the handler has answered, the part of the input it read, followed by anything at all, gets the same answer. The anything is left unread |
| Scenarios.HelloWire | internal/server/http_server.go:113-119 | the 200 response to "/" is, line by line:<br>- HTTP/1.1 200 OK<br>- Content-Type: text/plain<br>- Content-Length: 13<br>- Connection: close<br>then an empty line and Hello, World! |
| Scenarios.GetRoot | internal/server/http_server.go:102-104 | "GET / HTTP/1.1" with a Host header and a blank line gets the greeting, with nothing left unread |
| Scenarios.GetMissing | internal/server/http_server.go:107-108 | a GET of /missing gets the 404 page |
| Scenarios.PostRefused | internal/server/http_server.go:82-85 | a POST gets the 405 page, and its headers and body stay unread |
| Scenarios.LowerCaseGetRefused | internal/server/http_server.go:82 | "get" in lower case is refused with 405: the method comparison is exact |
| Scenarios.DoubleSpaceNotFound | internal/server/http_server.go:72-79 | "GET  / HTTP/1.1", with two spaces, takes the empty piece as the path and gets 404 |
| Scenarios.TwoTokensNoResponse | internal/server/http_server.go:73-76 | "GET /" without a version gets no response |
| Scenarios.UnfinishedHeadersNoResponse | internal/server/http_server.go:89-93 | a GET whose connection ends inside the header block gets no response |

## Left out

- `Start` (lines 28-54) is not modelled: the TCP listener, the accept loop, one goroutine per connection and the `sync.WaitGroup`. These are socket I/O and concurrency. The model handles one connection.
- `NewHTTPServer` (lines 21-25) is not modelled. It only stores the address.
- `cmd/server/main.go` is not part of this model.
- Logging (`log.Printf`, `log.Println`) is not modelled. It has no effect on what the peer receives.
- `conn.Close` is not modelled; it always runs.
- The ignored result of `conn.Write` is not modelled. A write is modelled as the text that would be written.
- `bufio` buffering and blocking reads are not modelled. The connection is a finite string, and its end stands for the read error. A client that stalls forever cannot be expressed.
- When the input ends inside a line, `ReadString` returns the partial line together with the error. The handler discards both. The model returns no line and counts the rest as read.
- Strings.TrimSpace: white space is ASCII space, '\t', '\n', '\v', '\f' and '\r' only. The Unicode white space that Go's `strings.TrimSpace` also strips (U+0085, U+00A0 and others) is not modelled.
- Responses.SendResponse: strings are sequences of characters, not bytes. So `len(body)` is modelled as the number of characters. They agree on every body the server sends, since all are ASCII; they would differ for a non-ASCII body.
- Responses.ParseMessage and Responses.Heading are not part of the server. They read the response format and the error page the way a client would, and the round-trip lemmas are stated with them.
