/**
 * The per-connection handler of the server (`handleConnection`): read the
 * request line, check the method, skip the header block up to its blank
 * line and answer from a fixed route table. The connection is its finite
 * input; what the handler writes is its outcome.
 */
module HttpServer {
  import opened Wrappers
  import opened Strings
  import opened Decimal
  import opened Bufio
  import opened Responses

  /** What the peer receives: nothing, or exactly one response. */
  datatype Outcome = NoResponse | Response(wire: string)

  /** The two tokens of the request line the handler looks at. */
  datatype Request = Request(requestMethod: string, path: string)

  /** One handled connection: its outcome and the input the handler never read. */
  datatype Step = Step(outcome: Outcome, unread: string)

  /**
   * The request line, trimmed and split on single spaces: the first two
   * pieces, when there are at least three.
   */
  function ParseRequestLine(line: string): (r: Option<Request>)
    ensures r.Some? <==> multiset(TrimSpace(line))[' '] >= 2
    ensures r.Some? ==> ' ' !in r.value.requestMethod && ' ' !in r.value.path
    ensures r.Some? ==> var prefix := r.value.requestMethod + " " + r.value.path + " ";
      |prefix| <= |TrimSpace(line)| && TrimSpace(line)[..|prefix|] == prefix
  {
    var parts := Split(TrimSpace(line));
    if |parts| < 3 then None
    else
      SplitPrefix(TrimSpace(line));
      Some(Request(parts[0], parts[1]))
  }

  /** A response as the route table describes it. */
  datatype Reply = Reply(code: int, reason: string, contentType: string, body: string)

  function Serialize(r: Reply): string {
    SendResponse(r.code, r.reason, r.contentType, r.body)
  }

  /** The route table for GET requests, with every body written out. */
  function RouteTable(path: string): Reply {
    if path == "/" then Reply(200, "OK", "text/plain", "Hello, World!")
    else if path == "/health" then Reply(200, "OK", "application/json", "{\"status\": \"healthy\"}")
    else Reply(404, "Not Found", "text/html", "<html><body><h1>" + "404 " + "Not Found" + "</h1></body></html>")
  }

  /** The numerals of the two error codes. */
  lemma ErrorNumerals()
    ensures FormatInt(404) == "404" && FormatInt(405) == "405"
  {
    assert FormatNat(4) == "4";
    assert FormatNat(40) == "40";
  }

  /** The page sendErrorResponse generates for a 404, written out. */
  lemma NotFoundBody()
    ensures ErrorBody(404, "Not Found") == "<html><body><h1>" + "404 " + "Not Found" + "</h1></body></html>"
  {
    ErrorNumerals();
    Associative("<html><body><h1>", "404", " ");
    assert "404" + " " == "404 ";
  }

  /** The page sendErrorResponse generates for a 404. */
  lemma NotFoundPage()
    ensures SendErrorResponse(404, "Not Found")
         == SendResponse(404, "Not Found", "text/html", "<html><body><h1>" + "404 " + "Not Found" + "</h1></body></html>")
  {
    NotFoundBody();
  }

  /** The switch on the path: the response the handler writes for a GET of path, as the route table lists it. */
  function Route(path: string): (wire: string)
    ensures wire == Serialize(RouteTable(path))
  {
    if path == "/" then SendResponse(200, "OK", "text/plain", "Hello, World!")
    else if path == "/health" then SendResponse(200, "OK", "application/json", "{\"status\": \"healthy\"}")
    else NotFoundPage(); SendErrorResponse(404, "Not Found")
  }

  /**
   * The header block: lines are consumed up to and including the first one
   * that trims to empty; the result is the input after it, or None when the
   * input ends first.
   */
  function SkipHeaders(s: string): (after: Option<string>)
    ensures after.Some? ==> |after.value| < |s|
    decreases |s|
  {
    match ReadLine(s)
    case None => None
    case Some((line, rest)) =>
      if TrimSpace(line) == [] then Some(rest) else SkipHeaders(rest)
  }

  /** handleConnection on a connection whose whole input is `input`. */
  function Handle(input: string): (step: Step)
    ensures |step.unread| <= |input|
  {
    match ReadLine(input)
    case None => Step(NoResponse, [])
    case Some((line, rest)) =>
      match ParseRequestLine(line)
      case None => Step(NoResponse, rest)
      case Some(req) =>
        Answer(req, rest)
  }

  /** What handleConnection does once the request line has been read and parsed. */
  function Answer(req: Request, rest: string): (step: Step)
    ensures |step.unread| <= |rest|
  {
    if req.requestMethod != "GET" then
      Step(Response(SendErrorResponse(405, "Method Not Allowed")), rest)
    else
      match SkipHeaders(rest)
      case None => Step(NoResponse, [])
      case Some(after) => Step(Response(Route(req.path)), after)
  }

  /**
   * handleConnection: reads through a cursor over the input, one line at a
   * time, and returns what it writes and what it leaves unread.
   */
  method HandleConnection(input: string) returns (out: Outcome, unread: string)
    ensures Step(out, unread) == Handle(input)
  {
    var reader := new Reader(input);
    var requestLine := reader.ReadString();
    if requestLine.None? {
      return NoResponse, reader.Unread();
    }
    var parts := Split(TrimSpace(requestLine.value));
    if |parts| < 3 {
      return NoResponse, reader.Unread();
    }
    var requestMethod, path := parts[0], parts[1];
    if requestMethod != "GET" {
      return Response(SendErrorResponse(405, "Method Not Allowed")), reader.Unread();
    }
    var complete := SkipHeaderBlock(reader);
    if !complete {
      return NoResponse, reader.Unread();
    }
    return Response(Route(path)), reader.Unread();
  }

  /**
   * The header loop of handleConnection: reads lines until one trims to
   * empty (true) or the input ends (false).
   */
  method SkipHeaderBlock(reader: Reader) returns (complete: bool)
    requires reader.Valid()
    modifies reader
    ensures reader.Valid()
    ensures match SkipHeaders(old(reader.Unread()))
      case None => !complete && reader.Unread() == []
      case Some(after) => complete && reader.Unread() == after
  {
    ghost var headers := reader.Unread();
    while true
      invariant reader.Valid()
      invariant SkipHeaders(reader.Unread()) == SkipHeaders(headers)
      decreases |reader.Unread()|
    {
      var line := reader.ReadString();
      if line.None? {
        return false;
      }
      if TrimSpace(line.value) == [] {
        return true;
      }
    }
  }
}
