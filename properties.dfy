/**
 * What the connection handler promises, proved about its model: the route
 * table, the silent aborts, the framing of every response it writes, and
 * which parts of the input can change its answer.
 */
module HandlerProperties {
  import opened Wrappers
  import opened Strings
  import opened Decimal
  import opened Bufio
  import opened Responses
  import opened HttpServer

  /** The answer to any method other than GET. */
  const NotAllowed: Reply :=
    Reply(405, "Method Not Allowed", "text/html", "<html><body><h1>" + "405 " + "Method Not Allowed" + "</h1></body></html>")

  // ---------------------------------------------------------------------
  // The fixed responses

  /** The generated 405 page is the one the table lists. */
  lemma NotAllowedFollowsTable()
    ensures SendErrorResponse(405, "Method Not Allowed") == Serialize(NotAllowed)
  {
    NotAllowedBody();
  }

  /** The page sendErrorResponse generates for a 405, written out. */
  lemma NotAllowedBody()
    ensures ErrorBody(405, "Method Not Allowed") == "<html><body><h1>" + "405 " + "Method Not Allowed" + "</h1></body></html>"
  {
    ErrorNumerals();
    Associative("<html><body><h1>", "405", " ");
    assert "405" + " " == "405 ";
  }

  // ---------------------------------------------------------------------
  // The blank line that ends the header block

  /** s[i..j] is a whole line of s made of white space only, and s[j] is its '\n'. */
  predicate BlankLineAt(s: string, i: int, j: int) {
    0 <= i <= j < |s| && (i == 0 || s[i - 1] == '\n') && s[j] == '\n' && AllSpace(s[i..j])
  }

  /** s holds a complete line, its '\n' included, made of white space only. */
  ghost predicate HasBlankLine(s: string) {
    exists i, j :: BlankLineAt(s, i, j)
  }

  lemma BlankFirstLine(line: string, rest: string)
    requires line != [] && line[|line| - 1] == '\n' && AllSpace(line)
    ensures HasBlankLine(line + rest)
  {
    var s := line + rest;
    var n := |line|;
    assert s[0..n - 1] == line[..n - 1];
    assert BlankLineAt(s, 0, n - 1);
  }

  lemma BlankLineLater(line: string, rest: string)
    requires line != [] && line[|line| - 1] == '\n'
    requires HasBlankLine(rest)
    ensures HasBlankLine(line + rest)
  {
    var s := line + rest;
    var n := |line|;
    var i, j :| BlankLineAt(rest, i, j);
    assert s[i + n..j + n] == rest[i..j];
    assert BlankLineAt(s, i + n, j + n);
  }

  /** A blank line of line + rest lies in rest when line is a complete line that is not blank. */
  lemma BlankLineNotFirst(line: string, rest: string)
    requires line != [] && line[|line| - 1] == '\n' && '\n' !in line[..|line| - 1]
    requires !AllSpace(line)
    requires HasBlankLine(line + rest)
    ensures HasBlankLine(rest)
  {
    var s := line + rest;
    var n := |line|;
    var i, j :| BlankLineAt(s, i, j);
    assert i >= n by {
      if i < n {
        assert i == 0 && j >= n - 1;
        forall k | 0 <= k < n ensures IsSpace(line[k]) {
          if k < n - 1 { assert s[i..j][k] == s[k]; }
        }
        assert false;
      }
    }
    assert rest[i - n..j - n] == s[i..j];
    assert BlankLineAt(rest, i - n, j - n);
  }

  /** The header loop ends exactly when the input holds a blank line. */
  lemma {:induction false} SkipHeadersFindsBlankLine(s: string)
    ensures SkipHeaders(s).Some? <==> HasBlankLine(s)
    decreases |s|
  {
    match ReadLine(s)
    case None =>
      assert forall i, j :: !BlankLineAt(s, i, j);
    case Some((line, rest)) =>
      if TrimSpace(line) == [] {
        BlankFirstLine(line, rest);
      } else {
        SkipHeadersFindsBlankLine(rest);
        if HasBlankLine(rest) {
          BlankLineLater(line, rest);
        }
        if HasBlankLine(s) {
          BlankLineNotFirst(line, rest);
        }
      }
  }

  // ---------------------------------------------------------------------
  // The handler, path by path

  /** The split request line, as handleConnection computes it. */
  function Parts(text: string): seq<string> {
    Split(TrimSpace(text + "\n"))
  }

  /** Without a complete request line the peer gets nothing, and all input is consumed. */
  lemma NoLineNoResponse(input: string)
    requires '\n' !in input
    ensures Handle(input) == Step(NoResponse, [])
  {
  }

  /** Fewer than three pieces on the request line: nothing is sent, whatever follows. */
  lemma ShortRequestLineNoResponse(text: string, rest: string)
    requires '\n' !in text && |Parts(text)| < 3
    ensures Handle(text + "\n" + rest) == Step(NoResponse, rest)
  {
    LineOf(text);
    ReadLineAt(text + "\n", rest);
  }

  /**
   * Any method but exactly "GET" is answered with the 405 page at once: the
   * header lines that follow are left unread.
   */
  lemma NonGetAnswers405(text: string, rest: string)
    requires '\n' !in text && |Parts(text)| >= 3 && Parts(text)[0] != "GET"
    ensures Handle(text + "\n" + rest) == Step(Response(Serialize(NotAllowed)), rest)
  {
    LineOf(text);
    ReadLineAt(text + "\n", rest);
    NotAllowedFollowsTable();
  }

  /** A GET whose header block never ends in a blank line gets nothing. */
  lemma GetWithoutBlankLineNoResponse(text: string, rest: string)
    requires '\n' !in text && |Parts(text)| >= 3 && Parts(text)[0] == "GET"
    requires !HasBlankLine(rest)
    ensures Handle(text + "\n" + rest) == Step(NoResponse, [])
  {
    LineOf(text);
    ReadLineAt(text + "\n", rest);
    SkipHeadersFindsBlankLine(rest);
  }

  /**
   * A GET whose header block ends in a blank line is answered from the route
   * table by its path, and the input after the blank line is left unread.
   */
  lemma GetAnswersFromRouteTable(text: string, rest: string)
    requires '\n' !in text && |Parts(text)| >= 3 && Parts(text)[0] == "GET"
    requires HasBlankLine(rest)
    ensures SkipHeaders(rest).Some?
    ensures Handle(text + "\n" + rest)
         == Step(Response(Serialize(RouteTable(Parts(text)[1]))), SkipHeaders(rest).value)
  {
    LineOf(text);
    ReadLineAt(text + "\n", rest);
    SkipHeadersFindsBlankLine(rest);
  }

  // ---------------------------------------------------------------------
  // Every response is well framed

  /**
   * wire reads back as a status line with code 200, 404 or 405, then exactly
   * the fields Content-Type, Content-Length and Connection: close, and a body
   * whose length the Content-Length field states.
   */
  predicate WellFramed(wire: string) {
    var m := ParseMessage(wire);
    && m.Some?
    && m.value.code in {200, 404, 405}
    && |m.value.headers| == 3
    && m.value.headers[0].name == "Content-Type"
    && m.value.headers[1].name == "Content-Length"
    && m.value.headers[2] == Header("Connection", "close")
    && ContentLength(m.value.headers) == Some(|m.value.body|)
  }

  lemma ReplyFraming(r: Reply)
    requires '\r' !in r.reason && '\r' !in r.contentType && r.code in {200, 404, 405}
    ensures ParseMessage(Serialize(r)) == Some(Message(r.code, r.reason, Fields(r.contentType, r.body), r.body))
    ensures WellFramed(Serialize(r))
  {
    ParseSendResponse(r.code, r.reason, r.contentType, r.body);
    ContentLengthMatchesBody(r.code, r.reason, r.contentType, r.body);
  }

  lemma NotAllowedWellFramed()
    ensures WellFramed(SendErrorResponse(405, "Method Not Allowed"))
  {
    NotAllowedFollowsTable();
    ReplyFraming(NotAllowed);
  }

  lemma RouteWellFramed(path: string)
    ensures WellFramed(Route(path))
  {
    TableRepliesClean(path);
    ReplyFraming(RouteTable(path));
  }

  /** No reason or content type in the table holds a carriage return, and every code is 200 or 404. */
  lemma TableRepliesClean(path: string)
    ensures var r := RouteTable(path);
      '\r' !in r.reason && '\r' !in r.contentType && r.code in {200, 404}
  {
    TableFieldsClean();
    if path == "/" {
    } else if path == "/health" {
    } else {
    }
  }

  /** The reasons and content types the table uses hold no carriage return. */
  lemma TableFieldsClean()
    ensures '\r' !in "OK" && '\r' !in "Not Found"
    ensures '\r' !in "text/plain" && '\r' !in "application/json" && '\r' !in "text/html"
  {
  }

  /** Whatever the input, every response the handler writes is well framed. */
  lemma ResponsesAreWellFramed(input: string)
    requires Handle(input).outcome.Response?
    ensures WellFramed(Handle(input).outcome.wire)
  {
    var line, rest := ReadLine(input).value.0, ReadLine(input).value.1;
    var req := ParseRequestLine(line).value;
    if req.requestMethod != "GET" {
      NotAllowedWellFramed();
    } else {
      RouteWellFramed(req.path);
    }
  }

  // ---------------------------------------------------------------------
  // What the answer depends on

  /**
   * The outcome is decided by the method and path tokens and by whether a
   * blank line ever comes: two connections that agree on these get the same
   * answer.
   */
  lemma OutcomeDependsOnlyOnRequest(text1: string, rest1: string, text2: string, rest2: string)
    requires '\n' !in text1 && '\n' !in text2
    requires ParseRequestLine(text1 + "\n") == ParseRequestLine(text2 + "\n")
    requires HasBlankLine(rest1) == HasBlankLine(rest2)
    ensures Handle(text1 + "\n" + rest1).outcome == Handle(text2 + "\n" + rest2).outcome
  {
    var line1, line2 := text1 + "\n", text2 + "\n";
    assert line1[..|line1| - 1] == text1;
    assert line2[..|line2| - 1] == text2;
    HandleLine(line1, rest1);
    HandleLine(line2, rest2);
    if req :| ParseRequestLine(line1) == Some(req) {
      AnswerOutcome(req, rest1);
      AnswerOutcome(req, rest2);
    }
  }

  /** The outcome of answering a parsed request, in terms of whether a blank line comes. */
  lemma AnswerOutcome(req: Request, rest: string)
    ensures Answer(req, rest).outcome
         == if req.requestMethod != "GET" then Response(SendErrorResponse(405, "Method Not Allowed"))
            else if HasBlankLine(rest) then Response(Route(req.path))
            else NoResponse
  {
    SkipHeadersFindsBlankLine(rest);
  }

  /**
   * A request line "<method> <path> <rest>" parses to its method and path,
   * whatever the rest holds (the version and any further tokens), so long as
   * the method starts with a visible character, neither token holds a space
   * and the rest is not all white space.
   */
  lemma RequestLineOf(m: string, p: string, v: string)
    requires m != [] && !IsSpace(m[0]) && ' ' !in m && ' ' !in p
    requires !AllSpace(v)
    ensures ParseRequestLine(m + " " + p + " " + v + "\n") == Some(Request(m, p))
  {
    var w := TrimRight(v);
    TrimRightVisible(v);
    RequestLineTrimmed(m, p, v);
    SplitCons(m, p + " " + w);
    SplitCons(p, w);
  }

  /** TrimSpace on such a request line keeps everything up to the last visible character. */
  lemma RequestLineTrimmed(m: string, p: string, v: string)
    requires m != [] && !IsSpace(m[0]) && ' ' !in m && ' ' !in p
    requires !AllSpace(v)
    ensures TrimSpace(m + " " + p + " " + v + "\n") == m + " " + (p + " " + TrimRight(v))
  {
    var w := TrimRight(v);
    TrimRightVisible(v);
    RequestLinePieces(m, p, v, |w|);
  }

  /**
   * Where the pieces of "<method> <path> <rest>\n" sit in the line, when the
   * rest keeps its visible part in its first k characters.
   */
  lemma RequestLinePieces(m: string, p: string, v: string, k: nat)
    requires m != [] && !IsSpace(m[0])
    requires 0 < k <= |v| && AllSpace(v[k..]) && !IsSpace(v[k - 1])
    ensures TrimSpace(m + " " + p + " " + v + "\n") == m + " " + (p + " " + v[..k])
  {
    var s, j := m + " " + p + " " + v + "\n", |m| + |p| + 2 + k;
    assert s == m + " " + (p + " " + v[..k]) + (v[k..] + "\n");
    assert s[j..] == v[k..] + "\n";
    assert s[0] == m[0];
    assert s[j - 1] == v[k - 1];
    TrimSpaceIs(s, 0, j);
  }

  /**
   * Changing the version token, or adding tokens after it, leaves the whole
   * handling unchanged: the same response and the same unread input.
   */
  lemma VersionAndExtraTokensIgnored(m: string, p: string, v1: string, v2: string, rest: string)
    requires m != [] && !IsSpace(m[0]) && ' ' !in m && ' ' !in p
    requires !AllSpace(v1) && !AllSpace(v2)
    requires '\n' !in m + " " + p + " " + v1 && '\n' !in m + " " + p + " " + v2
    ensures Handle(m + " " + p + " " + v1 + "\n" + rest) == Handle(m + " " + p + " " + v2 + "\n" + rest)
  {
    RequestLineOf(m, p, v1);
    RequestLineOf(m, p, v2);
    LineOf(m + " " + p + " " + v1);
    ReadLineAt(m + " " + p + " " + v1 + "\n", rest);
    LineOf(m + " " + p + " " + v2);
    ReadLineAt(m + " " + p + " " + v2 + "\n", rest);
  }

  /** Header lines, each followed by '\n'. */
  function HeaderBlock(hs: seq<string>): string {
    if hs == [] then [] else hs[0] + "\n" + HeaderBlock(hs[1..])
  }

  /** A complete line with something visible on it is skipped, whatever it says. */
  lemma SkipNonBlankLine(h: string, post: string)
    requires '\n' !in h && !AllSpace(h)
    ensures SkipHeaders(h + "\n" + post) == SkipHeaders(post)
  {
    LineOf(h);
    ReadLineAt(h + "\n", post);
    assert !AllSpace(h + "\n") by {
      var k :| 0 <= k < |h| && !IsSpace(h[k]);
      assert (h + "\n")[k] == h[k];
    }
  }

  /** Header lines that are not blank are skipped without regard to their contents. */
  lemma {:induction false} SkipHeaderLines(hs: seq<string>, post: string)
    requires forall k :: 0 <= k < |hs| ==> '\n' !in hs[k] && !AllSpace(hs[k])
    ensures SkipHeaders(HeaderBlock(hs) + post) == SkipHeaders(post)
    decreases |hs|
  {
    if hs != [] {
      assert HeaderBlock(hs) + post == hs[0] + "\n" + (HeaderBlock(hs[1..]) + post);
      SkipNonBlankLine(hs[0], HeaderBlock(hs[1..]) + post);
      SkipHeaderLines(hs[1..], post);
      assert SkipHeaders(HeaderBlock(hs) + post) == SkipHeaders(post);
    } else {
      assert HeaderBlock(hs) + post == post;
    }
  }

  /**
   * Non-blank header lines can be removed, added or rewritten without
   * changing the response: the handler answers as if the header block were
   * only its blank line.
   */
  lemma HeaderContentsIgnored(text: string, hs: seq<string>, post: string)
    requires '\n' !in text
    requires forall k :: 0 <= k < |hs| ==> '\n' !in hs[k] && !AllSpace(hs[k])
    ensures Handle(text + "\n" + HeaderBlock(hs) + post).outcome == Handle(text + "\n" + post).outcome
  {
    var line, x := text + "\n", HeaderBlock(hs) + post;
    Associative(line, HeaderBlock(hs), post);
    LineOf(text);
    SkipHeaderLines(hs, post);
    AnswerAlikeAfterLine(line, x, post);
  }

  /** After the same request line, two header streams that the header loop ends alike get the same answer. */
  lemma AnswerAlikeAfterLine(line: string, x: string, y: string)
    requires IsLine(line)
    requires SkipHeaders(x).Some? == SkipHeaders(y).Some?
    ensures Handle(line + x).outcome == Handle(line + y).outcome
  {
    HandleLine(line, x);
    HandleLine(line, y);
    match ParseRequestLine(line)
    case None =>
    case Some(req) => AnswerAlike(req, x, y);
  }

  /** Two header streams that the header loop ends alike get the same answer. */
  lemma AnswerAlike(req: Request, x: string, y: string)
    requires SkipHeaders(x).Some? == SkipHeaders(y).Some?
    ensures Answer(req, x).outcome == Answer(req, y).outcome
  {
  }

  // ---------------------------------------------------------------------
  // Nothing past the answer is read

  /** One turn of the header loop on a complete line, whatever follows it. */
  lemma SkipHeadersLine(line: string, x: string)
    requires IsLine(line)
    ensures SkipHeaders(line + x) == if TrimSpace(line) == [] then Some(x) else SkipHeaders(x)
  {
    ReadLineAt(line, x);
  }

  /** The header loop reads up to its blank line and no further. */
  lemma {:induction false} SkipHeadersPrefix(s: string, after: string, t: string)
    requires SkipHeaders(s) == Some(after)
    ensures |after| <= |s| && SkipHeaders(s[..|s| - |after|] + t) == Some(t)
    decreases |s|
  {
    var line, rest := ReadLine(s).value.0, ReadLine(s).value.1;
    if TrimSpace(line) == [] {
      assert s[..|s| - |after|] == line;
      SkipHeadersLine(line, t);
    } else {
      var r := rest[..|rest| - |after|];
      CutAfterLine(s, line, rest, after, t);
      SkipHeadersLine(line, r + t);
      SkipHeadersPrefix(rest, after, t);
    }
  }

  /** Cutting `after` off the end of a line and what follows it, then appending `t`. */
  lemma CutAfterLine(s: string, line: string, rest: string, after: string, t: string)
    requires s == line + rest && |after| <= |rest|
    ensures s[..|s| - |after|] + t == line + (rest[..|rest| - |after|] + t)
  {
    assert s[..|s| - |after|] == line + rest[..|rest| - |after|];
  }

  /** handleConnection on a complete request line, whatever follows it. */
  lemma HandleLine(line: string, x: string)
    requires IsLine(line)
    ensures Handle(line + x) == match ParseRequestLine(line)
      case None => Step(NoResponse, x)
      case Some(req) => Answer(req, x)
  {
    ReadLineAt(line, x);
  }

  /**
   * Once the handler has answered, the input it left unread plays no part:
   * what it did read, followed by anything at all, is answered the same way.
   */
  lemma AnswerIgnoresUnreadInput(input: string, step: Step, t: string)
    requires Handle(input) == step && step.outcome.Response?
    ensures |step.unread| <= |input|
    ensures Handle(input[..|input| - |step.unread|] + t) == Step(step.outcome, t)
  {
    var line, rest := ReadLine(input).value.0, ReadLine(input).value.1;
    ReadPrefixAnswered(input, line, rest, ParseRequestLine(line).value, step, t);
  }

  /** The same, once the request line has been split off and parsed. */
  lemma ReadPrefixAnswered(input: string, line: string, rest: string, req: Request, step: Step, t: string)
    requires ReadLine(input) == Some((line, rest)) && ParseRequestLine(line) == Some(req)
    requires Answer(req, rest) == step && step.outcome.Response?
    ensures |step.unread| <= |input|
    ensures Handle(input[..|input| - |step.unread|] + t) == Step(step.outcome, t)
  {
    CutAfterLine(input, line, rest, step.unread, t);
    var x := rest[..|rest| - |step.unread|] + t;
    HandleLine(line, x);
    AnswerPrefix(req, rest, step, t);
  }

  /** The same, once the request line has been read and parsed: only the answer is left. */
  lemma AnswerPrefix(req: Request, rest: string, step: Step, t: string)
    requires Answer(req, rest) == step && step.outcome.Response?
    ensures |step.unread| <= |rest|
    ensures Answer(req, rest[..|rest| - |step.unread|] + t) == Step(step.outcome, t)
  {
    if req.requestMethod == "GET" {
      GetPrefix(req, rest, SkipHeaders(rest).value, t);
    } else {
      assert rest[..|rest| - |step.unread|] + t == t;
    }
  }

  lemma GetPrefix(req: Request, rest: string, after: string, t: string)
    requires req.requestMethod == "GET" && SkipHeaders(rest) == Some(after)
    ensures |after| <= |rest|
    ensures Answer(req, rest[..|rest| - |after|] + t) == Step(Response(Route(req.path)), t)
  {
    SkipHeadersPrefix(rest, after, t);
  }
}
