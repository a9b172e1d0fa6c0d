/**
 * Whole connections, written out byte by byte, and what the handler does
 * with each of them.
 */
module Scenarios {
  import opened Wrappers
  import opened Strings
  import opened Decimal
  import opened Bufio
  import opened Responses
  import opened HttpServer
  import opened HandlerProperties

  /** The response to a GET of "/", line by line as it goes over the wire. */
  lemma HelloWire()
    ensures SendResponse(200, "OK", "text/plain", "Hello, World!")
         == Terminated(["HTTP/1.1 200 OK", "Content-Type: text/plain", "Content-Length: 13", "Connection: close"])
            + CRLF + "Hello, World!"
  {
    var body := "Hello, World!";
    SendResponseLines(200, "OK", "text/plain", body);
    HeaderLinesOfFields("text/plain", body);
    assert Version + FormatInt(200) + " " + "OK" == "HTTP/1.1 200 OK" by {
      assert FormatNat(2) == "2";
      assert FormatNat(20) == "20";
    }
    assert "Content-Type: " + "text/plain" == "Content-Type: text/plain";
    assert "Content-Length: " + FormatNat(|body|) == "Content-Length: 13" by {
      assert FormatNat(1) == "1";
    }
  }

  /**
   * A request line as a client writes it: method, path and version
   * separated by single spaces, ended by CRLF.
   */
  function RequestText(m: string, p: string, v: string): string {
    m + " " + p + " " + v + "\r\n"
  }

  /** A browser-like GET of "/" is answered with the greeting and nothing is left unread. */
  lemma GetRoot()
    ensures Handle(RequestText("GET", "/", "HTTP/1.1") + "Host: localhost\r\n" + "\r\n")
         == Step(Response(SendResponse(200, "OK", "text/plain", "Hello, World!")), [])
  {
    var line, host := RequestText("GET", "/", "HTTP/1.1"), "Host: localhost\r\n";
    TextLine("GET", "/", "HTTP/1.1");
    Associative(line, host, "\r\n");
    HandleLine(line, host + "\r\n");
    HostHeaderSkipped("\r\n");
    EmptyHeaderBlock();
  }

  /** A GET of a path the table does not list gets the 404 page. */
  lemma GetMissing()
    ensures Handle(RequestText("GET", "/missing", "HTTP/1.1") + "\r\n")
         == Step(Response(SendErrorResponse(404, "Not Found")), [])
  {
    var line := RequestText("GET", "/missing", "HTTP/1.1");
    TextLine("GET", "/missing", "HTTP/1.1");
    HandleLine(line, "\r\n");
    EmptyHeaderBlock();
    UnlistedPath("/missing");
  }

  /** A POST is refused at once: its headers and body are never read. */
  lemma PostRefused()
    ensures Handle(RequestText("POST", "/submit", "HTTP/1.1") + "Content-Length: 2\r\n\r\nhi")
         == Step(Response(SendErrorResponse(405, "Method Not Allowed")), "Content-Length: 2\r\n\r\nhi")
  {
    var line, rest := RequestText("POST", "/submit", "HTTP/1.1"), "Content-Length: 2\r\n\r\nhi";
    TextLine("POST", "/submit", "HTTP/1.1");
    HandleLine(line, rest);
  }

  /** The method is compared exactly: a lower-case "get" is refused like any other method. */
  lemma LowerCaseGetRefused()
    ensures Handle(RequestText("get", "/", "HTTP/1.1") + "\r\n")
         == Step(Response(SendErrorResponse(405, "Method Not Allowed")), "\r\n")
  {
    var line := RequestText("get", "/", "HTTP/1.1");
    TextLine("get", "/", "HTTP/1.1");
    HandleLine(line, "\r\n");
  }

  /**
   * Splitting on single spaces: with two spaces after the method
   * ("GET  / HTTP/1.1") the path is the empty piece between them, which the
   * table does not list.
   */
  lemma DoubleSpaceNotFound()
    ensures Handle(RequestText("GET", "", "/ HTTP/1.1") + "\r\n")
         == Step(Response(SendErrorResponse(404, "Not Found")), [])
  {
    var line := RequestText("GET", "", "/ HTTP/1.1");
    TextLine("GET", "", "/ HTTP/1.1");
    HandleLine(line, "\r\n");
    EmptyHeaderBlock();
    UnlistedPath("");
  }

  /** A request line of only two tokens gets no response; the rest stays unread. */
  lemma TwoTokensNoResponse()
    ensures Handle("GET /\r\n" + "\r\n") == Step(NoResponse, "\r\n")
  {
    var line := "GET /\r\n";
    TwoTokenLine("GET", "/", line);
    HandleLine(line, "\r\n");
  }

  /** A GET whose connection ends before the blank line gets nothing. */
  lemma UnfinishedHeadersNoResponse()
    ensures Handle(RequestText("GET", "/", "HTTP/1.1") + "Host: localhost\r\n") == Step(NoResponse, [])
  {
    var line, host := RequestText("GET", "/", "HTTP/1.1"), "Host: localhost\r\n";
    TextLine("GET", "/", "HTTP/1.1");
    HandleLine(line, host);
    HostHeaderSkipped([]);
    assert host + [] == host;
  }

  // ---------------------------------------------------------------------
  // Steps shared by the scenarios

  /** A request line written by RequestText parses to its method and path. */
  lemma TextLine(m: string, p: string, v: string)
    requires m != [] && !IsSpace(m[0]) && ' ' !in m && ' ' !in p && v != [] && !IsSpace(v[0])
    requires '\n' !in m + " " + p + " " + v
    ensures IsLine(RequestText(m, p, v)) && ParseRequestLine(RequestText(m, p, v)) == Some(Request(m, p))
  {
    RequestLine(m, p, v + "\r", RequestText(m, p, v));
  }

  /** line, written out, is "<m> <p> <v>\n" and parses to m and p. */
  lemma RequestLine(m: string, p: string, v: string, line: string)
    requires m != [] && !IsSpace(m[0]) && ' ' !in m && ' ' !in p && v != [] && !IsSpace(v[0])
    requires line == m + " " + p + " " + v + "\n" && '\n' !in m + " " + p + " " + v
    ensures IsLine(line) && ParseRequestLine(line) == Some(Request(m, p))
  {
    assert !AllSpace(v);
    RequestLineOf(m, p, v);
    assert line[..|line| - 1] == m + " " + p + " " + v;
  }

  /** line, written out, is "<m> <p>" ended by CRLF, and holds too few pieces to parse. */
  lemma TwoTokenLine(m: string, p: string, line: string)
    requires m != [] && !IsSpace(m[0]) && ' ' !in m
    requires p != [] && !IsSpace(p[|p| - 1]) && ' ' !in p
    requires line == m + " " + p + "\r\n" && '\n' !in m + " " + p
    ensures IsLine(line) && ParseRequestLine(line) == None
  {
    var s := m + " " + p;
    Associative(s, "\r", "\n");
    assert line[..|line| - 1] == s + "\r";
    assert line[|s|..] == "\r\n";
    assert AllSpace(line[|s|..]) by {
      assert IsSpace(line[|s|]) && IsSpace(line[|s| + 1]);
    }
    assert line[|s| - 1] == p[|p| - 1];
    TrimSpaceIs(line, 0, |s|);
    assert line[0..|s|] == s;
    SplitCons(m, p);
  }

  /** Any path but "/" and "/health" gets the 404 page. */
  lemma UnlistedPath(path: string)
    requires path != "/" && path != "/health"
    ensures Route(path) == SendErrorResponse(404, "Not Found")
  {
  }

  /** The empty line alone is a complete header block. */
  lemma EmptyHeaderBlock()
    ensures SkipHeaders("\r\n") == Some([])
  {
    var s := "\r\n";
    LineOf("\r");
    ReadLineAt("\r" + "\n", []);
    assert "\r" + "\n" + [] == s;
    assert AllSpace(s) by {
      assert IsSpace(s[0]) && IsSpace(s[1]);
    }
  }

  /** A Host line is skipped, whatever follows it. */
  lemma HostHeaderSkipped(x: string)
    ensures SkipHeaders("Host: localhost\r\n" + x) == SkipHeaders(x)
  {
    var h := "Host: localhost\r";
    LineOf(h);
    ReadLineAt(h + "\n", x);
    assert h + "\n" == "Host: localhost\r\n";
    assert !AllSpace(h + "\n") by {
      assert !IsSpace((h + "\n")[0]);
    }
  }
}
