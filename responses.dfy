/**
 * Response serialisation of the server (`sendResponse`, `sendErrorResponse`)
 * and a client-side reader of the response format, with which the
 * round-trip lemmas are stated: the status line of section 4 of RFC 9112,
 * CRLF-terminated header fields, an empty line and the body, whose length
 * the Content-Length field (section 8.6 of RFC 9110) announces.
 */
module Responses {
  import opened Wrappers
  import opened Strings
  import opened Decimal

  const CRLF: string := "\r\n"

  const Version: string := "HTTP/1.1 "

  /** The status line "HTTP/1.1 <code> <text>", without its CRLF. */
  function StatusText(code: int, text: string): string {
    Version + FormatInt(code) + " " + text
  }

  /** The status line followed by CRLF, as both serialisers begin. */
  function StatusLine(code: int, text: string): string {
    StatusText(code, text) + CRLF
  }

  /**
   * sendResponse: the status line and the header fields Content-Type,
   * Content-Length and Connection, each ended by CRLF, then an empty line
   * and the body.
   */
  function SendResponse(code: int, text: string, contentType: string, body: string): (wire: string)
    ensures StatusLine(code, text) <= wire
    ensures |body| <= |wire| && wire[|wire| - |body|..] == body
  {
    var response := StatusLine(code, text);
    var response := response + "Content-Type: " + contentType + CRLF;
    var response := response + "Content-Length: " + FormatNat(|body|) + CRLF;
    var response := response + "Connection: close" + CRLF;
    var response := response + CRLF;
    response + body
  }

  const PageOpen: string := "<html><body><h1>"
  const PageClose: string := "</h1></body></html>"

  /** The text of a page's single h1 heading: what lies between the fixed opening and closing markup. */
  function Heading(page: string): Option<string> {
    if |page| >= |PageOpen| + |PageClose| && page[..|PageOpen|] == PageOpen && page[|page| - |PageClose|..] == PageClose
    then Some(page[|PageOpen|..|page| - |PageClose|])
    else None
  }

  /** The HTML page sendErrorResponse sends: its heading is the code and the text. */
  function ErrorBody(code: int, text: string): (page: string)
    ensures Heading(page) == Some(FormatInt(code) + " " + text)
  {
    var heading := FormatInt(code) + " " + text;
    var page := PageOpen + heading + PageClose;
    assert page[..|PageOpen|] == PageOpen;
    assert page[|page| - |PageClose|..] == PageClose;
    assert page[|PageOpen|..|page| - |PageClose|] == heading;
    page
  }

  /** sendErrorResponse: sendResponse with content type text/html and the generated page as body. */
  function SendErrorResponse(code: int, text: string): (wire: string)
    ensures wire == SendResponse(code, text, "text/html", ErrorBody(code, text))
  {
    var body := ErrorBody(code, text);
    var response := StatusLine(code, text);
    HtmlContentType(response);
    var response := response + "Content-Type: text/html" + CRLF;
    var response := response + "Content-Length: " + FormatNat(|body|) + CRLF;
    var response := response + "Connection: close" + CRLF;
    var response := response + CRLF;
    response + body
  }

  /** The Content-Type line of sendErrorResponse, written in one piece or in two. */
  lemma HtmlContentType(head: string)
    ensures head + "Content-Type: text/html" == head + "Content-Type: " + "text/html"
  {
    assert "Content-Type: " + "text/html" == "Content-Type: text/html";
    Associative(head, "Content-Type: ", "text/html");
  }

  // ---------------------------------------------------------------------
  // Reading a response back

  datatype Header = Header(name: string, value: string)

  /** A response as a client reads it off the wire. */
  datatype Message = Message(code: int, reason: string, headers: seq<Header>, body: string)

  /** The text before the first CRLF of s and the text after it; None when s holds no CRLF. */
  function CutLine(s: string): (r: Option<(string, string)>)
    ensures r.Some? ==> s == r.value.0 + CRLF + r.value.1
    decreases |s|
  {
    if |s| < 2 then None
    else if s[..2] == CRLF then Some(([], s[2..]))
    else
      match CutLine(s[1..])
      case None => None
      case Some((line, rest)) => Some(([s[0]] + line, rest))
  }

  /** The lines of the header block up to the empty line, and the body after it. */
  function CutHead(s: string): (r: Option<(seq<string>, string)>)
    decreases |s|
  {
    match CutLine(s)
    case None => None
    case Some((line, rest)) =>
      if line == [] then Some(([], rest))
      else
        match CutHead(rest)
        case None => None
        case Some((lines, body)) => Some(([line] + lines, body))
  }

  /** "HTTP/1.1 <code> <reason>": the code is the numeral up to the next space, the reason the rest. */
  function ParseStatusLine(line: string): (r: Option<(int, string)>)
  {
    if |line| >= |Version| && line[..|Version|] == Version && ' ' in line[|Version|..] then
      var t := line[|Version|..];
      var i := IndexOf(t, ' ');
      match ParseInt(t[..i])
      case Some(code) => Some((code, t[i + 1..]))
      case None => None
    else
      None
  }

  /** "<name>: <value>", split at the first colon. */
  function ParseHeader(line: string): (r: Option<Header>)
  {
    if ':' in line then
      var i := IndexOf(line, ':');
      if i + 1 < |line| && line[i + 1] == ' ' then Some(Header(line[..i], line[i + 2..])) else None
    else
      None
  }

  function ParseHeaders(lines: seq<string>): (r: Option<seq<Header>>)
    ensures r.Some? ==> |r.value| == |lines|
  {
    if lines == [] then Some([])
    else
      match (ParseHeader(lines[0]), ParseHeaders(lines[1..]))
      case (Some(h), Some(hs)) => Some([h] + hs)
      case _ => None
  }

  /** A whole response: status line, header fields, empty line, body. */
  function ParseMessage(wire: string): (r: Option<Message>)
  {
    match CutHead(wire)
    case None => None
    case Some((lines, body)) =>
      if lines == [] then None
      else
        match (ParseStatusLine(lines[0]), ParseHeaders(lines[1..]))
        case (Some((code, reason)), Some(headers)) => Some(Message(code, reason, headers, body))
        case _ => None
  }

  /** The value of the first header field called name. */
  function HeaderValue(headers: seq<Header>, name: string): (r: Option<string>)
    ensures r.Some? ==> exists k :: 0 <= k < |headers| && headers[k] == Header(name, r.value)
  {
    if headers == [] then None
    else if headers[0].name == name then Some(headers[0].value)
    else HeaderValue(headers[1..], name)
  }

  /** The number the Content-Length field announces. */
  function ContentLength(headers: seq<Header>): Option<nat> {
    match HeaderValue(headers, "Content-Length")
    case None => None
    case Some(v) => ParseNat(v)
  }

  // ---------------------------------------------------------------------
  // Round trip

  lemma {:induction false} CutLineOf(line: string, rest: string)
    requires '\r' !in line
    ensures CutLine(line + CRLF + rest) == Some((line, rest))
    decreases |line|
  {
    var s := line + CRLF + rest;
    if line == [] {
      assert s[..2] == CRLF && s[2..] == rest;
    } else {
      assert s[..2][0] == line[0] != '\r';
      assert s[1..] == line[1..] + CRLF + rest;
      CutLineOf(line[1..], rest);
      assert [s[0]] + line[1..] == line;
    }
  }

  /** A header field as it stands on its line. */
  function HeaderLine(h: Header): string {
    h.name + ": " + h.value
  }

  function HeaderLines(hs: seq<Header>): (ls: seq<string>)
    ensures |ls| == |hs|
  {
    if hs == [] then [] else [HeaderLine(hs[0])] + HeaderLines(hs[1..])
  }

  /** Lines, each followed by CRLF. */
  function Terminated(lines: seq<string>): string {
    if lines == [] then [] else lines[0] + CRLF + Terminated(lines[1..])
  }

  /** The header fields sendResponse writes, in order. */
  function Fields(contentType: string, body: string): seq<Header> {
    [Header("Content-Type", contentType), Header("Content-Length", FormatNat(|body|)), Header("Connection", "close")]
  }

  /** A numeral holds only digits and perhaps a leading minus sign. */
  lemma NotInNumeral(c: char, i: int)
    requires c != '-' && !IsDigit(c)
    ensures c !in FormatInt(i)
  {
  }

  /** sendResponse's text as the status line and the header lines, each CRLF-terminated, an empty line and the body. */
  lemma SendResponseLines(code: int, text: string, contentType: string, body: string)
    ensures SendResponse(code, text, contentType, body)
         == Terminated([StatusText(code, text)] + HeaderLines(Fields(contentType, body))) + CRLF + body
  {
    var fs := Fields(contentType, body);
    var l0 := StatusText(code, text);
    var l1, l2, l3 := "Content-Type: " + contentType, "Content-Length: " + FormatNat(|body|), "Connection: close";
    var r0 := StatusLine(code, text);
    assert Terminated([l0]) == l0 + CRLF + Terminated([]);
    AddLine(r0, [l0], "Content-Type: ", contentType);
    assert [l0] + [l1] == [l0, l1];
    var r1 := r0 + "Content-Type: " + contentType + CRLF;
    AddLine(r1, [l0, l1], "Content-Length: ", FormatNat(|body|));
    assert [l0, l1] + [l2] == [l0, l1, l2];
    var r2 := r1 + "Content-Length: " + FormatNat(|body|) + CRLF;
    TerminatedSnoc([l0, l1, l2], l3);
    assert [l0, l1, l2] + [l3] == [l0, l1, l2, l3];
    HeaderLinesOfFields(contentType, body);
  }

  /** The field names of sendResponse, followed by the separator ": ". */
  lemma FieldNames()
    ensures "Content-Type" + ": " == "Content-Type: "
    ensures "Content-Length" + ": " == "Content-Length: "
    ensures "Connection" + ": " + "close" == "Connection: close"
    ensures ':' !in "Content-Type" && ':' !in "Content-Length" && ':' !in "Connection"
    ensures '\r' !in "Content-Type: " && '\r' !in "Content-Length: " && '\r' !in "Connection: close"
    ensures '\r' !in Version
  {
    assert "Connection" + ": " == "Connection: ";
  }

  /** The three header lines sendResponse writes. */
  lemma HeaderLinesOfFields(contentType: string, body: string)
    ensures HeaderLines(Fields(contentType, body))
         == ["Content-Type: " + contentType, "Content-Length: " + FormatNat(|body|), "Connection: close"]
  {
    HeaderLines3(Header("Content-Type", contentType), Header("Content-Length", FormatNat(|body|)), Header("Connection", "close"));
    FieldNames();
  }

  lemma HeaderLines3(a: Header, b: Header, c: Header)
    ensures HeaderLines([a, b, c]) == [HeaderLine(a), HeaderLine(b), HeaderLine(c)]
  {
    assert [c][1..] == [];
    assert HeaderLines([c]) == [HeaderLine(c)];
    assert [b, c][1..] == [c];
    assert HeaderLines([b, c]) == [HeaderLine(b), HeaderLine(c)];
    assert [a, b, c][1..] == [b, c];
  }

  /** Appending one more CRLF-terminated line, written in two pieces. */
  lemma AddLine(r: string, ls: seq<string>, a: string, b: string)
    requires r == Terminated(ls)
    ensures r + a + b + CRLF == Terminated(ls + [a + b])
  {
    TerminatedSnoc(ls, a + b);
    Associative(r, a, b);
  }

  lemma {:induction false} TerminatedSnoc(ls: seq<string>, l: string)
    ensures Terminated(ls + [l]) == Terminated(ls) + l + CRLF
    decreases |ls|
  {
    if ls == [] {
      assert [] + [l] == [l];
      assert Terminated([l]) == l + CRLF + Terminated([]);
    } else {
      TerminatedSnoc(ls[1..], l);
      assert (ls + [l])[1..] == ls[1..] + [l];
      var t := Terminated(ls[1..]);
      Associative(ls[0] + CRLF, t, l);
      Associative(ls[0] + CRLF, t + l, CRLF);
    }
  }

  lemma CutHeadStep(line: string, rest: string, lines: seq<string>, body: string)
    requires line != [] && '\r' !in line
    requires CutHead(rest) == Some((lines, body))
    ensures CutHead(line + CRLF + rest) == Some(([line] + lines, body))
  {
    CutLineOf(line, rest);
  }

  /** Non-empty lines without carriage returns, terminated and followed by an empty line, read back as themselves. */
  lemma {:induction false} CutHeadOf(lines: seq<string>, body: string)
    requires forall k :: 0 <= k < |lines| ==> lines[k] != [] && '\r' !in lines[k]
    ensures CutHead(Terminated(lines) + CRLF + body) == Some((lines, body))
    decreases |lines|
  {
    if lines == [] {
      CutLineOf([], body);
    } else {
      CutHeadOf(lines[1..], body);
      assert Terminated(lines) + CRLF + body == lines[0] + CRLF + (Terminated(lines[1..]) + CRLF + body);
      CutHeadStep(lines[0], Terminated(lines[1..]) + CRLF + body, lines[1..], body);
      assert [lines[0]] + lines[1..] == lines;
    }
  }

  /** Header lines whose names hold no colon read back as the fields they were written from. */
  lemma {:induction false} ParseHeaderLines(hs: seq<Header>)
    requires forall k :: 0 <= k < |hs| ==> ':' !in hs[k].name
    ensures ParseHeaders(HeaderLines(hs)) == Some(hs)
    decreases |hs|
  {
    if hs != [] {
      var ls := HeaderLines(hs);
      assert ls == [HeaderLine(hs[0])] + HeaderLines(hs[1..]);
      assert ls[1..] == HeaderLines(hs[1..]);
      HeaderLineOf(hs[0].name, hs[0].value);
      ParseHeaderLines(hs[1..]);
      assert [hs[0]] + hs[1..] == hs;
    }
  }

  lemma ResponseLinesClean(code: int, text: string, contentType: string, body: string)
    requires '\r' !in text && '\r' !in contentType
    ensures var ls := [StatusText(code, text)] + HeaderLines(Fields(contentType, body));
      forall k :: 0 <= k < |ls| ==> ls[k] != [] && '\r' !in ls[k]
  {
    var n := FormatNat(|body|);
    HeaderLinesOfFields(contentType, body);
    FieldNames();
    NotInNumeral('\r', code);
    assert forall k :: 0 <= k < |n| ==> n[k] != '\r';
  }

  lemma StatusLineOf(code: int, text: string)
    ensures ParseStatusLine(StatusText(code, text)) == Some((code, text))
  {
    var n := FormatInt(code);
    Associative(Version, n + " ", text);
    Associative(Version, n, " ");
    NotInNumeral(' ', code);
    SplitAt(n, ' ', text);
    FormatIntRoundTrip(code);
  }

  /**
   * What sendResponse writes reads back as the status code, the status text,
   * exactly the fields Content-Type, Content-Length and Connection: close in
   * that order, and the body; the status text and content type must not hold
   * a carriage return, which would end their line early.
   */
  lemma ParseSendResponse(code: int, text: string, contentType: string, body: string)
    requires '\r' !in text && '\r' !in contentType
    ensures ParseMessage(SendResponse(code, text, contentType, body))
         == Some(Message(code, text, Fields(contentType, body), body))
  {
    var fs := Fields(contentType, body);
    var l0 := StatusText(code, text);
    var ls := [l0] + HeaderLines(fs);
    SendResponseLines(code, text, contentType, body);
    ResponseLinesClean(code, text, contentType, body);
    CutHeadOf(ls, body);
    StatusLineOf(code, text);
    FieldNames();
    ParseHeaderLines(fs);
    ParseMessageOf(Terminated(ls) + CRLF + body, ls, body, code, text, fs);
  }

  /** ParseMessage, once the head is cut into lines and each line parsed. */
  lemma ParseMessageOf(wire: string, ls: seq<string>, body: string, code: int, text: string, fs: seq<Header>)
    requires CutHead(wire) == Some((ls, body)) && ls != []
    requires ParseStatusLine(ls[0]) == Some((code, text)) && ParseHeaders(ls[1..]) == Some(fs)
    ensures ParseMessage(wire) == Some(Message(code, text, fs, body))
  {
  }

  lemma SplitAt(a: string, c: char, b: string)
    requires c !in a
    ensures c in a + [c] + b
    ensures IndexOf(a + [c] + b, c) == |a|
    ensures (a + [c] + b)[..|a|] == a && (a + [c] + b)[|a| + 1..] == b
  {
    var s := a + [c] + b;
    assert s[|a|] == c;
    assert s[..|a|] == a;
  }

  lemma HeaderLineOf(name: string, value: string)
    requires ':' !in name
    ensures ParseHeader(name + ": " + value) == Some(Header(name, value))
  {
    SplitAt(name, ':', " " + value);
    assert name + ": " + value == name + [':'] + (" " + value);
  }

  /**
   * In every response sendResponse writes, the Content-Length field that a
   * client reads announces exactly the number of characters of the body that
   * follows the empty line.
   */
  lemma ContentLengthMatchesBody(code: int, text: string, contentType: string, body: string)
    requires '\r' !in text && '\r' !in contentType
    ensures var m := ParseMessage(SendResponse(code, text, contentType, body));
      m.Some? && ContentLength(m.value.headers) == Some(|m.value.body|)
  {
    ParseSendResponse(code, text, contentType, body);
    FormatNatRoundTrip(|body|);
    var fs := Fields(contentType, body);
    assert fs[0].name != "Content-Length" by { assert fs[0].name[9] != "Content-Length"[9]; }
    assert HeaderValue(fs, "Content-Length") == Some(FormatNat(|body|));
  }
}
