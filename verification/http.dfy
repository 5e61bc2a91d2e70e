/**
  The HTTP/1.0 responses the server writes: the error page of
  `request_error` and the header of `request_serve_static`. A response is
  kept structured (status, headers, body); `Serialize` gives the bytes in
  the order the source writes them.
 */
module Http {
  import opened CStrings
  import opened Decimal
  import opened Uri

  datatype Header = Header(name: string, value: string)

  datatype Response = Response(status: string, reason: string, headers: seq<Header>, body: string)

  const Crlf: string := "\r\n"

  /** The value of the first header called `name`, if any. */
  function Lookup(hs: seq<Header>, name: string): (v: Option<string>)
    ensures v.None? <==> forall i :: 0 <= i < |hs| ==> hs[i].name != name
    ensures v.Some? ==> exists i :: 0 <= i < |hs| && hs[i].name == name && hs[i].value == v.value
  {
    if |hs| == 0 then None
    else if hs[0].name == name then Some(hs[0].value)
    else
      var v := Lookup(hs[1..], name);
      assert forall i :: 1 <= i < |hs| ==> hs[i] == hs[1..][i - 1];
      v
  }

  /** One `name: value` line of the header block. */
  function HeaderLine(h: Header): string
  {
    h.name + ": " + h.value + Crlf
  }

  function SerializeHeaders(hs: seq<Header>): string
  {
    if |hs| == 0 then "" else HeaderLine(hs[0]) + SerializeHeaders(hs[1..])
  }

  /** Every header's line occurs in the serialized header block. */
  lemma {:induction false} SerializeHeadersHasEach(hs: seq<Header>, i: nat)
    requires i < |hs|
    ensures HasSubstring(SerializeHeaders(hs), HeaderLine(hs[i]))
    decreases |hs|
  {
    if i == 0 {
      SubstringItself(HeaderLine(hs[0]));
      SubstringOfLeft(HeaderLine(hs[0]), SerializeHeaders(hs[1..]), HeaderLine(hs[0]));
    } else {
      SerializeHeadersHasEach(hs[1..], i - 1);
      assert hs[1..][i - 1] == hs[i];
      SubstringOfRight(HeaderLine(hs[0]), SerializeHeaders(hs[1..]), HeaderLine(hs[i]));
    }
  }

  /** A non-empty header block ends with a line break. */
  lemma {:induction false} SerializeHeadersEndsInCrlf(hs: seq<Header>)
    requires |hs| > 0
    ensures var b := SerializeHeaders(hs); |b| >= 2 && b[|b| - 2..] == Crlf
    decreases |hs|
  {
    var rest := SerializeHeaders(hs[1..]);
    assert SerializeHeaders(hs) == HeaderLine(hs[0]) + rest;
    if |hs| > 1 {
      SerializeHeadersEndsInCrlf(hs[1..]);
      assert (HeaderLine(hs[0]) + rest)[|HeaderLine(hs[0]) + rest| - 2..] == rest[|rest| - 2..];
    } else {
      assert rest == "";
      assert HeaderLine(hs[0]) + rest == hs[0].name + ": " + hs[0].value + Crlf;
    }
  }

  /** The status line `HTTP/1.0 <code> <reason>`. */
  function StatusLine(r: Response): string
  {
    "HTTP/1.0 " + r.status + " " + r.reason + Crlf
  }

  /** Everything written before the body. */
  function Head(r: Response): string
  {
    StatusLine(r) + SerializeHeaders(r.headers) + Crlf
  }

  /** The head starts with the status line, holds each header line, and ends with an empty line. */
  lemma HeadShape(r: Response)
    ensures |Head(r)| >= |StatusLine(r)| + 2
    ensures Head(r)[..|StatusLine(r)|] == StatusLine(r)
    ensures forall i :: 0 <= i < |r.headers| ==> HasSubstring(Head(r), HeaderLine(r.headers[i]))
    ensures Head(r)[|Head(r)| - 4..] == Crlf + Crlf
  {
    var status := StatusLine(r);
    var block := SerializeHeaders(r.headers);
    var head := Head(r);
    assert head == status + block + Crlf;
    assert head[..|status|] == status;
    forall i | 0 <= i < |r.headers|
      ensures HasSubstring(head, HeaderLine(r.headers[i]))
    {
      SerializeHeadersHasEach(r.headers, i);
      SubstringOfRight(status, block, HeaderLine(r.headers[i]));
      SubstringOfLeft(status + block, Crlf, HeaderLine(r.headers[i]));
    }
    if |r.headers| > 0 {
      SerializeHeadersEndsInCrlf(r.headers);
      assert head[|head| - 4..] == block[|block| - 2..] + Crlf;
    } else {
      assert head[|head| - 4..] == status[|status| - 2..] + Crlf;
    }
  }

  /**
    Status line, one line per header, an empty line, then the body. The
    head (everything before the body) starts with the status line, holds
    every header line and ends with the empty line; the body is exactly the
    bytes after the head.
   */
  function Serialize(r: Response): (w: string)
    ensures |w| >= |StatusLine(r)| + 2 + |r.body|
    ensures w[..|StatusLine(r)|] == StatusLine(r)
    ensures forall i :: 0 <= i < |r.headers| ==>
              HasSubstring(w[..|w| - |r.body|], HeaderLine(r.headers[i]))
    ensures w[|w| - |r.body| - 4..|w| - |r.body|] == Crlf + Crlf
    ensures w[|w| - |r.body|..] == r.body
  {
    HeadShape(r);
    var w := Head(r) + r.body;
    assert w[..|w| - |r.body|] == Head(r);
    assert w[..|StatusLine(r)|] == Head(r)[..|StatusLine(r)|];
    w
  }

  /** The four arguments of `request_error` after the socket. */
  datatype ErrorInfo = ErrorInfo(cause: string, errnum: string, shortMsg: string, longMsg: string)

  /** The fixed start of the error page, up to the heading's text. */
  const ErrorPageTop: string :=
    "<!doctype html>\r\n<head>\r\n  <title>CYB-3053 WebServer Error</title>\r\n</head>\r\n<body>\r\n  <h2>"

  /** The HTML page of an error response. */
  function ErrorBody(e: ErrorInfo): string
  {
    ErrorPageTop + e.errnum + ": " + e.shortMsg + "</h2>\r\n  <p>" + e.longMsg + ": " + e.cause
    + "</p>\r\n</body>\r\n</html>\r\n"
  }

  /** The error page names the status code, both messages and the cause. */
  lemma ErrorBodyMentionsAll(e: ErrorInfo)
    ensures HasSubstring(ErrorBody(e), e.errnum)
    ensures HasSubstring(ErrorBody(e), e.shortMsg)
    ensures HasSubstring(ErrorBody(e), e.longMsg)
    ensures HasSubstring(ErrorBody(e), e.cause)
  {
    var s1 := ErrorPageTop + e.errnum;
    var s2 := s1 + ": ";
    var s3 := s2 + e.shortMsg;
    var s4 := s3 + "</h2>\r\n  <p>";
    var s5 := s4 + e.longMsg;
    var s6 := s5 + ": ";
    var s7 := s6 + e.cause;
    var s8 := s7 + "</p>\r\n</body>\r\n</html>\r\n";
    assert s8 == ErrorBody(e);
    SubstringItself(e.errnum);
    SubstringOfRight(ErrorPageTop, e.errnum, e.errnum);
    SubstringOfLeft(s1, ": ", e.errnum);
    SubstringOfLeft(s2, e.shortMsg, e.errnum);
    SubstringOfLeft(s3, "</h2>\r\n  <p>", e.errnum);
    SubstringOfLeft(s4, e.longMsg, e.errnum);
    SubstringOfLeft(s5, ": ", e.errnum);
    SubstringOfLeft(s6, e.cause, e.errnum);
    SubstringOfLeft(s7, "</p>\r\n</body>\r\n</html>\r\n", e.errnum);
    SubstringItself(e.shortMsg);
    SubstringOfRight(s2, e.shortMsg, e.shortMsg);
    SubstringOfLeft(s3, "</h2>\r\n  <p>", e.shortMsg);
    SubstringOfLeft(s4, e.longMsg, e.shortMsg);
    SubstringOfLeft(s5, ": ", e.shortMsg);
    SubstringOfLeft(s6, e.cause, e.shortMsg);
    SubstringOfLeft(s7, "</p>\r\n</body>\r\n</html>\r\n", e.shortMsg);
    SubstringItself(e.longMsg);
    SubstringOfRight(s4, e.longMsg, e.longMsg);
    SubstringOfLeft(s5, ": ", e.longMsg);
    SubstringOfLeft(s6, e.cause, e.longMsg);
    SubstringOfLeft(s7, "</p>\r\n</body>\r\n</html>\r\n", e.longMsg);
    SubstringItself(e.cause);
    SubstringOfRight(s6, e.cause, e.cause);
    SubstringOfLeft(s7, "</p>\r\n</body>\r\n</html>\r\n", e.cause);
  }

  /**
    `request_error`: status line from the code and short message, a
    text/html Content-Type, and a Content-Length that reads back as the
    length of the body that follows.
   */
  function ErrorResponse(e: ErrorInfo): (r: Response)
    ensures r.status == e.errnum && r.reason == e.shortMsg
    ensures r.body == ErrorBody(e)
    ensures Lookup(r.headers, "Content-Type") == Some("text/html")
    ensures Lookup(r.headers, "Content-Length").Some?
    ensures AllDigits(Lookup(r.headers, "Content-Length").value)
    ensures ParseDecimal(Lookup(r.headers, "Content-Length").value) == |r.body|
  {
    var body := ErrorBody(e);
    ParseNatToDecimal(|body|);
    Response(e.errnum, e.shortMsg,
             [Header("Content-Type", "text/html"), Header("Content-Length", NatToDecimal(|body|))],
             body)
  }

  /**
    On the wire, an error response's head carries the Content-Length line
    with the body's length in decimal, and exactly that many bytes follow.
   */
  lemma ErrorResponseOnWire(e: ErrorInfo)
    ensures var w := Serialize(ErrorResponse(e));
            var n := |ErrorBody(e)|;
            && HasSubstring(w[..|w| - n], "Content-Length: " + NatToDecimal(n) + Crlf)
            && HasSubstring(w[..|w| - n], "Content-Type: text/html" + Crlf)
            && w[|w| - n..] == ErrorBody(e)
  {
    var r := ErrorResponse(e);
    assert r.headers[1] == Header("Content-Length", NatToDecimal(|ErrorBody(e)|));
    assert HeaderLine(r.headers[1]) == "Content-Length: " + NatToDecimal(|ErrorBody(e)|) + Crlf;
    assert HeaderLine(r.headers[0]) == "Content-Type: text/html" + Crlf;
  }

  /**
    `request_serve_static`: a 200 response whose Content-Length reads back
    as the stored `filesize`, whose Content-Type is the label `FileType`
    picks for the path, and whose body is the mapped view of the file.
    The view is exactly `filesize` bytes long and `filesize` is positive:
    mapping zero bytes or a negative size fails, and the failed mapping ends
    the process before anything is written, so an empty file or a wrapped
    negative size never reaches this point.
   */
  function StaticResponse(filename: string, filesize: int, view: string): (r: Response)
    requires filesize > 0 && |view| == filesize
    ensures r.status == "200" && r.reason == "OK"
    ensures r.body == view
    ensures Lookup(r.headers, "Content-Type") == Some(FileType(filename).Label())
    ensures Lookup(r.headers, "Content-Length").Some?
    ensures IsSignedDecimal(Lookup(r.headers, "Content-Length").value)
    ensures ParseInt(Lookup(r.headers, "Content-Length").value) == |r.body|
  {
    ParseIntToDecimal(filesize);
    var hs := [Header("Server", "OSTEP WebServer"),
               Header("Content-Length", IntToDecimal(filesize)),
               Header("Content-Type", FileType(filename).Label())];
    assert Lookup(hs[2..], "Content-Type") == Some(FileType(filename).Label());
    assert Lookup(hs[1..], "Content-Type") == Lookup(hs[2..], "Content-Type");
    Response("200", "OK", hs, view)
  }

  /** Three headers serialize to their three lines in order. */
  lemma ThreeHeaderBlock(a: Header, b: Header, c: Header)
    ensures SerializeHeaders([a, b, c]) == HeaderLine(a) + HeaderLine(b) + HeaderLine(c)
  {
    assert [a, b, c][1..] == [b, c] && [b, c][1..] == [c] && [c][1..] == [];
    assert SerializeHeaders([c]) == HeaderLine(c) + "";
  }

  /** The output is the head followed by the body. */
  lemma SerializeIsHeadThenBody(r: Response)
    ensures Serialize(r) == Head(r) + r.body
  {
  }

  /** A response with three headers is written as its status line, the three lines, a blank line and the body. */
  lemma ThreeHeadersOnWire(r: Response, a: Header, b: Header, c: Header)
    requires r.headers == [a, b, c]
    ensures Serialize(r) == StatusLine(r) + HeaderLine(a) + HeaderLine(b) + HeaderLine(c) + Crlf + r.body
  {
    SerializeIsHeadThenBody(r);
    ThreeHeaderBlock(a, b, c);
  }

  /** The literal pieces of the static response head, each joined on its own. */
  lemma OkStatusLine(r: Response)
    requires r.status == "200" && r.reason == "OK"
    ensures StatusLine(r) == "HTTP/1.0 200 OK\r\n"
  {
  }

  lemma ServerLine()
    ensures HeaderLine(Header("Server", "OSTEP WebServer")) == "Server: OSTEP WebServer\r\n"
  {
  }

  lemma ContentLengthLine(v: string)
    ensures HeaderLine(Header("Content-Length", v)) == "Content-Length: " + v + "\r\n"
  {
  }

  lemma ContentTypeLine(v: string)
    ensures HeaderLine(Header("Content-Type", v)) == "Content-Type: " + v + "\r\n"
  {
  }

  /** A 200 response with the static header set, written out byte by byte. */
  lemma StaticHeadOnWire(r: Response, sizeText: string, kind: string)
    requires r.status == "200" && r.reason == "OK"
    requires r.headers == [Header("Server", "OSTEP WebServer"),
                           Header("Content-Length", sizeText),
                           Header("Content-Type", kind)]
    ensures Serialize(r) ==
              "HTTP/1.0 200 OK\r\n"
              + "Server: OSTEP WebServer\r\n"
              + ("Content-Length: " + sizeText + "\r\n")
              + ("Content-Type: " + kind + "\r\n")
              + "\r\n"
              + r.body
  {
    ThreeHeadersOnWire(r, r.headers[0], r.headers[1], r.headers[2]);
    OkStatusLine(r);
    ServerLine();
    ContentLengthLine(sizeText);
    ContentTypeLine(kind);
  }

  /**
    The bytes of a static response are exactly those of the source's format
    string: status line, Server, Content-Length in `%d`, Content-Type, the
    empty line, then the mapped file.
   */
  lemma StaticResponseOnWire(filename: string, filesize: int, view: string)
    requires filesize > 0 && |view| == filesize
    ensures Serialize(StaticResponse(filename, filesize, view)) ==
              "HTTP/1.0 200 OK\r\n"
              + "Server: OSTEP WebServer\r\n"
              + ("Content-Length: " + IntToDecimal(filesize) + "\r\n")
              + ("Content-Type: " + FileType(filename).Label() + "\r\n")
              + "\r\n"
              + view
  {
    StaticHeadOnWire(StaticResponse(filename, filesize, view), IntToDecimal(filesize), FileType(filename).Label());
  }
}
