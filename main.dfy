/**
  Main.java: the two routes the application registers and the response text
  of the POST /messages echo handler.
 */
module App {
  import opened Wrappers
  import opened Text
  import opened Requests
  import opened RequestParser
  import opened HttpServer

  /** The GET /messages handler, which serves public/index.html. */
  const StaticPage: HandlerId := 0
  /** The POST /messages handler, which echoes the request content. */
  const Echo: HandlerId := 1

  /** The two addHandler calls in main, in order. */
  const Routes: seq<Registration> := [
    Registration("GET", "/messages", StaticPage),
    Registration("POST", "/messages", Echo)
  ]

  /** The response head of the echo handler: status line and three headers, each to be ended by CRLF. */
  function EchoHead(length: nat): seq<string>
  {
    ["HTTP/1.1 200 OK", "Content-Type: text/plain", "Content-Length: " + Decimal(length), "Connection: close"]
  }

  /**
    The text the echo handler writes: status line, Content-Type, Content-Length
    holding the number of bytes of the content, Connection, a blank line and
    the content. The handler turns it into bytes with getBytes(), taken here as
    UTF-8.
   */
  function EchoResponse(request: Request): (response: string)
    ensures "HTTP/1.1 200 OK\r\n" <= response
    ensures |request.content| <= |response| && response[|response| - |request.content|..] == request.content
  {
    var mimeType := "text/plain";
    var length := Utf8Length(request.content);
    "HTTP/1.1 200 OK\r\n"
    + "Content-Type: " + mimeType + "\r\n"
    + "Content-Length: " + Decimal(length) + "\r\n"
    + "Connection: close\r\n"
    + "\r\n"
    + request.content
  }

  /** main: a new server with the GET and the POST handler for /messages. */
  method Configure() returns (server: Server)
    ensures fresh(server)
    ensures server.Valid()
    ensures server.handlers == RegisterAll(Routes)
  {
    server := new Server();
    server.AddHandler("GET", "/messages", StaticPage);
    server.AddHandler("POST", "/messages", Echo);
    RoutesRegistry();
  }

  /** The registry main builds, one addHandler call at a time. */
  lemma RoutesRegistry()
    ensures RegisterAll(Routes) == Register(Register(map[], "GET", "/messages", StaticPage), "POST", "/messages", Echo)
  {
    var first, second := Routes[0], Routes[1];
    assert RegisterAll([first]) == Register(map[], "GET", "/messages", StaticPage) by {
      assert [first][..0] == [];
    }
    assert Routes[..1] == [first];
    assert RegisterAll(Routes) == Register(RegisterAll([first]), second.requestType, second.path, second.handler);
  }

  // ---------------------------------------------------------------------------
  // The echo response
  // ---------------------------------------------------------------------------

  /** The response is the head lines, each ended by CRLF, a CRLF and the content. */
  lemma EchoLayout(request: Request)
    ensures EchoResponse(request) == Terminated(EchoHead(Utf8Length(request.content))) + CRLF + request.content
  {
    var digits := Decimal(Utf8Length(request.content));
    var status, contentType, connection := "HTTP/1.1 200 OK", "Content-Type: text/plain", "Connection: close";
    assert EchoResponse(request)
        == status + CRLF + contentType + CRLF + ("Content-Length: " + digits) + CRLF + connection + CRLF
           + CRLF + request.content by {
      EchoLiterals();
      EchoRegroup("HTTP/1.1 200 OK\r\n", "Content-Type: ", "text/plain", "Content-Length: ", digits,
        "Connection: close\r\n", request.content, status, contentType, connection);
    }
    TerminatedFourLines(status, contentType, "Content-Length: " + digits, connection);
  }

  /** The literals the handler writes are the head lines with their CRLFs. */
  lemma EchoLiterals()
    ensures "HTTP/1.1 200 OK\r\n" == "HTTP/1.1 200 OK" + CRLF
    ensures "Content-Type: " + "text/plain" == "Content-Type: text/plain"
    ensures "Connection: close\r\n" == "Connection: close" + CRLF
  {
    var s := "HTTP/1.1 200 OK" + CRLF;
    assert forall i | 0 <= i < |s| :: s[i] == "HTTP/1.1 200 OK\r\n"[i];
    var t := "Content-Type: " + "text/plain";
    assert forall i | 0 <= i < |t| :: t[i] == "Content-Type: text/plain"[i];
    var u := "Connection: close" + CRLF;
    assert forall i | 0 <= i < |u| :: u[i] == "Connection: close\r\n"[i];
  }

  lemma EchoRegroup(status: string, typeName: string, mimeType: string, lengthName: string, digits: string,
                    connection: string, content: string, a: string, b: string, d: string)
    requires status == a + CRLF && typeName + mimeType == b && connection == d + CRLF
    ensures status + typeName + mimeType + "\r\n" + lengthName + digits + "\r\n" + connection + "\r\n" + content
         == a + CRLF + b + CRLF + (lengthName + digits) + CRLF + d + CRLF + CRLF + content
  {
  }

  lemma TerminatedFourLines(a: string, b: string, c: string, d: string)
    ensures Terminated([a, b, c, d]) == a + CRLF + b + CRLF + c + CRLF + d + CRLF
  {
    assert Terminated([a]) == a + CRLF by {
      assert [a][..0] == [];
    }
    assert Terminated([a, b]) == Terminated([a]) + b + CRLF by {
      assert [a, b][..1] == [a];
    }
    assert Terminated([a, b, c]) == Terminated([a, b]) + c + CRLF by {
      assert [a, b, c][..2] == [a, b];
    }
    assert Terminated([a, b, c, d]) == Terminated([a, b, c]) + d + CRLF by {
      assert [a, b, c, d][..3] == [a, b, c];
    }
  }

  /**
    A client that reads up to the first blank line finds the status line and
    the three headers in order, and the text after the blank line is the
    request content verbatim, whatever the content contains. The
    Content-Length value reads back as the byte length of that text.
   */
  lemma EchoFraming(request: Request)
    ensures var response := EchoResponse(request);
      var blank := IndexOf(response, CRLF + CRLF);
      && blank.Some?
      && response[..blank.value]
         == "HTTP/1.1 200 OK" + CRLF + "Content-Type: text/plain" + CRLF
            + "Content-Length: " + Decimal(Utf8Length(request.content)) + CRLF + "Connection: close"
      && response[blank.value + 4..] == request.content
      && DecimalValue(Decimal(Utf8Length(request.content))) == Utf8Length(response[blank.value + 4..])
  {
    var n := Utf8Length(request.content);
    var head := EchoHead(n);
    var text := "HTTP/1.1 200 OK" + CRLF + "Content-Type: text/plain" + CRLF
                + "Content-Length: " + Decimal(n) + CRLF + "Connection: close";
    assert Terminated(head) == text + CRLF by {
      TerminatedFourLines(head[0], head[1], head[2], head[3]);
    }
    assert EchoResponse(request) == text + CRLF + CRLF + request.content by {
      EchoLayout(request);
    }
    EchoHeadLines(n);
    FramedByBlankLine(head, text, request.content);
    DecimalRoundTrip(n);
  }

  /** The head lines are non-empty and hold no CR. */
  lemma EchoHeadLines(n: nat)
    ensures forall i :: 0 <= i < |EchoHead(n)| ==> EchoHead(n)[i] != "" && '\r' !in EchoHead(n)[i]
  {
    assert forall c :: c in Decimal(n) ==> IsDigit(c);
  }

  /** Lines without CR, ended by CRLF, then a blank line: the first blank line is the one after them. */
  lemma FramedByBlankLine(head: seq<string>, text: string, body: string)
    requires head != []
    requires forall i :: 0 <= i < |head| ==> head[i] != "" && '\r' !in head[i]
    requires Terminated(head) == text + CRLF
    ensures IndexOf(text + CRLF + CRLF + body, CRLF + CRLF) == Some(|text|)
    ensures (text + CRLF + CRLF + body)[..|text|] == text
    ensures (text + CRLF + CRLF + body)[|text| + 4..] == body
  {
    var s := text + CRLF + CRLF + body;
    assert s == Terminated(head) + CRLF + body;
    HeadEndsAtFirstBlankLine(head, body);
  }

  /** The response begins with the status line. */
  lemma EchoStartsWithStatusLine(request: Request)
    ensures "HTTP/1.1 200 OK\r\n" <= EchoResponse(request)
  {
  }

  /** The response depends on nothing but the request content. */
  lemma EchoDependsOnlyOnContent(r1: Request, r2: Request)
    requires r1.content == r2.content
    ensures EchoResponse(r1) == EchoResponse(r2)
  {
  }

  // ---------------------------------------------------------------------------
  // The routes
  // ---------------------------------------------------------------------------

  /** Exactly two routes: GET /messages to the static page, POST /messages to the echo handler, nothing else. */
  lemma TwoRoutes(requestType: string, path: string)
    ensures |RegisterAll(Routes)| == 2
    ensures Lookup(RegisterAll(Routes), "GET", "/messages") == Some(StaticPage)
    ensures Lookup(RegisterAll(Routes), "POST", "/messages") == Some(Echo)
    ensures (requestType, path) != ("GET", "/messages") && (requestType, path) != ("POST", "/messages")
            ==> Lookup(RegisterAll(Routes), requestType, path) == None
  {
    RoutesRegistry();
    RouteInjective(requestType, path, "GET", "/messages");
    RouteInjective(requestType, path, "POST", "/messages");
    RouteInjective("GET", "/messages", "POST", "/messages");
  }

  // ---------------------------------------------------------------------------
  // One connection end to end
  // ---------------------------------------------------------------------------

  /** The lines of a POST to /messages with a text body, as readLine() returns them. */
  const PostLines: seq<string> := ["POST /messages HTTP/1.1", "Content-Type: text/plain", "", "hello world"]

  /** The request parse(in) builds from them. */
  const PostRequest: Request :=
    Request("POST", "/messages", "HTTP/1.1", map["Content-Type" := "text/plain"], CRLF + "hello world" + CRLF)

  /** The POST request is parsed with its one header, and its content is CRLF + "hello world" + CRLF. */
  lemma PostParsed()
    ensures ParseRequest(PostLines) == Parsed(PostRequest)
  {
    var requestType, path, httpVersion := "POST", "/messages", "HTTP/1.1";
    var name, value, text := "Content-Type", "text/plain", "hello world";
    assert ParseRequest([requestType + " " + path + " " + httpVersion, HeaderLine(name, value), "", text])
        == Parsed(Request(requestType, path, httpVersion, map[name := value], CRLF + text + CRLF)) by {
      assert ' ' !in requestType && ' ' !in path && ' ' !in httpVersion;
      assert !IsWhitespace(requestType[0]) && !IsWhitespace(httpVersion[|httpVersion| - 1]);
      assert IsHeaderName(name) && HasNoLineTerminator(value);
      assert !IsHeaderLine(text) by {
        NameLengthOfPrefix(text, 5);
      }
      HeaderBlankLineBody(requestType, path, httpVersion, name, value, text);
    }
    PostLinesShape();
  }

  lemma PostLinesShape()
    ensures PostLines == ["POST" + " " + "/messages" + " " + "HTTP/1.1", HeaderLine("Content-Type", "text/plain"), "", "hello world"]
  {
    assert PostLines[0] == "POST" + " " + "/messages" + " " + "HTTP/1.1" by {
      var joined := "POST" + " " + "/messages" + " " + "HTTP/1.1";
      assert forall i | 0 <= i < |joined| :: joined[i] == "POST /messages HTTP/1.1"[i];
    }
    assert PostLines[1] == HeaderLine("Content-Type", "text/plain") by {
      var joined := HeaderLine("Content-Type", "text/plain");
      assert forall i | 0 <= i < |joined| :: joined[i] == "Content-Type: text/plain"[i];
    }
  }

  /** Sent to the configured server, that request reaches the echo handler. */
  lemma PostReachesEcho()
    ensures Dispatch(RegisterAll(Routes), PostLines) == Handled(Echo, PostRequest)
  {
    PostParsed();
    TwoRoutes("POST", "/messages");
  }

  /** The echo handler answers it with Content-Length 15: the 15 characters of that content are all ASCII. */
  lemma PostEchoed()
    ensures Utf8Length(PostRequest.content) == 15
    ensures EchoResponse(PostRequest)
         == Terminated(["HTTP/1.1 200 OK", "Content-Type: text/plain", "Content-Length: 15", "Connection: close"])
          + CRLF + PostRequest.content
  {
    var content := PostRequest.content;
    assert Utf8Length(content) == 15 by {
      assert forall i :: 0 <= i < |content| ==> content[i] < '\U{80}';
    }
    assert Decimal(15) == "15" by {
      assert Decimal(1) == "1";
      assert DigitChar(5) == '5';
    }
    assert "Content-Length: " + Decimal(15) == "Content-Length: 15" by {
      var joined := "Content-Length: " + "15";
      assert forall i | 0 <= i < |joined| :: joined[i] == "Content-Length: 15"[i];
    }
    EchoLayout(PostRequest);
  }
}
