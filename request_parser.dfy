/**
  RequestParser.java: turns the lines of one request into a Request.

  The input is the sequence of lines the BufferedReader yields: the first is
  the request line, the rest are the lines read while in.ready() holds. An
  empty sequence stands for readLine() returning null.
 */
module RequestParser {
  import opened Wrappers
  import opened Text
  import opened Requests

  /** What parse(in) does with one input. */
  datatype ParseOutcome =
      /** parse returns the Request built from the three parts, the headers and the content. */
      Parsed(request: Request)
      /** parse returns null: the stripped request line does not split on " " into exactly 3 parts. */
    | Malformed
      /** readLine() returned null and requestLine.strip() throws NullPointerException. */
    | MissingRequestLine

  // ---------------------------------------------------------------------------
  // The header pattern [A-Za-z-]+: .*
  // ---------------------------------------------------------------------------

  predicate IsNameChar(c: char)
  {
    'A' <= c <= 'Z' || 'a' <= c <= 'z' || c == '-'
  }

  /** The characters the regular-expression dot does not match (no DOTALL flag). */
  predicate IsLineTerminator(c: char)
  {
    c == '\n' || c == '\r' || c == '\U{85}' || c == '\U{2028}' || c == '\U{2029}'
  }

  predicate IsHeaderName(name: string)
  {
    name != "" && forall i :: 0 <= i < |name| ==> IsNameChar(name[i])
  }

  predicate HasNoLineTerminator(s: string)
  {
    forall i :: 0 <= i < |s| ==> !IsLineTerminator(s[i])
  }

  /** line.matches("[A-Za-z-]+: .*"), read off the regular expression: some split point makes the whole line match. */
  ghost predicate MatchesHeaderPattern(line: string)
  {
    exists k :: 1 <= k && k + 2 <= |line| && IsHeaderName(line[..k])
      && line[k] == ':' && line[k + 1] == ' ' && HasNoLineTerminator(line[k + 2..])
  }

  /** The length of the longest prefix of line made of name characters. */
  function NameLength(line: string): (n: nat)
    ensures n <= |line|
    ensures forall i :: 0 <= i < n ==> IsNameChar(line[i])
    ensures n < |line| ==> !IsNameChar(line[n])
  {
    if line != "" && IsNameChar(line[0]) then 1 + NameLength(line[1..]) else 0
  }

  /** line.matches("[A-Za-z-]+: .*"), decided by one scan: the name characters must be followed by ": ". */
  predicate IsHeaderLine(line: string)
    ensures IsHeaderLine(line) ==> HasNoLineTerminator(line) && OccursAt(line, ": ", NameLength(line))
  {
    var n := NameLength(line);
    1 <= n && n + 2 <= |line| && line[n] == ':' && line[n + 1] == ' '
    && HasNoLineTerminator(line[n + 2..])
  }

  /** The scan decides exactly the regular expression. */
  lemma HeaderLineIsPatternMatch(line: string)
    ensures IsHeaderLine(line) <==> MatchesHeaderPattern(line)
  {
    if IsHeaderLine(line) {
      ScanMatchesPattern(line);
    }
    if MatchesHeaderPattern(line) {
      PatternMatchesScan(line);
    }
  }

  /** Whatever split point the pattern uses, the scan finds the same one. */
  lemma PatternMatchesScan(line: string)
    requires MatchesHeaderPattern(line)
    ensures IsHeaderLine(line)
  {
    var k :| 1 <= k && k + 2 <= |line| && IsHeaderName(line[..k])
      && line[k] == ':' && line[k + 1] == ' ' && HasNoLineTerminator(line[k + 2..]);
    PatternSplitIsNameLength(line, k);
  }

  /** The end of the run of name characters is a split point of the pattern. */
  lemma ScanMatchesPattern(line: string)
    requires IsHeaderLine(line)
    ensures MatchesHeaderPattern(line)
  {
    var n := NameLength(line);
    forall i | 0 <= i < n ensures IsNameChar(line[..n][i]) {
      assert line[..n][i] == line[i];
    }
    assert IsHeaderName(line[..n]);
  }

  /** A split point of the pattern is where the run of name characters ends. */
  lemma PatternSplitIsNameLength(line: string, k: nat)
    requires 1 <= k && k + 2 <= |line| && IsHeaderName(line[..k]) && line[k] == ':'
    ensures NameLength(line) == k
  {
    forall i | 0 <= i < k ensures IsNameChar(line[i]) {
      assert line[i] == line[..k][i];
    }
    NameLengthOfPrefix(line, k);
  }

  /** In a header line the first ": " is the one right after the name. */
  lemma SeparatorAfterName(line: string)
    requires IsHeaderLine(line)
    ensures IndexOf(line, ": ") == Some(NameLength(line))
  {
    var n := NameLength(line);
    assert line[n..n + 2] == ": ";
    forall j | 0 <= j < n
      ensures !OccursAt(line, ": ", j)
    {
      assert line[j] != ':';
    }
    IndexOfFirst(line, ": ", n);
  }

  /** The header name: the run of name characters before ": ". */
  function HeaderName(line: string): (name: string)
    requires IsHeaderLine(line)
    ensures IsHeaderName(name)
    ensures name + ": " <= line
  {
    line[..NameLength(line)]
  }

  /** The header value: everything after the first ": ". */
  function HeaderValue(line: string): (value: string)
    requires IsHeaderLine(line)
    ensures HasNoLineTerminator(value)
    ensures line == HeaderName(line) + ": " + value
  {
    line[NameLength(line) + 2..]
  }

  /**
    line.split(": ", 2) on a header line gives the name and the value: the
    split is at the first ": ", which is the one after the name, and the value
    keeps any later ": ".
   */
  lemma SplitGivesNameAndValue(line: string)
    requires IsHeaderLine(line)
    ensures SplitOnce(line, ": ") == [HeaderName(line), HeaderValue(line)]
    ensures IsHeaderName(HeaderName(line))
    ensures line == HeaderName(line) + ": " + HeaderValue(line)
  {
    SeparatorAfterName(line);
  }

  /** A valid name and a value without line terminators make a header line that gives them back. */
  lemma HeaderLineRoundTrip(name: string, value: string)
    requires IsHeaderName(name) && HasNoLineTerminator(value)
    ensures IsHeaderLine(HeaderLine(name, value))
    ensures HeaderName(HeaderLine(name, value)) == name
    ensures HeaderValue(HeaderLine(name, value)) == value
  {
    var line := HeaderLine(name, value);
    assert line[..|name|] == name;
    NameLengthOfPrefix(line, |name|);
    assert line[|name| + 2..] == value;
  }

  lemma {:induction false} NameLengthOfPrefix(line: string, k: nat)
    requires k < |line| && !IsNameChar(line[k])
    requires forall i :: 0 <= i < k ==> IsNameChar(line[i])
    ensures NameLength(line) == k
  {
    if k > 0 {
      NameLengthOfPrefix(line[1..], k - 1);
    }
  }

  // ---------------------------------------------------------------------------
  // Headers and content of the lines after the request line
  // ---------------------------------------------------------------------------

  /** The header map after the loop has seen the lines: each header line puts its pair, the last one wins. */
  function HeadersOf(lines: seq<string>): map<string, string>
  {
    if lines == [] then map[]
    else
      var headers := HeadersOf(lines[..|lines| - 1]);
      var line := lines[|lines| - 1];
      if IsHeaderLine(line) then headers[HeaderName(line) := HeaderValue(line)] else headers
  }

  /** The content buffer after the loop has seen the lines: each other line is appended with CRLF. */
  function ContentOf(lines: seq<string>): string
  {
    if lines == [] then ""
    else
      var line := lines[|lines| - 1];
      ContentOf(lines[..|lines| - 1]) + (if IsHeaderLine(line) then "" else line + CRLF)
  }

  /** One more line read: a header line updates the map, any other line extends the content. */
  lemma ReadOneLine(read: seq<string>, line: string)
    ensures HeadersOf(read + [line])
         == if IsHeaderLine(line) then HeadersOf(read)[HeaderName(line) := HeaderValue(line)] else HeadersOf(read)
    ensures ContentOf(read + [line]) == ContentOf(read) + (if IsHeaderLine(line) then "" else line + CRLF)
  {
    assert (read + [line])[..|read|] == read;
  }

  /** What parse(in) returns (or throws) for these lines. */
  function ParseRequest(lines: seq<string>): ParseOutcome
  {
    if lines == [] then MissingRequestLine
    else
      var parts := Split(Strip(lines[0]), ' ');
      if |parts| != 3 then Malformed
      else Parsed(Request(parts[0], parts[1], parts[2], HeadersOf(lines[1..]), ContentOf(lines[1..])))
  }

  /**
    RequestParser.parse: splits the stripped request line on " ", then reads
    the remaining lines one by one into the header map or the content buffer.
   */
  method Parse(lines: seq<string>) returns (outcome: ParseOutcome)
    ensures outcome == ParseRequest(lines)
  {
    if |lines| == 0 {
      return MissingRequestLine;
    }
    var parts := Split(Strip(lines[0]), ' ');
    if |parts| != 3 {
      return Malformed;
    }
    var requestType, path, httpVersion := parts[0], parts[1], parts[2];
    var headers, content := ReadHeadersAndContent(lines[1..]);
    return Parsed(Request(requestType, path, httpVersion, headers, content));
  }

  /** The while (in.ready()) loop of parse, over the lines after the request line. */
  method ReadHeadersAndContent(rest: seq<string>) returns (headers: map<string, string>, content: string)
    ensures headers == HeadersOf(rest)
    ensures content == ContentOf(rest)
  {
    headers, content := map[], "";
    var i := 0;
    while i < |rest|
      invariant i <= |rest|
      invariant headers == HeadersOf(rest[..i])
      invariant content == ContentOf(rest[..i])
    {
      var line := rest[i];
      assert rest[..i + 1] == rest[..i] + [line];
      ReadOneLine(rest[..i], line);
      if IsHeaderLine(line) {
        var nameAndValue := SplitOnce(line, ": ");
        assert nameAndValue == [HeaderName(line), HeaderValue(line)] by {
          SplitGivesNameAndValue(line);
        }
        headers := headers[nameAndValue[0] := nameAndValue[1]];
      } else {
        content := content + line + "\r\n";
      }
      i := i + 1;
    }
    assert rest[..i] == rest;
  }

  // ---------------------------------------------------------------------------
  // The request line
  // ---------------------------------------------------------------------------

  /**
    Parsing gets past the request line exactly when the stripped line holds
    exactly two spaces: a doubled space, a tab in place of a space or an empty
    line all fail.
   */
  lemma ParsedIffTwoSpaces(lines: seq<string>)
    requires lines != []
    ensures ParseRequest(lines).Parsed? <==> multiset(Strip(lines[0]))[' '] == 2
    ensures !ParseRequest(lines).Parsed? ==> ParseRequest(lines) == Malformed
  {
    var s := Strip(lines[0]);
    if s != "" {
      SplitIsPieces(s, ' ');
    }
  }

  /**
    On success type, path and version are the three parts verbatim: they hold
    no space, joined by single spaces they give the stripped line back, and
    type and version are not empty (the path may be).
   */
  lemma ParsedRequestLine(lines: seq<string>)
    requires ParseRequest(lines).Parsed?
    ensures var r := ParseRequest(lines).request;
      && r.RequestLine() == Strip(lines[0])
      && ' ' !in r.requestType && ' ' !in r.path && ' ' !in r.httpVersion
      && r.requestType != "" && r.httpVersion != ""
  {
    var s := Strip(lines[0]);
    var parts := Split(s, ' ');
    assert s != "" && s[|s| - 1] != ' ';
    ThreeParts(s);
    assert s[|parts[0]|] == ' ' && s[|s| - 1 - |parts[2]|] == ' ';
  }

  /** A line without a trailing space that splits into three parts is those parts joined by single spaces. */
  lemma ThreeParts(s: string)
    requires s != "" && s[|s| - 1] != ' '
    requires |Split(s, ' ')| == 3
    ensures var parts := Split(s, ' ');
      s == parts[0] + " " + parts[1] + " " + parts[2]
  {
    var parts := Split(s, ' ');
    SplitIsPieces(s, ' ');
    PiecesJoin(s, ' ');
    assert Join(parts, ' ') == Join(parts[..2], ' ') + " " + parts[2];
    assert parts[..2][..1] == [parts[0]];
    assert Join(parts[..2], ' ') == parts[0] + " " + parts[1];
  }

  /**
    A request line built as type + " " + path + " " + version from space-free
    parts, with no whitespace at its two ends, parses back to those parts.
   */
  lemma RequestLineRoundTrip(requestType: string, path: string, httpVersion: string, rest: seq<string>)
    requires requestType != "" && httpVersion != ""
    requires ' ' !in requestType && ' ' !in path && ' ' !in httpVersion
    requires !IsWhitespace(requestType[0]) && !IsWhitespace(httpVersion[|httpVersion| - 1])
    ensures ParseRequest([requestType + " " + path + " " + httpVersion] + rest)
         == Parsed(Request(requestType, path, httpVersion, HeadersOf(rest), ContentOf(rest)))
  {
    var line := requestType + " " + path + " " + httpVersion;
    var parts := [requestType, path, httpVersion];
    StripUnchanged(line);
    assert parts[..2] == [requestType, path];
    assert Join([requestType, path], ' ') == requestType + " " + path by {
      assert [requestType, path][..1] == [requestType];
    }
    assert Join(parts, ' ') == line;
    PiecesOfJoin(parts, ' ');
    SplitIsPieces(line, ' ');
    assert ([line] + rest)[1..] == rest;
  }

  /** A doubled space between type and version leaves an empty path that is accepted. */
  lemma EmptyPathAccepted()
    ensures ParseRequest(["GET  HTTP/1.1"]) == Parsed(Request("GET", "", "HTTP/1.1", map[], ""))
  {
    assert "GET  HTTP/1.1" == "GET" + " " + "" + " " + "HTTP/1.1";
    RequestLineRoundTrip("GET", "", "HTTP/1.1", []);
  }

  /** A doubled space between three tokens makes four parts: refused. */
  lemma DoubledSpaceRefused()
    ensures ParseRequest(["GET  /index.html HTTP/1.1"]) == Malformed
  {
    var tokens := ["GET", "", "/index.html", "HTTP/1.1"];
    assert tokens[..3][..2][..1] == ["GET"];
    assert tokens[..3][..2] == ["GET", ""];
    assert tokens[..3] == ["GET", "", "/index.html"];
    assert Join(["GET"], ' ') == "GET";
    assert Join(["GET", ""], ' ') == "GET ";
    assert Join(["GET", "", "/index.html"], ' ') == "GET  /index.html";
    assert Join(tokens, ' ') == "GET  /index.html HTTP/1.1";
    RefusedTokens(tokens);
  }

  /** A tab does not separate tokens: two parts, refused. */
  lemma TabRefused()
    ensures ParseRequest(["GET\t/index.html HTTP/1.1"]) == Malformed
  {
    var tokens := ["GET\t/index.html", "HTTP/1.1"];
    assert tokens[..1] == ["GET\t/index.html"];
    assert Join(tokens, ' ') == "GET\t/index.html HTTP/1.1";
    RefusedTokens(tokens);
  }

  /** One token, and the empty line (which splits into one empty part), are refused. */
  lemma SingleTokenRefused()
    ensures ParseRequest(["BADLINE"]) == Malformed
    ensures ParseRequest([""]) == Malformed
  {
    StripUnchanged("BADLINE");
    StripUnchanged("");
  }

  /** A line made of a number of space-separated tokens other than three is refused. */
  lemma RefusedTokens(tokens: seq<string>)
    requires |tokens| >= 1 && |tokens| != 3
    requires forall i :: 0 <= i < |tokens| ==> ' ' !in tokens[i]
    requires var line := Join(tokens, ' ');
      line != "" && !IsWhitespace(line[0]) && !IsWhitespace(line[|line| - 1])
    ensures ParseRequest([Join(tokens, ' ')]) == Malformed
  {
    var line := Join(tokens, ' ');
    StripUnchanged(line);
    PiecesOfJoin(tokens, ' ');
    SplitIsPieces(line, ' ');
  }

  // ---------------------------------------------------------------------------
  // Header lines and content lines
  // ---------------------------------------------------------------------------

  /** If a header name repeats, the value stored is the one from its last line. */
  lemma {:induction false} LastHeaderWins(lines: seq<string>, i: nat)
    requires i < |lines| && IsHeaderLine(lines[i])
    requires forall j :: i < j < |lines| && IsHeaderLine(lines[j]) ==> HeaderName(lines[j]) != HeaderName(lines[i])
    ensures HeaderName(lines[i]) in HeadersOf(lines)
    ensures HeadersOf(lines)[HeaderName(lines[i])] == HeaderValue(lines[i])
  {
    if i < |lines| - 1 {
      var init := lines[..|lines| - 1];
      LastHeaderWins(init, i);
    }
  }

  /** The stored names are exactly the names of the header lines. */
  lemma {:induction false} HeaderNamesFromLines(lines: seq<string>)
    ensures HeadersOf(lines).Keys == set j | 0 <= j < |lines| && IsHeaderLine(lines[j]) :: HeaderName(lines[j])
  {
    if lines != [] {
      var init, line := lines[..|lines| - 1], lines[|lines| - 1];
      HeaderNamesFromLines(init);
      HeaderNamesStep(lines);
      assert HeadersOf(lines).Keys == HeadersOf(init).Keys + (if IsHeaderLine(line) then {HeaderName(line)} else {});
    }
  }

  /** The names of the header lines grow by the name of the last line when it is a header line. */
  lemma HeaderNamesStep(lines: seq<string>)
    requires lines != []
    ensures var init, line := lines[..|lines| - 1], lines[|lines| - 1];
      (set j | 0 <= j < |lines| && IsHeaderLine(lines[j]) :: HeaderName(lines[j]))
      == (set j | 0 <= j < |init| && IsHeaderLine(init[j]) :: HeaderName(init[j]))
         + (if IsHeaderLine(line) then {HeaderName(line)} else {})
  {
    var init := lines[..|lines| - 1];
    var last := |lines| - 1;
    var before := set j | 0 <= j < |init| && IsHeaderLine(init[j]) :: HeaderName(init[j]);
    var all := set j | 0 <= j < |lines| && IsHeaderLine(lines[j]) :: HeaderName(lines[j]);
    assert before == set j | 0 <= j < last && IsHeaderLine(lines[j]) :: HeaderName(lines[j]);
    if IsHeaderLine(lines[last]) {
      assert all == before + {HeaderName(lines[last])};
    } else {
      assert all == before;
    }
  }

  /** The lines that are not header lines, in order. */
  function BodyLines(lines: seq<string>): (r: seq<string>)
    ensures forall i :: 0 <= i < |r| ==> !IsHeaderLine(r[i])
  {
    if lines == [] then []
    else
      var line := lines[|lines| - 1];
      BodyLines(lines[..|lines| - 1]) + (if IsHeaderLine(line) then [] else [line])
  }

  /** The header lines, in order. */
  function HeaderLinesOf(lines: seq<string>): (r: seq<string>)
    ensures forall i :: 0 <= i < |r| ==> IsHeaderLine(r[i])
  {
    if lines == [] then []
    else
      var line := lines[|lines| - 1];
      HeaderLinesOf(lines[..|lines| - 1]) + (if IsHeaderLine(line) then [line] else [])
  }

  /** The content is line + CRLF over exactly the non-header lines, in order. */
  lemma {:induction false} ContentIsBodyLines(lines: seq<string>)
    ensures ContentOf(lines) == Terminated(BodyLines(lines))
  {
    if lines != [] {
      var init, line := lines[..|lines| - 1], lines[|lines| - 1];
      ContentIsBodyLines(init);
      if !IsHeaderLine(line) {
        var b := BodyLines(init) + [line];
        assert b[..|b| - 1] == BodyLines(init);
      } else {
        assert BodyLines(lines) == BodyLines(init);
      }
    }
  }

  /**
    Header lines and body lines partition the lines: together they are all of
    them, header lines add nothing to the content and body lines nothing to
    the header map.
   */
  lemma LinesPartition(lines: seq<string>)
    ensures multiset(HeaderLinesOf(lines)) + multiset(BodyLines(lines)) == multiset(lines)
    ensures HeadersOf(lines) == HeadersOf(HeaderLinesOf(lines))
    ensures ContentOf(lines) == ContentOf(BodyLines(lines))
    ensures ContentOf(HeaderLinesOf(lines)) == ""
    ensures HeadersOf(BodyLines(lines)) == map[]
  {
    PartitionMultiset(lines);
    HeadersFromHeaderLinesOnly(lines);
    assert ContentOf(lines) == ContentOf(BodyLines(lines)) by {
      ContentIsBodyLines(lines);
      ContentOfBodyLines(BodyLines(lines));
    }
    ContentOfHeaderLines(HeaderLinesOf(lines));
    assert HeadersOf(BodyLines(lines)) == map[] by {
      HeadersIgnoreBodyLines([], BodyLines(lines));
      assert [] + BodyLines(lines) == BodyLines(lines);
    }
  }

  lemma {:induction false} PartitionMultiset(lines: seq<string>)
    ensures multiset(HeaderLinesOf(lines)) + multiset(BodyLines(lines)) == multiset(lines)
  {
    if lines != [] {
      var init, line := lines[..|lines| - 1], lines[|lines| - 1];
      PartitionMultiset(init);
      assert lines == init + [line];
      SortLine(init, line);
      SortOneMore(HeaderLinesOf(init), BodyLines(init), init, line, IsHeaderLine(line),
        HeaderLinesOf(init + [line]), BodyLines(init + [line]));
    }
  }

  /** One more line goes on the header pile or on the body pile. */
  lemma SortLine(read: seq<string>, line: string)
    ensures HeaderLinesOf(read + [line]) == HeaderLinesOf(read) + (if IsHeaderLine(line) then [line] else [])
    ensures BodyLines(read + [line]) == BodyLines(read) + (if IsHeaderLine(line) then [] else [line])
  {
    assert (read + [line])[..|read|] == read;
  }

  /** Putting one more line on one of two piles keeps the piles together equal to all lines. */
  lemma SortOneMore(headerLines: seq<string>, bodyLines: seq<string>, read: seq<string>, line: string,
                    header: bool, headerLines': seq<string>, bodyLines': seq<string>)
    requires multiset(headerLines) + multiset(bodyLines) == multiset(read)
    requires headerLines' == headerLines + (if header then [line] else [])
    requires bodyLines' == bodyLines + (if header then [] else [line])
    ensures multiset(headerLines') + multiset(bodyLines') == multiset(read + [line])
  {
  }

  lemma {:induction false} HeadersFromHeaderLinesOnly(lines: seq<string>)
    ensures HeadersOf(lines) == HeadersOf(HeaderLinesOf(lines))
  {
    if lines != [] {
      var init, line := lines[..|lines| - 1], lines[|lines| - 1];
      HeadersFromHeaderLinesOnly(init);
      var h := HeaderLinesOf(init);
      if IsHeaderLine(line) {
        assert (h + [line])[..|h|] == h;
      } else {
        assert HeaderLinesOf(lines) == h;
      }
    }
  }

  /** With nothing after the request line there are no headers and the content is empty. */
  lemma NothingAfterRequestLine(line: string)
    requires ParseRequest([line]).Parsed?
    ensures ParseRequest([line]).request.headers == map[]
    ensures ParseRequest([line]).request.content == ""
  {
    assert [line][1..] == [];
  }

  /**
    A request line, one header, the blank separator line and one line of body:
    the header is stored, and the content holds the blank line too.
   */
  lemma HeaderBlankLineBody(requestType: string, path: string, httpVersion: string,
                            name: string, value: string, text: string)
    requires requestType != "" && httpVersion != ""
    requires ' ' !in requestType && ' ' !in path && ' ' !in httpVersion
    requires !IsWhitespace(requestType[0]) && !IsWhitespace(httpVersion[|httpVersion| - 1])
    requires IsHeaderName(name) && HasNoLineTerminator(value)
    requires !IsHeaderLine(text)
    ensures ParseRequest([requestType + " " + path + " " + httpVersion, HeaderLine(name, value), "", text])
         == Parsed(Request(requestType, path, httpVersion, map[name := value], CRLF + text + CRLF))
  {
    var header := HeaderLine(name, value);
    var rest := [header, "", text];
    assert [requestType + " " + path + " " + httpVersion, header, "", text]
        == [requestType + " " + path + " " + httpVersion] + rest;
    RequestLineRoundTrip(requestType, path, httpVersion, rest);
    HeaderThenBody(name, value, text);
  }

  /** A header line, the blank line and a body line: one header, and a content of CRLF, the body line and CRLF. */
  lemma HeaderThenBody(name: string, value: string, text: string)
    requires IsHeaderName(name) && HasNoLineTerminator(value)
    requires !IsHeaderLine(text)
    ensures HeadersOf([HeaderLine(name, value), "", text]) == map[name := value]
    ensures ContentOf([HeaderLine(name, value), "", text]) == CRLF + text + CRLF
  {
    var header := HeaderLine(name, value);
    var none: seq<string> := [];
    var afterHeader := none + [header];
    var afterBlank := afterHeader + [""];
    var lines := afterBlank + [text];
    HeaderLineRoundTrip(name, value);
    assert !IsHeaderLine("");
    ReadOneLine(none, header);
    ReadOneLine(afterHeader, "");
    ReadOneLine(afterBlank, text);
    assert lines == [header, "", text];
  }

  // ---------------------------------------------------------------------------
  // Parsing what Request.toString() writes
  // ---------------------------------------------------------------------------

  lemma {:induction false} HeadersIgnoreBodyLines(a: seq<string>, b: seq<string>)
    requires forall i :: 0 <= i < |b| ==> !IsHeaderLine(b[i])
    ensures HeadersOf(a + b) == HeadersOf(a)
    decreases |b|
  {
    if b != [] {
      var b' := b[..|b| - 1];
      HeadersIgnoreBodyLines(a, b');
      assert (a + b)[..|a + b| - 1] == a + b';
    } else {
      assert a + b == a;
    }
  }

  lemma {:induction false} ContentAppend(a: seq<string>, b: seq<string>)
    ensures ContentOf(a + b) == ContentOf(a) + ContentOf(b)
    decreases |b|
  {
    if b != [] {
      var b' := b[..|b| - 1];
      ContentAppend(a, b');
      assert (a + b)[..|a + b| - 1] == a + b';
    } else {
      assert a + b == a;
    }
  }

  lemma {:induction false} ContentOfHeaderLines(lines: seq<string>)
    requires forall i :: 0 <= i < |lines| ==> IsHeaderLine(lines[i])
    ensures ContentOf(lines) == ""
  {
    if lines != [] {
      ContentOfHeaderLines(lines[..|lines| - 1]);
    }
  }

  lemma {:induction false} ContentOfBodyLines(lines: seq<string>)
    requires forall i :: 0 <= i < |lines| ==> !IsHeaderLine(lines[i])
    ensures ContentOf(lines) == Terminated(lines)
  {
    if lines != [] {
      ContentOfBodyLines(lines[..|lines| - 1]);
    }
  }

  /** Reading back the header lines toString() writes gives the header map restricted to the names written. */
  lemma {:induction false} HeadersOfHeaderLines(headers: map<string, string>, order: seq<string>)
    requires forall name :: name in order ==> name in headers
    requires forall name :: name in order ==> IsHeaderName(name) && HasNoLineTerminator(headers[name])
    ensures HeadersOf(HeaderLines(headers, order)) == map name | name in order :: headers[name]
  {
    if order != [] {
      var init, name := order[..|order| - 1], order[|order| - 1];
      var line := HeaderLine(name, headers[name]);
      HeadersOfHeaderLines(headers, init);
      assert HeaderLines(headers, order) == HeaderLines(headers, init) + [line] by {
        HeaderLinesStep(headers, order, |order| - 1);
        assert order[..|order|] == order;
      }
      assert HeadersOf(HeaderLines(headers, init) + [line])
          == HeadersOf(HeaderLines(headers, init))[name := headers[name]] by {
        HeaderLineRoundTrip(name, headers[name]);
        ReadOneLine(HeaderLines(headers, init), line);
      }
      RestrictStep(headers, order);
    }
  }

  /** The map restricted to one more name is the smaller restriction updated with that name. */
  lemma RestrictStep(headers: map<string, string>, order: seq<string>)
    requires order != []
    requires forall name :: name in order ==> name in headers
    ensures var init, name := order[..|order| - 1], order[|order| - 1];
      (map x | x in order :: headers[x]) == (map x | x in init :: headers[x])[name := headers[name]]
  {
    var init, name := order[..|order| - 1], order[|order| - 1];
    assert forall x :: x in order <==> x in init || x == name by {
      assert order == init + [name];
    }
  }

  /**
    Request.toString() followed by parse: the text is the request line, the
    header lines and a blank line, each ended by CRLF, then the content. When
    no field and no body line holds CR or LF, so that these are the lines
    readLine() yields from the text, and the content is itself CRLF-ended
    lines that do not look like headers, the parser gives back type, path,
    version and every header, but the blank line lands in the content, so the
    content comes back with CRLF in front.
   */
  lemma ReparseRendered(request: Request, order: seq<string>, body: seq<string>)
    requires IsKeyOrder(request.headers, order)
    requires request.requestType != "" && request.httpVersion != ""
    requires ' ' !in request.requestType && ' ' !in request.path && ' ' !in request.httpVersion
    requires !IsWhitespace(request.requestType[0])
    requires !IsWhitespace(request.httpVersion[|request.httpVersion| - 1])
    requires forall name :: name in request.headers ==> IsHeaderName(name) && HasNoLineTerminator(request.headers[name])
    requires '\r' !in request.RequestLine() && '\n' !in request.RequestLine()
    requires forall i :: 0 <= i < |body| ==> '\r' !in body[i] && '\n' !in body[i]
    requires forall i :: 0 <= i < |body| ==> !IsHeaderLine(body[i])
    requires request.content == Terminated(body)
    ensures var lines := [request.RequestLine()] + HeaderLines(request.headers, order) + [""] + body;
      && Rendered(request, order) == Terminated(lines)
      && ParseRequest(lines) == Parsed(request.(content := "\r\n" + request.content))
  {
    var lines := [request.RequestLine()] + HeaderLines(request.headers, order) + [""] + body;
    assert Rendered(request, order) == Terminated(lines) by {
      TerminatedAppend([request.RequestLine()] + HeaderLines(request.headers, order) + [""], body);
    }
    ReparsedLines(request, order, body);
  }

  lemma ReparsedLines(request: Request, order: seq<string>, body: seq<string>)
    requires IsKeyOrder(request.headers, order)
    requires request.requestType != "" && request.httpVersion != ""
    requires ' ' !in request.requestType && ' ' !in request.path && ' ' !in request.httpVersion
    requires !IsWhitespace(request.requestType[0])
    requires !IsWhitespace(request.httpVersion[|request.httpVersion| - 1])
    requires forall name :: name in request.headers ==> IsHeaderName(name) && HasNoLineTerminator(request.headers[name])
    requires '\r' !in request.RequestLine() && '\n' !in request.RequestLine()
    requires forall i :: 0 <= i < |body| ==> '\r' !in body[i] && '\n' !in body[i]
    requires forall i :: 0 <= i < |body| ==> !IsHeaderLine(body[i])
    requires request.content == Terminated(body)
    ensures ParseRequest([request.RequestLine()] + HeaderLines(request.headers, order) + [""] + body)
         == Parsed(request.(content := "\r\n" + request.content))
  {
    var hl := HeaderLines(request.headers, order);
    var tail := [""] + body;
    var lines := [request.RequestLine()] + hl + [""] + body;
    assert lines == [request.RequestLine()] + (hl + tail) by {
      RegroupLines(request.RequestLine(), hl, body);
    }
    assert ParseRequest(lines) == Parsed(Request(request.requestType, request.path, request.httpVersion,
                                                 HeadersOf(hl + tail), ContentOf(hl + tail))) by {
      RequestLineRoundTrip(request.requestType, request.path, request.httpVersion, hl + tail);
    }
    assert HeadersOf(hl + tail) == request.headers by {
      ReparsedHeaders(request.headers, order, body);
    }
    assert ContentOf(hl + tail) == "\r\n" + request.content by {
      ReparsedContent(request.headers, order, body);
    }
  }

  lemma RegroupLines(first: string, middle: seq<string>, body: seq<string>)
    ensures [first] + middle + [""] + body == [first] + (middle + ([""] + body))
  {
  }

  lemma ReparsedHeaders(headers: map<string, string>, order: seq<string>, body: seq<string>)
    requires IsKeyOrder(headers, order)
    requires forall name :: name in headers ==> IsHeaderName(name) && HasNoLineTerminator(headers[name])
    requires forall i :: 0 <= i < |body| ==> !IsHeaderLine(body[i])
    ensures HeadersOf(HeaderLines(headers, order) + ([""] + body)) == headers
  {
    var hl, tail := HeaderLines(headers, order), [""] + body;
    assert HeadersOf(hl + tail) == HeadersOf(hl) by {
      BlankLineIsNoHeader(body);
      HeadersIgnoreBodyLines(hl, tail);
    }
    assert HeadersOf(hl) == map name | name in order :: headers[name] by {
      HeadersOfHeaderLines(headers, order);
    }
    KeyOrderCoversMap(headers, order);
  }

  lemma ReparsedContent(headers: map<string, string>, order: seq<string>, body: seq<string>)
    requires forall name :: name in order ==> name in headers
    requires forall name :: name in order ==> IsHeaderName(name) && HasNoLineTerminator(headers[name])
    requires forall i :: 0 <= i < |body| ==> !IsHeaderLine(body[i])
    ensures ContentOf(HeaderLines(headers, order) + ([""] + body)) == CRLF + Terminated(body)
  {
    var hl := HeaderLines(headers, order);
    HeaderLinesAreHeaderLines(headers, order);
    ContentOfHeaderLines(hl);
    BlankLineThenBody(body);
    ContentAppend(hl, [""] + body);
  }

  lemma HeaderLinesAreHeaderLines(headers: map<string, string>, order: seq<string>)
    requires forall name :: name in order ==> name in headers
    requires forall name :: name in order ==> IsHeaderName(name) && HasNoLineTerminator(headers[name])
    ensures forall i :: 0 <= i < |order| ==> IsHeaderLine(HeaderLines(headers, order)[i])
  {
    forall i | 0 <= i < |order| ensures IsHeaderLine(HeaderLines(headers, order)[i]) {
      HeaderLineRoundTrip(order[i], headers[order[i]]);
    }
  }

  /** The blank line is no header line, so neither it nor the body lines after it are. */
  lemma BlankLineIsNoHeader(body: seq<string>)
    requires forall i :: 0 <= i < |body| ==> !IsHeaderLine(body[i])
    ensures forall i :: 0 <= i < |[""] + body| ==> !IsHeaderLine(([""] + body)[i])
  {
    assert !IsHeaderLine("");
    forall i | 0 <= i < |[""] + body| ensures !IsHeaderLine(([""] + body)[i]) {
      if i > 0 {
        assert ([""] + body)[i] == body[i - 1];
      }
    }
  }

  /** The blank line after the headers goes into the content as CRLF, before the body lines. */
  lemma BlankLineThenBody(body: seq<string>)
    requires forall i :: 0 <= i < |body| ==> !IsHeaderLine(body[i])
    ensures ContentOf([""] + body) == CRLF + Terminated(body)
  {
    var t := [""] + body;
    assert ContentOf(t) == Terminated(t) by {
      BlankLineIsNoHeader(body);
      ContentOfBodyLines(t);
    }
    assert Terminated(t) == Terminated([""]) + Terminated(body) by {
      TerminatedAppend([""], body);
    }
    assert Terminated([""]) == CRLF by {
      assert [""][..0] == [];
    }
  }
}
