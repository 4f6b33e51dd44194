/**
  Request.java: one parsed HTTP request and the text its toString() builds.

  The Java class has private fields set once by its constructor, a getter per
  field and no setter, so it is a datatype here: the constructor is the
  datatype constructor and the getters are its destructors (getType() is
  requestType, getHTTPVersion() is httpVersion, getHeaders() is headers,
  getContent() is content).
 */
module Requests {
  import opened Text

  datatype Request = Request(
    requestType: string,
    path: string,
    httpVersion: string,
    headers: map<string, string>,
    content: string)
  {
    /** The request line, without its CRLF: type, path and version separated by single spaces. */
    function RequestLine(): string
    {
      requestType + " " + path + " " + httpVersion
    }
  }

  /** One header as toString() writes it, without its CRLF. */
  function HeaderLine(name: string, value: string): string
  {
    name + ": " + value
  }

  /**
    The iteration order of the header map: every name exactly once. The Java
    HashMap chooses it; the model takes it as a parameter.
   */
  predicate IsKeyOrder(headers: map<string, string>, order: seq<string>)
  {
    (forall i, j :: 0 <= i < j < |order| ==> order[i] != order[j])
    && (forall name :: name in headers ==> name in order)
    && (forall i :: 0 <= i < |order| ==> order[i] in headers)
  }

  /** A key order names every key of the map and nothing else. */
  lemma KeyOrderCoversMap(headers: map<string, string>, order: seq<string>)
    requires IsKeyOrder(headers, order)
    ensures (map name | name in order :: headers[name]) == headers
  {
    var m := map name | name in order :: headers[name];
    assert m.Keys == headers.Keys;
  }

  /** The header lines in the given order. */
  function HeaderLines(headers: map<string, string>, order: seq<string>): (r: seq<string>)
    requires forall name :: name in order ==> name in headers
  {
    seq(|order|, i requires 0 <= i < |order| => HeaderLine(order[i], headers[order[i]]))
  }

  /** The text toString() returns when the header map is iterated in the given order. */
  function Rendered(request: Request, order: seq<string>): string
    requires IsKeyOrder(request.headers, order)
  {
    Terminated([request.RequestLine()] + HeaderLines(request.headers, order) + [""]) + request.content
  }

  /** Request.toString(): appends the request line, one line per header, a blank line and the content. */
  method ToString(request: Request, order: seq<string>) returns (text: string)
    requires IsKeyOrder(request.headers, order)
    ensures text == Rendered(request, order)
  {
    text := request.requestType + " " + request.path + " " + request.httpVersion + "\r\n";
    var i := 0;
    RequestLineOnly(request.RequestLine(), HeaderLines(request.headers, order[..0]));
    while i < |order|
      invariant i <= |order|
      invariant text == Terminated([request.RequestLine()] + HeaderLines(request.headers, order[..i]))
    {
      var name := order[i];
      AppendHeaderLine(request, order, i, text);
      text := text + name + ": " + request.headers[name] + "\r\n";
      i := i + 1;
    }
    assert order[..i] == order;
    RenderedAfterHeaders(request, order);
    text := text + "\r\n" + request.content;
  }

  /** Before the loop the text is the request line and its CRLF. */
  lemma RequestLineOnly(line: string, headerLines: seq<string>)
    requires headerLines == []
    ensures Terminated([line] + headerLines) == line + CRLF
  {
    assert [line] + headerLines == [] + [line];
    TerminatedStep([], line);
  }

  /** After the loop a CRLF and the content complete the text. */
  lemma RenderedAfterHeaders(request: Request, order: seq<string>)
    requires IsKeyOrder(request.headers, order)
    ensures Rendered(request, order)
         == Terminated([request.RequestLine()] + HeaderLines(request.headers, order)) + "\r\n" + request.content
  {
    TerminatedStep([request.RequestLine()] + HeaderLines(request.headers, order), "");
  }

  /** One more pass of the loop in toString(): the text gains the next header line and its CRLF. */
  lemma AppendHeaderLine(request: Request, order: seq<string>, i: nat, text: string)
    requires IsKeyOrder(request.headers, order)
    requires i < |order|
    requires text == Terminated([request.RequestLine()] + HeaderLines(request.headers, order[..i]))
    ensures text + order[i] + ": " + request.headers[order[i]] + "\r\n"
         == Terminated([request.RequestLine()] + HeaderLines(request.headers, order[..i + 1]))
  {
    var h := request.headers;
    var line := HeaderLine(order[i], h[order[i]]);
    var done := [request.RequestLine()] + HeaderLines(h, order[..i]);
    assert done + [line] == [request.RequestLine()] + HeaderLines(h, order[..i + 1]) by {
      HeaderLinesStep(h, order, i);
    }
    TerminatedStep(done, line);
  }

  lemma HeaderLinesStep(headers: map<string, string>, order: seq<string>, i: nat)
    requires forall name :: name in order ==> name in headers
    requires i < |order|
    ensures HeaderLines(headers, order[..i + 1])
         == HeaderLines(headers, order[..i]) + [HeaderLine(order[i], headers[order[i]])]
  {
    var a, b := HeaderLines(headers, order[..i + 1]), HeaderLines(headers, order[..i]) + [HeaderLine(order[i], headers[order[i]])];
    assert |a| == |b|;
    forall k | 0 <= k < |a| ensures a[k] == b[k] {
      if k < i {
        assert order[..i + 1][k] == order[..i][k];
      }
    }
  }

  // ---------------------------------------------------------------------------
  // What the rendered text looks like
  // ---------------------------------------------------------------------------

  /** The four parts of the text: request line and CRLF, the header block, a CRLF, the content. */
  lemma RenderedLayout(request: Request, order: seq<string>)
    requires IsKeyOrder(request.headers, order)
    ensures Rendered(request, order)
         == request.RequestLine() + CRLF + Terminated(HeaderLines(request.headers, order)) + CRLF + request.content
  {
    var hl := HeaderLines(request.headers, order);
    TerminatedAppend([request.RequestLine()] + hl, [""]);
    TerminatedAppend([request.RequestLine()], hl);
    assert Terminated([request.RequestLine()]) == request.RequestLine() + CRLF by {
      assert [request.RequestLine()][..0] == [];
    }
    assert Terminated([""]) == CRLF by {
      assert [""][..0] == [];
    }
  }

  /** The text begins with type + " " + path + " " + version + CRLF and ends with CRLF and then the content verbatim. */
  lemma RenderedFrame(request: Request, order: seq<string>)
    requires IsKeyOrder(request.headers, order)
    ensures var text := Rendered(request, order);
      && request.requestType + " " + request.path + " " + request.httpVersion + "\r\n" <= text
      && |text| >= |request.content| + 2
      && text[|text| - |request.content| - 2..] == "\r\n" + request.content
  {
    RenderedLayout(request, order);
  }

  /** With no headers the text is the request line, CRLF, CRLF and the content. */
  lemma RenderedWithoutHeaders(request: Request, order: seq<string>)
    requires request.headers == map[]
    requires IsKeyOrder(request.headers, order)
    ensures order == []
    ensures Rendered(request, order) == request.RequestLine() + "\r\n" + "\r\n" + request.content
  {
    RenderedLayout(request, order);
  }

  /**
    The header with name order[i] contributes exactly name + ": " + value + CRLF,
    right after the request line and the headers before it in the order.
   */
  lemma RenderedHeaderAt(request: Request, order: seq<string>, i: nat)
    requires IsKeyOrder(request.headers, order)
    requires i < |order|
    ensures var at := |request.RequestLine()| + 2 + |Terminated(HeaderLines(request.headers, order[..i]))|;
      var entry := order[i] + ": " + request.headers[order[i]] + "\r\n";
      && at + |entry| <= |Rendered(request, order)|
      && Rendered(request, order)[at..at + |entry|] == entry
  {
    var h := request.headers;
    var entry := order[i] + ": " + h[order[i]] + "\r\n";
    var pre := request.RequestLine() + CRLF + Terminated(HeaderLines(h, order[..i]));
    var post := Terminated(HeaderLines(h, order[i + 1..])) + CRLF + request.content;
    var text := Rendered(request, order);
    assert text == pre + entry + post by {
      RenderedLayout(request, order);
      HeaderBlockSplit(h, order, i);
      Regroup(request.RequestLine(), Terminated(HeaderLines(h, order[..i])), entry,
        Terminated(HeaderLines(h, order[i + 1..])), request.content);
    }
    MiddleSlice(text, pre, entry, post);
  }

  lemma Regroup(line: string, before: string, entry: string, after: string, content: string)
    ensures line + CRLF + (before + entry + after) + CRLF + content
         == (line + CRLF + before) + entry + (after + CRLF + content)
  {
  }

  lemma MiddleSlice(text: string, pre: string, entry: string, post: string)
    requires text == pre + entry + post
    ensures |pre| + |entry| <= |text| && text[|pre|..|pre| + |entry|] == entry
  {
  }

  lemma HeaderBlockSplit(headers: map<string, string>, order: seq<string>, i: nat)
    requires forall name :: name in order ==> name in headers
    requires i < |order|
    ensures Terminated(HeaderLines(headers, order))
         == Terminated(HeaderLines(headers, order[..i]))
          + (order[i] + ": " + headers[order[i]] + "\r\n")
          + Terminated(HeaderLines(headers, order[i + 1..]))
  {
    var line := HeaderLine(order[i], headers[order[i]]);
    var before, after := HeaderLines(headers, order[..i]), HeaderLines(headers, order[i + 1..]);
    assert HeaderLines(headers, order) == before + [line] + after;
    TerminatedAppend(before + [line], after);
    TerminatedAppend(before, [line]);
    assert [line][..0] == [];
  }

  // ---------------------------------------------------------------------------
  // Length of the rendered text
  // ---------------------------------------------------------------------------

  /** The characters one header adds: name, ": ", value and CRLF. */
  function EntryLength(name: string, value: string): nat
  {
    |name| + |value| + 4
  }

  /** The characters all headers add, taken in the given order. */
  function HeadersLength(headers: map<string, string>, order: seq<string>): nat
    requires forall name :: name in order ==> name in headers
  {
    if order == [] then 0
    else HeadersLength(headers, order[..|order| - 1]) + EntryLength(order[|order| - 1], headers[order[|order| - 1]])
  }

  lemma {:induction false} HeaderBlockLength(headers: map<string, string>, order: seq<string>)
    requires forall name :: name in order ==> name in headers
    ensures |Terminated(HeaderLines(headers, order))| == HeadersLength(headers, order)
  {
    if order != [] {
      var init := order[..|order| - 1];
      HeaderBlockLength(headers, init);
      assert HeaderLines(headers, order)[..|order| - 1] == HeaderLines(headers, init);
    }
  }

  /**
    The length of toString(): type, path and version plus 4 (two spaces and a
    CRLF), each header's name and value plus 4, and the content plus 2.
   */
  lemma RenderedLength(request: Request, order: seq<string>)
    requires IsKeyOrder(request.headers, order)
    ensures |Rendered(request, order)|
         == |request.requestType| + |request.path| + |request.httpVersion| + 4
          + HeadersLength(request.headers, order)
          + |request.content| + 2
  {
    RenderedLayout(request, order);
    HeaderBlockLength(request.headers, order);
  }

  lemma {:induction false} HeadersLengthAppend(headers: map<string, string>, a: seq<string>, b: seq<string>)
    requires forall name :: name in a + b ==> name in headers
    ensures HeadersLength(headers, a + b) == HeadersLength(headers, a) + HeadersLength(headers, b)
    decreases |b|
  {
    if b == [] {
      assert a + b == a;
    } else {
      var b' := b[..|b| - 1];
      HeadersLengthAppend(headers, a, b');
      assert (a + b)[..|a + b| - 1] == a + b';
    }
  }

  /** Two orders holding the same names the same number of times give the same total. */
  lemma {:induction false} HeadersLengthPermutation(headers: map<string, string>, o1: seq<string>, o2: seq<string>)
    requires forall name :: name in o1 ==> name in headers
    requires forall name :: name in o2 ==> name in headers
    requires multiset(o1) == multiset(o2)
    ensures HeadersLength(headers, o1) == HeadersLength(headers, o2)
    decreases |o1|
  {
    if o1 != [] {
      var init, k := o1[..|o1| - 1], o1[|o1| - 1];
      assert multiset(o1) == multiset(init) + multiset{k} by {
        assert o1 == init + [k];
      }
      assert k in multiset(o2);
      var j :| 0 <= j < |o2| && o2[j] == k;
      var rest := o2[..j] + o2[j + 1..];
      RemoveOne(o2, j);
      forall x ensures multiset(rest)[x] == multiset(init)[x] {
        assert (multiset(rest) + multiset{k})[x] == (multiset(init) + multiset{k})[x];
      }
      assert multiset(rest) == multiset(init);
      forall name | name in rest ensures name in headers {
        assert name in multiset(o2);
      }
      HeadersLengthPermutation(headers, init, rest);
      HeadersLengthRemoveOne(headers, o2, j);
    }
  }

  /** Taking out the name at position j leaves the others, each as often as before. */
  lemma RemoveOne(order: seq<string>, j: nat)
    requires j < |order|
    ensures multiset(order[..j] + order[j + 1..]) + multiset{order[j]} == multiset(order)
  {
    assert order == order[..j] + [order[j]] + order[j + 1..];
  }

  /** The total length is that of the other names plus the entry of the name at position j. */
  lemma HeadersLengthRemoveOne(headers: map<string, string>, order: seq<string>, j: nat)
    requires forall name :: name in order ==> name in headers
    requires j < |order|
    ensures HeadersLength(headers, order)
         == HeadersLength(headers, order[..j] + order[j + 1..]) + EntryLength(order[j], headers[order[j]])
  {
    var k := order[j];
    assert order == order[..j] + [k] + order[j + 1..];
    HeadersLengthAppend(headers, order[..j] + [k], order[j + 1..]);
    HeadersLengthAppend(headers, order[..j], [k]);
    HeadersLengthAppend(headers, order[..j], order[j + 1..]);
    assert [k][..0] == [];
  }

  lemma {:induction false} DistinctCounts(order: seq<string>)
    requires forall i, j :: 0 <= i < j < |order| ==> order[i] != order[j]
    ensures forall name :: multiset(order)[name] == if name in order then 1 else 0
  {
    if order != [] {
      var init, k := order[..|order| - 1], order[|order| - 1];
      assert order == init + [k];
      DistinctCounts(init);
      forall i | 0 <= i < |init| ensures init[i] != k {
        assert init[i] == order[i];
      }
    }
  }

  /** The length of toString() does not depend on the order in which the header map is iterated. */
  lemma LengthIndependentOfOrder(request: Request, o1: seq<string>, o2: seq<string>)
    requires IsKeyOrder(request.headers, o1) && IsKeyOrder(request.headers, o2)
    ensures |Rendered(request, o1)| == |Rendered(request, o2)|
  {
    DistinctCounts(o1);
    DistinctCounts(o2);
    assert multiset(o1) == multiset(o2);
    HeadersLengthPermutation(request.headers, o1, o2);
    RenderedLength(request, o1);
    RenderedLength(request, o2);
  }
}
