/** Reading a built request back, as a server would: BuildRequest of src/http/http.cpp writes what was asked for. */
module HttpReadBack {
  import opened Core
  import opened Decimal
  import opened HttpInversion
  import opened HttpRequest
  import opened HttpResponse
  import opened HttpText

  /** The method a word names. */
  function ReadMethod(word: string): Option<Method> {
    if word == "GET" then Some(Get)
    else if word == "POST" then Some(Post)
    else if word == "PUT" then Some(Put)
    else if word == "DELETE" then Some(Delete)
    else if word == "HEAD" then Some(Head)
    else None
  }

  lemma MethodReadsBack(m: Method)
    ensures ReadMethod(MethodName(m)) == Some(m) && ' ' !in MethodName(m)
  {
  }

  /** Section 3 of RFC 9112: method, target and version, each behind a single space. */
  function ReadRequestLine(line: string): Option<(Method, string)> {
    match Find(line, " ", 0)
    case None => None
    case Some(i) =>
      AtBound(line, i, " ");
      var rest := line[i + 1..];
      var n := |rest| - |" HTTP/1.1"|;
      if ReadMethod(line[..i]).None? || n < 0 || rest[n..] != " HTTP/1.1" then None
      else Some((ReadMethod(line[..i]).value, rest[..n]))
  }

  lemma RequestLineReadsBack(m: Method, path: string)
    ensures ReadRequestLine(MethodName(m) + " " + path + " HTTP/1.1") == Some((m, path))
  {
    hide Find;
    var line, rest := MethodName(m) + " " + path + " HTTP/1.1", path + " HTTP/1.1";
    MethodReadsBack(m);
    assert line == MethodName(m) + " " + rest;
    FindChar(MethodName(m), ' ', rest);
    hide MethodName, ReadMethod;
    assert line[..|MethodName(m)|] == MethodName(m) && line[|MethodName(m)| + 1..] == rest;
    assert rest[|path|..] == " HTTP/1.1" && rest[..|path|] == path;
  }

  predicate CleanHeaders(hs: seq<Header>) {
    forall i :: 0 <= i < |hs| ==> Clean(hs[i].name) && ':' !in hs[i].name && Clean(hs[i].value)
  }

  lemma HeaderReadsBack(name: string, value: string)
    requires Clean(name) && ':' !in name && Clean(value)
    ensures HeaderOf(name + ": " + value) == Some(Header(name, value))
  {
    hide Clean;
    var f := Field(Header(name, value), " ", "");
    assert FieldLine(f) == name + ": " + value;
    FieldLineReads(f);
  }

  /** What a line with a colon says, for lines that all have one. */
  function ReadHeaders(lines: seq<string>): Option<seq<Header>> {
    if lines == [] then Some([])
    else if HeaderOf(lines[0]).None? || ReadHeaders(lines[1..]).None? then None
    else Some([HeaderOf(lines[0]).value] + ReadHeaders(lines[1..]).value)
  }

  lemma {:induction false} HeadersReadBack(hs: seq<Header>)
    requires CleanHeaders(hs)
    ensures ReadHeaders(HeaderLines(hs)) == Some(hs)
    decreases |hs|
  {
    hide HeaderOf, Clean;
    if hs != [] {
      HeaderReadsBack(hs[0].name, hs[0].value);
      HeadersReadBack(hs[1..]);
      assert hs == [hs[0]] + hs[1..];
    }
  }

  lemma {:induction false} ReadHeadersJoin(a: seq<string>, b: seq<string>)
    requires ReadHeaders(a).Some? && ReadHeaders(b).Some?
    ensures ReadHeaders(a + b) == Some(ReadHeaders(a).value + ReadHeaders(b).value)
    decreases |a|
  {
    hide HeaderOf;
    if a == [] {
      assert a + b == b && [] + ReadHeaders(b).value == ReadHeaders(b).value;
    } else {
      assert (a + b)[1..] == a[1..] + b && (a + b)[0] == a[0];
      ReadHeadersJoin(a[1..], b);
      var first := [HeaderOf(a[0]).value];
      assert first + ReadHeaders(a[1..]).value + ReadHeaders(b).value
          == first + (ReadHeaders(a[1..]).value + ReadHeaders(b).value);
    }
  }

  lemma OneHeaderReadsBack(name: string, value: string)
    requires Clean(name) && ':' !in name && Clean(value)
    ensures ReadHeaders([name + ": " + value]) == Some([Header(name, value)])
  {
    hide HeaderOf, Clean;
    HeaderReadsBack(name, value);
    assert [name + ": " + value][1..] == [];
    assert [Header(name, value)] + [] == [Header(name, value)];
  }

  lemma FixedFieldsAreClean(n: nat)
    ensures Clean("Host") && Clean("Connection") && Clean("close") && Clean("Content-Length") && Clean(Digits(n))
  {
    hide CrlfFree, Digits;
    NoReturnIsCrlfFree("Host");
    NoReturnIsCrlfFree("Connection");
    NoReturnIsCrlfFree("close");
    NoReturnIsCrlfFree("Content-Length");
    var d := Digits(n);
    assert IsDigit(d[0]) && IsDigit(d[|d| - 1]);
    NoReturnIsCrlfFree(d);
  }

  /** The lines behind the request line. */
  lemma FieldsReadBack(r: Request)
    requires Clean(r.host) && CleanHeaders(r.headers)
    ensures ReadHeaders(HeadLines(r)[1..]) ==
            Some([Header("Host", r.host), Header("Connection", "close")] + r.headers
                 + if r.body == "" then [] else [Header("Content-Length", Digits(|r.body|))])
  {
    hide Clean, HeaderOf, Digits, ReadHeaders, HeaderLines;
    var host, close := "Host" + ": " + r.host, "Connection" + ": " + "close";
    var length := "Content-Length" + ": " + Digits(|r.body|);
    FixedFieldsAreClean(|r.body|);
    OneHeaderReadsBack("Host", r.host);
    OneHeaderReadsBack("Connection", "close");
    OneHeaderReadsBack("Content-Length", Digits(|r.body|));
    HeadersReadBack(r.headers);
    ReadHeadersJoin([host], [close]);
    ReadHeadersJoin([host] + [close], HeaderLines(r.headers));
    ReadHeadersJoin([host] + [close] + HeaderLines(r.headers), [length]);
    LinesBehindFirst(r);
    assert [Header("Host", r.host)] + [Header("Connection", "close")]
        == [Header("Host", r.host), Header("Connection", "close")];
    var fields := [Header("Host", r.host), Header("Connection", "close")] + r.headers;
    assert fields + [] == fields;
    assert [host] + [close] + HeaderLines(r.headers) + [] == [host] + [close] + HeaderLines(r.headers);
  }

  lemma LinesBehindFirst(r: Request)
    ensures var host, close := "Host" + ": " + r.host, "Connection" + ": " + "close";
            var length := "Content-Length" + ": " + Digits(|r.body|);
            HeadLines(r)[1..] == [host] + [close] + HeaderLines(r.headers) + if r.body == "" then [] else [length]
  {
    hide Digits, HeaderLines, MethodName;
    assert "Host" + ": " == "Host: " && "Connection" + ": " + "close" == "Connection: close";
    assert "Content-Length" + ": " == "Content-Length: ";
  }

  /**
   A request whose fields hold no line end reads back: method and path from the first line, Host and Connection and
   then every header in order, with the length of the body last if there is one, and the body behind the blank line.
   */
  lemma RequestReadsBack(r: Request)
    requires HttpRequest.CleanFields(r) && Clean(r.host) && CleanHeaders(r.headers)
    ensures var head := JoinLines(HeadLines(r));
            && Rendered(r) == head + "\r\n" + r.body && LinesOf(head) == HeadLines(r)
            && Find(Rendered(r), "\r\n\r\n", 0) == Some(|head| - 2)
            && ReadRequestLine(LinesOf(head)[0]) == Some((r.verb, r.path))
            && ReadHeaders(LinesOf(head)[1..]) ==
               Some([Header("Host", r.host), Header("Connection", "close")] + r.headers
                    + if r.body == "" then [] else [Header("Content-Length", Digits(|r.body|))])
  {
    hide Clean, CleanHeaders, Digits, ReadHeaders, ReadRequestLine, JoinLines, LinesOf, Find, CrlfFree;
    FirstBlankLineEndsHead(r);
    HeadLinesAreClean(r);
    LinesOfJoin(HeadLines(r));
    FieldsReadBack(r);
    RequestLineReadsBack(r.verb, r.path);
  }
}
