/** Building a request: the bounded appender and BuildRequest of src/http/http.cpp. */
module HttpRequest {
  import opened Core
  import opened Decimal
  import opened HttpText

  const SIZE_LIMIT: nat := 0x1_0000_0000_0000_0000

  datatype Code = BufferTooSmall | Malformed | Incomplete | TooManyHeaders | RecvFailed | SendFailed

  datatype Method = Get | Post | Put | Delete | Head

  datatype Header = Header(name: string, value: string)

  datatype Request = Request(verb: Method, host: string, path: string, headers: seq<Header>, body: string)

  function MethodName(m: Method): string {
    match m
    case Get => "GET"
    case Post => "POST"
    case Put => "PUT"
    case Delete => "DELETE"
    case Head => "HEAD"
  }

  // ---- The message, line by line ----

  function HeaderLines(hs: seq<Header>): seq<string> {
    if hs == [] then [] else [hs[0].name + ": " + hs[0].value] + HeaderLines(hs[1..])
  }

  function HeadLines(r: Request): seq<string> {
    [MethodName(r.verb) + " " + r.path + " HTTP/1.1", "Host: " + r.host, "Connection: close"]
    + HeaderLines(r.headers)
    + if r.body == "" then [] else ["Content-Length: " + Digits(|r.body|)]
  }

  /** Sections 2.1 and 3 to 6 of RFC 9112: lines, a blank line, the body. */
  function Rendered(r: Request): string {
    JoinLines(HeadLines(r)) + (CRLF + r.body)
  }

  /** The digits as they come out of the scratch buffer: the last one stored goes first. */
  function Unstacked(tmp: string): (r: string)
    ensures |r| == |tmp|
  {
    seq(|tmp|, i requires 0 <= i < |tmp| => tmp[|tmp| - 1 - i])
  }

  lemma StackedGoesFirst(tmp: string, c: char)
    ensures Unstacked(tmp + [c]) == [c] + Unstacked(tmp)
  {
  }

  lemma TwentyDigits(v: nat)
    requires v < SIZE_LIMIT
    ensures |Digits(v)| <= 20
  {
    assert Pow10(5) == 100000 by {
      assert Pow10(2) == 100 && Pow10(3) == 1000 && Pow10(4) == 10000;
    }
    assert Pow10(10) == 10000000000 by {
      assert Pow10(6) == 1000000 && Pow10(7) == 10000000 && Pow10(8) == 100000000 && Pow10(9) == 1000000000;
    }
    assert Pow10(15) == 1000000000000000 by {
      assert Pow10(11) == 100000000000 && Pow10(12) == 1000000000000 && Pow10(13) == 10000000000000;
      assert Pow10(14) == 100000000000000;
    }
    assert Pow10(20) == 100000000000000000000 by {
      assert Pow10(16) == 10000000000000000 && Pow10(17) == 100000000000000000;
      assert Pow10(18) == 1000000000000000000 && Pow10(19) == 10000000000000000000;
    }
    DigitCount(v, 20);
  }

  // ---- The appender ----

  class Appender {
    const buf: array<char>
    var pos: nat
    var overflow: bool
    /** Everything that was put, whether or not it fitted, and the buffer before that. */
    ghost var put: string
    ghost const before: string

    constructor (buf: array<char>)
      ensures Valid() && this.buf == buf && put == "" && before == buf[..]
    {
      this.buf, pos, overflow, put, before := buf, 0, false, "", buf[..];
    }

    /** What was put is at the front of the buffer; or it did not fit, and that is remembered. */
    ghost predicate Valid()
      reads this, buf
    {
      && pos <= buf.Length == |before|
      && (if overflow then |put| > buf.Length else buf[..pos] == put)
      && buf[pos..] == before[pos..]
    }

    method Put(s: string)
      requires Valid()
      modifies this, buf
      ensures Valid() && put == old(put) + s
    {
      put := put + s;
      if overflow {
        return;
      }
      if |s| > buf.Length - pos {
        overflow := true;
        return;
      }
      ghost var start := pos;
      for i := 0 to |s|
        invariant pos == start + i && buf[..pos] == old(put) + s[..i] && buf[pos..] == before[pos..]
        invariant put == old(put) + s && !overflow
      {
        buf[pos] := s[i];
        pos := pos + 1;
      }
    }

    /** Prints v in decimal through two scratch buffers of twenty characters. */
    method PutUInt(v: nat)
      requires Valid() && v < SIZE_LIMIT
      modifies this, buf
      ensures Valid() && put == old(put) + Digits(v)
    {
      var rev := Numeral(v);
      Put(rev);
    }

    static method Numeral(v: nat) returns (text: string)
      requires v < SIZE_LIMIT
      ensures text == Digits(v) && |text| <= 20
    {
      TwentyDigits(v);
      hide Digits, Unstacked;
      var tmp := new char[20];
      var i := LowDigitsFirst(v, tmp);
      text := Backwards(tmp, i);
    }

    static method Backwards(tmp: array<char>, n: nat) returns (text: string)
      requires n <= tmp.Length == 20
      ensures text == Unstacked(tmp[..n])
    {
      ghost var d := tmp[..n];
      var rev := new char[20];
      for j := 0 to n
        invariant rev[..j] == Unstacked(d)[..j]
        modifies rev
      {
        rev[j] := tmp[n - 1 - j];
      }
      return rev[..n];
    }

    static method LowDigitsFirst(v: nat, tmp: array<char>) returns (i: nat)
      requires tmp.Length == 20 >= |Digits(v)|
      modifies tmp
      ensures i <= 20 && Unstacked(tmp[..i]) == Digits(v)
    {
      hide Digits, Unstacked, DigitChar, Number, Higher;
      var left := v;
      i := 0;
      NothingStacked(v);
      if v == 0 {
        tmp[0] := '0';
        i := 1;
        assert tmp[..1] == "0";
      }
      while left > 0
        invariant i <= 20 && Digits(v) == Higher(left) + Unstacked(tmp[..i])
        decreases left
      {
        DigitMoves(v, left, Unstacked(tmp[..i]));
        StoreDigit(tmp, i, DigitChar(left % 10));
        i := i + 1;
        left := left / 10;
      }
    }

    static method StoreDigit(tmp: array<char>, i: nat, c: char)
      requires i < tmp.Length
      modifies tmp
      ensures Unstacked(tmp[..i + 1]) == [c] + Unstacked(old(tmp[..i]))
    {
      hide Unstacked;
      StackedGoesFirst(tmp[..i], c);
      ghost var d := tmp[..i];
      tmp[i] := c;
      assert tmp[..i + 1] == d + [c];
    }
  }

  /** The digits still to come. */
  function Higher(n: nat): string {
    if n > 0 then Digits(n) else ""
  }

  /** At the start all digits are to come, and the numeral of 0 needs one of its own. */
  lemma NothingStacked(v: nat)
    ensures if v == 0 then Digits(v) == Higher(0) + Unstacked("0") else Digits(v) == Higher(v) + Unstacked("")
    ensures Higher(0) == ""
  {
    assert Unstacked("") == "" && Unstacked("0") == "0";
  }

  /** The lowest digit to come moves in front of those that are stored. */
  lemma DigitMoves(v: nat, left: nat, stored: string)
    requires left > 0 && Digits(v) == Higher(left) + stored
    ensures Digits(v) == Higher(left / 10) + ([DigitChar(left % 10)] + stored) && |stored| < |Digits(v)|
  {
    hide DigitChar, Number;
    assert Higher(left) == Higher(left / 10) + [DigitChar(left % 10)];
  }

  lemma {:induction false} JoinLinesAppend(lines: seq<string>, line: string)
    ensures JoinLines(lines + [line]) == JoinLines(lines) + line + CRLF
    decreases |lines|
  {
    if lines == [] {
      assert (lines + [line])[1..] == [];
    } else {
      assert (lines + [line])[1..] == lines[1..] + [line];
      JoinLinesAppend(lines[1..], line);
    }
  }

  lemma {:induction false} HeaderLinesAppend(hs: seq<Header>, h: Header)
    ensures HeaderLines(hs + [h]) == HeaderLines(hs) + [h.name + ": " + h.value]
    decreases |hs|
  {
    if hs == [] {
      assert (hs + [h])[1..] == [];
    } else {
      assert (hs + [h])[1..] == hs[1..] + [h];
      HeaderLinesAppend(hs[1..], h);
    }
  }

  /** Succeeds exactly when the rendered request fits, and then out starts with it; the rest of out is untouched. */
  method BuildRequest(req: Request, out: array<char>) returns (r: Result<nat, Code>)
    requires |req.body| < SIZE_LIMIT
    modifies out
    ensures r == if |Rendered(req)| <= out.Length then Ok(|Rendered(req)|) else Err(BufferTooSmall)
    ensures r.Ok? ==> out[..] == Rendered(req) + old(out[r.value..])
  {
    hide HeadLines, JoinLines;
    var a := new Appender(out);
    PutHead(a, req);
    a.Put(CRLF);
    if req.body != "" {
      a.Put(req.body);
    }
    assert a.put == Rendered(req);
    if a.overflow {
      return Err(BufferTooSmall);
    }
    assert out[..] == out[..a.pos] + out[a.pos..];
    return Ok(a.pos);
  }

  /** Everything up to the blank line. */
  method PutHead(a: Appender, req: Request)
    requires a.Valid() && a.put == "" && |req.body| < SIZE_LIMIT
    modifies a, a.buf
    ensures a.Valid() && a.put == JoinLines(HeadLines(req))
  {
    hide JoinLines, Digits;
    ghost var first := [MethodName(req.verb) + " " + req.path + " HTTP/1.1"];
    PutRequestLine(a, req);
    PutField(a, "Host", req.host, first);
    a.Put("Connection: close\r\n");
    ghost var start := first + ["Host" + ": " + req.host] + ["Connection: close"];
    JoinLinesAppend(first + ["Host" + ": " + req.host], "Connection: close");
    PutHeaders(a, req.headers, start);
    if req.body != "" {
      PutLength(a, |req.body|, start + HeaderLines(req.headers));
    }
    HeadInParts(req);
  }

  lemma HeadInParts(r: Request)
    ensures var start := [MethodName(r.verb) + " " + r.path + " HTTP/1.1"] + ["Host" + ": " + r.host]
                         + ["Connection: close"];
            HeadLines(r) == if r.body == "" then start + HeaderLines(r.headers)
                            else start + HeaderLines(r.headers) + ["Content-Length: " + Digits(|r.body|)]
  {
    hide MethodName, Digits;
    assert "Host" + ": " == "Host: ";
  }

  method PutRequestLine(a: Appender, req: Request)
    requires a.Valid() && a.put == ""
    modifies a, a.buf
    ensures a.Valid() && a.put == JoinLines([MethodName(req.verb) + " " + req.path + " HTTP/1.1"])
  {
    hide MethodName;
    a.Put(MethodName(req.verb));
    a.Put(" ");
    a.Put(req.path);
    a.Put(" HTTP/1.1\r\n");
    JoinLinesAppend([], MethodName(req.verb) + " " + req.path + " HTTP/1.1");
  }

  /** One header line behind the given lines. */
  method PutField(a: Appender, name: string, value: string, ghost lines: seq<string>)
    requires a.Valid() && a.put == JoinLines(lines)
    modifies a, a.buf
    ensures a.Valid() && a.put == JoinLines(lines + [name + ": " + value])
  {
    hide JoinLines;
    a.Put(name);
    a.Put(": ");
    a.Put(value);
    a.Put(CRLF);
    JoinLinesAppend(lines, name + ": " + value);
  }

  method PutLength(a: Appender, n: nat, ghost lines: seq<string>)
    requires a.Valid() && a.put == JoinLines(lines) && n < SIZE_LIMIT
    modifies a, a.buf
    ensures a.Valid() && a.put == JoinLines(lines + ["Content-Length: " + Digits(n)])
  {
    hide JoinLines, Digits;
    a.Put("Content-Length: ");
    a.PutUInt(n);
    a.Put(CRLF);
    JoinLinesAppend(lines, "Content-Length: " + Digits(n));
  }

  method PutHeaders(a: Appender, headers: seq<Header>, ghost start: seq<string>)
    requires a.Valid() && a.put == JoinLines(start)
    modifies a, a.buf
    ensures a.Valid() && a.put == JoinLines(start + HeaderLines(headers))
  {
    hide JoinLines;
    assert start + [] == start;
    for i := 0 to |headers|
      invariant a.Valid() && a.put == JoinLines(start + HeaderLines(headers[..i]))
    {
      var h := headers[i];
      assert headers[..i + 1] == headers[..i] + [h];
      HeaderLinesAppend(headers[..i], h);
      ghost var lines := start + HeaderLines(headers[..i]);
      PutField(a, h.name, h.value, lines);
      assert lines + [h.name + ": " + h.value] == start + HeaderLines(headers[..i + 1]);
    }
    assert headers[..|headers|] == headers;
  }

  // ---- The head ends where the body begins ----

  ghost predicate CleanFields(r: Request) {
    && CrlfFree(r.host) && CrlfFree(r.path)
    && forall i :: 0 <= i < |r.headers| ==> CrlfFree(r.headers[i].name) && CrlfFree(r.headers[i].value)
  }

  lemma FieldLineIsClean(name: string, value: string)
    requires CrlfFree(name) && CrlfFree(value)
    ensures CrlfFree(name + ": " + value)
  {
    NoReturnIsCrlfFree(": ");
    CrlfFreeJoin(name, ": ");
    CrlfFreeJoin(name + ": ", value);
  }

  lemma RequestLineIsClean(r: Request)
    requires CrlfFree(r.path)
    ensures CrlfFree(MethodName(r.verb) + " " + r.path + " HTTP/1.1")
  {
    var start := MethodName(r.verb) + " ";
    NoReturnIsCrlfFree(start);
    NoReturnIsCrlfFree(" HTTP/1.1");
    CrlfFreeJoin(start, r.path);
    CrlfFreeJoin(start + r.path, " HTTP/1.1");
  }

  lemma {:induction false} HeaderLinesAreClean(hs: seq<Header>)
    requires forall i :: 0 <= i < |hs| ==> CrlfFree(hs[i].name) && CrlfFree(hs[i].value)
    ensures AllCrlfFree(HeaderLines(hs)) && forall i :: 0 <= i < |HeaderLines(hs)| ==> HeaderLines(hs)[i] != ""
    decreases |hs|
  {
    hide CrlfFree;
    if hs != [] {
      FieldLineIsClean(hs[0].name, hs[0].value);
      HeaderLinesAreClean(hs[1..]);
    }
  }

  lemma LengthLineIsClean(n: nat)
    ensures CrlfFree("Content-Length: " + Digits(n))
  {
    NoReturnIsCrlfFree("Content-Length: " + Digits(n));
  }

  lemma HeadLinesAreClean(r: Request)
    requires CleanFields(r)
    ensures AllCrlfFree(HeadLines(r)) && forall i :: 1 <= i < |HeadLines(r)| ==> HeadLines(r)[i] != ""
  {
    hide CrlfFree, Digits;
    RequestLineIsClean(r);
    assert "Host: " + r.host == "Host" + ": " + r.host;
    NoReturnIsCrlfFree("Host");
    FieldLineIsClean("Host", r.host);
    NoReturnIsCrlfFree("Connection: close");
    HeaderLinesAreClean(r.headers);
    LengthLineIsClean(|r.body|);
  }

  /** When no field holds a line end, the first blank line of the request is the one between head and body. */
  lemma FirstBlankLineEndsHead(r: Request)
    requires CleanFields(r)
    ensures var head := JoinLines(HeadLines(r));
            Find(Rendered(r), BLANK, 0) == Some(|head| - 2) && Rendered(r)[|head| + 2..] == r.body
  {
    hide CrlfFree, Digits, JoinLines;
    HeadLinesAreClean(r);
    BlankAfterLines(HeadLines(r), r.body);
  }
}
