/** Parsing a response: ParseResponse of src/http/http.cpp. */
module HttpResponse {
  import opened Core
  import opened Decimal
  import opened HttpText
  import opened HttpRequest
  import opened Slices

  /** ETLX_HTTP_MAX_HEADERS. */
  const MAX_HEADERS: nat := 16

  datatype Response = Response(status: int, reason: string, headers: seq<Header>, body: string,
                               contentLength: Option<nat>)

  // ---- What a message means, line by line ----

  /** Status code and reason of a status line. */
  function StatusOf(line: string): Result<(int, string), Code> {
    match Find(line, " ", 0)
    case None => Err(Malformed)
    case Some(sp1) =>
      AtBound(line, sp1, " ");
      StatusIn(line[sp1 + 1..])
  }

  /** The same, behind the first space. */
  function StatusIn(rest: string): Result<(int, string), Code> {
    var sp2 := Find(rest, " ", 0);
    var code := if sp2.None? then rest else rest[..sp2.value];
    if |code| < 3 || !AllDigits(code[..3]) then Err(Malformed)
    else Ok((Number(code[..3]), if sp2.None? then "" else ReasonOf(rest, sp2.value)))
  }

  function ReasonOf(rest: string, sp: nat): string
    requires At(rest, sp, " ")
  {
    Trimmed(rest[sp + 1..])
  }

  lemma AtBound(s: string, i: nat, pat: string)
    requires At(s, i, pat)
    ensures i + |pat| <= |s|
  {
  }

  /** A line without a colon is no header. */
  function HeaderOf(line: string): Option<Header> {
    match Find(line, ":", 0)
    case None => None
    case Some(colon) =>
      AtBound(line, colon, ":");
      Some(Header(Trimmed(line[..colon]), Trimmed(line[colon + 1..])))
  }

  function Collect(lines: seq<string>, headers: seq<Header>): Result<seq<Header>, Code> {
    if lines == [] then Ok(headers)
    else if HeaderOf(lines[0]).None? then Collect(lines[1..], headers)
    else if |headers| >= MAX_HEADERS then Err(TooManyHeaders)
    else Collect(lines[1..], headers + [HeaderOf(lines[0]).value])
  }

  /** The value of the first header of that name, whatever the case. */
  function GetHeader(headers: seq<Header>, name: string): string {
    if headers == [] then ""
    else if SameName(headers[0].name, name) then headers[0].value
    else GetHeader(headers[1..], name)
  }

  /** The value of a Content-Length field, as far as 64 bits hold it. */
  function LengthOf(field: string): Option<nat> {
    if field != "" && AllDigits(field) then Some(Number(field) % SIZE_LIMIT) else None
  }

  function Cut(body: string, length: Option<nat>): string {
    if length.Some? && length.value < |body| then body[..length.value] else body
  }

  /** A response from the lines of its head and what follows the blank line. */
  function FromLines(lines: seq<string>, body: string): Result<Response, Code>
    requires lines != []
  {
    match StatusOf(lines[0])
    case Err(code) => Err(code)
    case Ok((status, reason)) =>
      match Collect(lines[1..], [])
      case Err(code) => Err(code)
      case Ok(headers) =>
        var length := LengthOf(GetHeader(headers, "Content-Length"));
        Ok(Response(status, reason, headers, Cut(body, length), length))
  }

  function Parsed(raw: string): Result<Response, Code> {
    match Find(raw, BLANK, 0)
    case None => Err(Incomplete)
    case Some(b) =>
      AtBound(raw, b, BLANK);
      HeadHasLine(raw, b);
      FromLines(LinesOf(raw[..b + 2]), raw[b + 4..])
  }

  lemma HeadHasLine(raw: string, b: nat)
    requires At(raw, b, BLANK)
    ensures LinesOf(raw[..b + 2]) != []
  {
    BlankIsTwoCrlf(raw, b);
    InPrefix(raw, b + 2, b, CRLF);
  }

  lemma InPrefix(s: string, n: nat, i: nat, pat: string)
    requires n <= |s| && i + |pat| <= n
    ensures At(s[..n], i, pat) <==> At(s, i, pat)
  {
    assert s[..n][i..i + |pat|] == s[i..i + |pat|];
  }

  // ---- The parser's own walk over the text ----

  /** The head from pos on: all of it, or what follows a line end; never just before the blank line. */
  ghost predicate AtLine(raw: string, b: nat, pos: nat) {
    && Find(raw, BLANK, 0) == Some(b) && b + 4 <= |raw|
    && (pos < b || pos == b + 2 || pos == 0)
    && (pos > 0 ==> pos >= 2 && At(raw, pos - 2, CRLF))
  }

  /** The next line end is never past the blank line, and a line behind a line end is never empty. */
  lemma NextLine(raw: string, b: nat, pos: nat)
    requires AtLine(raw, b, pos) && pos <= b
    ensures var eol := Find(raw, CRLF, pos);
            && eol.Some? && eol.value <= b && AtLine(raw, b, eol.value + 2)
            && (pos > 0 ==> pos < eol.value)
            && LinesOf(raw[pos..b + 2]) == [raw[pos..eol.value]] + LinesOf(raw[eol.value + 2..b + 2])
  {
    hide Find, At;
    BlankIsTwoCrlf(raw, b);
    var eol := Find(raw, CRLF, pos);
    var e := eol.value;
    AtBound(raw, e, CRLF);
    if e < b {
      BlankIsTwoCrlf(raw, e);
      CrlfByChars(raw, e);
      CrlfByChars(raw, b);
    }
    if pos > 0 {
      BlankIsTwoCrlf(raw, pos - 2);
    }
    FindInHead(raw, b, pos, e);
    assert raw[pos..b + 2][..e - pos] == raw[pos..e];
    assert raw[pos..b + 2][e - pos + 2..] == raw[e + 2..b + 2];
  }

  lemma FindInHead(raw: string, b: nat, pos: nat, e: nat)
    requires pos <= e <= b && b + 2 <= |raw| && Find(raw, CRLF, pos) == Some(e)
    ensures Find(raw[pos..b + 2], CRLF, 0) == Some(e - pos)
  {
    hide Find, At;
    var t := raw[pos..b + 2];
    assert raw[..b + 2] == raw[..pos] + t;
    forall j: nat | j <= e - pos
      ensures At(t, j, CRLF) <==> At(raw, pos + j, CRLF)
    {
      AtShifts(raw[..pos], t, j, CRLF);
      InPrefix(raw, b + 2, pos + j, CRLF);
    }
    FoundAt(t, CRLF, 0, e - pos);
  }

  // ---- ParseResponse ----

  /** Whatever the text, the result is the one its lines determine. */
  method ParseResponse(raw: string) returns (r: Result<Response, Code>)
    ensures r == Parsed(raw)
  {
    hide StatusOf, Collect, LinesOf, Find, GetHeader, LengthOf, Cut;
    var boundary := Find(raw, BLANK, 0);
    if boundary.None? {
      return Err(Incomplete);
    }
    var b := boundary.value;
    AtBound(raw, b, BLANK);
    NextLine(raw, b, 0);
    var lineEnd := Find(raw, CRLF, 0).value;
    var status := ParseStatusLine(raw[..lineEnd]);
    HeadIsLines(raw, b, lineEnd);
    if status.Err? {
      return Err(status.error);
    }
    var headers := ParseHeaders(raw, b, lineEnd + 2);
    if headers.Err? {
      return Err(headers.error);
    }
    var field := FindHeader(headers.value, "Content-Length");
    var length := ParseLength(field);
    return Ok(Response(status.value.0, status.value.1, headers.value, Cut(raw[b + 4..], length), length));
  }

  lemma HeadIsLines(raw: string, b: nat, e: nat)
    requires e <= b && b + 4 <= |raw|
    requires LinesOf(raw[0..b + 2]) == [raw[0..e]] + LinesOf(raw[e + 2..b + 2])
    ensures var lines := LinesOf(raw[..b + 2]);
            lines != [] && lines[0] == raw[..e] && lines[1..] == LinesOf(raw[e + 2..b + 2])
  {
    hide LinesOf;
    assert raw[0..b + 2] == raw[..b + 2] && raw[0..e] == raw[..e];
  }

  method ParseStatusLine(line: string) returns (r: Result<(int, string), Code>)
    ensures r == StatusOf(line)
  {
    hide Find, Trimmed;
    var sp1 := Find(line, " ", 0);
    if sp1.None? {
      return Err(Malformed);
    }
    AtBound(line, sp1.value, " ");
    var rest := line[sp1.value + 1..];
    var sp2 := Find(rest, " ", 0);
    var code := if sp2.None? then rest else rest[..sp2.value];
    if |code| < 3 {
      return Err(Malformed);
    }
    var status := 0;
    for i := 0 to 3
      invariant IsNumber(code[..3], i, status)
    {
      if code[i] < '0' || code[i] > '9' {
        return Err(Malformed);
      }
      OneMoreDigit(code[..3], i, status);
      status := status * 10 + DigitValue(code[i]);
    }
    assert code[..3][..3] == code[..3];
    var reason := "";
    if sp2.Some? {
      AtBound(rest, sp2.value, " ");
      reason := Trim(rest[sp2.value + 1..]);
    }
    return Ok((status, reason));
  }

  /** The header lines from pos on. */
  method ParseHeaders(raw: string, b: nat, start: nat) returns (r: Result<seq<Header>, Code>)
    requires AtLine(raw, b, start) && start > 0
    ensures r == Collect(LinesOf(raw[start..b + 2]), [])
  {
    hide Find, LinesOf, HeaderOf;
    var headers: seq<Header> := [];
    var pos := start;
    while pos < b
      invariant AtLine(raw, b, pos) && pos > 0 && |headers| <= MAX_HEADERS
      invariant Collect(LinesOf(raw[pos..b + 2]), headers) == Collect(LinesOf(raw[start..b + 2]), [])
      decreases |raw| - pos
    {
      NextLine(raw, b, pos);
      var found := Find(raw, CRLF, pos);
      var eol := if found.None? || found.value > b then b else found.value;
      var line := raw[pos..eol];
      pos := eol + 2;
      if line == "" {
        // NextLine: no line behind the status line is empty.
        assert false;
        break;
      }
      var h := ParseHeader(line);
      if h.Some? {
        if |headers| == MAX_HEADERS {
          return Err(TooManyHeaders);
        }
        headers := headers + [h.value];
      }
    }
    NoMoreLines(raw, b);
    return Ok(headers);
  }

  lemma NoMoreLines(raw: string, b: nat)
    requires b + 2 <= |raw|
    ensures LinesOf(raw[b + 2..b + 2]) == []
  {
    assert raw[b + 2..b + 2] == "";
  }

  method ParseHeader(line: string) returns (h: Option<Header>)
    ensures h == HeaderOf(line)
  {
    hide Find, Trimmed;
    var colon := Find(line, ":", 0);
    if colon.None? {
      return None;
    }
    AtBound(line, colon.value, ":");
    var name := Trim(line[..colon.value]);
    var value := Trim(line[colon.value + 1..]);
    return Some(Header(name, value));
  }

  method FindHeader(headers: seq<Header>, name: string) returns (value: string)
    ensures value == GetHeader(headers, name)
  {
    hide SameName;
    for i := 0 to |headers|
      invariant GetHeader(headers[i..], name) == GetHeader(headers, name)
    {
      assert headers[i..][1..] == headers[i + 1..];
      var same := IEqual(headers[i].name, name);
      if same {
        return headers[i].value;
      }
    }
    return "";
  }

  /** Reads a field of digits with the wrap-around of a 64-bit size. */
  method ParseLength(field: string) returns (length: Option<nat>)
    ensures length == LengthOf(field)
  {
    assert Number(field[..0]) == 0;
    hide Number;
    if field == "" {
      return None;
    }
    var len := 0;
    for i := 0 to |field|
      invariant AllDigits(field[..i]) && len == Number(field[..i]) % SIZE_LIMIT
    {
      if !IsDigit(field[i]) {
        return None;
      }
      assert field[..i + 1] == field[..i] + [field[i]];
      Horner(field[..i], field[i]);
      WrapStep(Number(field[..i]), DigitValue(field[i]));
      len := (len * 10 + DigitValue(field[i])) % SIZE_LIMIT;
    }
    assert field[..|field|] == field;
    return Some(len);
  }

  /** Wrapping at every step is wrapping once. */
  lemma WrapStep(n: nat, d: nat)
    ensures ((n % SIZE_LIMIT) * 10 + d) % SIZE_LIMIT == (n * 10 + d) % SIZE_LIMIT
  {
    var wrapped := (n % SIZE_LIMIT) * 10 + d;
    Remainder(n * 10 + d, 10 * (n / SIZE_LIMIT) + wrapped / SIZE_LIMIT, wrapped % SIZE_LIMIT);
  }

  lemma Remainder(x: nat, q: nat, r: nat)
    requires x == q * 0x1_0000_0000_0000_0000 + r && r < SIZE_LIMIT
    ensures x % SIZE_LIMIT == r
  {
    assert x / SIZE_LIMIT == q;
  }
}
