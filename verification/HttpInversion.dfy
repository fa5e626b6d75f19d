/** Printing a response and parsing it back: ParseResponse of src/http/http.cpp undoes the message format. */
module HttpInversion {
  import opened Core
  import opened Decimal
  import opened HttpText
  import opened HttpRequest
  import opened HttpResponse
  import opened Slices

  /** A field as it is sent: any white space may stand around the value. */
  datatype Field = Field(header: Header, lead: string, trail: string)

  function FieldLine(f: Field): string {
    f.header.name + ":" + (f.lead + (f.header.value + f.trail))
  }

  function FieldLines(fs: seq<Field>): seq<string> {
    if fs == [] then [] else [FieldLine(fs[0])] + FieldLines(fs[1..])
  }

  function Headers(fs: seq<Field>): seq<Header> {
    if fs == [] then [] else [fs[0].header] + Headers(fs[1..])
  }

  function StatusLine(version: string, code: string, reason: string): string {
    version + " " + (code + " " + reason)
  }

  /** Sections 2.1, 4 and 5 of RFC 9112. */
  function RenderedResponse(version: string, code: string, reason: string, fields: seq<Field>, body: string): string {
    JoinLines([StatusLine(version, code, reason)] + FieldLines(fields)) + (CRLF + body)
  }

  predicate Clean(s: string) {
    IsTrimmed(s) && CrlfFree(s)
  }

  predicate CleanField(f: Field) {
    && Clean(f.header.name) && ':' !in f.header.name && Clean(f.header.value)
    && AllBlank(f.lead) && AllBlank(f.trail)
  }

  predicate CleanFields(fs: seq<Field>) {
    forall i :: 0 <= i < |fs| ==> CleanField(fs[i])
  }

  predicate CleanStatus(version: string, code: string, reason: string) {
    && ' ' !in version && CrlfFree(version)
    && |code| == 3 && AllDigits(code)
    && Clean(reason)
  }

  // ---- One line ----

  lemma FindChar(a: string, c: char, rest: string)
    requires c !in a
    ensures Find(a + [c] + rest, [c], 0) == Some(|a|)
  {
    var t := a + [c] + rest;
    forall j | 0 <= j < |a|
      ensures !At(t, j, [c])
    {
      assert t[j..j + 1] == [a[j]];
    }
    assert t[|a|..|a| + 1] == [c];
    FoundAt(t, [c], 0, |a|);
  }

  lemma StatusLineReads(version: string, code: string, reason: string)
    requires CleanStatus(version, code, reason)
    ensures StatusOf(StatusLine(version, code, reason)) == Ok((Number(code), reason))
  {
    hide Find, Number, Trimmed, CrlfFree;
    var line, rest := StatusLine(version, code, reason), code + " " + reason;
    assert line == version + " " + rest;
    FindChar(version, ' ', rest);
    assert line[|version| + 1..] == rest;
    FindChar(code, ' ', reason);
    assert rest[..3] == code && code[..3] == code && rest[4..] == reason;
    AtBound(rest, 3, " ");
    TrimsBlanks("", reason, "");
    assert "" + (reason + "") == reason;
  }

  lemma FieldLineReads(f: Field)
    requires CleanField(f)
    ensures HeaderOf(FieldLine(f)) == Some(f.header)
  {
    hide Find, Trimmed, CrlfFree, AllBlank, IsTrimmed;
    var name, rest := f.header.name, f.lead + (f.header.value + f.trail);
    var line := FieldLine(f);
    FindChar(name, ':', rest);
    assert line[..|name|] == name && line[|name| + 1..] == rest;
    TrimsBlanks(f.lead, f.header.value, f.trail);
    EmptyIsBlank();
    TrimsBlanks("", name, "");
    assert "" + (name + "") == name;
  }

  lemma EmptyIsBlank()
    ensures AllBlank("")
  {
  }

  lemma BlankEnds(s: string)
    requires AllBlank(s)
    ensures '\r' !in s && '\n' !in s
  {
  }

  lemma FieldLineIsClean(f: Field)
    requires CleanField(f)
    ensures CrlfFree(FieldLine(f)) && FieldLine(f) != ""
  {
    hide CrlfFree, AllBlank;
    var name, value := f.header.name, f.header.value;
    BlankEnds(f.lead);
    BlankEnds(f.trail);
    NoReturnIsCrlfFree(":");
    NoReturnIsCrlfFree(f.lead);
    NoReturnIsCrlfFree(f.trail);
    CrlfFreeJoin(value, f.trail);
    CrlfFreeJoin(f.lead, value + f.trail);
    CrlfFreeJoin(name, ":");
    CrlfFreeJoin(name + ":", f.lead + (value + f.trail));
  }

  lemma StatusLineIsClean(version: string, code: string, reason: string)
    requires CleanStatus(version, code, reason)
    ensures CrlfFree(StatusLine(version, code, reason))
  {
    hide CrlfFree, IsTrimmed;
    var start := code + " ";
    NoReturnIsCrlfFree(" ");
    NoReturnIsCrlfFree(start);
    CrlfFreeJoin(start, reason);
    CrlfFreeJoin(version, " ");
    CrlfFreeJoin(version + " ", start + reason);
    assert start + reason == code + " " + reason;
  }

  // ---- All lines ----

  lemma {:induction false} FieldLinesAreClean(fs: seq<Field>)
    requires CleanFields(fs)
    ensures AllCrlfFree(FieldLines(fs)) && forall i :: 0 <= i < |FieldLines(fs)| ==> FieldLines(fs)[i] != ""
    decreases |fs|
  {
    hide CleanField, CrlfFree, FieldLine;
    if fs != [] {
      FieldLineIsClean(fs[0]);
      FieldLinesAreClean(fs[1..]);
    }
  }

  /** Every field is collected, in order, as long as there is room for it; one too many is an error. */
  lemma {:induction false} FieldLinesRead(fs: seq<Field>, before: seq<Header>)
    requires CleanFields(fs) && |before| <= MAX_HEADERS
    ensures Collect(FieldLines(fs), before)
         == if |before| + |fs| <= MAX_HEADERS then Ok(before + Headers(fs)) else Err(TooManyHeaders)
    decreases |fs|
  {
    hide CleanField, HeaderOf, FieldLine;
    if fs == [] {
      assert before + Headers(fs) == before;
    } else {
      var lines := FieldLines(fs);
      assert lines[0] == FieldLine(fs[0]) && lines[1..] == FieldLines(fs[1..]);
      FieldLineReads(fs[0]);
      if |before| < MAX_HEADERS {
        var more := before + [fs[0].header];
        FieldLinesRead(fs[1..], more);
        assert more + Headers(fs[1..]) == before + Headers(fs);
      }
    }
  }

  lemma LinesHaveEnds(lines: seq<string>)
    requires lines != []
    ensures |JoinLines(lines)| >= 2
  {
  }

  /** The head of a rendered response falls apart into the lines it was made of. */
  lemma RenderedLines(version: string, code: string, reason: string, fields: seq<Field>, body: string)
    requires CleanStatus(version, code, reason) && CleanFields(fields)
    ensures var lines := [StatusLine(version, code, reason)] + FieldLines(fields);
            var raw := RenderedResponse(version, code, reason, fields, body);
            exists b: nat :: Find(raw, BLANK, 0) == Some(b) && b + 4 <= |raw| && raw[b + 4..] == body
                             && LinesOf(raw[..b + 2]) == lines
  {
    hide CleanStatus, CleanFields, CrlfFree, LinesOf, Find, JoinLines, StatusLine, FieldLines;
    var lines := [StatusLine(version, code, reason)] + FieldLines(fields);
    StatusLineIsClean(version, code, reason);
    FieldLinesAreClean(fields);
    BlankAfterLines(lines, body);
    LinesOfJoin(lines);
    var head := JoinLines(lines);
    var raw := head + (CRLF + body);
    LinesHaveEnds(lines);
    var b := |head| - 2;
    assert raw[..b + 2] == head && raw[b + 4..] == body;
    assert Find(raw, BLANK, 0) == Some(b);
  }

  /** Parsing undoes rendering: status, reason, every header and the body come back; a seventeenth header is refused. */
  lemma ParsesRendered(version: string, code: string, reason: string, fields: seq<Field>, body: string)
    requires CleanStatus(version, code, reason) && CleanFields(fields)
    ensures var length := LengthOf(GetHeader(Headers(fields), "Content-Length"));
            Parsed(RenderedResponse(version, code, reason, fields, body)) ==
            if |fields| <= MAX_HEADERS
            then Ok(Response(Number(code), reason, Headers(fields), Cut(body, length), length))
            else Err(TooManyHeaders)
  {
    hide CleanStatus, CleanFields, CrlfFree, LinesOf, Find, StatusLine, FieldLines, StatusOf, Collect,
         GetHeader, LengthOf, Cut, RenderedResponse;
    var raw := RenderedResponse(version, code, reason, fields, body);
    RenderedLines(version, code, reason, fields, body);
    StatusLineReads(version, code, reason);
    FieldLinesRead(fields, []);
    assert [] + Headers(fields) == Headers(fields);
    var lines := [StatusLine(version, code, reason)] + FieldLines(fields);
    assert lines[1..] == FieldLines(fields);
  }

  // ---- The declared length ----

  function Min(a: nat, b: nat): nat {
    if a <= b then a else b
  }

  /** The body kept is the smaller of what was declared and what is there, exactly unless 64 bits wrap below it. */
  lemma CutIsTheSmaller(field: string, body: string)
    requires field != "" && AllDigits(field) && |body| < SIZE_LIMIT
    ensures var kept := Cut(body, LengthOf(field));
            && kept <= body
            && (|kept| == Min(Number(field), |body|)
                <==> Number(field) < SIZE_LIMIT || Number(field) % SIZE_LIMIT >= |body|)
  {
    hide Number, AllDigits;
  }

  /** A response that declares its length in digits. */
  predicate Declares(fields: seq<Field>) {
    var field := GetHeader(Headers(fields), "Content-Length");
    field != "" && AllDigits(field)
  }

  /** What was declared, read as a number of any size. */
  function Declared(fields: seq<Field>): nat
    requires Declares(fields)
  {
    Number(GetHeader(Headers(fields), "Content-Length"))
  }

  /**
   So of every rendered response that declares a length the parser keeps the smaller of that and what is there,
   exactly unless 64 bits wrap below what is there.
   */
  lemma ParsedBodyIsTheSmaller(version: string, code: string, reason: string, fields: seq<Field>, body: string)
    requires CleanStatus(version, code, reason) && CleanFields(fields) && |fields| <= MAX_HEADERS
    requires Declares(fields) && |body| < SIZE_LIMIT
    ensures var r := Parsed(RenderedResponse(version, code, reason, fields, body));
            && r.Ok? && r.value.body <= body
            && (|r.value.body| == Min(Declared(fields), |body|)
                <==> Declared(fields) < SIZE_LIMIT || Declared(fields) % SIZE_LIMIT >= |body|)
  {
    hide CleanStatus, CleanFields, Number, AllDigits, GetHeader, RenderedResponse, Parsed, Cut, LengthOf;
    ParsesRendered(version, code, reason, fields, body);
    CutIsTheSmaller(GetHeader(Headers(fields), "Content-Length"), body);
  }

  /** A response that declares 2^64 bytes and has one. */
  function Oversized(): seq<Field> {
    [Field(Header("Content-Length", Digits(SIZE_LIMIT)), " ", "")]
  }

  lemma OversizedIsClean()
    ensures |Oversized()| == 1 && CleanFields(Oversized()) && Headers(Oversized()) == [Oversized()[0].header]
    ensures GetHeader(Headers(Oversized()), "Content-Length") == Digits(SIZE_LIMIT)
  {
    hide Digits;
    var value := Digits(SIZE_LIMIT);
    NoReturnIsCrlfFree(value);
    NoReturnIsCrlfFree("Content-Length");
    assert IsDigit(value[0]) && IsDigit(value[|value| - 1]);
    assert Headers(Oversized()[1..]) == [];
  }

  /** The parser receives it, and its body is lost. */
  lemma DeclaredLengthWraps()
    ensures var r := Parsed(RenderedResponse("HTTP/1.1", "200", "OK", Oversized(), "x"));
            && Declares(Oversized()) && Declared(Oversized()) == SIZE_LIMIT
            && r.Ok? && r.value.status == 200 && r.value.body == ""
  {
    hide Digits, CleanStatus, CleanFields, RenderedResponse, Parsed, Number, GetHeader, Headers, AllDigits, Oversized;
    OversizedIsClean();
    PlainStatusIsClean();
    DeclaresNothing();
    ParsesRendered("HTTP/1.1", "200", "OK", Oversized(), "x");
  }

  lemma PlainStatusIsClean()
    ensures CleanStatus("HTTP/1.1", "200", "OK") && Number("200") == 200
  {
    hide CrlfFree;
    NoReturnIsCrlfFree("HTTP/1.1");
    NoReturnIsCrlfFree("OK");
    assert "200"[..2] == "20" && "20"[..1] == "2" && "2"[..0] == "";
  }

  lemma DeclaresNothing()
    ensures var field := Digits(SIZE_LIMIT);
            field != "" && AllDigits(field) && Number(field) == SIZE_LIMIT && LengthOf(field) == Some(0)
  {
    hide Digits, Number;
  }

  /** No declared length that is a number: everything behind the blank line is the body. */
  lemma UndeclaredKeepsAll(field: string, body: string)
    requires field == "" || !AllDigits(field)
    ensures Cut(body, LengthOf(field)) == body
  {
  }

  // ---- What every accepted message yields ----

  lemma {:induction false} TrimRightTrims(s: string)
    requires s == "" || !IsBlankChar(s[0])
    ensures IsTrimmed(TrimRight(s)) && TrimRight(s) <= s
    decreases |s|
  {
    if s != "" && (IsBlankChar(s[|s| - 1]) || s[|s| - 1] == '\r') {
      TrimRightTrims(s[..|s| - 1]);
    }
  }

  lemma {:induction false} TrimLeftTrims(s: string)
    ensures TrimLeft(s) == "" || !IsBlankChar(TrimLeft(s)[0])
    ensures forall c :: c in TrimLeft(s) ==> c in s
    decreases |s|
  {
    if s != "" && IsBlankChar(s[0]) {
      TrimLeftTrims(s[1..]);
    }
  }

  lemma TrimmedIsTrimmed(s: string)
    ensures IsTrimmed(Trimmed(s)) && forall c :: c in Trimmed(s) ==> c in s
  {
    TrimLeftTrims(s);
    TrimRightTrims(TrimLeft(s));
  }

  predicate CleanHeader(h: Header) {
    IsTrimmed(h.name) && ':' !in h.name && IsTrimmed(h.value)
  }

  lemma HeaderIsClean(line: string)
    requires HeaderOf(line).Some?
    ensures CleanHeader(HeaderOf(line).value)
  {
    hide IsTrimmed, Trimmed;
    var colon := Find(line, ":", 0).value;
    AtBound(line, colon, ":");
    forall j | 0 <= j < colon
      ensures line[j] != ':'
    {
      assert !At(line, j, ":");
      assert line[j..j + 1] == [line[j]];
    }
    TrimmedIsTrimmed(line[..colon]);
    TrimmedIsTrimmed(line[colon + 1..]);
  }

  lemma {:induction false} CollectedAreClean(lines: seq<string>, before: seq<Header>)
    requires |before| <= MAX_HEADERS && forall i :: 0 <= i < |before| ==> CleanHeader(before[i])
    requires Collect(lines, before).Ok?
    ensures var headers := Collect(lines, before).value;
            && before <= headers && |headers| <= MAX_HEADERS
            && forall i :: 0 <= i < |headers| ==> CleanHeader(headers[i])
    decreases |lines|
  {
    hide HeaderOf, CleanHeader;
    if lines != [] {
      if HeaderOf(lines[0]).None? {
        CollectedAreClean(lines[1..], before);
      } else {
        HeaderIsClean(lines[0]);
        CollectedAreClean(lines[1..], before + [HeaderOf(lines[0]).value]);
      }
    }
  }

  lemma ThreeDigits(code: string)
    requires |code| == 3 && AllDigits(code)
    ensures 0 <= Number(code) <= 999
  {
    hide DigitValue;
    var c1, c2 := code[..1], code[..2];
    assert c2[..1] == c1 && c1[..0] == "";
    assert Number(c1) == DigitValue(code[0]);
    assert Number(c2) == Number(c1) * 10 + DigitValue(code[1]);
  }

  lemma StatusIsClean(line: string)
    requires StatusOf(line).Ok?
    ensures var (status, reason) := StatusOf(line).value; 0 <= status <= 999 && IsTrimmed(reason)
  {
    hide Find, Trimmed, Number;
    var sp1 := Find(line, " ", 0).value;
    AtBound(line, sp1, " ");
    var rest := line[sp1 + 1..];
    var sp2 := Find(rest, " ", 0);
    if sp2.Some? {
      AtBound(rest, sp2.value, " ");
      TrimmedIsTrimmed(rest[sp2.value + 1..]);
      ThreeDigits(rest[..sp2.value][..3]);
    } else {
      ThreeDigits(rest[..3]);
    }
  }

  /** A response the parser accepts has a three-digit status, trimmed fields and room for them; its body is the
      message's own text from the first blank line on. */
  lemma AcceptedIsClean(raw: string)
    requires Parsed(raw).Ok?
    ensures var r := Parsed(raw).value;
            && 0 <= r.status <= 999 && IsTrimmed(r.reason)
            && |r.headers| <= MAX_HEADERS && (forall i :: 0 <= i < |r.headers| ==> CleanHeader(r.headers[i]))
            && exists b: nat :: Find(raw, BLANK, 0) == Some(b) && b + 4 <= |raw| && r.body <= raw[b + 4..]
  {
    hide StatusOf, Collect, CleanHeader, IsTrimmed, Find, LinesOf, GetHeader, LengthOf;
    var b := Find(raw, BLANK, 0).value;
    AtBound(raw, b, BLANK);
    HeadHasLine(raw, b);
    var lines := LinesOf(raw[..b + 2]);
    StatusIsClean(lines[0]);
    CollectedAreClean(lines[1..], []);
  }
}
