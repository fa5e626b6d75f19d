/** The verdict of ParseResponse on every text, told by the characters of the text. */
module HttpVerdict {
  import opened Core
  import opened Decimal
  import opened HttpInversion
  import opened HttpRequest
  import opened HttpResponse
  import opened HttpText
  import opened Slices

  // ---- Characters ----

  /** The first place of a character. */
  predicate First(s: string, c: char, i: int) {
    0 <= i < |s| && s[i] == c && c !in s[..i]
  }

  lemma FindIsFirst(s: string, c: char)
    ensures Find(s, [c], 0) == None <==> c !in s
    ensures forall i: nat :: Find(s, [c], 0) == Some(i) <==> First(s, c, i)
  {
    forall i | 0 <= i < |s|
      ensures At(s, i, [c]) <==> s[i] == c
    {
      assert s[i..i + 1] == [s[i]];
    }
    var f := Find(s, [c], 0);
    if f.Some? {
      AtBound(s, f.value, [c]);
      forall j | 0 <= j < f.value
        ensures s[j] != c
      {
        assert !At(s, j, [c]);
      }
    }
    forall i: nat
      ensures f == Some(i) <==> First(s, c, i)
    {
      if First(s, c, i) {
        assert forall j :: 0 <= j < i ==> s[j] == s[..i][j];
        FoundAt(s, [c], 0, i);
      }
    }
  }

  // ---- The status line ----

  /** Three digits behind the first space. */
  predicate HasStatus(line: string, sp: int) {
    First(line, ' ', sp) && sp + 3 < |line| && IsDigit(line[sp + 1]) && IsDigit(line[sp + 2]) && IsDigit(line[sp + 3])
  }

  lemma ThreeDigitNumber(s: string)
    requires |s| == 3 && AllDigits(s)
    ensures Number(s) == 100 * DigitValue(s[0]) + 10 * DigitValue(s[1]) + DigitValue(s[2])
  {
    hide DigitValue;
    var one, two := s[..1], s[..2];
    assert two[..1] == one && one[..0] == "";
    assert Number(one) == DigitValue(s[0]);
    assert Number(two) == Number(one) * 10 + DigitValue(s[1]);
  }

  /** The same, of the text behind the first space. */
  predicate StartsWithStatus(rest: string) {
    |rest| >= 3 && IsDigit(rest[0]) && IsDigit(rest[1]) && IsDigit(rest[2])
  }

  /** The word in front of the next space holds three digits exactly when the text does. */
  lemma WordHoldsDigits(rest: string, code: string, sp2: Option<nat>)
    requires sp2.None? ==> code == rest
    requires sp2.Some? ==> First(rest, ' ', sp2.value) && code == rest[..sp2.value]
    ensures |code| >= 3 && AllDigits(code[..3]) <==> StartsWithStatus(rest)
    ensures StartsWithStatus(rest) ==> |code| >= 3 && code[..3] == rest[..3]
  {
    if |code| >= 3 {
      assert code[..3] == rest[..3];
      assert code[..3][0] == rest[0] && code[..3][1] == rest[1] && code[..3][2] == rest[2];
    }
  }

  lemma StatusInMeans(rest: string)
    ensures if StartsWithStatus(rest) then
              AllDigits(rest[..3]) && StatusIn(rest).Ok? && StatusIn(rest).value.0 == Number(rest[..3])
            else StatusIn(rest) == Err(Malformed)
  {
    hide Find, Number, Trimmed, First, AllDigits, StartsWithStatus;
    FindIsFirst(rest, ' ');
    var sp2 := Find(rest, " ", 0);
    if sp2.Some? {
      AtBound(rest, sp2.value, " ");
    }
    WordHoldsDigits(rest, if sp2.None? then rest else rest[..sp2.value], sp2);
    if StartsWithStatus(rest) {
      StatusIsLong(rest);
    }
  }

  lemma StatusIsLong(rest: string)
    requires StartsWithStatus(rest)
    ensures |rest| >= 3 && AllDigits(rest[..3])
  {
  }

  lemma ReasonInMeans(rest: string)
    requires StatusIn(rest).Ok?
    ensures ' ' !in rest ==> StatusIn(rest).value.1 == ""
    ensures forall i: nat :: i < |rest| && First(rest, ' ', i) ==> StatusIn(rest).value.1 == Trimmed(rest[i + 1..])
  {
    hide Find, Number, Trimmed, First, AllDigits;
    FindIsFirst(rest, ' ');
  }

  lemma StatusBehind(line: string, sp: int)
    requires First(line, ' ', sp)
    ensures StatusOf(line) == StatusIn(line[sp + 1..])
    ensures HasStatus(line, sp) <==> StartsWithStatus(line[sp + 1..])
    ensures HasStatus(line, sp) ==> line[sp + 1..][..3] == [line[sp + 1], line[sp + 2], line[sp + 3]]
  {
    hide Find, StatusIn;
    FindIsFirst(line, ' ');
  }

  /** A status line is good exactly when three digits stand behind its first space, whatever else that word holds. */
  lemma StatusLineMeans(line: string, sp: int)
    requires First(line, ' ', sp)
    ensures if HasStatus(line, sp) then
              && StatusOf(line).Ok?
              && StatusOf(line).value.0 == 100 * DigitValue(line[sp + 1]) + 10 * DigitValue(line[sp + 2])
                                            + DigitValue(line[sp + 3])
            else StatusOf(line) == Err(Malformed)
  {
    StatusBehind(line, sp);
    var rest := line[sp + 1..];
    hide StatusOf, StatusIn, Number, AllDigits;
    StatusInMeans(rest);
    if HasStatus(line, sp) {
      ThreeDigitNumber(rest[..3]);
    }
  }

  lemma NoSpaceNoStatus(line: string)
    requires ' ' !in line
    ensures StatusOf(line) == Err(Malformed)
  {
    FindIsFirst(line, ' ');
  }

  /** The reason is what follows the next space, without the white space around it; without one it is empty. */
  lemma ReasonMeans(line: string, sp: int, next: nat)
    requires HasStatus(line, sp)
    ensures StatusOf(line).Ok?
    ensures ' ' !in line[sp + 1..] ==> StatusOf(line).value.1 == ""
    ensures First(line[sp + 1..], ' ', next) ==> StatusOf(line).value.1 == Trimmed(line[sp + 1..][next + 1..])
  {
    StatusBehind(line, sp);
    hide StatusOf, StatusIn, Number, AllDigits, Trimmed;
    StatusInMeans(line[sp + 1..]);
    ReasonInMeans(line[sp + 1..]);
  }

  // ---- Header lines ----

  /** A line is a header exactly when it holds a colon; the first one separates name and value. */
  lemma HeaderMeans(line: string)
    ensures HeaderOf(line).Some? <==> ':' in line
    ensures forall i: nat :: First(line, ':', i) ==>
              HeaderOf(line) == Some(Header(Trimmed(line[..i]), Trimmed(line[i + 1..])))
  {
    hide Find, Trimmed;
    FindIsFirst(line, ':');
  }

  /** The lines with a colon, in order. */
  function WithColon(lines: seq<string>): seq<string> {
    if lines == [] then []
    else if ':' in lines[0] then [lines[0]] + WithColon(lines[1..])
    else WithColon(lines[1..])
  }

  /** Each of these as a header. */
  function HeadersOf(lines: seq<string>): seq<Header>
    requires forall i :: 0 <= i < |lines| ==> HeaderOf(lines[i]).Some?
  {
    seq(|lines|, i requires 0 <= i < |lines| => HeaderOf(lines[i]).value)
  }

  lemma {:induction false} ColonsAreHeaders(lines: seq<string>)
    ensures forall i :: 0 <= i < |WithColon(lines)| ==> HeaderOf(WithColon(lines)[i]).Some?
    decreases |lines|
  {
    hide HeaderOf;
    if lines != [] {
      HeaderMeans(lines[0]);
      ColonsAreHeaders(lines[1..]);
    }
  }

  /** Junk lines are passed over, headers are kept in order, and a seventeenth is an error. */
  lemma {:induction false} CollectMeans(lines: seq<string>, before: seq<Header>)
    requires |before| <= 16
    ensures forall i :: 0 <= i < |WithColon(lines)| ==> HeaderOf(WithColon(lines)[i]).Some?
    ensures Collect(lines, before) ==
            if |before| + |WithColon(lines)| <= 16 then Ok(before + HeadersOf(WithColon(lines)))
            else Err(TooManyHeaders)
    decreases |lines|
  {
    hide HeaderOf;
    ColonsAreHeaders(lines);
    if lines == [] {
      assert before + HeadersOf([]) == before;
    } else {
      HeaderMeans(lines[0]);
      if ':' !in lines[0] {
        CollectMeans(lines[1..], before);
      } else if |before| < 16 {
        var more := before + [HeaderOf(lines[0]).value];
        CollectMeans(lines[1..], more);
        assert more + HeadersOf(WithColon(lines[1..])) == before + HeadersOf(WithColon(lines));
      }
    }
  }

  // ---- The lines of a head ----

  predicate EndsInCrlf(t: string) {
    t == "" || (|t| >= 2 && t[|t| - 2] == '\r' && t[|t| - 1] == '\n')
  }

  lemma EndsAtCrlf(t: string)
    requires EndsInCrlf(t) && t != ""
    ensures |t| >= 2 && At(t, |t| - 2, CRLF)
  {
    CrlfByChars(t, |t| - 2);
  }

  lemma RestEndsInCrlf(t: string, i: nat)
    requires EndsInCrlf(t) && AtCrlf(t, i)
    ensures EndsInCrlf(t[i + 2..]) && t == t[..i] + CRLF + t[i + 2..]
  {
    assert t[i..i + 2] == CRLF;
  }

  lemma FirstLine(t: string)
    requires EndsInCrlf(t) && t != ""
    ensures var f := Find(t, CRLF, 0);
            && f.Some? && f.value + 2 <= |t| && CrlfFree(t[..f.value]) && EndsInCrlf(t[f.value + 2..])
            && t == t[..f.value] + CRLF + t[f.value + 2..]
  {
    hide Find, CrlfFree, EndsInCrlf, At;
    EndsAtCrlf(t);
    var i := Find(t, CRLF, 0).value;
    AtBound(t, i, CRLF);
    CrlfByChars(t, i);
    LineBefore(t, i);
    RestEndsInCrlf(t, i);
  }

  /** A text that ends in a line end is its lines with their line ends, and no line holds one. */
  lemma {:induction false} LinesJoinBack(t: string)
    requires EndsInCrlf(t)
    ensures JoinLines(LinesOf(t)) == t && AllCrlfFree(LinesOf(t))
    decreases |t|
  {
    if t == "" {
      NothingHasNoLines();
    } else {
      hide EndsInCrlf, CrlfFree, Find;
      FirstLine(t);
      var i := Find(t, CRLF, 0).value;
      LinesJoinBack(t[i + 2..]);
      OneMoreLine(t[..i], LinesOf(t[i + 2..]));
    }
  }

  lemma NothingHasNoLines()
    ensures LinesOf("") == [] && JoinLines([]) == "" && AllCrlfFree([])
  {
    assert !At("", 0, CRLF);
  }

  lemma OneMoreLine(line: string, lines: seq<string>)
    requires CrlfFree(line) && AllCrlfFree(lines)
    ensures JoinLines([line] + lines) == line + CRLF + JoinLines(lines) && AllCrlfFree([line] + lines)
  {
    hide CrlfFree;
    assert ([line] + lines)[1..] == lines;
  }

  lemma LineBefore(t: string, i: nat)
    requires Find(t, CRLF, 0) == Some(i) && i + 2 <= |t|
    ensures CrlfFree(t[..i])
  {
    hide Find;
    forall j | 0 <= j < |t[..i]|
      ensures !At(t[..i], j, CRLF)
    {
      assert !At(t, j, CRLF);
      CrlfByChars(t[..i], j);
      CrlfByChars(t, j);
    }
  }

  // ---- The verdict ----

  predicate BlankAt(raw: string, i: int) {
    0 <= i <= |raw| - 4 && raw[i..i + 4] == "\r\n\r\n"
  }

  /** The head of a text up to its first blank line. */
  ghost predicate Headed(raw: string, b: nat, lines: seq<string>) {
    && BlankAt(raw, b) && (forall i :: 0 <= i < b ==> !BlankAt(raw, i))
    && lines != [] && AllCrlfFree(lines) && raw[..b + 2] == JoinLines(lines)
  }

  lemma Unheaded(raw: string)
    requires forall i :: !BlankAt(raw, i)
    ensures Parsed(raw) == Err(Incomplete)
  {
    forall i: nat
      ensures !At(raw, i, BLANK)
    {
      BlankIsAt(raw, i);
    }
  }

  lemma BlankIsAt(raw: string, i: nat)
    ensures At(raw, i, BLANK) <==> BlankAt(raw, i)
  {
  }

  /**
   The verdict on a text with a blank line: Malformed for a first line without three digits behind its first space,
   else TooManyHeaders for more than sixteen further lines with a colon, else a response.
   */
  lemma Verdict(raw: string, b: nat, lines: seq<string>)
    requires Headed(raw, b, lines)
    ensures var bad := !exists sp :: HasStatus(lines[0], sp);
            var many := |WithColon(lines[1..])| > 16;
            if bad then Parsed(raw) == Err(Malformed)
            else if many then Parsed(raw) == Err(TooManyHeaders)
            else Parsed(raw).Ok?
  {
    FoundHead(raw, b, lines);
    assert lines != [] && b + 4 <= |raw|;
    hide Headed, Find, LinesOf, Collect, StatusOf, HasStatus, Parsed, FromLines, WithColon;
    ParsedBy(raw, b, lines);
    FromLinesVerdict(lines, raw[b + 4..]);
    StatusIff(lines[0]);
    CollectMeans(lines[1..], []);
  }

  lemma ParsedBy(raw: string, b: nat, lines: seq<string>)
    requires Find(raw, BLANK, 0) == Some(b) && b + 4 <= |raw| && LinesOf(raw[..b + 2]) == lines && lines != []
    ensures Parsed(raw) == FromLines(lines, raw[b + 4..])
  {
    hide Find, LinesOf, FromLines;
  }

  lemma FromLinesVerdict(lines: seq<string>, body: string)
    requires lines != []
    ensures if StatusOf(lines[0]).Err? then FromLines(lines, body) == Err(StatusOf(lines[0]).error)
            else if Collect(lines[1..], []).Err? then FromLines(lines, body) == Err(Collect(lines[1..], []).error)
            else FromLines(lines, body).Ok?
  {
    hide Collect, StatusOf, GetHeader, LengthOf, Cut;
  }

  /** What an accepted text yields: all its lines with a colon as headers, and its body cut to the declared length. */
  lemma Contents(raw: string, b: nat, lines: seq<string>)
    requires Headed(raw, b, lines) && Parsed(raw).Ok?
    ensures b + 4 <= |raw| && forall i :: 0 <= i < |WithColon(lines[1..])| ==> HeaderOf(WithColon(lines[1..])[i]).Some?
    ensures var r := Parsed(raw).value;
            && r.headers == HeadersOf(WithColon(lines[1..]))
            && r.contentLength == LengthOf(GetHeader(r.headers, "Content-Length"))
            && r.body == Cut(raw[b + 4..], r.contentLength)
  {
    FoundHead(raw, b, lines);
    assert lines != [] && b + 4 <= |raw|;
    hide Headed, Find, LinesOf, Collect, StatusOf, Parsed, WithColon, GetHeader, LengthOf, Cut, HeaderOf;
    ParsedBy(raw, b, lines);
    CollectMeans(lines[1..], []);
    var fields := WithColon(lines[1..]);
    assert |fields| <= 16 ==> [] + HeadersOf(fields) == HeadersOf(fields);
  }

  lemma FoundHead(raw: string, b: nat, lines: seq<string>)
    requires Headed(raw, b, lines)
    ensures Find(raw, BLANK, 0) == Some(b) && LinesOf(raw[..b + 2]) == lines
  {
    hide JoinLines, CrlfFree, LinesOf;
    forall i: nat
      ensures At(raw, i, BLANK) <==> BlankAt(raw, i)
    {
      BlankIsAt(raw, i);
    }
    FoundAt(raw, BLANK, 0, b);
    LinesOfJoin(lines);
  }

  lemma StatusIff(line: string)
    ensures StatusOf(line).Ok? <==> exists sp :: HasStatus(line, sp)
    ensures StatusOf(line).Err? ==> StatusOf(line).error == Malformed
  {
    hide StatusOf;
    if ' ' !in line {
      NoSpaceNoStatus(line);
    } else {
      hide Find;
      FindIsFirst(line, ' ');
      var sp := Find(line, " ", 0).value;
      StatusLineMeans(line, sp);
      forall other | HasStatus(line, other)
        ensures other == sp
      {
        OneFirst(line, ' ', sp, other);
      }
    }
  }

  lemma OneFirst(s: string, c: char, i: int, j: int)
    requires First(s, c, i) && First(s, c, j)
    ensures i == j
  {
  }

  /** Every text is of one of the two kinds. */
  lemma HeadedOrNot(raw: string) returns (b: nat, lines: seq<string>)
    requires exists i :: BlankAt(raw, i)
    ensures Headed(raw, b, lines)
  {
    var i :| BlankAt(raw, i);
    BlankIsAt(raw, i);
    b := Find(raw, BLANK, 0).value;
    AtBound(raw, b, BLANK);
    forall j: nat
      ensures At(raw, j, BLANK) <==> BlankAt(raw, j)
    {
      BlankIsAt(raw, j);
    }
    lines := LinesOf(raw[..b + 2]);
    HeadHasLine(raw, b);
    assert raw[b..b + 4][0] == '\r' && raw[b..b + 4][1] == '\n';
    LinesJoinBack(raw[..b + 2]);
  }

  // ---- Names ----

  /** Two letters that differ only in case: 32 apart, the smaller a capital. */
  predicate SameLetter(a: char, b: char) {
    a == b || ('A' <= a <= 'Z' && b as int == a as int + 32) || ('A' <= b <= 'Z' && a as int == b as int + 32)
  }

  lemma LowerIff(a: char, b: char)
    ensures Lower(a) == Lower(b) <==> SameLetter(a, b)
  {
  }

  /** Names are compared without regard to the case of ASCII letters, and of nothing else. */
  lemma SameNameIff(a: string, b: string)
    ensures SameName(a, b) <==> |a| == |b| && forall i :: 0 <= i < |a| ==> SameLetter(a[i], b[i])
  {
    if |a| == |b| {
      forall i | 0 <= i < |a|
        ensures Lower(a[i]) == Lower(b[i]) <==> SameLetter(a[i], b[i])
      {
        LowerIff(a[i], b[i]);
      }
    }
  }

  /** The first header of that name, in any case. */
  lemma {:induction false} GetHeaderFirst(headers: seq<Header>, name: string, i: nat)
    requires i < |headers| && SameName(headers[i].name, name)
    requires forall j :: 0 <= j < i ==> !SameName(headers[j].name, name)
    ensures GetHeader(headers, name) == headers[i].value
    decreases |headers|
  {
    hide SameName;
    if i > 0 {
      assert forall j :: 0 <= j < i - 1 ==> headers[1..][j] == headers[j + 1];
      GetHeaderFirst(headers[1..], name, i - 1);
    }
  }

  /** The empty text when there is none. */
  lemma {:induction false} GetHeaderNone(headers: seq<Header>, name: string)
    requires forall i :: 0 <= i < |headers| ==> !SameName(headers[i].name, name)
    ensures GetHeader(headers, name) == ""
    decreases |headers|
  {
    hide SameName;
    if headers != [] {
      GetHeaderNone(headers[1..], name);
    }
  }

  /** The same fields with names in another case. */
  predicate Recased(a: seq<Field>, b: seq<Field>) {
    && |a| == |b|
    && forall i :: 0 <= i < |a| ==>
         SameName(a[i].header.name, b[i].header.name) && a[i].header.value == b[i].header.value
  }

  lemma {:induction false} RecasedLookup(a: seq<Field>, b: seq<Field>, name: string)
    requires Recased(a, b)
    ensures GetHeader(Headers(a), name) == GetHeader(Headers(b), name)
    decreases |a|
  {
    if a != [] {
      SameNameIsTransitive(a[0].header.name, b[0].header.name, name);
      hide SameName;
      RecasedLookup(a[1..], b[1..], name);
      assert Headers(a)[1..] == Headers(a[1..]) && Headers(b)[1..] == Headers(b[1..]);
    }
  }

  lemma SameNameIsTransitive(a: string, b: string, name: string)
    requires SameName(a, b)
    ensures SameName(a, name) <==> SameName(b, name)
  {
    hide Lower;
  }

  /** The case of field names changes neither the body of a response nor its length. */
  lemma CaseOfNamesIsIgnored(version: string, code: string, reason: string, a: seq<Field>, b: seq<Field>, body: string)
    requires CleanStatus(version, code, reason) && HttpInversion.CleanFields(a) && HttpInversion.CleanFields(b)
    requires Recased(a, b) && |a| <= 16
    ensures var x := Parsed(RenderedResponse(version, code, reason, a, body));
            var y := Parsed(RenderedResponse(version, code, reason, b, body));
            x.Ok? && y.Ok? && x.value.body == y.value.body && x.value.contentLength == y.value.contentLength
  {
    hide CleanStatus, HttpInversion.CleanFields, RenderedResponse, Parsed, GetHeader, Headers, Cut, LengthOf, Number;
    ParsesRendered(version, code, reason, a, body);
    ParsesRendered(version, code, reason, b, body);
    RecasedLookup(a, b, "Content-Length");
  }
}
