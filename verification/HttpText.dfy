/** Lines, white space and searching, as src/http/http.cpp uses them. A char stands for one byte. */
module HttpText {
  import opened Core
  import opened Slices

  const CRLF: string := "\r\n"
  const BLANK: string := "\r\n\r\n"

  /** string_view::find: the first place from from on where pat stands. */
  function Find(s: string, pat: string, from: nat): (r: Option<nat>)
    requires from <= |s|
    ensures r.Some? ==> from <= r.value && At(s, r.value, pat) && forall j :: from <= j < r.value ==> !At(s, j, pat)
    ensures r.None? ==> forall j :: from <= j <= |s| ==> !At(s, j, pat)
    decreases |s| - from
  {
    if At(s, from, pat) then Some(from)
    else if from == |s| then None
    else Find(s, pat, from + 1)
  }

  lemma FoundAt(s: string, pat: string, from: nat, i: nat)
    requires from <= i && At(s, i, pat) && forall j :: from <= j < i ==> !At(s, j, pat)
    ensures Find(s, pat, from) == Some(i)
  {
  }

  // ---- Lines ----

  predicate CrlfFree(s: string) {
    forall i :: 0 <= i < |s| ==> !At(s, i, CRLF)
  }

  predicate AtCrlf(s: string, i: nat) {
    i + 2 <= |s| && s[i] == '\r' && s[i + 1] == '\n'
  }

  lemma CrlfByChars(s: string, i: nat)
    ensures At(s, i, CRLF) <==> AtCrlf(s, i)
  {
    if i + 2 <= |s| {
      assert s[i..i + 2] == [s[i], s[i + 1]];
    }
  }

  lemma BlankIsTwoCrlf(s: string, i: nat)
    ensures At(s, i, BLANK) <==> At(s, i, CRLF) && At(s, i + 2, CRLF)
  {
    assert BLANK == CRLF + CRLF;
    if At(s, i, BLANK) {
      AtSplit(s, i, CRLF, CRLF);
    }
    if At(s, i, CRLF) && At(s, i + 2, CRLF) {
      assert s[i..i + 4] == s[i..i + 2] + s[i + 2..i + 4];
    }
  }

  /** Each line with its line end. */
  function JoinLines(lines: seq<string>): string {
    if lines == [] then "" else lines[0] + CRLF + JoinLines(lines[1..])
  }

  /** The lines of a text in which every line has its line end. */
  function LinesOf(t: string): seq<string>
    decreases |t|
  {
    match Find(t, CRLF, 0)
    case None => []
    case Some(i) => [t[..i]] + LinesOf(t[i + 2..])
  }

  /** No line end within either part, and none made where they meet. */
  lemma CrlfFreeJoin(a: string, b: string)
    requires CrlfFree(a) && CrlfFree(b) && (a == "" || a[|a| - 1] != '\r' || b == "" || b[0] != '\n')
    ensures CrlfFree(a + b)
  {
    forall i | 0 <= i < |a + b|
      ensures !At(a + b, i, CRLF)
    {
      CrlfByChars(a + b, i);
      if i < |a| {
        CrlfByChars(a, i);
      } else {
        CrlfByChars(b, i - |a|);
      }
    }
  }

  lemma NoReturnIsCrlfFree(s: string)
    requires '\r' !in s
    ensures CrlfFree(s)
  {
    forall i | 0 <= i < |s|
      ensures !At(s, i, CRLF)
    {
      CrlfByChars(s, i);
    }
  }

  predicate AllCrlfFree(lines: seq<string>) {
    forall i :: 0 <= i < |lines| ==> CrlfFree(lines[i])
  }

  lemma EndOfLine(line: string, rest: string)
    requires CrlfFree(line)
    ensures Find(line + CRLF + rest, CRLF, 0) == Some(|line|)
  {
    var t := line + CRLF + rest;
    CrlfByChars(t, |line|);
    forall j | 0 <= j < |line|
      ensures !At(t, j, CRLF)
    {
      CrlfByChars(t, j);
      CrlfByChars(line, j);
    }
    FoundAt(t, CRLF, 0, |line|);
  }

  lemma {:induction false} LinesOfJoin(lines: seq<string>)
    requires AllCrlfFree(lines)
    ensures LinesOf(JoinLines(lines)) == lines
    decreases |lines|
  {
    if lines == [] {
      assert !At("", 0, CRLF);
    } else {
      var rest := JoinLines(lines[1..]);
      EndOfLine(lines[0], rest);
      var t := lines[0] + CRLF + rest;
      assert t[..|lines[0]|] == lines[0] && t[|lines[0]| + 2..] == rest;
      LinesOfJoin(lines[1..]);
    }
  }

  lemma AtShifts(a: string, b: string, k: nat, p: string)
    ensures At(a + b, |a| + k, p) <==> At(b, k, p)
  {
    if k + |p| <= |b| {
      assert (a + b)[|a| + k..|a| + k + |p|] == b[k..k + |p|];
    }
  }

  /** A line that is followed by a non-empty line does not end in a blank line. */
  lemma NoBlankHere(line: string, rest: string, j: nat)
    requires CrlfFree(line) && !At(rest, 0, CRLF) && j < |line| + 2
    ensures !At(line + CRLF + rest, j, BLANK)
  {
    var t := line + CRLF + rest;
    EndOfLine(line, rest);
    BlankIsTwoCrlf(t, j);
    if j == |line| {
      AtShifts(line + CRLF, rest, 0, CRLF);
    } else if j == |line| + 1 {
      CrlfByChars(t, j);
    }
  }

  lemma BlankLater(line: string, rest: string, i: nat)
    requires CrlfFree(line) && !At(rest, 0, CRLF) && Find(rest, BLANK, 0) == Some(i)
    ensures Find(line + CRLF + rest, BLANK, 0) == Some(|line| + 2 + i)
  {
    hide At, CrlfFree, Find;
    var t := line + CRLF + rest;
    forall j: nat | j < |line| + 2
      ensures !At(t, j, BLANK)
    {
      NoBlankHere(line, rest, j);
    }
    forall j | |line| + 2 <= j < |line| + 2 + i
      ensures !At(t, j, BLANK)
    {
      AtShifts(line + CRLF, rest, j - |line| - 2, BLANK);
    }
    AtShifts(line + CRLF, rest, i, BLANK);
    FoundAt(t, BLANK, 0, |line| + 2 + i);
  }

  lemma BlankNow(line: string, body: string)
    requires CrlfFree(line)
    ensures Find(line + CRLF + (CRLF + body), BLANK, 0) == Some(|line|)
  {
    hide At, CrlfFree, Find;
    var t := line + CRLF + (CRLF + body);
    EndOfLine(line, CRLF + body);
    forall j | 0 <= j < |line|
      ensures !At(t, j, BLANK)
    {
      BlankIsTwoCrlf(t, j);
    }
    AtShifts(line + CRLF, CRLF + body, 0, CRLF);
    CrlfByChars(CRLF + body, 0);
    BlankIsTwoCrlf(t, |line|);
    FoundAt(t, BLANK, 0, |line|);
  }

  lemma NonEmptyLineFirst(line: string, rest: string)
    requires line != "" && CrlfFree(line)
    ensures !At(line + CRLF + rest, 0, CRLF)
  {
    EndOfLine(line, rest);
  }

  /** Behind lines of which only the first may be empty, the first blank line is the one at the end of them. */
  lemma {:induction false} BlankAfterLines(lines: seq<string>, body: string)
    requires lines != [] && AllCrlfFree(lines) && forall i :: 1 <= i < |lines| ==> lines[i] != ""
    ensures Find(JoinLines(lines) + (CRLF + body), BLANK, 0) == Some(|JoinLines(lines)| - 2)
    decreases |lines|
  {
    hide At, CrlfFree;
    var line, others := lines[0], JoinLines(lines[1..]);
    assert JoinLines(lines) + (CRLF + body) == line + CRLF + (others + (CRLF + body));
    if |lines| == 1 {
      assert others + (CRLF + body) == CRLF + body;
      BlankNow(line, body);
    } else {
      var further := JoinLines(lines[1..][1..]) + (CRLF + body);
      assert others + (CRLF + body) == lines[1] + CRLF + further;
      NonEmptyLineFirst(lines[1], further);
      BlankAfterLines(lines[1..], body);
      BlankLater(line, others + (CRLF + body), |others| - 2);
    }
  }

  // ---- Optional white space ----

  predicate IsBlankChar(c: char) {
    c == ' ' || c == '\t'
  }

  function TrimLeft(s: string): string {
    if s != "" && IsBlankChar(s[0]) then TrimLeft(s[1..]) else s
  }

  function TrimRight(s: string): string {
    if s != "" && (IsBlankChar(s[|s| - 1]) || s[|s| - 1] == '\r') then TrimRight(s[..|s| - 1]) else s
  }

  function Trimmed(s: string): string {
    TrimRight(TrimLeft(s))
  }

  /** Nothing for Trim to take away. */
  predicate IsTrimmed(s: string) {
    s == "" || (!IsBlankChar(s[0]) && !IsBlankChar(s[|s| - 1]) && s[|s| - 1] != '\r')
  }

  predicate AllBlank(s: string) {
    forall i :: 0 <= i < |s| ==> IsBlankChar(s[i])
  }

  lemma {:induction false} TrimsLead(lead: string, s: string)
    requires AllBlank(lead)
    ensures TrimLeft(lead + s) == TrimLeft(s)
    decreases |lead|
  {
    if lead == "" {
      assert lead + s == s;
    } else {
      assert (lead + s)[1..] == lead[1..] + s;
      TrimsLead(lead[1..], s);
    }
  }

  lemma {:induction false} TrimsTrail(s: string, trail: string)
    requires AllBlank(trail)
    ensures TrimRight(s + trail) == TrimRight(s)
    decreases |trail|
  {
    if trail == "" {
      assert s + trail == s;
    } else {
      var n := |trail| - 1;
      assert (s + trail)[..|s + trail| - 1] == s + trail[..n];
      TrimsTrail(s, trail[..n]);
    }
  }

  /** White space around a trimmed text is exactly what Trim takes away. */
  lemma TrimsBlanks(lead: string, s: string, trail: string)
    requires AllBlank(lead) && AllBlank(trail) && IsTrimmed(s)
    ensures Trimmed(lead + (s + trail)) == s
  {
    TrimsLead(lead, s + trail);
    if s == "" {
      assert s + trail == trail + "";
      TrimsLead(trail, "");
    } else {
      assert TrimLeft(s + trail) == s + trail;
      TrimsTrail(s, trail);
    }
  }

  /** Blanks in front of [b, e) in s, blanks or carriage returns behind it, and no such character at its ends. */
  ghost predicate Kept(s: string, b: int, e: int) {
    && 0 <= b <= e <= |s|
    && (forall i :: 0 <= i < b ==> s[i] == ' ' || s[i] == '\t')
    && (forall i :: e <= i < |s| ==> s[i] == ' ' || s[i] == '\t' || s[i] == '\r')
    && (b < e ==> s[b] != ' ' && s[b] != '\t' && s[e - 1] != ' ' && s[e - 1] != '\t' && s[e - 1] != '\r')
  }

  /** That is what trimming leaves of s. */
  lemma TrimmedIff(s: string, t: string)
    ensures Trimmed(s) == t <==> exists b, e :: Kept(s, b, e) && t == s[b..e]
  {
    hide Trimmed;
    TrimmedIsKept(s);
    forall b, e | Kept(s, b, e) && t == s[b..e]
      ensures Trimmed(s) == t
    {
      var c, f :| Kept(s, c, f) && Trimmed(s) == s[c..f];
      KeptIsUnique(s, b, e, c, f);
    }
  }

  lemma KeptIsUnique(s: string, b: int, e: int, c: int, f: int)
    requires Kept(s, b, e) && Kept(s, c, f)
    ensures 0 <= b <= e <= |s| && 0 <= c <= f <= |s| && s[b..e] == s[c..f]
  {
  }

  lemma TrimmedIsKept(s: string)
    ensures exists b, e :: Kept(s, b, e) && Trimmed(s) == s[b..e]
  {
    var b := LeftEnd(s);
    var e := RightEnd(s[b..]);
    assert s[b..][..e] == s[b..b + e];
    assert forall i :: b <= i < |s| ==> s[i] == s[b..][i - b];
    assert Kept(s, b, b + e);
  }

  lemma {:induction false} LeftEnd(s: string) returns (b: nat)
    ensures b <= |s| && TrimLeft(s) == s[b..] && forall i :: 0 <= i < b ==> s[i] == ' ' || s[i] == '\t'
    ensures b < |s| ==> s[b] != ' ' && s[b] != '\t'
    decreases |s|
  {
    if s != "" && IsBlankChar(s[0]) {
      var c := LeftEnd(s[1..]);
      b := c + 1;
      assert s[b..] == s[1..][c..];
      assert forall i :: 1 <= i < |s| ==> s[i] == s[1..][i - 1];
    } else {
      b := 0;
      assert s[0..] == s;
    }
  }

  lemma {:induction false} RightEnd(s: string) returns (e: nat)
    ensures e <= |s| && TrimRight(s) == s[..e]
    ensures forall i :: e <= i < |s| ==> s[i] == ' ' || s[i] == '\t' || s[i] == '\r'
    ensures e > 0 ==> s[e - 1] != ' ' && s[e - 1] != '\t' && s[e - 1] != '\r'
    decreases |s|
  {
    if s != "" && (IsBlankChar(s[|s| - 1]) || s[|s| - 1] == '\r') {
      e := RightEnd(s[..|s| - 1]);
      assert s[..|s| - 1][..e] == s[..e];
    } else {
      e := |s|;
      assert s[..e] == s;
    }
  }

  lemma TrimsLeftAt(s: string, b: nat)
    requires b <= |s|
    ensures b == |s| ==> TrimLeft(s[b..]) == s[b..]
    ensures b < |s| ==> TrimLeft(s[b..]) == if IsBlankChar(s[b]) then TrimLeft(s[b + 1..]) else s[b..]
  {
    if b < |s| {
      assert s[b..][1..] == s[b + 1..];
    }
  }

  lemma TrimsRightAt(s: string, b: nat, e: nat)
    requires b <= e <= |s|
    ensures b == e ==> TrimRight(s[b..e]) == s[b..e]
    ensures b < e ==>
              TrimRight(s[b..e]) == if IsBlankChar(s[e - 1]) || s[e - 1] == '\r' then TrimRight(s[b..e - 1])
                                    else s[b..e]
  {
    if b < e {
      assert s[b..e][..e - b - 1] == s[b..e - 1];
    }
  }

  /** The source's Trim: two indices moved towards each other. */
  method Trim(s: string) returns (r: string)
    ensures r == Trimmed(s)
  {
    hide TrimLeft, TrimRight;
    var b, e := 0, |s|;
    assert s[0..] == s;
    while b < e && IsBlankChar(s[b])
      invariant 0 <= b <= e == |s| && TrimLeft(s[b..]) == TrimLeft(s)
    {
      TrimsLeftAt(s, b);
      b := b + 1;
    }
    TrimsLeftAt(s, b);
    assert s[b..e] == s[b..];
    while e > b && (IsBlankChar(s[e - 1]) || s[e - 1] == '\r')
      invariant b <= e <= |s| && TrimRight(s[b..e]) == Trimmed(s)
    {
      TrimsRightAt(s, b, e);
      e := e - 1;
    }
    TrimsRightAt(s, b, e);
    return s[b..e];
  }

  // ---- Case ----

  function Lower(c: char): char {
    if 'A' <= c <= 'Z' then c - 'A' + 'a' else c
  }

  predicate SameName(a: string, b: string) {
    |a| == |b| && forall i :: 0 <= i < |a| ==> Lower(a[i]) == Lower(b[i])
  }

  method IEqual(a: string, b: string) returns (same: bool)
    ensures same == SameName(a, b)
  {
    if |a| != |b| {
      return false;
    }
    for i := 0 to |a|
      invariant forall j :: 0 <= j < i ==> Lower(a[j]) == Lower(b[j])
    {
      var ca, cb := a[i], b[i];
      if 'A' <= ca <= 'Z' {
        ca := ca - 'A' + 'a';
      }
      if 'A' <= cb <= 'Z' {
        cb := cb - 'A' + 'a';
      }
      if ca != cb {
        return false;
      }
    }
    return true;
  }
}
