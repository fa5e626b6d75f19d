/**
 Tokens and lexemes of src/json/json.cpp, and the tokeniser as a deterministic machine: one Step is one
 iteration of the main loop, Run is the whole loop followed by the check for unclosed containers.
 The imperative parser (JsonParser) is proved equal to Parse; everything else is proved about Parse.
 A char stands for one byte of the document.
 */
module JsonMachine {
  import opened Core

  datatype Code = NoMemory | Invalid | Partial | WrongType

  datatype Kind = Undefined | Object | Array | String | Primitive

  datatype Token = Token(kind: Kind, start: int, end: int, size: int, parent: int)

  predicate IsWs(c: char) {
    c == '\t' || c == '\r' || c == '\n' || c == ' '
  }

  predicate IsHex(c: char) {
    '0' <= c <= '9' || 'a' <= c <= 'f' || 'A' <= c <= 'F'
  }

  /** The characters that may follow a backslash, other than 'u'. */
  predicate IsSimpleEscape(c: char) {
    c == '"' || c == '/' || c == '\\' || c == 'b' || c == 'f' || c == 'r' || c == 'n' || c == 't'
  }

  predicate EndsPrimitive(c: char) {
    IsWs(c) || c == ',' || c == ']' || c == '}' || c == ':'
  }

  /** Checks n hex digits from p on: nothing wrong, or the error the source reports. */
  function HexError(js: string, p: nat, n: nat): Option<Code>
    decreases n
  {
    if n == 0 then None
    else if p >= |js| then Some(Partial)
    else if !IsHex(js[p]) then Some(Invalid)
    else HexError(js, p + 1, n - 1)
  }

  /** The position of the quote that ends the string whose body is being read at p. */
  function ScanString(js: string, p: nat): (r: Result<nat, Code>)
    ensures r.Ok? ==> p <= r.value < |js| && js[r.value] == '"'
    decreases |js| - p
  {
    if p >= |js| then Err(Partial)
    else if js[p] == '"' then Ok(p)
    else if js[p] == '\\' && p + 1 < |js| then
      if IsSimpleEscape(js[p + 1]) then ScanString(js, p + 2)
      else if js[p + 1] == 'u' then
        match HexError(js, p + 2, 4)
        case Some(code) => Err(code)
        case None => ScanString(js, p + 6)
      else Err(Invalid)
    else ScanString(js, p + 1)
  }

  /** The position of the character that ends the primitive being read at p. */
  function ScanPrimitive(js: string, p: nat): (r: Result<nat, Code>)
    ensures r.Ok? ==> p <= r.value < |js| && EndsPrimitive(js[r.value])
    decreases |js| - p
  {
    if p >= |js| then Err(Partial)
    else if EndsPrimitive(js[p]) then Ok(p)
    else if js[p] < ' ' then Err(Invalid)
    else ScanPrimitive(js, p + 1)
  }

  /** The tokens written so far and the two cursors of the parser. */
  datatype State = State(pos: nat, toks: seq<Token>, super: int)

  predicate Links(toks: seq<Token>) {
    forall i :: 0 <= i < |toks| ==> -1 <= toks[i].parent < i
  }

  predicate WellFormed(s: State) {
    -1 <= s.super < |s.toks| && Links(s.toks)
  }

  predicate IsOpen(t: Token) {
    t.start != -1 && t.end == -1
  }

  /** The largest index below n of an open token, or -1: the backward scan of the closing bracket. */
  function LastOpen(toks: seq<Token>, n: nat): (i: int)
    requires n <= |toks|
    ensures -1 <= i < n
    ensures i >= 0 ==> IsOpen(toks[i])
    ensures forall j :: i < j < n ==> !IsOpen(toks[j])
  {
    if n == 0 then -1
    else if IsOpen(toks[n - 1]) then n - 1
    else LastOpen(toks, n - 1)
  }

  /** One more child for the token at super, if there is one. */
  function Bump(toks: seq<Token>, super: int): (r: seq<Token>)
    requires super < |toks|
    ensures |r| == |toks|
  {
    if super < 0 then toks else toks[super := toks[super].(size := toks[super].size + 1)]
  }

  function BracketKind(c: char): Kind {
    if c == '{' || c == '}' then Object else Array
  }

  /** Appends a child of s.super, unless all cap slots are taken. */
  function Append(cap: nat, s: State, kind: Kind, start: int, end: int, next: nat): (r: Result<State, Code>)
    requires WellFormed(s)
    ensures r.Ok? ==> WellFormed(r.value)
  {
    if |s.toks| >= cap then Err(NoMemory)
    else Ok(State(next, Bump(s.toks, s.super) + [Token(kind, start, end, 0, s.super)], s.super))
  }

  function Open(cap: nat, s: State, kind: Kind): (r: Result<State, Code>)
    requires WellFormed(s)
    ensures r.Ok? ==> WellFormed(r.value) && r.value.pos == s.pos + 1
  {
    match Append(cap, s, kind, s.pos, -1, s.pos + 1)
    case Err(code) => Err(code)
    case Ok(s') => Ok(s'.(super := |s.toks|))
  }

  function Close(s: State, kind: Kind): (r: Result<State, Code>)
    requires WellFormed(s)
    ensures r.Ok? ==> WellFormed(r.value) && r.value.pos == s.pos + 1
  {
    var i := LastOpen(s.toks, |s.toks|);
    if i == -1 || s.toks[i].kind != kind then Err(Invalid)
    else Ok(State(s.pos + 1, s.toks[i := s.toks[i].(end := s.pos + 1)], s.toks[i].parent))
  }

  function Comma(s: State): (r: State)
    requires WellFormed(s)
    ensures WellFormed(r) && r.pos == s.pos + 1
  {
    var up := s.super != -1 && s.toks[s.super].kind != Array && s.toks[s.super].kind != Object;
    State(s.pos + 1, s.toks, if up then s.toks[s.super].parent else s.super)
  }

  /** One iteration of the main loop, including its increment of pos. */
  function Step(js: string, cap: nat, s: State): (r: Result<State, Code>)
    requires s.pos < |js| && WellFormed(s)
    ensures r.Ok? ==> WellFormed(r.value) && s.pos < r.value.pos <= |js|
  {
    var c := js[s.pos];
    if c == '{' || c == '[' then Open(cap, s, BracketKind(c))
    else if c == '}' || c == ']' then Close(s, BracketKind(c))
    else if c == '"' then
      match ScanString(js, s.pos + 1)
      case Err(code) => Err(code)
      case Ok(q) => Append(cap, s, String, s.pos + 1, q, q + 1)
    else if IsWs(c) then Ok(s.(pos := s.pos + 1))
    else if c == ':' then Ok(State(s.pos + 1, s.toks, |s.toks| - 1))
    else if c == ',' then Ok(Comma(s))
    else
      match ScanPrimitive(js, s.pos)
      case Err(code) => Err(code)
      case Ok(e) => Append(cap, s, Primitive, s.pos, e, e)
  }

  function Run(js: string, cap: nat, s: State): (r: Result<seq<Token>, Code>)
    requires s.pos <= |js| && WellFormed(s)
    decreases |js| - s.pos
  {
    if s.pos == |js| then
      if LastOpen(s.toks, |s.toks|) == -1 then Ok(s.toks) else Err(Partial)
    else
      match Step(js, cap, s)
      case Err(code) => Err(code)
      case Ok(s') => Run(js, cap, s')
  }

  const START := State(0, [], -1)

  function Parse(js: string, cap: nat): Result<seq<Token>, Code> {
    Run(js, cap, START)
  }
}
