/** The imperative tokeniser of src/json/json.cpp: it writes the caller's token array in place. */
module JsonParser {
  import opened Core
  import opened JsonMachine

  const BLANK := Token(Undefined, -1, -1, 0, -1)

  class Parser {
    const tokens: array<Token>
    var pos: nat
    var toknext: nat
    var toksuper: int

    constructor (tokens: array<Token>)
      ensures this.tokens == tokens && pos == 0 && toknext == 0 && toksuper == -1
    {
      this.tokens := tokens;
      pos, toknext, toksuper := 0, 0, -1;
    }

    /** The token slots are within the array and the cursors form a well-formed machine state. */
    ghost predicate Valid()
      reads this, tokens
    {
      toknext <= tokens.Length && WellFormed(View())
    }

    ghost function View(): State
      reads this, tokens
      requires toknext <= tokens.Length
    {
      State(pos, tokens[..toknext], toksuper)
    }

    /** Takes the next slot and resets it; false is the source's null pointer. */
    method Alloc() returns (ok: bool)
      requires toknext <= tokens.Length
      modifies `toknext, tokens
      ensures ok == (old(toknext) < tokens.Length)
      ensures toknext == old(toknext) + (if ok then 1 else 0)
      ensures tokens[..toknext] == old(tokens[..toknext]) + (if ok then [BLANK] else [])
      ensures forall i :: toknext <= i < tokens.Length ==> tokens[i] == old(tokens[i])
    {
      if toknext >= tokens.Length {
        return false;
      }
      tokens[toknext] := BLANK;
      toknext := toknext + 1;
      return true;
    }

    /** Fills a fresh slot as a closed token under toksuper. */
    method Emit(kind: Kind, start: nat) returns (ok: bool)
      requires Valid()
      modifies `toknext, tokens
      ensures ok == (old(toknext) < tokens.Length)
      ensures toknext == old(toknext) + (if ok then 1 else 0)
      ensures tokens[..toknext] ==
              old(tokens[..toknext]) + (if ok then [Token(kind, start, pos, 0, toksuper)] else [])
      ensures forall i :: toknext <= i < tokens.Length ==> tokens[i] == old(tokens[i])
    {
      ok := Alloc();
      if ok {
        tokens[toknext - 1] := Token(kind, start, pos, 0, toksuper);
      }
    }

    /** On success the token is appended and pos stands on the last character of the primitive. */
    method ParsePrimitive(js: string) returns (r: Result<(), Code>)
      requires Valid() && pos < |js| && !EndsPrimitive(js[pos])
      modifies `pos, `toknext, tokens
      ensures toknext >= old(toknext) && toknext <= tokens.Length
      ensures match ScanPrimitive(js, old(pos))
              case Err(code) => r == Err(code)
              case Ok(e) =>
                if old(toknext) >= tokens.Length then r == Err(NoMemory)
                else
                  && r == Ok(()) && pos == e - 1 && toknext == old(toknext) + 1
                  && tokens[..toknext] ==
                     old(tokens[..toknext]) + [Token(Primitive, old(pos), e, 0, toksuper)]
      ensures forall i :: toknext <= i < tokens.Length ==> tokens[i] == old(tokens[i])
    {
      var start := pos;
      while pos < |js|
        invariant start <= pos <= |js|
        invariant ScanPrimitive(js, start) == ScanPrimitive(js, pos)
        invariant toknext == old(toknext) && tokens[..] == old(tokens[..])
      {
        var c := js[pos];
        if EndsPrimitive(c) {
          var ok := Emit(Primitive, start);
          if !ok {
            pos := start;
            return Err(NoMemory);
          }
          pos := pos - 1;
          return Ok(());
        }
        if c < ' ' {
          pos := start;
          return Err(Invalid);
        }
        pos := pos + 1;
      }
      pos := start;
      return Err(Partial);
    }

    /** The four digits of a \\u escape: pos moves from the u to the last of them. */
    method SkipHex(js: string) returns (e: Option<Code>)
      modifies `pos
      ensures e == HexError(js, old(pos) + 1, 4)
      ensures e.None? ==> pos == old(pos) + 4 < |js|
    {
      var i := 0;
      while i < 4
        invariant 0 <= i <= 4 && pos == old(pos) + i && (i > 0 ==> pos < |js|)
        invariant HexError(js, old(pos) + 1, 4) == HexError(js, pos + 1, 4 - i)
      {
        pos := pos + 1;
        if pos >= |js| {
          return Some(Partial);
        }
        if !IsHex(js[pos]) {
          return Some(Invalid);
        }
        i := i + 1;
      }
      return None;
    }

    /** On success the token is appended and pos stands on the closing quote. */
    method ParseString(js: string) returns (r: Result<(), Code>)
      requires Valid() && pos < |js|
      modifies `pos, `toknext, tokens
      ensures toknext >= old(toknext) && toknext <= tokens.Length
      ensures match ScanString(js, old(pos) + 1)
              case Err(code) => r == Err(code)
              case Ok(q) =>
                if old(toknext) >= tokens.Length then r == Err(NoMemory)
                else
                  && r == Ok(()) && pos == q && toknext == old(toknext) + 1
                  && tokens[..toknext] ==
                     old(tokens[..toknext]) + [Token(String, old(pos) + 1, q, 0, toksuper)]
      ensures forall i :: toknext <= i < tokens.Length ==> tokens[i] == old(tokens[i])
    {
      hide HexError;
      var start := pos;
      pos := pos + 1;
      while pos < |js|
        invariant start < pos
        invariant ScanString(js, start + 1) == ScanString(js, pos)
        invariant toknext == old(toknext) && tokens[..] == old(tokens[..])
      {
        var c := js[pos];
        if c == '"' {
          var ok := Emit(String, start + 1);
          if !ok {
            pos := start;
            return Err(NoMemory);
          }
          return Ok(());
        }
        if c == '\\' && pos + 1 < |js| {
          pos := pos + 1;
          if IsSimpleEscape(js[pos]) {
          } else if js[pos] == 'u' {
            var e := SkipHex(js);
            if e.Some? {
              pos := start;
              return Err(e.value);
            }
          } else {
            pos := start;
            return Err(Invalid);
          }
        }
        pos := pos + 1;
      }
      pos := start;
      return Err(Partial);
    }

    /** tokens[toksuper].size++, when there is an enclosing token. */
    method Grow()
      requires toknext <= tokens.Length && -1 <= toksuper < toknext
      modifies tokens
      ensures tokens[..toknext] == Bump(old(tokens[..toknext]), toksuper)
      ensures forall i :: toknext <= i < tokens.Length ==> tokens[i] == old(tokens[i])
    {
      if toksuper != -1 {
        tokens[toksuper] := tokens[toksuper].(size := tokens[toksuper].size + 1);
      }
    }

    /** The '{' and '[' case. */
    method OpenBracket(c: char) returns (r: Result<(), Code>)
      requires Valid() && (c == '{' || c == '[')
      modifies this, tokens
      ensures old(toknext) <= toknext <= tokens.Length
      ensures match Open(tokens.Length, old(View()), BracketKind(c))
              case Err(code) => r == Err(code)
              case Ok(s) => r == Ok(()) && View().(pos := pos + 1) == s
      ensures forall i :: toknext <= i < tokens.Length ==> tokens[i] == old(tokens[i])
    {
      ghost var before := View();
      var ok := Alloc();
      if !ok {
        return Err(NoMemory);
      }
      var t := toknext - 1;
      assert toksuper < t;
      if toksuper != -1 {
        tokens[toksuper] := tokens[toksuper].(size := tokens[toksuper].size + 1);
        tokens[t] := tokens[t].(parent := toksuper);
      }
      tokens[t] := tokens[t].(kind := if c == '{' then Object else Array);
      tokens[t] := tokens[t].(start := pos);
      assert tokens[..t] == Bump(before.toks, toksuper);
      assert tokens[t] == Token(BracketKind(c), pos, -1, 0, toksuper);
      toksuper := toknext - 1;
      return Ok(());
    }

    /** The '}' and ']' case: scan backwards for the innermost open token. */
    method CloseBracket(c: char) returns (r: Result<(), Code>)
      requires Valid() && (c == '}' || c == ']')
      modifies this, tokens
      ensures toknext == old(toknext)
      ensures match Close(old(View()), BracketKind(c))
              case Err(code) => r == Err(code)
              case Ok(s) => r == Ok(()) && View().(pos := pos + 1) == s
      ensures forall i :: toknext <= i < tokens.Length ==> tokens[i] == old(tokens[i])
    {
      var kind := if c == '}' then Object else Array;
      ghost var toks := tokens[..toknext];
      var i := toknext - 1;
      while i >= 0
        invariant -1 <= i < toknext && tokens[..toknext] == toks && toknext == old(toknext)
        invariant LastOpen(toks, i + 1) == LastOpen(toks, toknext)
        invariant pos == old(pos) && tokens[..] == old(tokens[..])
      {
        if tokens[i].start != -1 && tokens[i].end == -1 {
          if tokens[i].kind != kind {
            return Err(Invalid);
          }
          tokens[i] := tokens[i].(end := pos + 1);
          toksuper := tokens[i].parent;
          assert tokens[..toknext] == toks[i := toks[i].(end := pos + 1)];
          break;
        }
        i := i - 1;
      }
      if i == -1 {
        return Err(Invalid);
      }
      return Ok(());
    }

    /** One token that the scanner just appended, counted under its parent. */
    lemma GrownIsAppended(toks: seq<Token>, t: Token, super: int)
      requires -1 <= super < |toks|
      ensures Bump(toks + [t], super) == Bump(toks, super) + [t]
    {
    }

    /** The check behind the main loop: whether a token is still open. */
    method Unclosed() returns (open: bool)
      requires toknext <= tokens.Length
      ensures open == (LastOpen(tokens[..toknext], toknext) != -1)
    {
      ghost var toks := tokens[..toknext];
      var i := toknext - 1;
      while i >= 0
        invariant -1 <= i < toknext
        invariant LastOpen(toks, i + 1) == LastOpen(toks, toknext)
      {
        if tokens[i].start != -1 && tokens[i].end == -1 {
          return true;
        }
        i := i - 1;
      }
      return false;
    }

    /** The body of the main loop and its increment: one Step of the machine. */
    method Iterate(js: string) returns (r: Result<(), Code>)
      requires Valid() && pos < |js|
      modifies this, tokens
      ensures old(toknext) <= toknext <= tokens.Length
      ensures match Step(js, tokens.Length, old(View()))
              case Err(code) => r == Err(code)
              case Ok(s) => r == Ok(()) && View() == s
      ensures forall i :: toknext <= i < tokens.Length ==> tokens[i] == old(tokens[i])
    {
      hide Open, Close, LastOpen, Links, ScanString, ScanPrimitive;
      var c := js[pos];
      ghost var s := View();
      if c == '{' || c == '[' {
        r := OpenBracket(c);
      } else if c == '}' || c == ']' {
        r := CloseBracket(c);
      } else if c == '"' {
        r := ParseString(js);
        if r.Ok? {
          GrownIsAppended(s.toks, tokens[..toknext][|s.toks|], toksuper);
          Grow();
        }
      } else if IsWs(c) {
        r := Ok(());
      } else if c == ':' {
        toksuper := toknext - 1;
        r := Ok(());
      } else if c == ',' {
        if toksuper != -1 && tokens[toksuper].kind != Array && tokens[toksuper].kind != Object {
          toksuper := tokens[toksuper].parent;
        }
        r := Ok(());
      } else {
        r := ParsePrimitive(js);
        if r.Ok? {
          GrownIsAppended(s.toks, tokens[..toknext][|s.toks|], toksuper);
          Grow();
        }
      }
      if r.Ok? {
        pos := pos + 1;
      }
    }
  }

  /** Tokenises js into tokens: the machine's verdict, and on success exactly its tokens. */
  method ParseInto(js: string, tokens: array<Token>) returns (r: Result<nat, Code>)
    modifies tokens
    ensures match Parse(js, tokens.Length)
            case Err(code) => r == Err(code)
            case Ok(ts) => r == Ok(|ts|) && |ts| <= tokens.Length && tokens[..|ts|] == ts
    ensures r.Ok? ==> forall i :: r.value <= i < tokens.Length ==> tokens[i] == old(tokens[i])
  {
    hide Step, LastOpen;
    var p := new Parser(tokens);
    while p.pos < |js|
      invariant p.tokens == tokens && p.Valid() && p.pos <= |js|
      invariant Run(js, tokens.Length, p.View()) == Parse(js, tokens.Length)
      invariant forall i :: p.toknext <= i < tokens.Length ==> tokens[i] == old(tokens[i])
      decreases |js| - p.pos
    {
      var ok := p.Iterate(js);
      if ok.Err? {
        return Err(ok.error);
      }
    }
    var open := p.Unclosed();
    return if open then Err(Partial) else Ok(p.toknext);
  }
}
