/**
 The tokeniser keeps no bracket stack: it finds the innermost open bracket by scanning its own output backwards.
 Recognise is a recogniser that does keep one, and no tokens. The two agree on every document.
 */
module JsonStack {
  import opened Core
  import opened JsonMachine

  datatype Verdict = Accepted | Rejected(code: Code)

  /** Reads one lexeme at p with the given brackets open, the innermost last: the next position and the new stack. */
  function StackStep(js: string, p: nat, stack: seq<Kind>): (r: Result<(nat, seq<Kind>), Code>)
    requires p < |js|
    ensures r.Ok? ==> p < r.value.0 <= |js|
  {
    var c := js[p];
    if c == '{' || c == '[' then Ok((p + 1, stack + [if c == '{' then Object else Array]))
    else if c == '}' || c == ']' then
      if stack == [] || stack[|stack| - 1] != (if c == '}' then Object else Array) then Err(Invalid)
      else Ok((p + 1, stack[..|stack| - 1]))
    else if c == '"' then
      match ScanString(js, p + 1)
      case Err(code) => Err(code)
      case Ok(q) => Ok((q + 1, stack))
    else if IsWs(c) || c == ':' || c == ',' then Ok((p + 1, stack))
    else
      match ScanPrimitive(js, p)
      case Err(code) => Err(code)
      case Ok(e) => Ok((e, stack))
  }

  function Recognise(js: string, p: nat, stack: seq<Kind>): Verdict
    requires p <= |js|
    decreases |js| - p
  {
    if p == |js| then
      if stack == [] then Accepted else Rejected(Partial)
    else
      match StackStep(js, p, stack)
      case Err(code) => Rejected(code)
      case Ok((next, after)) => Recognise(js, next, after)
  }

  /** The implicit stack: the kinds of the open tokens, in index order. */
  function OpenKinds(toks: seq<Token>): seq<Kind> {
    if toks == [] then []
    else
      var t := toks[|toks| - 1];
      var below := OpenKinds(toks[..|toks| - 1]);
      if IsOpen(t) then below + [t.kind] else below
  }

  lemma {:induction false} SameOpenKinds(a: seq<Token>, b: seq<Token>)
    requires |a| == |b|
    requires forall i :: 0 <= i < |a| ==> a[i].kind == b[i].kind && (IsOpen(a[i]) <==> IsOpen(b[i]))
    ensures OpenKinds(a) == OpenKinds(b)
  {
    if a != [] {
      SameOpenKinds(a[..|a| - 1], b[..|b| - 1]);
    }
  }

  lemma OpenKindsOfAppend(toks: seq<Token>, super: int, t: Token)
    requires super < |toks|
    ensures OpenKinds(Bump(toks, super) + [t]) == if IsOpen(t) then OpenKinds(toks) + [t.kind] else OpenKinds(toks)
  {
    assert (Bump(toks, super) + [t])[..|toks|] == Bump(toks, super);
    SameOpenKinds(Bump(toks, super), toks);
  }

  /** The backward scan finds the top of the implicit stack. */
  lemma {:induction false} LastOpenIsTop(toks: seq<Token>, n: nat)
    requires n <= |toks|
    ensures LastOpen(toks, n) == -1 <==> OpenKinds(toks[..n]) == []
    ensures LastOpen(toks, n) >= 0 ==>
              && OpenKinds(toks[..n]) != []
              && toks[LastOpen(toks, n)].kind == OpenKinds(toks[..n])[|OpenKinds(toks[..n])| - 1]
  {
    if n > 0 {
      assert toks[..n][..n - 1] == toks[..n - 1];
      LastOpenIsTop(toks, n - 1);
    }
  }

  /** Closing what the backward scan finds pops the implicit stack. */
  lemma {:induction false} ClosingPops(toks: seq<Token>, n: nat, t: Token)
    requires n <= |toks| && LastOpen(toks, n) >= 0 && !IsOpen(t)
    ensures OpenKinds(toks[..n]) != []
    ensures OpenKinds(toks[LastOpen(toks, n) := t][..n]) == OpenKinds(toks[..n])[..|OpenKinds(toks[..n])| - 1]
  {
    var i := LastOpen(toks, n);
    var closed := toks[i := t];
    assert toks[..n][..n - 1] == toks[..n - 1] && closed[..n][..n - 1] == closed[..n - 1];
    if i == n - 1 {
      assert closed[..n - 1] == toks[..n - 1];
    } else {
      ClosingPops(toks, n - 1, t);
    }
  }

  /** A closing bracket pops the implicit stack, or is refused, just as the recogniser does. */
  lemma CloseMatchesPop(s: State, kind: Kind)
    requires WellFormed(s)
    ensures var stack, r := OpenKinds(s.toks), Close(s, kind);
            if stack == [] || stack[|stack| - 1] != kind then r == Err(Invalid)
            else r.Ok? && OpenKinds(r.value.toks) == stack[..|stack| - 1]
  {
    assert s.toks[..|s.toks|] == s.toks;
    LastOpenIsTop(s.toks, |s.toks|);
    var i := LastOpen(s.toks, |s.toks|);
    if i >= 0 && s.toks[i].kind == kind {
      var t := s.toks[i].(end := s.pos + 1);
      ClosingPops(s.toks, |s.toks|, t);
      assert s.toks[i := t][..|s.toks|] == s.toks[i := t];
    }
  }

  /** The tokeniser's step from s had result r, and the recogniser's had the same on the stack of open tokens. */
  ghost predicate Matches(js: string, cap: nat, s: State, r: Result<State, Code>)
    requires s.pos < |js|
  {
    var stack := StackStep(js, s.pos, OpenKinds(s.toks));
    if r.Ok? then stack == Ok((r.value.pos, OpenKinds(r.value.toks)))
    else if r.error == NoMemory then |s.toks| >= cap
    else stack == Err(r.error)
  }

  lemma BracketsMatchRecogniser(js: string, cap: nat, s: State)
    requires s.pos < |js| && WellFormed(s) && js[s.pos] in "{}[]"
    ensures Matches(js, cap, s, Step(js, cap, s))
  {
    hide OpenKinds, LastOpen, Links;
    var c := js[s.pos];
    if c == '{' || c == '[' {
      OpenKindsOfAppend(s.toks, s.super, Token(BracketKind(c), s.pos, -1, 0, s.super));
    } else {
      CloseMatchesPop(s, BracketKind(c));
    }
  }

  lemma StringsMatchRecogniser(js: string, cap: nat, s: State)
    requires s.pos < |js| && WellFormed(s) && js[s.pos] == '"'
    ensures Matches(js, cap, s, Step(js, cap, s))
  {
    hide OpenKinds, ScanString, ScanPrimitive, Bump, Links;
    ScanNeverNoMemory(js, s.pos + 1);
    var scan := ScanString(js, s.pos + 1);
    if scan.Ok? {
      OpenKindsOfAppend(s.toks, s.super, Token(String, s.pos + 1, scan.value, 0, s.super));
    }
  }

  /**
   Lock step, on every input: an iteration takes the open tokens, in index order, to the recogniser's next stack, and
   both move to the same position or fail with the same code. Only NoMemory is the tokeniser's own.
   */
  lemma StepMatchesRecogniser(js: string, cap: nat, s: State)
    requires s.pos < |js| && WellFormed(s)
    ensures Matches(js, cap, s, Step(js, cap, s))
  {
    var c := js[s.pos];
    if c in "{}[]" {
      BracketsMatchRecogniser(js, cap, s);
    } else if c == '"' {
      StringsMatchRecogniser(js, cap, s);
    } else if !IsWs(c) && c != ':' && c != ',' {
      ScanNeverNoMemory(js, s.pos);
      var scan := ScanPrimitive(js, s.pos);
      if scan.Ok? {
        OpenKindsOfAppend(s.toks, s.super, Token(Primitive, s.pos, scan.value, 0, s.super));
      }
    }
  }

  lemma {:induction false} ScanNeverNoMemory(js: string, p: nat)
    ensures ScanString(js, p) != Err(NoMemory) && ScanPrimitive(js, p) != Err(NoMemory)
    decreases |js| - p
  {
    if p < |js| {
      ScanNeverNoMemory(js, p + 1);
      ScanNeverNoMemory(js, p + 2);
      ScanNeverNoMemory(js, p + 6);
    }
  }

  lemma {:induction false} RunMatchesRecogniser(js: string, cap: nat, s: State)
    requires s.pos <= |js| && WellFormed(s)
    ensures var r := Run(js, cap, s);
            r == Err(NoMemory) ||
            Recognise(js, s.pos, OpenKinds(s.toks)) == if r.Ok? then Accepted else Rejected(r.error)
    decreases |js| - s.pos
  {
    if s.pos == |js| {
      assert s.toks[..|s.toks|] == s.toks;
      LastOpenIsTop(s.toks, |s.toks|);
    } else {
      StepMatchesRecogniser(js, cap, s);
      if Step(js, cap, s).Ok? {
        RunMatchesRecogniser(js, cap, Step(js, cap, s).value);
      }
    }
  }

  /** A slot per character is always enough. */
  lemma {:induction false} EnoughSlots(js: string, cap: nat, s: State)
    requires s.pos <= |js| <= cap && WellFormed(s) && |s.toks| <= s.pos
    ensures Run(js, cap, s) != Err(NoMemory)
    decreases |js| - s.pos
  {
    if s.pos < |js| {
      StepMatchesRecogniser(js, cap, s);
      if Step(js, cap, s).Ok? {
        EnoughSlots(js, cap, Step(js, cap, s).value);
      }
    }
  }

  /** Running out of slots apart, the tokeniser's verdict is the explicit-stack recogniser's. */
  lemma ParseMatchesRecogniser(js: string, cap: nat)
    ensures var r := Parse(js, cap);
            if r == Err(NoMemory) then cap < |js|
            else Recognise(js, 0, []) == if r.Ok? then Accepted else Rejected(r.error)
  {
    RunMatchesRecogniser(js, cap, START);
    if cap >= |js| {
      EnoughSlots(js, cap, START);
    }
  }
}
