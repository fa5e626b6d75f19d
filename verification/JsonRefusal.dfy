/** What the codes of refusal say about a document: whether it can still become an accepted one. */
module JsonRefusal {
  import opened Core
  import opened JsonLexemes
  import opened JsonMachine
  import opened JsonStack

  /** One lexeme is read alike whatever follows, unless it was cut off. */
  lemma StepOn(js: string, t: string, p: nat, stack: seq<Kind>)
    requires p < |js| && StackStep(js, p, stack) != Err(Partial)
    ensures StackStep(js + t, p, stack) == StackStep(js, p, stack)
  {
    hide ScanString, ScanPrimitive;
    var c := js[p];
    assert (js + t)[p] == c;
    if c == '"' {
      StringOn(js, t, p + 1);
    } else if c !in {'{', '[', '}', ']', ':', ','} && !IsWs(c) {
      PrimitiveOn(js, t, p);
    }
  }

  lemma {:induction false} InvalidStays(js: string, t: string, p: nat, stack: seq<Kind>)
    requires p <= |js| && Recognise(js, p, stack) == Rejected(Invalid)
    ensures Recognise(js + t, p, stack) == Rejected(Invalid)
    decreases |js| - p
  {
    hide StackStep;
    if p < |js| {
      StepOn(js, t, p, stack);
      if StackStep(js, p, stack).Ok? {
        var (next, after) := StackStep(js, p, stack).value;
        InvalidStays(js, t, next, after);
      }
    }
  }

  /** The brackets that close everything that is open, the innermost first. */
  function Closers(stack: seq<Kind>): string {
    if stack == [] then ""
    else [if stack[|stack| - 1] == Object then '}' else ']'] + Closers(stack[..|stack| - 1])
  }

  predicate Brackets(stack: seq<Kind>) {
    forall i :: 0 <= i < |stack| ==> stack[i] == Object || stack[i] == Array
  }

  lemma {:induction false} ClosersClose(js: string, p: nat, stack: seq<Kind>)
    requires Brackets(stack) && p <= |js| && js[p..] == Closers(stack)
    ensures Recognise(js, p, stack) == Accepted
    decreases |stack|
  {
    if stack != [] {
      assert js[p] == Closers(stack)[0];
      assert js[p + 1..] == js[p..][1..] == Closers(stack[..|stack| - 1]);
      ClosersClose(js, p + 1, stack[..|stack| - 1]);
    }
  }

  lemma StepKeepsBrackets(js: string, p: nat, stack: seq<Kind>)
    requires p < |js| && Brackets(stack) && StackStep(js, p, stack).Ok?
    ensures Brackets(StackStep(js, p, stack).value.1)
  {
    hide ScanString, ScanPrimitive;
  }

  /** A lexeme that is cut off can be completed, and what is open behind it be closed. */
  lemma LexemeCompletes(js: string, p: nat, stack: seq<Kind>) returns (t: string)
    requires p < |js| && Brackets(stack) && StackStep(js, p, stack) == Err(Partial)
    ensures Recognise(js + t, p, stack) == Accepted
  {
    if js[p] == '"' {
      hide ScanString, Brackets;
      var end := StringCompletes(js, p + 1);
      t := end + Closers(stack);
      StringOn(js + end, Closers(stack), p + 1);
      assert js + end + Closers(stack) == js + t;
      assert (js + t)[|js + end|..] == Closers(stack);
      ClosersClose(js + t, |js + end|, stack);
    } else {
      hide ScanPrimitive, Brackets;
      PrimitiveCompletes(js, p);
      t := " " + Closers(stack);
      PrimitiveOn(js + " ", Closers(stack), p);
      assert js + " " + Closers(stack) == js + t;
      assert (js + t)[|js| + 1..] == Closers(stack) && (js + t)[|js|] == ' ';
      ClosersClose(js + t, |js| + 1, stack);
    }
  }

  lemma {:induction false} PartialCompletes(js: string, p: nat, stack: seq<Kind>) returns (t: string)
    requires p <= |js| && Brackets(stack) && Recognise(js, p, stack) == Rejected(Partial)
    ensures Recognise(js + t, p, stack) == Accepted
    decreases |js| - p
  {
    if p == |js| {
      t := Closers(stack);
      assert (js + t)[p..] == t;
      ClosersClose(js + t, p, stack);
    } else {
      hide StackStep, Brackets;
      if StackStep(js, p, stack).Ok? {
        var (next, after) := StackStep(js, p, stack).value;
        StepKeepsBrackets(js, p, stack);
        t := PartialCompletes(js, next, after);
        StepOn(js, t, p, stack);
      } else {
        t := LexemeCompletes(js, p, stack);
      }
    }
  }

  lemma {:induction false} RecogniserCodes(js: string, p: nat, stack: seq<Kind>)
    requires p <= |js|
    ensures Recognise(js, p, stack) in {Accepted, Rejected(Partial), Rejected(Invalid)}
    decreases |js| - p
  {
    if p < |js| {
      ScanCodes(js, p);
      ScanCodes(js, p + 1);
      hide ScanString, ScanPrimitive;
      if StackStep(js, p, stack).Ok? {
        RecogniserCodes(js, StackStep(js, p, stack).value.0, StackStep(js, p, stack).value.1);
      }
    }
  }

  /** Some text behind the document makes it one that is accepted, given slots enough. */
  ghost predicate Completable(js: string) {
    exists t: string, cap: nat :: Parse(js + t, cap).Ok?
  }

  lemma AcceptedIsRecognised(js: string)
    ensures Recognise(js, 0, []) == Accepted <==> Parse(js, |js|).Ok?
    ensures forall cap: nat :: Parse(js, cap).Ok? ==> Recognise(js, 0, []) == Accepted
  {
    hide Recognise, Parse;
    forall cap: nat | Parse(js, cap).Ok?
      ensures Recognise(js, 0, []) == Accepted
    {
      ParseMatchesRecogniser(js, cap);
    }
    ParseMatchesRecogniser(js, |js|);
  }

  lemma CompletableMeans(js: string)
    ensures Completable(js) <==> Recognise(js, 0, []) in {Accepted, Rejected(Partial)}
  {
    hide Recognise, Parse;
    RecogniserCodes(js, 0, []);
    if Recognise(js, 0, []) == Accepted {
      AcceptedIsRecognised(js);
      assert js + "" == js;
      assert Parse(js + "", |js|).Ok?;
    } else if Recognise(js, 0, []) == Rejected(Partial) {
      var t := PartialCompletes(js, 0, []);
      AcceptedIsRecognised(js + t);
      assert Parse(js + t, |js + t|).Ok?;
    } else if Completable(js) {
      var t: string, cap: nat :| Parse(js + t, cap).Ok?;
      InvalidStays(js, t, 0, []);
      AcceptedIsRecognised(js + t);
    }
  }

  /**
   The codes of refusal, for every document and slots enough: Partial exactly for one that is not accepted but has a
   continuation that is, Invalid exactly for one that has none.
   */
  lemma RefusalCodes(js: string, cap: nat)
    requires |js| <= cap
    ensures Parse(js, cap) == Err(Partial) <==> !Parse(js, cap).Ok? && Completable(js)
    ensures Parse(js, cap) == Err(Invalid) <==> !Completable(js)
  {
    hide Recognise, Parse, Completable;
    ParseMatchesRecogniser(js, cap);
    CompletableMeans(js);
    RecogniserCodes(js, 0, []);
  }

  /** A backslash starts one of nine escapes; whatever follows, a string with another one is refused. */
  lemma BadEscapeIsInvalid(js: string, p: nat)
    requires p + 1 < |js| && js[p] == '\\' && js[p + 1] !in {'"', '\\', '/', 'b', 'f', 'n', 'r', 't', 'u'}
    ensures ScanString(js, p) == Err(Invalid)
  {
    CharacterClasses(js[p + 1]);
  }
}
