/** What every accepted document's token array looks like, whatever superset of JSON the document is. */
module JsonForest {
  import opened JsonMachine

  function CountChildren(toks: seq<Token>, parent: int): nat {
    if toks == [] then 0
    else CountChildren(toks[..|toks| - 1], parent) + if toks[|toks| - 1].parent == parent then 1 else 0
  }

  function SumSizes(toks: seq<Token>): int {
    if toks == [] then 0 else SumSizes(toks[..|toks| - 1]) + toks[|toks| - 1].size
  }

  /** j starts inside or after i, never across its end. */
  predicate NestedOrDisjoint(i: Token, j: Token) {
    i.end <= j.start || j.end <= i.end
  }

  /** Starts and ends of the tokens written up to position pos, some of them still open. */
  ghost predicate Spans(toks: seq<Token>, pos: int) {
    && (forall i :: 0 <= i < |toks| ==> 0 <= toks[i].start < pos)
    && (forall i :: 0 <= i < |toks| && toks[i].end != -1 ==> toks[i].start <= toks[i].end <= pos)
    && (forall i, j :: 0 <= i < j < |toks| ==> toks[i].start < toks[j].start)
    && (forall i, j :: 0 <= i < j < |toks| && toks[i].end != -1 ==>
          toks[i].end <= toks[j].start || -1 < toks[j].end <= toks[i].end)
  }

  /** Each size is the number of children, and each token is a child or a root. */
  ghost predicate Counts(toks: seq<Token>) {
    && (forall i :: 0 <= i < |toks| ==> toks[i].size == CountChildren(toks, i))
    && SumSizes(toks) + CountChildren(toks, -1) == |toks|
  }

  ghost predicate Growing(s: State) {
    Spans(s.toks, s.pos) && Counts(s.toks)
  }

  /** The invariants of a finished token array over a document of n characters. */
  ghost predicate Forest(toks: seq<Token>, n: nat) {
    && Links(toks)
    && (forall i :: 0 <= i < |toks| ==> 0 <= toks[i].start <= toks[i].end <= n)
    && (forall i, j :: 0 <= i < j < |toks| ==> toks[i].start < toks[j].start)
    && (forall i, j :: 0 <= i < j < |toks| ==> NestedOrDisjoint(toks[i], toks[j]))
    && Counts(toks)
  }

  /** Changing sizes and ends only leaves every child count alone. */
  lemma {:induction false} SameParentsSameCounts(a: seq<Token>, b: seq<Token>, parent: int)
    requires |a| == |b| && forall i :: 0 <= i < |a| ==> a[i].parent == b[i].parent
    ensures CountChildren(a, parent) == CountChildren(b, parent)
  {
    if a != [] {
      SameParentsSameCounts(a[..|a| - 1], b[..|b| - 1], parent);
    }
  }

  lemma {:induction false} SumOfOneChange(toks: seq<Token>, i: nat, t: Token)
    requires i < |toks|
    ensures SumSizes(toks[i := t]) == SumSizes(toks) - toks[i].size + t.size
  {
    var last := |toks| - 1;
    if i < last {
      SumOfOneChange(toks[..last], i, t);
      assert toks[i := t][..last] == toks[..last][i := t];
    } else {
      assert toks[i := t][..last] == toks[..last];
    }
  }

  lemma {:induction false} NoChildrenAhead(toks: seq<Token>, parent: int)
    requires Links(toks) && parent >= |toks|
    ensures CountChildren(toks, parent) == 0
  {
    if toks != [] {
      NoChildrenAhead(toks[..|toks| - 1], parent);
    }
  }

  /** Appending a child of super keeps the size accounting. */
  lemma AppendKeepsCounts(toks: seq<Token>, super: int, t: Token)
    requires Links(toks) && -1 <= super < |toks| && t.parent == super && t.size == 0
    requires Counts(toks)
    ensures Counts(Bump(toks, super) + [t])
  {
    var b := Bump(toks, super);
    var r := b + [t];
    assert r[..|r| - 1] == b;
    forall p: int
      ensures CountChildren(r, p) == CountChildren(toks, p) + if p == super then 1 else 0
    {
      SameParentsSameCounts(toks, b, p);
    }
    NoChildrenAhead(toks, |toks|);
    if super >= 0 {
      SumOfOneChange(toks, super, b[super]);
    }
  }

  lemma AppendKeepsSpans(toks: seq<Token>, pos: nat, super: int, t: Token, next: nat)
    requires Spans(toks, pos) && super < |toks|
    requires pos <= t.start < next && (t.end == -1 || t.start <= t.end <= next)
    ensures Spans(Bump(toks, super) + [t], next)
  {
    var b := Bump(toks, super);
    assert forall i :: 0 <= i < |toks| ==> b[i].start == toks[i].start && b[i].end == toks[i].end;
  }

  lemma AppendKeepsGrowing(cap: nat, s: State, kind: Kind, start: int, end: int, next: nat)
    requires WellFormed(s) && Growing(s)
    requires s.pos <= start < next && (end == -1 || start <= end <= next)
    requires Append(cap, s, kind, start, end, next).Ok?
    ensures Growing(Append(cap, s, kind, start, end, next).value)
  {
    var t := Token(kind, start, end, 0, s.super);
    AppendKeepsCounts(s.toks, s.super, t);
    AppendKeepsSpans(s.toks, s.pos, s.super, t, next);
  }

  lemma CloseKeepsGrowing(s: State, kind: Kind)
    requires WellFormed(s) && Growing(s) && Close(s, kind).Ok?
    ensures Growing(Close(s, kind).value)
  {
    var i := LastOpen(s.toks, |s.toks|);
    var r := Close(s, kind).value.toks;
    SumOfOneChange(s.toks, i, r[i]);
    forall p: int
      ensures CountChildren(r, p) == CountChildren(s.toks, p)
    {
      SameParentsSameCounts(s.toks, r, p);
    }
  }

  lemma MovingKeepsGrowing(s: State, s': State)
    requires Growing(s) && s'.toks == s.toks && s.pos <= s'.pos
    ensures Growing(s')
  {
  }

  lemma StepKeepsGrowing(js: string, cap: nat, s: State)
    requires s.pos < |js| && WellFormed(s) && Growing(s) && Step(js, cap, s).Ok?
    ensures Growing(Step(js, cap, s).value)
  {
    hide Growing, WellFormed, LastOpen, ScanString, ScanPrimitive;
    var c := js[s.pos];
    if c == '{' || c == '[' {
      AppendKeepsGrowing(cap, s, BracketKind(c), s.pos, -1, s.pos + 1);
      MovingKeepsGrowing(Append(cap, s, BracketKind(c), s.pos, -1, s.pos + 1).value, Step(js, cap, s).value);
    } else if c == '}' || c == ']' {
      CloseKeepsGrowing(s, BracketKind(c));
    } else if c == '"' {
      var q := ScanString(js, s.pos + 1).value;
      AppendKeepsGrowing(cap, s, String, s.pos + 1, q, q + 1);
    } else if IsWs(c) || c == ':' || c == ',' {
      MovingKeepsGrowing(s, Step(js, cap, s).value);
    } else {
      var e := ScanPrimitive(js, s.pos).value;
      AppendKeepsGrowing(cap, s, Primitive, s.pos, e, e);
    }
  }

  lemma {:induction false} RunKeepsGrowing(js: string, cap: nat, s: State)
    requires s.pos <= |js| && WellFormed(s) && Growing(s) && Run(js, cap, s).Ok?
    ensures Forest(Run(js, cap, s).value, |js|)
    decreases |js| - s.pos
  {
    if s.pos < |js| {
      StepKeepsGrowing(js, cap, s);
      RunKeepsGrowing(js, cap, Step(js, cap, s).value);
    }
  }

  /** Every accepted document, JSON or not, yields a well-nested forest with exact child counts. */
  lemma AcceptedIsForest(js: string, cap: nat)
    requires Parse(js, cap).Ok?
    ensures Forest(Parse(js, cap).value, |js|)
  {
    RunKeepsGrowing(js, cap, START);
  }
}
