/** Tokenising the text of a tree gives exactly the pre-order array of the tree. */
module JsonRoundTrip {
  import opened Core
  import opened JsonMachine
  import opened JsonTree
  import opened Slices
  import JsonCapacity

  /** The tokeniser passes through s' on its way from s. */
  ghost predicate Reaches(js: string, cap: nat, s: State, s': State) {
    && WellFormed(s) && WellFormed(s') && s.pos <= s'.pos <= |js|
    && Run(js, cap, s) == Run(js, cap, s')
  }

  // ---- Lexemes ----

  lemma {:induction false} SkipsWs(js: string, cap: nat, s: State, ws: string)
    requires WellFormed(s) && At(js, s.pos, ws) && AllWs(ws)
    ensures Reaches(js, cap, s, s.(pos := s.pos + |ws|))
    decreases |ws|
  {
    hide Links;
    if ws != [] {
      assert js[s.pos] == ws[0];
      AtSplit(js, s.pos, ws[..1], ws[1..]);
      assert ws == ws[..1] + ws[1..];
      SkipsWs(js, cap, s.(pos := s.pos + 1), ws[1..]);
    }
  }

  lemma {:induction false} ScansString(js: string, p: nat, t: string)
    requires At(js, p, t + "\"") && IsStringBody(t)
    ensures ScanString(js, p) == Ok(p + |t|)
    decreases |t|
  {
    AtHead(js, p, t + "\"");
    if t != [] {
      var n := if t[0] != '\\' then 1 else if IsSimpleEscape(t[1]) then 2 else 6;
      assert t + "\"" == t[..n] + (t[n..] + "\"");
      AtSplit(js, p, t[..n], t[n..] + "\"");
      ScansString(js, p + n, t[n..]);
      ScansEscape(js, p, t[..n]);
    }
  }

  /** One character of a string body, or one escape. */
  lemma ScansEscape(js: string, p: nat, t: string)
    requires At(js, p, t) && p + |t| < |js| && t != [] && t[0] != '"'
    requires t[0] != '\\' ==> |t| == 1
    requires t[0] == '\\' && |t| >= 2 && IsSimpleEscape(t[1]) ==> |t| == 2
    requires t[0] == '\\' && (|t| < 2 || !IsSimpleEscape(t[1])) ==>
               |t| == 6 && t[1] == 'u' && forall i :: 2 <= i < 6 ==> IsHex(t[i])
    ensures ScanString(js, p) == ScanString(js, p + |t|)
  {
    AtHead(js, p, t);
    if |t| > 1 {
      AtIndex(js, p, t, 1);
    }
    if |t| == 6 {
      AtIndex(js, p, t, 2);
      AtIndex(js, p, t, 3);
      AtIndex(js, p, t, 4);
      AtIndex(js, p, t, 5);
      HexDigits(js, p + 2);
    }
  }

  lemma HexDigits(js: string, p: nat)
    requires p + 4 <= |js| && IsHex(js[p]) && IsHex(js[p + 1]) && IsHex(js[p + 2]) && IsHex(js[p + 3])
    ensures HexError(js, p, 4) == None
  {
    assert HexError(js, p + 3, 1) == None;
    assert HexError(js, p + 2, 2) == None;
  }

  lemma {:induction false} ScansPrimitive(js: string, p: nat, t: string)
    requires At(js, p, t) && forall i :: 0 <= i < |t| ==> !EndsPrimitive(t[i]) && t[i] >= ' '
    ensures ScanPrimitive(js, p) == ScanPrimitive(js, p + |t|)
    decreases |t|
  {
    if t != [] {
      assert js[p] == t[0];
      assert t == t[..1] + t[1..];
      AtSplit(js, p, t[..1], t[1..]);
      ScansPrimitive(js, p + 1, t[1..]);
    }
  }

  // ---- Single iterations of the main loop ----

  lemma OneStep(js: string, cap: nat, s: State, s': State)
    requires s.pos < |js| && WellFormed(s) && Step(js, cap, s) == Ok(s')
    ensures Reaches(js, cap, s, s')
  {
    hide Step;
  }

  lemma StepsOpen(js: string, cap: nat, s: State, c: char)
    requires WellFormed(s) && At(js, s.pos, [c]) && (c == '{' || c == '[') && |s.toks| < cap
    ensures Reaches(js, cap, s, State(s.pos + 1,
              Bump(s.toks, s.super) + [Token(BracketKind(c), s.pos, -1, 0, s.super)], |s.toks|))
  {
    AtHead(js, s.pos, [c]);
  }

  /** Closing the container at k, when everything after it is closed. */
  lemma StepsClose(js: string, cap: nat, s: State, c: char, k: nat)
    requires WellFormed(s) && At(js, s.pos, [c]) && (c == '}' || c == ']')
    requires k < |s.toks| && IsOpen(s.toks[k]) && s.toks[k].kind == BracketKind(c)
    requires forall i :: k < i < |s.toks| ==> !IsOpen(s.toks[i])
    ensures Reaches(js, cap, s, State(s.pos + 1, s.toks[k := s.toks[k].(end := s.pos + 1)], s.toks[k].parent))
  {
    AtHead(js, s.pos, [c]);
    assert Step(js, cap, s) == Close(s, BracketKind(c));
  }

  lemma StepsColon(js: string, cap: nat, s: State)
    requires WellFormed(s) && At(js, s.pos, ":")
    ensures Reaches(js, cap, s, State(s.pos + 1, s.toks, |s.toks| - 1))
  {
    AtHead(js, s.pos, ":");
  }

  lemma StepsComma(js: string, cap: nat, s: State)
    requires WellFormed(s) && At(js, s.pos, ",")
    ensures Reaches(js, cap, s, Comma(s))
  {
    AtHead(js, s.pos, ",");
  }

  /** The state after a childless token for s.super, with text up to next. */
  function AfterLeaf(s: State, kind: Kind, start: int, end: int, next: nat): State
    requires s.super < |s.toks|
  {
    State(next, Bump(s.toks, s.super) + [Token(kind, start, end, 0, s.super)], s.super)
  }

  lemma StepsString(js: string, cap: nat, s: State, t: string)
    requires WellFormed(s) && At(js, s.pos, Quoted(t)) && IsStringBody(t) && |s.toks| < cap
    ensures Reaches(js, cap, s, AfterLeaf(s, String, s.pos + 1, s.pos + 1 + |t|, s.pos + 2 + |t|))
  {
    hide Run, Step, Links, IsStringBody, ScanString, At;
    AtHead(js, s.pos, Quoted(t));
    AtSplit(js, s.pos, "\"", t + "\"");
    ScansString(js, s.pos + 1, t);
    StepsQuote(js, cap, s, s.pos + 1 + |t|);
  }

  lemma StepsQuote(js: string, cap: nat, s: State, q: nat)
    requires WellFormed(s) && |s.toks| < cap
    requires s.pos < |js| && js[s.pos] == '"' && ScanString(js, s.pos + 1) == Ok(q)
    ensures Reaches(js, cap, s, AfterLeaf(s, String, s.pos + 1, q, q + 1))
  {
    hide Run, ScanString;
    OneStep(js, cap, s, AfterLeaf(s, String, s.pos + 1, q, q + 1));
  }

  /** The character after a primitive must be one that ends it. */
  predicate Bounded(js: string, p: nat, v: Value) {
    v.Prim? ==> p + |Render(v)| < |js| && EndsPrimitive(js[p + |Render(v)|])
  }

  lemma IsBounded(js: string, p: nat, v: Value, ws: string, tail: string)
    requires At(js, p + |Render(v)|, ws + tail) && AllWs(ws) && tail != [] && EndsPrimitive(tail[0])
    ensures Bounded(js, p, v)
  {
    AtHead(js, p + |Render(v)|, ws + tail);
  }

  lemma StepsPrimitive(js: string, cap: nat, s: State, t: string)
    requires WellFormed(s) && At(js, s.pos, t) && IsLexeme(t) && Bounded(js, s.pos, Prim(t)) && |s.toks| < cap
    ensures Reaches(js, cap, s, AfterLeaf(s, Primitive, s.pos, s.pos + |t|, s.pos + |t|))
  {
    AtHead(js, s.pos, t);
    ScansPrimitive(js, s.pos, t);
  }

  // ---- The same behind white space, keeping hold of the text that follows ----

  lemma QuotedLength(t: string)
    ensures |Quoted(t)| == |t| + 2
  {
  }

  lemma PassesWs(js: string, cap: nat, s: State, ws: string, tail: string)
    requires WellFormed(s) && AllWs(ws) && At(js, s.pos, ws + tail)
    ensures Reaches(js, cap, s, s.(pos := s.pos + |ws|)) && At(js, s.pos + |ws|, tail)
  {
    hide Run, Step, Links, At, AllWs;
    AtSplit(js, s.pos, ws, tail);
    SkipsWs(js, cap, s, ws);
  }

  lemma PassesString(js: string, cap: nat, s: State, t: string, tail: string)
    requires WellFormed(s) && IsStringBody(t) && |s.toks| < cap && At(js, s.pos, Quoted(t) + tail)
    ensures Reaches(js, cap, s, AfterLeaf(s, String, s.pos + 1, s.pos + 1 + |t|, s.pos + 2 + |t|))
    ensures At(js, s.pos + 2 + |t|, tail)
  {
    hide Run, Step, Links, At, IsStringBody, Bump, Quoted;
    QuotedLength(t);
    AtSplit(js, s.pos, Quoted(t), tail);
    StepsString(js, cap, s, t);
  }

  lemma SkipsToString(js: string, cap: nat, s: State, ws: string, t: string, tail: string)
    requires WellFormed(s) && AllWs(ws) && IsStringBody(t) && |s.toks| < cap
    requires At(js, s.pos, ws + (Quoted(t) + tail))
    ensures var at := s.pos + |ws|;
            && Reaches(js, cap, s, AfterLeaf(s, String, at + 1, at + 1 + |t|, at + 2 + |t|))
            && At(js, at + 2 + |t|, tail)
  {
    hide Run, Step, Links, At, AllWs, IsStringBody, Bump, Quoted;
    PassesWs(js, cap, s, ws, Quoted(t) + tail);
    PassesString(js, cap, s.(pos := s.pos + |ws|), t, tail);
  }

  lemma SkipsToColon(js: string, cap: nat, s: State, ws: string, tail: string)
    requires WellFormed(s) && AllWs(ws) && At(js, s.pos, ws + (":" + tail))
    ensures Reaches(js, cap, s, State(s.pos + |ws| + 1, s.toks, |s.toks| - 1)) && At(js, s.pos + |ws| + 1, tail)
  {
    hide Run, Step, Links, At, AllWs;
    PassesWs(js, cap, s, ws, ":" + tail);
    AtSplit(js, s.pos + |ws|, ":", tail);
    StepsColon(js, cap, s.(pos := s.pos + |ws|));
  }

  lemma PassesComma(js: string, cap: nat, s: State, tail: string)
    requires WellFormed(s) && At(js, s.pos, "," + tail)
    ensures Reaches(js, cap, s, Comma(s)) && At(js, s.pos + 1, tail)
  {
    hide Run, Step, Links, At;
    AtSplit(js, s.pos, ",", tail);
    StepsComma(js, cap, s);
  }

  lemma OpensContainer(js: string, cap: nat, s: State, c: char, ws: string, tail: string)
    requires WellFormed(s) && AllWs(ws) && (c == '{' || c == '[') && |s.toks| < cap
    requires At(js, s.pos, [c] + (ws + tail))
    ensures Reaches(js, cap, s, State(s.pos + 1 + |ws|,
              Bump(s.toks, s.super) + [Token(BracketKind(c), s.pos, -1, 0, s.super)], |s.toks|))
    ensures At(js, s.pos + 1 + |ws|, tail)
  {
    hide Run, Step, Links, At, AllWs, Bump;
    AtSplit(js, s.pos, [c], ws + tail);
    StepsOpen(js, cap, s, c);
    PassesWs(js, cap,
             State(s.pos + 1, Bump(s.toks, s.super) + [Token(BracketKind(c), s.pos, -1, 0, s.super)], |s.toks|),
             ws, tail);
  }

  // ---- Values ----

  /** n more children for the token at k. */
  function Grown(toks: seq<Token>, k: nat, n: int): (r: seq<Token>)
    requires k < |toks|
    ensures |r| == |toks|
  {
    toks[k := toks[k].(size := toks[k].size + n)]
  }

  lemma GrownOnce(toks: seq<Token>, k: nat)
    requires k < |toks|
    ensures Grown(toks, k, 1) == Bump(toks, k)
  {
  }

  /** The state after a value at s: its tokens appended, one more child for the enclosing token. */
  function AfterValue(s: State, v: Value): State
    requires s.super < |s.toks|
  {
    State(s.pos + |Render(v)|, Bump(s.toks, s.super) + Flatten(v, s.pos, |s.toks|, s.super), s.super)
  }

  lemma {:induction false} ParsesValue(js: string, cap: nat, s: State, v: Value)
    requires WellFormed(s) && Grammatical(v) && At(js, s.pos, Render(v)) && Bounded(js, s.pos, v)
    requires |s.toks| + Count(v) <= cap
    ensures Reaches(js, cap, s, AfterValue(s, v))
    decreases v, 0
  {
    hide Run, Step, Links;
    match v
    case Prim(t) => StepsPrimitive(js, cap, s, t);
    case Str(t) => StepsString(js, cap, s, t);
    case Arr(ws, items) => ParsesArray(js, cap, s, ws, items);
    case Obj(ws, members) => ParsesObject(js, cap, s, ws, members);
  }

  /** The closing bracket at end gives the container opened with head, now of n children, its final form. */
  lemma ClosesContainer(js: string, cap: nat, toks: seq<Token>, head: Token, n: int, kids: seq<Token>, end: nat,
                        super: int, c: char)
    requires head.parent < |toks| && IsOpen(head) && (c == '}' || c == ']') && head.kind == BracketKind(c)
    requires Inside(kids, |toks| + 1, |toks|) && At(js, end, [c])
    requires var last := State(end, Grown(Bump(toks, head.parent) + [head], |toks|, n) + kids, super); WellFormed(last)
    ensures Reaches(js, cap, State(end, Grown(Bump(toks, head.parent) + [head], |toks|, n) + kids, super),
              State(end + 1, Bump(toks, head.parent) + ([head.(size := head.size + n, end := end + 1)] + kids),
                    head.parent))
  {
    hide Run, Step, Links, At, Bump;
    var k := |toks|;
    var last := State(end, Grown(Bump(toks, head.parent) + [head], k, n) + kids, super);
    StepsClose(js, cap, last, c, k);
    assert last.toks[k := last.toks[k].(end := end + 1)]
        == Bump(toks, head.parent) + ([head.(size := head.size + n, end := end + 1)] + kids);
  }

  // ---- Arrays ----

  lemma {:induction false} ParsesArray(js: string, cap: nat, s: State, ws: string, items: Items)
    requires var v := Arr(ws, items); Grammatical(v) && At(js, s.pos, Render(v)) && |s.toks| + Count(v) <= cap
    requires WellFormed(s)
    ensures Reaches(js, cap, s, AfterValue(s, Arr(ws, items)))
    decreases items, 2
  {
    hide Run, Step, Links, At, AllWs, Bump;
    var k, at := |s.toks|, s.pos + 1 + |ws|;
    var head := Token(Array, s.pos, -1, 0, s.super);
    OpensContainer(js, cap, s, '[', ws, RenderItems(items) + "]");
    var inside := State(at, Bump(s.toks, s.super) + [head], k);
    ParsesItems(js, cap, inside, items, k);
    AtSplit(js, at, RenderItems(items), "]");
    ItemsStayInside(items, at, k + 1, k);
    ClosesContainer(js, cap, s.toks, head, LenItems(items), FlattenItems(items, at, k + 1, k),
                    at + |RenderItems(items)|, k, ']');
  }

  /** The state in front of the closing bracket. */
  function AfterItems(s: State, items: Items, k: nat): State
    requires k < |s.toks|
  {
    State(s.pos + |RenderItems(items)|, Grown(s.toks, k, LenItems(items)) + FlattenItems(items, s.pos, |s.toks|, k), k)
  }

  /** One more item in front: the tokens of the rest come after it, and the container has one more child. */
  lemma InFront(toks: seq<Token>, k: nat, n: int, first: seq<Token>, others: seq<Token>)
    requires k < |toks|
    ensures Grown(Bump(toks, k) + first, k, n) + others == Grown(toks, k, 1 + n) + (first + others)
  {
  }

  lemma BumpKeepsKinds(toks: seq<Token>, k: nat, first: seq<Token>)
    requires k < |toks|
    ensures (Bump(toks, k) + first)[k].kind == toks[k].kind
  {
  }

  lemma OnlyItem(s: State, items: Items, k: nat)
    requires k == s.super < |s.toks| && items.Item? && items.rest.NoItems?
    ensures var at := s.pos + |items.before|;
            AfterItems(s, items, k)
            == AfterValue(s.(pos := at), items.value).(pos := at + |Render(items.value)| + |items.after|)
  {
    var value := Flatten(items.value, s.pos + |items.before|, |s.toks|, k);
    assert FlattenItems(items, s.pos, |s.toks|, k) == value + [] == value;
    assert LenItems(items) == 1;
    GrownOnce(s.toks, k);
  }

  /** A value between white space, followed by a comma or a closing bracket. */
  lemma {:induction false} ParsesItem(js: string, cap: nat, s: State, b: string, v: Value, a: string, tail: string)
    requires WellFormed(s) && AllWs(b) && AllWs(a) && Grammatical(v) && |s.toks| + Count(v) <= cap
    requires At(js, s.pos, b + (Render(v) + (a + tail))) && tail != [] && EndsPrimitive(tail[0])
    ensures var after := AfterValue(s.(pos := s.pos + |b|), v).(pos := s.pos + |b| + |Render(v)| + |a|);
            Reaches(js, cap, s, after) && At(js, after.pos, tail)
    decreases v, 1
  {
    hide Run, Step, Links, At, AllWs, Bump;
    PassesWs(js, cap, s, b, Render(v) + (a + tail));
    AtSplit(js, s.pos + |b|, Render(v), a + tail);
    IsBounded(js, s.pos + |b|, v, a, tail);
    ParsesValue(js, cap, s.(pos := s.pos + |b|), v);
    PassesWs(js, cap, AfterValue(s.(pos := s.pos + |b|), v), a, tail);
  }

  lemma {:induction false} ParsesItems(js: string, cap: nat, s: State, items: Items, k: nat)
    requires WellFormed(s) && k == s.super && s.toks[k].kind == Array
    requires GrammaticalItems(items) && At(js, s.pos, RenderItems(items) + "]")
    requires |s.toks| + CountItems(items) <= cap
    ensures Reaches(js, cap, s, AfterItems(s, items, k))
    decreases items, 1
  {
    hide Run, Step, Links, At;
    match items
    case NoItems =>
      AtSplit(js, s.pos, "", "]");
      assert Grown(s.toks, k, 0) + [] == s.toks;
    case Item(b, v, a, NoItems) =>
      assert RenderItems(items) + "]" == b + (Render(v) + (a + "]"));
      ParsesItem(js, cap, s, b, v, a, "]");
      OnlyItem(s, items, k);
    case Item(b, v, a, rest) => ParsesMoreItems(js, cap, s, items, k);
  }

  lemma {:induction false} ParsesMoreItems(js: string, cap: nat, s: State, items: Items, k: nat)
    requires WellFormed(s) && k == s.super && s.toks[k].kind == Array && items.Item? && items.rest.Item?
    requires GrammaticalItems(items) && At(js, s.pos, RenderItems(items) + "]")
    requires |s.toks| + CountItems(items) <= cap
    ensures Reaches(js, cap, s, AfterItems(s, items, k))
    decreases items, 0
  {
    hide Run, Step, Links, At, AllWs, Bump, Grammatical, Flatten, Render, Count;
    var Item(b, v, a, rest) := items;
    var tail := RenderItems(rest) + "]";
    assert RenderItems(items) + "]" == b + (Render(v) + (a + ("," + tail)));
    ParsesItem(js, cap, s, b, v, a, "," + tail);
    var value := Flatten(v, s.pos + |b|, |s.toks|, k);
    var after := State(s.pos + |b| + |Render(v)| + |a|, Bump(s.toks, k) + value, k);
    PassesComma(js, cap, after, tail);
    BumpKeepsKinds(s.toks, k, value);
    var next := after.(pos := after.pos + 1);
    ParsesItems(js, cap, next, rest, k);
    InFront(s.toks, k, LenItems(rest), value, FlattenItems(rest, next.pos, |next.toks|, k));
    assert AfterItems(next, rest, k) == AfterItems(s, items, k);
  }

  // ---- Objects ----

  lemma {:induction false} ParsesObject(js: string, cap: nat, s: State, ws: string, members: Members)
    requires var v := Obj(ws, members); Grammatical(v) && At(js, s.pos, Render(v)) && |s.toks| + Count(v) <= cap
    requires WellFormed(s)
    ensures Reaches(js, cap, s, AfterValue(s, Obj(ws, members)))
    decreases members, 3
  {
    hide Run, Step, Links, At, AllWs, Bump;
    var k, at := |s.toks|, s.pos + 1 + |ws|;
    var head := Token(Object, s.pos, -1, 0, s.super);
    OpensContainer(js, cap, s, '{', ws, RenderMembers(members) + "}");
    var inside := State(at, Bump(s.toks, s.super) + [head], k);
    ParsesMembers(js, cap, inside, members, k);
    AtSplit(js, at, RenderMembers(members), "}");
    MembersStayInside(members, at, k + 1, k);
    ClosesContainer(js, cap, s.toks, head, LenMembers(members), FlattenMembers(members, at, k + 1, k),
                    at + |RenderMembers(members)|, LastSuper(members, k, k + 1), '}');
  }

  /** The key on which the cursor rests after the members, if there are any; their container otherwise. */
  function LastSuper(members: Members, k: nat, base: nat): nat {
    match members
    case NoMembers => k
    case Member(_, _, _, _, v, _, rest) => if rest.NoMembers? then base else LastSuper(rest, k, base + 1 + Count(v))
  }

  /** The state in front of the closing brace. */
  function AfterMembers(s: State, members: Members, k: nat): State
    requires k < |s.toks|
  {
    State(s.pos + |RenderMembers(members)|,
          Grown(s.toks, k, LenMembers(members)) + FlattenMembers(members, s.pos, |s.toks|, k),
          LastSuper(members, k, |s.toks|))
  }

  /** The tokens of the first member. */
  function MemberTokens(m: Members, off: nat, base: nat, parent: int): seq<Token>
    requires m.Member?
  {
    var at := off + |m.before| + 1;
    [Token(String, at, at + |m.key|, 1, parent)] + Flatten(m.value, ValueOffset(m, off), base + 1, base)
  }

  /** The state after the first member and the white space behind it: the cursor rests on its key. */
  function AfterMember(s: State, m: Members, k: nat): State
    requires k < |s.toks| && m.Member?
  {
    State(ValueOffset(m, s.pos) + |Render(m.value)| + |m.after|,
          Bump(s.toks, k) + MemberTokens(m, s.pos, |s.toks|, k), |s.toks|)
  }

  lemma OnlyMember(s: State, m: Members, k: nat)
    requires k < |s.toks| && m.Member? && m.rest.NoMembers?
    ensures AfterMembers(s, m, k) == AfterMember(s, m, k)
  {
    var first := MemberTokens(m, s.pos, |s.toks|, k);
    assert FlattenMembers(m, s.pos, |s.toks|, k) == first + [] == first;
    assert LenMembers(m) == 1;
    GrownOnce(s.toks, k);
  }

  lemma KeyOwnsValue(toks: seq<Token>, k: nat, key: Token, value: seq<Token>)
    requires k < |toks| && key.size == 0
    ensures Bump(Bump(toks, k) + [key], |toks|) + value == Bump(toks, k) + ([key.(size := 1)] + value)
  {
  }

  /** The text of a member up to its value. */
  function KeyText(m: Members, tail: string): string
    requires m.Member?
  {
    m.before + (Quoted(m.key) + (m.afterKey + (":" + tail)))
  }

  /** The text of members up to the closing brace, seen from the first of them. */
  lemma FirstMemberText(m: Members)
    requires m.Member?
    ensures var tail := if m.rest.Member? then "," + (RenderMembers(m.rest) + "}") else "}";
            RenderMembers(m) + "}" == KeyText(m, m.beforeValue + (Render(m.value) + (m.after + tail)))
  {
    hide Render, Quoted;
  }

  /** From the white space before a key to just before the white space of its value. */
  lemma ParsesKey(js: string, cap: nat, s: State, m: Members, tail: string)
    requires WellFormed(s) && m.Member? && GrammaticalMembers(m) && |s.toks| < cap && At(js, s.pos, KeyText(m, tail))
    ensures var at := s.pos + |m.before|;
            var after := at + 2 + |m.key| + |m.afterKey| + 1;
            && Reaches(js, cap, s, AfterLeaf(s, String, at + 1, at + 1 + |m.key|, after).(super := |s.toks|))
            && At(js, after, tail)
  {
    hide Run, Step, Links, At, AllWs, IsStringBody, Bump;
    var at := s.pos + |m.before|;
    SkipsToString(js, cap, s, m.before, m.key, m.afterKey + (":" + tail));
    SkipsToColon(js, cap, AfterLeaf(s, String, at + 1, at + 1 + |m.key|, at + 2 + |m.key|), m.afterKey, tail);
  }

  lemma {:induction false} ParsesMember(js: string, cap: nat, s: State, m: Members, k: nat, tail: string)
    requires WellFormed(s) && k == s.super && m.Member? && GrammaticalMembers(m)
    requires At(js, s.pos, KeyText(m, m.beforeValue + (Render(m.value) + (m.after + tail))))
    requires tail != [] && EndsPrimitive(tail[0]) && |s.toks| + 1 + Count(m.value) <= cap
    ensures Reaches(js, cap, s, AfterMember(s, m, k)) && At(js, AfterMember(s, m, k).pos, tail)
    decreases m, 0
  {
    hide Run, Step, Links, At, AllWs, IsStringBody, Bump;
    ParsesKey(js, cap, s, m, m.beforeValue + (Render(m.value) + (m.after + tail)));
    var at := s.pos + |m.before| + 1;
    var keyed := AfterLeaf(s, String, at, at + |m.key|, at + 1 + |m.key| + |m.afterKey| + 1).(super := |s.toks|);
    ParsesItem(js, cap, keyed, m.beforeValue, m.value, m.after, tail);
    KeyOwnsValue(s.toks, k, Token(String, at, at + |m.key|, 0, k),
                 Flatten(m.value, ValueOffset(m, s.pos), |s.toks| + 1, |s.toks|));
  }

  lemma {:induction false} ParsesMembers(js: string, cap: nat, s: State, members: Members, k: nat)
    requires WellFormed(s) && k == s.super && s.toks[k].kind == Object
    requires GrammaticalMembers(members) && At(js, s.pos, RenderMembers(members) + "}")
    requires |s.toks| + CountMembers(members) <= cap
    ensures Reaches(js, cap, s, AfterMembers(s, members, k))
    decreases members, 2
  {
    hide Run, Step, Links, At;
    match members
    case NoMembers =>
      AtSplit(js, s.pos, "", "}");
      assert Grown(s.toks, k, 0) + [] == s.toks;
    case Member(b, key, ak, bv, v, a, NoMembers) =>
      assert RenderMembers(members) + "}" == KeyText(members, bv + (Render(v) + (a + "}")));
      ParsesMember(js, cap, s, members, k, "}");
      OnlyMember(s, members, k);
    case Member(b, key, ak, bv, v, a, rest) => ParsesMoreMembers(js, cap, s, members, k);
  }

  lemma {:induction false} ParsesMoreMembers(js: string, cap: nat, s: State, members: Members, k: nat)
    requires WellFormed(s) && k == s.super && s.toks[k].kind == Object && members.Member? && members.rest.Member?
    requires GrammaticalMembers(members) && At(js, s.pos, RenderMembers(members) + "}")
    requires |s.toks| + CountMembers(members) <= cap
    ensures Reaches(js, cap, s, AfterMembers(s, members, k))
    decreases members, 1
  {
    hide Run, Step, Links, At, AllWs, IsStringBody, Bump, Quoted, KeyText, Grammatical, Flatten, Render, Count;
    var Member(b, key, ak, bv, v, a, rest) := members;
    var tail := RenderMembers(rest) + "}";
    FirstMemberText(members);
    QuotedLength(key);
    ParsesMember(js, cap, s, members, k, "," + tail);
    var after := AfterMember(s, members, k);
    var first := MemberTokens(members, s.pos, |s.toks|, k);
    PassesComma(js, cap, after, tail);
    BumpKeepsKinds(s.toks, k, first);
    var next := State(after.pos + 1, after.toks, k);
    ParsesMembers(js, cap, next, rest, k);
    InFront(s.toks, k, LenMembers(rest), first, FlattenMembers(rest, next.pos, |next.toks|, k));
    assert AfterMembers(next, rest, k) == AfterMembers(s, members, k);
  }

  // ---- Documents ----

  /** A JSON text: a value between white space. */
  function Document(before: string, v: Value, after: string): string {
    before + (Render(v) + after)
  }

  lemma {:induction false} NothingOpen(toks: seq<Token>, n: nat)
    requires n <= |toks| && forall i :: 0 <= i < n ==> !IsOpen(toks[i])
    ensures LastOpen(toks, n) == -1
  {
  }

  lemma EndsClosed(js: string, cap: nat, v: Value, off: nat)
    requires WellFormed(State(|js|, Flatten(v, off, 0, -1), -1))
    ensures Run(js, cap, State(|js|, Flatten(v, off, 0, -1), -1)) == Ok(Flatten(v, off, 0, -1))
  {
    FlattenStaysInside(v, off, 0, -1);
    NothingOpen(Flatten(v, off, 0, -1), Count(v));
  }

  lemma DocumentParts(before: string, v: Value, after: string)
    requires AllWs(after) && !(v.Prim? && after == "")
    ensures var js := Document(before, v, after);
            && At(js, 0, before) && At(js, |before|, Render(v)) && At(js, |before| + |Render(v)|, after)
            && |js| == |before| + |Render(v)| + |after| && Bounded(js, |before|, v)
  {
    hide Render;
    var js := Document(before, v, after);
    AtSplit(js, 0, before, Render(v) + after);
    AtSplit(js, |before|, Render(v), after);
    if after != "" {
      AtHead(js, |before| + |Render(v)|, after);
    }
  }

  lemma ReachesOn(js: string, cap: nat, s: State, s': State, s'': State)
    requires Reaches(js, cap, s, s') && Reaches(js, cap, s', s'')
    ensures Reaches(js, cap, s, s'')
  {
  }

  /** A value at the top of a document, read from its start. */
  lemma ReachesRoot(js: string, cap: nat, v: Value, off: nat)
    requires Grammatical(v) && At(js, off, Render(v)) && Bounded(js, off, v) && Count(v) <= cap
    ensures Reaches(js, cap, State(off, [], -1), State(off + |Render(v)|, Flatten(v, off, 0, -1), -1))
  {
    hide Step, Run, Flatten, Render, Grammatical, At, Bounded, Count;
    var s := State(off, [], -1);
    ParsesValue(js, cap, s, v);
    assert [] + Flatten(v, off, 0, -1) == Flatten(v, off, 0, -1);
  }

  lemma ReachedEnd(js: string, cap: nat, v: Value, off: nat)
    requires Reaches(js, cap, START, State(|js|, Flatten(v, off, 0, -1), -1))
    ensures Parse(js, cap) == Ok(Flatten(v, off, 0, -1))
  {
    hide Run, Flatten, WellFormed;
    EndsClosed(js, cap, v, off);
  }

  lemma ParsesDocument(cap: nat, before: string, v: Value, after: string)
    requires AllWs(before) && AllWs(after) && Grammatical(v) && !(v.Prim? && after == "") && Count(v) <= cap
    ensures Parse(Document(before, v, after), cap) == Ok(Flatten(v, |before|, 0, -1))
  {
    hide *;
    StartsWell();
    var js := Document(before, v, after);
    var first := State(|before|, [], -1);
    var last := State(|before| + |Render(v)|, Flatten(v, |before|, 0, -1), -1);
    DocumentParts(before, v, after);
    SkipsWs(js, cap, START, before);
    ReachesRoot(js, cap, v, |before|);
    ReachesOn(js, cap, START, first, last);
    StandsWell(js, cap, START, last);
    SkipsWs(js, cap, last, after);
    ReachesOn(js, cap, START, last, last.(pos := |js|));
    ReachedEnd(js, cap, v, |before|);
  }

  lemma StartsWell()
    ensures WellFormed(START) && START == State(0, [], -1)
  {
  }

  lemma StandsWell(js: string, cap: nat, s: State, s': State)
    requires Reaches(js, cap, s, s')
    ensures WellFormed(s')
  {
  }

  /** A primitive at the very end of the input is taken for a truncated one. */
  lemma BarePrimitive(cap: nat, before: string, t: string)
    requires AllWs(before) && IsLexeme(t)
    ensures Parse(Document(before, Prim(t), ""), cap) == Err(Partial)
  {
    var js := Document(before, Prim(t), "");
    assert t + "" == t;
    assert At(js, 0, before + t);
    AtSplit(js, 0, before, t);
    SkipsWs(js, cap, START, before);
    AtHead(js, |before|, t);
    ScansPrimitive(js, |before|, t);
    assert ScanPrimitive(js, |js|) == Err(Partial);
  }

  /**
   The whole behaviour on JSON texts (section 2 of RFC 8259): given a slot per token they are tokenised to exactly
   their pre-order array, with fewer slots to NoMemory; the one exception is a primitive with nothing behind it.
   */
  lemma DocumentVerdict(cap: nat, before: string, v: Value, after: string)
    requires AllWs(before) && AllWs(after) && Grammatical(v)
    ensures Parse(Document(before, v, after), cap)
         == if v.Prim? && after == "" then Err(Partial)
            else if cap < Count(v) then Err(NoMemory)
            else Ok(Flatten(v, |before|, 0, -1))
  {
    if v.Prim? && after == "" {
      BarePrimitive(cap, before, v.text);
    } else {
      ParsesDocument(Count(v), before, v, after);
      JsonCapacity.CapacityThreshold(Document(before, v, after), Count(v), cap);
    }
  }
}
