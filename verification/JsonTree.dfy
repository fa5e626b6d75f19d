/**
 JSON documents as trees that carry their own white space (sections 2 to 7 of RFC 8259), their text, and the
 pre-order token array the text should tokenise to.
 */
module JsonTree {
  import opened JsonMachine

  /** Texts are lexemes: a primitive as written, the characters between a string's quotes. */
  datatype Value =
    | Prim(text: string)
    | Str(text: string)
    | Arr(ws: string, items: Items)
    | Obj(ws: string, members: Members)

  datatype Items = NoItems | Item(before: string, value: Value, after: string, rest: Items)

  datatype Members =
    | NoMembers
    | Member(before: string, key: string, afterKey: string, beforeValue: string, value: Value, after: string,
             rest: Members)

  predicate AllWs(t: string) {
    forall i :: 0 <= i < |t| ==> IsWs(t[i])
  }

  /** A number, true, false or null: what matters is only that no character of it means anything else. */
  predicate IsLexeme(t: string) {
    && t != []
    && t[0] !in "{[\""
    && forall i :: 0 <= i < |t| ==> !EndsPrimitive(t[i]) && t[i] >= ' '
  }

  /** The characters of a string: unescaped ones, and the escapes of section 7. */
  predicate IsStringBody(t: string) {
    if t == [] then true
    else if t[0] == '\\' then
      if |t| < 2 then false
      else if IsSimpleEscape(t[1]) then IsStringBody(t[2..])
      else t[1] == 'u' && |t| >= 6 && IsHex(t[2]) && IsHex(t[3]) && IsHex(t[4]) && IsHex(t[5]) && IsStringBody(t[6..])
    else t[0] != '"' && IsStringBody(t[1..])
  }

  predicate Grammatical(v: Value) {
    match v
    case Prim(t) => IsLexeme(t)
    case Str(t) => IsStringBody(t)
    case Arr(ws, items) => AllWs(ws) && GrammaticalItems(items)
    case Obj(ws, members) => AllWs(ws) && GrammaticalMembers(members)
  }

  predicate GrammaticalItems(items: Items) {
    match items
    case NoItems => true
    case Item(b, v, a, rest) => AllWs(b) && Grammatical(v) && AllWs(a) && GrammaticalItems(rest)
  }

  predicate GrammaticalMembers(members: Members) {
    match members
    case NoMembers => true
    case Member(b, k, ak, bv, v, a, rest) =>
      && AllWs(b) && IsStringBody(k) && AllWs(ak) && AllWs(bv) && Grammatical(v) && AllWs(a)
      && GrammaticalMembers(rest)
  }

  function Quoted(t: string): string {
    "\"" + (t + "\"")
  }

  function Render(v: Value): (r: string)
    ensures Grammatical(v) ==> |r| > 0
  {
    match v
    case Prim(t) => t
    case Str(t) => Quoted(t)
    case Arr(ws, items) => "[" + (ws + (RenderItems(items) + "]"))
    case Obj(ws, members) => "{" + (ws + (RenderMembers(members) + "}"))
  }

  function RenderItems(items: Items): string {
    match items
    case NoItems => ""
    case Item(b, v, a, NoItems) => b + (Render(v) + a)
    case Item(b, v, a, rest) => b + (Render(v) + (a + ("," + RenderItems(rest))))
  }

  function RenderMembers(members: Members): string {
    match members
    case NoMembers => ""
    case Member(b, k, ak, bv, v, a, NoMembers) => b + (Quoted(k) + (ak + (":" + (bv + (Render(v) + a)))))
    case Member(b, k, ak, bv, v, a, rest) =>
      b + (Quoted(k) + (ak + (":" + (bv + (Render(v) + (a + ("," + RenderMembers(rest))))))))
  }

  /** The number of tokens of a value: one for each value and one for each key. */
  function Count(v: Value): nat {
    match v
    case Prim(_) => 1
    case Str(_) => 1
    case Arr(_, items) => 1 + CountItems(items)
    case Obj(_, members) => 1 + CountMembers(members)
  }

  function CountItems(items: Items): nat {
    match items
    case NoItems => 0
    case Item(_, v, _, rest) => Count(v) + CountItems(rest)
  }

  function CountMembers(members: Members): nat {
    match members
    case NoMembers => 0
    case Member(_, _, _, _, v, _, rest) => 1 + Count(v) + CountMembers(rest)
  }

  function LenItems(items: Items): nat {
    match items
    case NoItems => 0
    case Item(_, _, _, rest) => 1 + LenItems(rest)
  }

  function LenMembers(members: Members): nat {
    match members
    case NoMembers => 0
    case Member(_, _, _, _, _, _, rest) => 1 + LenMembers(rest)
  }

  /** The tokens of v, whose text starts at off, whose own token has index base and whose parent is given. */
  function Flatten(v: Value, off: nat, base: nat, parent: int): (toks: seq<Token>)
    ensures |toks| == Count(v)
  {
    match v
    case Prim(t) => [Token(Primitive, off, off + |t|, 0, parent)]
    case Str(t) => [Token(String, off + 1, off + 1 + |t|, 0, parent)]
    case Arr(ws, items) =>
      [Token(Array, off, off + |Render(v)|, LenItems(items), parent)]
      + FlattenItems(items, off + 1 + |ws|, base + 1, base)
    case Obj(ws, members) =>
      [Token(Object, off, off + |Render(v)|, LenMembers(members), parent)]
      + FlattenMembers(members, off + 1 + |ws|, base + 1, base)
  }

  function FlattenItems(items: Items, off: nat, base: nat, parent: int): (toks: seq<Token>)
    ensures |toks| == CountItems(items)
  {
    match items
    case NoItems => []
    case Item(b, v, a, rest) =>
      Flatten(v, off + |b|, base, parent)
      + FlattenItems(rest, off + |b| + |Render(v)| + |a| + 1, base + Count(v), parent)
  }

  /** Where the value of the first member starts. */
  function ValueOffset(members: Members, off: nat): nat
    requires members.Member?
  {
    off + |members.before| + |members.key| + 2 + |members.afterKey| + 1 + |members.beforeValue|
  }

  function FlattenMembers(members: Members, off: nat, base: nat, parent: int): (toks: seq<Token>)
    ensures |toks| == CountMembers(members)
  {
    match members
    case NoMembers => []
    case Member(b, k, ak, bv, v, a, rest) =>
      var at := off + |b| + 1;
      var valueAt := ValueOffset(members, off);
      [Token(String, at, at + |k|, 1, parent)]
      + Flatten(v, valueAt, base + 1, base)
      + FlattenMembers(rest, valueAt + |Render(v)| + |a| + 1, base + 1 + Count(v), parent)
  }

  /** Tokens of one subtree, from index base on: closed, children of parent or of an earlier one of them. */
  predicate Inside(toks: seq<Token>, base: int, parent: int) {
    forall i :: 0 <= i < |toks| ==>
      toks[i].end >= 0 && (toks[i].parent == parent || base <= toks[i].parent < base + i)
  }

  lemma InsideJoin(a: seq<Token>, b: seq<Token>, base: int, parent: int)
    requires Inside(a, base, parent) && Inside(b, base + |a|, parent)
    ensures Inside(a + b, base, parent)
  {
  }

  /** A subtree put under one more token of its own. */
  lemma InsideNest(head: Token, kids: seq<Token>, base: int, parent: int)
    requires head.end >= 0 && head.parent == parent && Inside(kids, base + 1, base)
    ensures Inside([head] + kids, base, parent)
    ensures forall i :: 1 <= i < 1 + |kids| ==> base <= ([head] + kids)[i].parent
  {
  }

  lemma {:induction false} FlattenStaysInside(v: Value, off: nat, base: nat, parent: int)
    ensures var toks := Flatten(v, off, base, parent);
            && Inside(toks, base, parent)
            && toks[0].parent == parent
            && forall i :: 1 <= i < |toks| ==> base <= toks[i].parent
    decreases v
  {
    var toks := Flatten(v, off, base, parent);
    match v
    case Prim(_) =>
    case Str(_) =>
    case Arr(ws, items) =>
      ItemsStayInside(items, off + 1 + |ws|, base + 1, base);
      InsideNest(toks[0], FlattenItems(items, off + 1 + |ws|, base + 1, base), base, parent);
    case Obj(ws, members) =>
      MembersStayInside(members, off + 1 + |ws|, base + 1, base);
      InsideNest(toks[0], FlattenMembers(members, off + 1 + |ws|, base + 1, base), base, parent);
  }

  lemma {:induction false} ItemsStayInside(items: Items, off: nat, base: nat, parent: int)
    ensures Inside(FlattenItems(items, off, base, parent), base, parent)
    decreases items
  {
    match items
    case NoItems =>
    case Item(b, v, a, rest) =>
      var restAt := off + |b| + |Render(v)| + |a| + 1;
      FlattenStaysInside(v, off + |b|, base, parent);
      ItemsStayInside(rest, restAt, base + Count(v), parent);
      InsideJoin(Flatten(v, off + |b|, base, parent), FlattenItems(rest, restAt, base + Count(v), parent),
                 base, parent);
  }

  lemma {:induction false} MembersStayInside(members: Members, off: nat, base: nat, parent: int)
    ensures Inside(FlattenMembers(members, off, base, parent), base, parent)
    decreases members
  {
    match members
    case NoMembers =>
    case Member(b, k, ak, bv, v, a, rest) =>
      var toks := FlattenMembers(members, off, base, parent);
      var valueAt := ValueOffset(members, off);
      var restAt := valueAt + |Render(v)| + |a| + 1;
      var value := Flatten(v, valueAt, base + 1, base);
      FlattenStaysInside(v, valueAt, base + 1, base);
      InsideNest(toks[0], value, base, parent);
      MembersStayInside(rest, restAt, base + 1 + Count(v), parent);
      InsideJoin([toks[0]] + value, FlattenMembers(rest, restAt, base + 1 + Count(v), parent), base, parent);
  }
}
