/** The read-only view of include/etlx/json/json.hpp, and what its lookups mean on the tree behind the tokens. */
module JsonView {
  import opened Core
  import opened Decimal
  import opened JsonMachine
  import opened JsonTree
  import opened JsonRoundTrip
  import opened Slices
  import JsonParser

  /** The next index from i on, in the whole array, of a key of the container whose raw text is key; or -1. */
  function FindKey(src: string, toks: seq<Token>, container: int, key: string, i: nat): (r: int)
    requires i <= |toks|
    ensures -1 <= r < |toks|
    decreases |toks| - i
  {
    if i == |toks| then -1
    else if toks[i].parent == container && toks[i].kind == String && Raw(src, toks[i]) == key then i
    else FindKey(src, toks, container, key, i + 1)
  }

  /** The index of the n-th child of the container from i on, or -1. */
  function FindChild(toks: seq<Token>, container: int, n: nat, i: nat): (r: int)
    requires i <= |toks|
    ensures -1 <= r < |toks|
    decreases |toks| - i
  {
    if i == |toks| then -1
    else if toks[i].parent != container then FindChild(toks, container, n, i + 1)
    else if n == 0 then i
    else FindChild(toks, container, n - 1, i + 1)
  }

  /** The source slice of a token; nothing for spans that make no sense. */
  function Raw(src: string, t: Token): string {
    if t.start < 0 || t.end < t.start || t.start > |src| then ""
    else src[t.start..if t.end <= |src| then t.end else |src|]
  }

  datatype Json = Json(src: string, toks: seq<Token>, index: int) {
    predicate IsValid() {
      0 <= index < |toks|
    }

    function TypeOf(): Kind {
      if IsValid() then toks[index].kind else Undefined
    }

    function AsString(): string {
      if IsValid() then Raw(src, toks[index]) else ""
    }

    function Size(): int {
      if TypeOf() == Object || TypeOf() == Array then toks[index].size else 0
    }

    /** operator[](key). */
    method Member(key: string) returns (r: Json)
      ensures r == MemberOf(this, key)
    {
      if TypeOf() != Object {
        return INVALID;
      }
      var i := index + 1;
      while i < |toks|
        invariant index < i <= |toks|
        invariant FindKey(src, toks, index, key, i) == FindKey(src, toks, index, key, index + 1)
      {
        if toks[i].parent == index && toks[i].kind == String {
          var k := Json(src, toks, i);
          if k.AsString() == key {
            return Json(src, toks, i + 1);
          }
        }
        i := i + 1;
      }
      return INVALID;
    }

    /** operator[](n). */
    method Element(n: nat) returns (r: Json)
      ensures r == ElementOf(this, n)
    {
      if TypeOf() != Array {
        return INVALID;
      }
      var seen := 0;
      var j := index + 1;
      while j < |toks|
        invariant index < j <= |toks| && 0 <= seen <= n
        invariant FindChild(toks, index, n - seen, j) == FindChild(toks, index, n, index + 1)
      {
        if toks[j].parent == index {
          if seen == n {
            return Json(src, toks, j);
          }
          seen := seen + 1;
        }
        j := j + 1;
      }
      return INVALID;
    }

    /** Decimal integers. The accumulator is a 64-bit signed integer, so the digits read must denote less than 2^63. */
    method AsInt() returns (r: Result<int, Code>)
      requires TypeOf() == Primitive ==> Number(DigitPrefix(Magnitude(AsString()))) < INT64_LIMIT
      ensures r == IntOf(this)
    {
      hide Number, DigitPrefix, Raw;
      if TypeOf() != Primitive {
        return Err(WrongType);
      }
      var s := AsString();
      if s == "" {
        return Err(Invalid);
      }
      var i, neg := 0, false;
      if s[0] == '-' {
        neg := true;
        i := 1;
      }
      if i >= |s| {
        return Err(Invalid);
      }
      assert s[i..] == Magnitude(s);
      var v := ReadDigits(s, i);
      if v.None? {
        return Err(WrongType);
      }
      var n: int := v.value;
      return Ok(if neg then -n else n);
    }
  }

  const INT64_LIMIT: nat := 0x8000_0000_0000_0000

  /** The loop of AsInt. */
  method ReadDigits(s: string, start: nat) returns (n: Option<nat>)
    requires start <= |s| && Number(DigitPrefix(s[start..])) < INT64_LIMIT
    ensures n == if AllDigits(s[start..]) then Some(Number(s[start..])) else None
  {
    hide Number, DigitPrefix, AllDigits;
    ghost var digits := s[start..];
    assert IsNumber(digits, 0, 0) by {
      NothingRead(digits);
    }
    var v: int := 0;
    for i := start to |s|
      invariant IsNumber(digits, i - start, v) && v < INT64_LIMIT
    {
      var c := s[i];
      assert c == digits[i - start];
      if c < '0' || c > '9' {
        NotAllDigits(digits, i - start);
        return None;
      }
      OneMoreDigit(digits, i - start, v);
      v := v * 10 + (c as int - '0' as int);
    }
    assert digits[..|digits|] == digits;
    return Some(v);
  }

  lemma NothingRead(s: string)
    ensures IsNumber(s, 0, 0)
  {
  }

  lemma NotAllDigits(s: string, i: nat)
    requires i < |s| && !IsDigit(s[i])
    ensures !AllDigits(s)
  {
  }

  const INVALID := Json("", [], -1)

  /** Tokenises into the caller's array and looks at the first token. */
  method ParseToView(js: string, tokens: array<Token>) returns (r: Result<Json, Code>)
    modifies tokens
    ensures var p := Parse(js, tokens.Length);
            r == if p.Err? then Err(p.error) else if p.value == [] then Err(Invalid) else Ok(Json(js, p.value, 0))
  {
    var n := JsonParser.ParseInto(js, tokens);
    if n.Err? {
      return Err(n.error);
    }
    if n.value == 0 {
      return Err(Invalid);
    }
    return Ok(Json(js, tokens[..n.value], 0));
  }

  function MemberOf(j: Json, key: string): Json {
    if j.TypeOf() != Object then INVALID
    else
      var i := FindKey(j.src, j.toks, j.index, key, j.index + 1);
      if i == -1 then INVALID else Json(j.src, j.toks, i + 1)
  }

  function ElementOf(j: Json, n: nat): Json {
    if j.TypeOf() != Array then INVALID
    else
      var i := FindChild(j.toks, j.index, n, j.index + 1);
      if i == -1 then INVALID else Json(j.src, j.toks, i)
  }

  function Magnitude(s: string): string {
    if s != "" && s[0] == '-' then s[1..] else s
  }

  /** An optional minus sign and at least one digit. */
  function IntOf(j: Json): Result<int, Code> {
    var s := j.AsString();
    if j.TypeOf() != Primitive then Err(WrongType)
    else if Magnitude(s) == "" then Err(Invalid)
    else if !AllDigits(Magnitude(s)) then Err(WrongType)
    else
      var n: int := Number(Magnitude(s));
      Ok(if s[0] == '-' then -n else n)
  }

  // ---- Navigation agrees with the tree ----

  /** Where the text of the value of token t starts. */
  function TextOf(t: Token): int {
    if t.kind == String then t.start - 1 else t.start
  }

  /** The tokens of v stand at j, over the text of v, and no later token is a child of one of them. */
  ghost predicate Denotes(j: Json, v: Value) {
    && j.IsValid()
    && 0 <= TextOf(j.toks[j.index])
    && var off := TextOf(j.toks[j.index]);
    && At(j.toks, j.index, Flatten(v, off, j.index, j.toks[j.index].parent))
    && At(j.src, off, Render(v))
    && forall i :: j.index + Count(v) <= i < |j.toks| ==> !(j.index <= j.toks[i].parent < j.index + Count(v))
  }

  /** The value of the first member with this key. */
  function Lookup(members: Members, key: string): Option<Value> {
    match members
    case NoMembers => None
    case Member(_, k, _, _, v, _, rest) => if k == key then Some(v) else Lookup(rest, key)
  }

  /** The n-th item. */
  function Nth(items: Items, n: nat): Option<Value> {
    match items
    case NoItems => None
    case Item(_, v, _, rest) => if n == 0 then Some(v) else Nth(rest, n - 1)
  }

  /** A parsed document denotes its tree. */
  lemma RootDenotes(cap: nat, before: string, v: Value, after: string)
    requires AllWs(before) && AllWs(after) && Grammatical(v) && Parse(Document(before, v, after), cap).Ok?
    ensures var js := Document(before, v, after); Denotes(Json(js, Parse(js, cap).value, 0), v)
  {
    var js := Document(before, v, after);
    DocumentVerdict(cap, before, v, after);
    FlattenStaysInside(v, |before|, 0, -1);
    var toks := Flatten(v, |before|, 0, -1);
    assert At(toks, 0, toks);
    assert At(js, 0, before + (Render(v) + after));
    AtSplit(js, 0, before, Render(v) + after);
    AtSplit(js, |before|, Render(v), after);
  }

  /** The text of a string value is what lies between its quotes. */
  lemma StringSlice(src: string, at: nat, t: string)
    requires At(src, at, Quoted(t))
    ensures src[at + 1..at + 1 + |t|] == t && at + 2 + |t| <= |src|
  {
    AtSplit(src, at, "\"", t + "\"");
    AtSplit(src, at + 1, t, "\"");
  }

  /** Scalars give back their lexemes, containers their number of members or items. */
  lemma ScalarsAndSizes(j: Json, v: Value)
    requires Denotes(j, v)
    ensures match v
            case Prim(t) => j.TypeOf() == Primitive && j.AsString() == t
            case Str(t) => j.TypeOf() == String && j.AsString() == t
            case Arr(_, items) => j.TypeOf() == Array && j.Size() == LenItems(items)
            case Obj(_, members) => j.TypeOf() == Object && j.Size() == LenMembers(members)
  {
    var off := TextOf(j.toks[j.index]);
    AtHead(j.toks, j.index, Flatten(v, off, j.index, j.toks[j.index].parent));
    if v.Str? {
      StringSlice(j.src, off, v.text);
    }
  }

  lemma {:induction false} KeySkips(src: string, toks: seq<Token>, container: int, key: string, i: nat, n: nat)
    requires i + n <= |toks| && forall k :: i <= k < i + n ==> toks[k].parent != container
    ensures FindKey(src, toks, container, key, i) == FindKey(src, toks, container, key, i + n)
    decreases n
  {
    if n > 0 {
      KeySkips(src, toks, container, key, i + 1, n - 1);
    }
  }

  lemma {:induction false} ChildSkips(toks: seq<Token>, container: int, n: nat, i: nat, m: nat)
    requires i + m <= |toks| && forall k :: i <= k < i + m ==> toks[k].parent != container
    ensures FindChild(toks, container, n, i) == FindChild(toks, container, n, i + m)
    decreases m
  {
    if m > 0 {
      ChildSkips(toks, container, n, i + 1, m - 1);
    }
  }

  /** Tokens of a subtree whose tokens stand at base. */
  lemma InsideAt(toks: seq<Token>, base: nat, sub: seq<Token>, parent: int)
    requires At(toks, base, sub) && Inside(sub, base, parent)
    ensures forall i :: base <= i < base + |sub| ==> toks[i].parent == parent || base <= toks[i].parent < i
  {
    forall i | base <= i < base + |sub|
      ensures toks[i].parent == parent || base <= toks[i].parent < i
    {
      AtIndex(toks, base, sub, i - base);
    }
  }

  /** Nothing from index from on is a child of a token in [lo, hi). */
  ghost predicate NoChildren(toks: seq<Token>, from: int, lo: int, hi: int) {
    forall i :: from <= i < |toks| && 0 <= i ==> !(lo <= toks[i].parent < hi)
  }

  lemma FirstToken(v: Value, off: nat, base: nat, parent: int)
    ensures var t := Flatten(v, off, base, parent)[0]; TextOf(t) == off && t.parent == parent
  {
  }

  /** How to recognise a value below another one. */
  lemma DenotesAt(j: Json, v: Value, off: nat, parent: int)
    requires 0 <= j.index && At(j.toks, j.index, Flatten(v, off, j.index, parent)) && At(j.src, off, Render(v))
    requires NoChildren(j.toks, j.index + Count(v), j.index, j.index + Count(v))
    ensures Denotes(j, v)
  {
    hide At;
    FirstToken(v, off, j.index, parent);
    AtHead(j.toks, j.index, Flatten(v, off, j.index, parent));
  }

  // ---- Members ----

  /** Where the parts of the first member stand. */
  lemma MemberText(src: string, off: nat, m: Members)
    requires m.Member? && At(src, off, RenderMembers(m) + "}")
    ensures At(src, off + |m.before|, Quoted(m.key)) && At(src, ValueOffset(m, off), Render(m.value))
    ensures m.rest.Member? ==>
              At(src, ValueOffset(m, off) + |Render(m.value)| + |m.after| + 1, RenderMembers(m.rest) + "}")
  {
    hide At, Render, RenderMembers, Quoted, KeyText;
    var tail := if m.rest.Member? then "," + (RenderMembers(m.rest) + "}") else "}";
    var valueText := m.beforeValue + (Render(m.value) + (m.after + tail));
    FirstMemberText(m);
    KeyTextParts(src, off, m, valueText);
    ValueText(src, ValueOffset(m, off) - |m.beforeValue|, m.beforeValue, Render(m.value), m.after, tail);
    if m.rest.Member? {
      AtSplit(src, ValueOffset(m, off) + |Render(m.value)| + |m.after|, ",", RenderMembers(m.rest) + "}");
    }
  }

  lemma KeyTextParts(src: string, off: nat, m: Members, tail: string)
    requires m.Member? && At(src, off, KeyText(m, tail))
    ensures At(src, off + |m.before|, Quoted(m.key))
    ensures At(src, ValueOffset(m, off) - |m.beforeValue|, tail)
  {
    hide At, Quoted;
    QuotedLength(m.key);
    var at := off + |m.before|;
    AtSplit(src, off, m.before, Quoted(m.key) + (m.afterKey + (":" + tail)));
    AtSplit(src, at, Quoted(m.key), m.afterKey + (":" + tail));
    AtSplit(src, at + |Quoted(m.key)|, m.afterKey, ":" + tail);
    AtSplit(src, at + |Quoted(m.key)| + |m.afterKey|, ":", tail);
  }

  lemma ValueText(src: string, off: nat, before: string, text: string, after: string, tail: string)
    requires At(src, off, before + (text + (after + tail)))
    ensures At(src, off + |before|, text) && At(src, off + |before| + |text| + |after|, tail)
  {
    hide At;
    AtSplit(src, off, before, text + (after + tail));
    AtSplit(src, off + |before|, text, after + tail);
    AtSplit(src, off + |before| + |text|, after, tail);
  }

  /** The tokens of the first member and of the others. */
  lemma MemberParts(toks: seq<Token>, m: Members, off: nat, base: nat, container: int)
    requires m.Member? && At(toks, base, FlattenMembers(m, off, base, container))
    ensures base < |toks|
    ensures toks[base] == Token(String, off + |m.before| + 1, off + |m.before| + 1 + |m.key|, 1, container)
    ensures At(toks, base + 1, Flatten(m.value, ValueOffset(m, off), base + 1, base))
    ensures At(toks, base + 1 + Count(m.value),
               FlattenMembers(m.rest, ValueOffset(m, off) + |Render(m.value)| + |m.after| + 1,
                              base + 1 + Count(m.value), container))
  {
    hide At;
    var at := off + |m.before| + 1;
    var key := Token(String, at, at + |m.key|, 1, container);
    var value := Flatten(m.value, ValueOffset(m, off), base + 1, base);
    var others := FlattenMembers(m.rest, ValueOffset(m, off) + |Render(m.value)| + |m.after| + 1,
                                 base + 1 + Count(m.value), container);
    assert FlattenMembers(m, off, base, container) == [key] + (value + others);
    AtSplit(toks, base, [key], value + others);
    AtHead(toks, base, [key]);
    AtSplit(toks, base + 1, value, others);
  }

  /** A value at base, children of the container or of later tokens behind it, and then nothing below it. */
  lemma NothingBehind(toks: seq<Token>, container: int, base: int, size: nat, others: seq<Token>)
    requires 0 <= container < base && At(toks, base + size, others) && Inside(others, base + size, container)
    requires NoChildren(toks, base + size + |others|, container, base + size + |others|)
    ensures NoChildren(toks, base + size, base, base + size)
  {
    InsideAt(toks, base + size, others, container);
  }

  /** The value at base, below the container at j, with others of the container's descendants behind it. */
  lemma ChildDenotes(j: Json, v: Value, off: nat, base: nat, parent: int, others: seq<Token>)
    requires 0 <= j.index < base && At(j.toks, base, Flatten(v, off, base, parent)) && At(j.src, off, Render(v))
    requires var next := base + Count(v);
             && At(j.toks, next, others) && Inside(others, next, j.index)
             && NoChildren(j.toks, next + |others|, j.index, next + |others|)
    ensures Denotes(Json(j.src, j.toks, base), v)
  {
    hide At, Denotes, Inside, NoChildren;
    NothingBehind(j.toks, j.index, base, Count(v), others);
    DenotesAt(Json(j.src, j.toks, base), v, off, parent);
  }

  /** The remaining members of the object at j: their tokens from base on, their text from off on. */
  ghost predicate MembersStand(j: Json, members: Members, off: nat, base: nat) {
    && 0 <= j.index < base && At(j.toks, base, FlattenMembers(members, off, base, j.index))
    && (members.Member? ==> At(j.src, off, RenderMembers(members) + "}"))
    && NoChildren(j.toks, base + CountMembers(members), j.index, base + CountMembers(members))
  }

  /** The text and tokens of the first of them, and what remains behind it. */
  lemma FirstMember(j: Json, m: Members, off: nat, base: nat)
    requires m.Member? && MembersStand(j, m, off, base)
    ensures base < |j.toks| && j.toks[base].parent == j.index && j.toks[base].kind == String
    ensures Raw(j.src, j.toks[base]) == m.key
    ensures At(j.toks, base + 1, Flatten(m.value, ValueOffset(m, off), base + 1, base))
    ensures At(j.src, ValueOffset(m, off), Render(m.value))
    ensures MembersStand(j, m.rest, ValueOffset(m, off) + |Render(m.value)| + |m.after| + 1, base + 1 + Count(m.value))
  {
    hide At;
    MemberText(j.src, off, m);
    StringSlice(j.src, off + |m.before|, m.key);
    MemberParts(j.toks, m, off, base, j.index);
  }

  lemma FoundMember(j: Json, m: Members, off: nat, base: nat)
    requires m.Member? && MembersStand(j, m, off, base)
    ensures Denotes(Json(j.src, j.toks, base + 1), m.value)
  {
    hide At, Denotes, Inside;
    var restAt, next := ValueOffset(m, off) + |Render(m.value)| + |m.after| + 1, base + 1 + Count(m.value);
    FirstMember(j, m, off, base);
    MembersStayInside(m.rest, restAt, next, j.index);
    ChildDenotes(j, m.value, ValueOffset(m, off), base + 1, base, FlattenMembers(m.rest, restAt, next, j.index));
  }

  lemma {:induction false} FindsMember(j: Json, members: Members, off: nat, base: nat, key: string)
    requires MembersStand(j, members, off, base)
    ensures base <= |j.toks|
    ensures var i := FindKey(j.src, j.toks, j.index, key, base);
            match Lookup(members, key)
            case None => i == -1
            case Some(v) => i != -1 && Denotes(Json(j.src, j.toks, i + 1), v)
    decreases members
  {
    hide At, Denotes;
    match members
    case NoMembers =>
      AtSplit(j.toks, base, [], []);
      KeySkips(j.src, j.toks, j.index, key, base, |j.toks| - base);
    case Member(b, k, ak, bv, v, a, rest) =>
      hide MembersStand, Raw;
      FirstMember(j, members, off, base);
      if k == key {
        FoundMember(j, members, off, base);
      } else {
        assert 0 <= j.index < base by {
          StandsBehind(j, members, off, base);
        }
        SkipsValue(j, key, base, v, ValueOffset(members, off));
        FindsMember(j, rest, ValueOffset(members, off) + |Render(v)| + |a| + 1, base + 1 + Count(v), key);
      }
  }

  lemma StandsBehind(j: Json, members: Members, off: nat, base: nat)
    requires MembersStand(j, members, off, base)
    ensures 0 <= j.index < base
  {
  }

  /** A key that is not the one asked for is passed over together with its value. */
  lemma SkipsValue(j: Json, key: string, base: nat, v: Value, valueAt: nat)
    requires 0 <= j.index < base < |j.toks| && At(j.toks, base + 1, Flatten(v, valueAt, base + 1, base))
    requires Raw(j.src, j.toks[base]) != key
    ensures base + 1 + Count(v) <= |j.toks|
    ensures FindKey(j.src, j.toks, j.index, key, base) == FindKey(j.src, j.toks, j.index, key, base + 1 + Count(v))
  {
    hide Flatten;
    FlattenStaysInside(v, valueAt, base + 1, base);
    InsideAt(j.toks, base + 1, Flatten(v, valueAt, base + 1, base), base);
    hide Inside;
    KeySkips(j.src, j.toks, j.index, key, base + 1, Count(v));
  }

  /** The tokens below a container. */
  lemma KidsStand(toks: seq<Token>, base: nat, head: Token, kids: seq<Token>)
    requires At(toks, base, [head] + kids)
    ensures base < |toks| && toks[base] == head && At(toks, base + 1, kids)
  {
    AtSplit(toks, base, [head], kids);
    AtHead(toks, base, [head]);
  }

  /** The text below a container. */
  lemma BodyStands(src: string, off: nat, open: string, ws: string, body: string)
    requires |open| == 1 && At(src, off, open + (ws + body))
    ensures At(src, off + 1 + |ws|, body)
  {
    AtSplit(src, off, open, ws + body);
    AtSplit(src, off + 1, ws, body);
  }

  /** Below an object token stand its members. */
  lemma ObjectStands(j: Json, ws: string, members: Members)
    requires Denotes(j, Obj(ws, members))
    ensures j.TypeOf() == Object && 0 <= j.index < |j.toks| && 0 <= TextOf(j.toks[j.index])
    ensures MembersStand(j, members, TextOf(j.toks[j.index]) + 1 + |ws|, j.index + 1)
  {
    hide At, RenderMembers, FlattenMembers, LenMembers;
    var off := TextOf(j.toks[j.index]);
    var head := Flatten(Obj(ws, members), off, j.index, j.toks[j.index].parent)[0];
    KidsStand(j.toks, j.index, head, FlattenMembers(members, off + 1 + |ws|, j.index + 1, j.index));
    BodyStands(j.src, off, "{", ws, RenderMembers(members) + "}");
  }

  lemma MemberOfFinds(j: Json, key: string)
    requires j.TypeOf() == Object
    ensures 0 <= j.index < |j.toks|
    ensures var i := FindKey(j.src, j.toks, j.index, key, j.index + 1);
            MemberOf(j, key) == if i == -1 then INVALID else Json(j.src, j.toks, i + 1)
  {
    hide FindKey;
  }

  /** operator[](key) on an object is the value of the first member with that key, or the invalid view. */
  lemma MemberMeansLookup(j: Json, ws: string, members: Members, key: string)
    requires Denotes(j, Obj(ws, members))
    ensures match Lookup(members, key)
            case None => MemberOf(j, key) == INVALID
            case Some(v) => Denotes(MemberOf(j, key), v)
  {
    hide *;
    ObjectStands(j, ws, members);
    MemberOfFinds(j, key);
    var off := TextOf(j.toks[j.index]);
    FindsMember(j, members, off + 1 + |ws|, j.index + 1, key);
  }

  // ---- Items ----

  lemma ItemText(src: string, off: nat, items: Items)
    requires items.Item? && At(src, off, RenderItems(items) + "]")
    ensures At(src, off + |items.before|, Render(items.value))
    ensures items.rest.Item? ==>
              At(src, off + |items.before| + |Render(items.value)| + |items.after| + 1, RenderItems(items.rest) + "]")
  {
    hide At;
    var tail := if items.rest.Item? then "," + (RenderItems(items.rest) + "]") else "]";
    assert RenderItems(items) + "]" == items.before + (Render(items.value) + (items.after + tail));
    ValueText(src, off, items.before, Render(items.value), items.after, tail);
    if items.rest.Item? {
      AtSplit(src, off + |items.before| + |Render(items.value)| + |items.after|, ",", RenderItems(items.rest) + "]");
    }
  }

  /** An item that is not the one asked for is passed over. */
  lemma SkipsItem(j: Json, n: nat, base: nat, v: Value, off: nat)
    requires 0 <= j.index < base && 0 < n && At(j.toks, base, Flatten(v, off, base, j.index))
    ensures base + Count(v) <= |j.toks|
    ensures FindChild(j.toks, j.index, n, base) == FindChild(j.toks, j.index, n - 1, base + Count(v))
  {
    var toks := Flatten(v, off, base, j.index);
    FlattenStaysInside(v, off, base, j.index);
    AtHead(j.toks, base, toks);
    forall i | base + 1 <= i < base + Count(v)
      ensures j.toks[i].parent != j.index
    {
      AtIndex(j.toks, base, toks, i - base);
    }
    ChildSkips(j.toks, j.index, n - 1, base + 1, Count(v) - 1);
  }

  /** The remaining items of the array at j. */
  ghost predicate ItemsStand(j: Json, items: Items, off: nat, base: nat) {
    && 0 <= j.index < base && At(j.toks, base, FlattenItems(items, off, base, j.index))
    && (items.Item? ==> At(j.src, off, RenderItems(items) + "]"))
    && NoChildren(j.toks, base + CountItems(items), j.index, base + CountItems(items))
  }

  lemma FirstItem(j: Json, items: Items, off: nat, base: nat)
    requires items.Item? && ItemsStand(j, items, off, base)
    ensures At(j.toks, base, Flatten(items.value, off + |items.before|, base, j.index))
    ensures At(j.src, off + |items.before|, Render(items.value))
    ensures ItemsStand(j, items.rest, off + |items.before| + |Render(items.value)| + |items.after| + 1,
                       base + Count(items.value))
  {
    hide At;
    var restAt := off + |items.before| + |Render(items.value)| + |items.after| + 1;
    ItemText(j.src, off, items);
    AtSplit(j.toks, base, Flatten(items.value, off + |items.before|, base, j.index),
            FlattenItems(items.rest, restAt, base + Count(items.value), j.index));
  }

  lemma FoundItem(j: Json, items: Items, off: nat, base: nat)
    requires items.Item? && ItemsStand(j, items, off, base)
    ensures base < |j.toks| && j.toks[base].parent == j.index
    ensures Denotes(Json(j.src, j.toks, base), items.value)
  {
    hide At, Denotes, Inside;
    var at := off + |items.before|;
    var restAt, next := at + |Render(items.value)| + |items.after| + 1, base + Count(items.value);
    FirstItem(j, items, off, base);
    FirstToken(items.value, at, base, j.index);
    AtHead(j.toks, base, Flatten(items.value, at, base, j.index));
    ItemsStayInside(items.rest, restAt, next, j.index);
    ChildDenotes(j, items.value, at, base, j.index, FlattenItems(items.rest, restAt, next, j.index));
  }

  lemma {:induction false} FindsItem(j: Json, items: Items, off: nat, base: nat, n: nat)
    requires ItemsStand(j, items, off, base)
    ensures base <= |j.toks|
    ensures var i := FindChild(j.toks, j.index, n, base);
            match Nth(items, n)
            case None => i == -1
            case Some(v) => i != -1 && Denotes(Json(j.src, j.toks, i), v)
    decreases items
  {
    hide At, Denotes;
    match items
    case NoItems =>
      AtSplit(j.toks, base, [], []);
      ChildSkips(j.toks, j.index, n, base, |j.toks| - base);
    case Item(b, v, a, rest) =>
      FoundItem(j, items, off, base);
      if n > 0 {
        FirstItem(j, items, off, base);
        SkipsItem(j, n, base, v, off + |b|);
        FindsItem(j, rest, off + |b| + |Render(v)| + |a| + 1, base + Count(v), n - 1);
      }
  }

  /** operator[](n) on an array is its n-th item, or the invalid view past the end. */
  lemma ElementMeansNth(j: Json, ws: string, items: Items, n: nat)
    requires Denotes(j, Arr(ws, items))
    ensures match Nth(items, n)
            case None => ElementOf(j, n) == INVALID
            case Some(v) => Denotes(ElementOf(j, n), v)
  {
    var off := TextOf(j.toks[j.index]);
    var head := Flatten(Arr(ws, items), off, j.index, j.toks[j.index].parent)[0];
    KidsStand(j.toks, j.index, head, FlattenItems(items, off + 1 + |ws|, j.index + 1, j.index));
    BodyStands(j.src, off, "[", ws, RenderItems(items) + "]");
    FindsItem(j, items, off + 1 + |ws|, j.index + 1, n);
  }

  // ---- Numbers ----

  function IntText(n: int): string {
    if n < 0 then "-" + Digits(-n) else Digits(n)
  }

  /** AsInt reads back every integer as it is usually written. */
  lemma AsIntReadsBack(j: Json, n: int)
    requires Denotes(j, Prim(IntText(n)))
    ensures IntOf(j) == Ok(n)
  {
    ScalarsAndSizes(j, Prim(IntText(n)));
    if n < 0 {
      assert Magnitude("-" + Digits(-n)) == Digits(-n);
    } else {
      assert IsDigit(Digits(n)[0]);
    }
  }
}
