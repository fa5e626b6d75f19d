/** Which texts the scanners take, which they refuse and with what code, and what the tokens of a document spell. */
module JsonLexemes {
  import opened Core
  import opened JsonMachine
  import opened JsonTree
  import opened JsonRoundTrip

  // ---- Characters ----

  /** The character classes of the scanners, as sets of characters. */
  lemma CharacterClasses(c: char)
    ensures IsWs(c) <==> c in {'\t', '\r', '\n', ' '}
    ensures EndsPrimitive(c) <==> c in {'\t', '\r', '\n', ' ', ',', ']', '}', ':'}
    ensures IsSimpleEscape(c) <==> c in {'"', '\\', '/', 'b', 'f', 'n', 'r', 't'}
    ensures IsHex(c) <==> c in {'0', '1', '2', '3', '4', '5', '6', '7', '8', '9'} + {'a', 'b', 'c', 'd', 'e', 'f'}
                               + {'A', 'B', 'C', 'D', 'E', 'F'}
  {
    if IsHex(c) {
      HexByValue(c);
    }
  }

  lemma HexByValue(c: char)
    requires IsHex(c)
    ensures c == '0' || c == '1' || c == '2' || c == '3' || c == '4' || c == '5' || c == '6' || c == '7' || c == '8'
         || c == '9' || c == 'a' || c == 'b' || c == 'c' || c == 'd' || c == 'e' || c == 'f' || c == 'A' || c == 'B'
         || c == 'C' || c == 'D' || c == 'E' || c == 'F'
  {
    var n := c as int;
    assert c == n as char;
  }

  // ---- Strings ----

  lemma HexOk(js: string, p: nat)
    requires HexError(js, p, 4) == None
    ensures p + 4 <= |js| && IsHex(js[p]) && IsHex(js[p + 1]) && IsHex(js[p + 2]) && IsHex(js[p + 3])
  {
    assert HexError(js, p + 1, 3) == None;
    assert HexError(js, p + 2, 2) == None;
    assert HexError(js, p + 3, 1) == None;
  }

  /** How far the first character or escape of a string goes. */
  function Unit(js: string, p: nat): nat
    requires p < |js|
  {
    if js[p] != '\\' || p + 1 >= |js| then 1 else if js[p + 1] == 'u' then 6 else 2
  }

  lemma {:induction false} ScansOnlyStrings(js: string, p: nat, q: nat)
    requires ScanString(js, p) == Ok(q)
    ensures p <= q < |js| && js[q] == '"' && IsStringBody(js[p..q])
    decreases |js| - p
  {
    if p < |js| && js[p] != '"' {
      var n := Unit(js, p);
      if n == 6 {
        HexOk(js, p + 2);
      }
      ScansOnlyStrings(js, p + n, q);
      var t := js[p..q];
      assert t[n..] == js[p + n..q];
      assert forall i :: 0 <= i < n ==> t[i] == js[p + i];
    }
  }

  /** A string is taken, and ends at q, exactly when a quote stands there and a string body before it. */
  lemma ScansStringIff(js: string, p: nat, q: nat)
    ensures ScanString(js, p) == Ok(q) <==> p <= q < |js| && js[q] == '"' && IsStringBody(js[p..q])
  {
    hide ScanString, IsStringBody;
    if ScanString(js, p) == Ok(q) {
      ScansOnlyStrings(js, p, q);
    } else if p <= q < |js| && js[q] == '"' && IsStringBody(js[p..q]) {
      assert js[p..q + 1] == js[p..q] + "\"";
      ScansString(js, p, js[p..q]);
    }
  }

  lemma {:induction false} HexOn(js: string, t: string, p: nat, n: nat)
    requires HexError(js, p, n) != Some(Partial)
    ensures HexError(js + t, p, n) == HexError(js, p, n)
    decreases n
  {
    if n > 0 && IsHex(js[p]) {
      HexOn(js, t, p + 1, n - 1);
    }
  }

  /** What is decided stays decided, whatever text follows. */
  lemma {:induction false} StringOn(js: string, t: string, p: nat)
    requires ScanString(js, p) != Err(Partial)
    ensures ScanString(js + t, p) == ScanString(js, p)
    decreases |js| - p
  {
    if p < |js| && js[p] != '"' {
      var n := Unit(js, p);
      if n == 6 {
        HexOn(js, t, p + 2, 4);
        if HexError(js, p + 2, 4) == None {
          StringOn(js, t, p + 6);
        }
      } else if n == 1 || IsSimpleEscape(js[p + 1]) {
        StringOn(js, t, p + n);
      }
    }
  }

  lemma {:induction false} HexCompletes(js: string, p: nat, n: nat)
    requires HexError(js, p, n) == Some(Partial) && p <= |js|
    ensures |js| < p + n && HexError(js + seq(p + n - |js|, _ => '0') + "\"", p, n) == None
    decreases n
  {
    if p < |js| {
      HexCompletes(js, p + 1, n - 1);
      assert p + 1 + (n - 1) == p + n;
      assert IsHex((js + seq(p + n - |js|, _ => '0') + "\"")[p]);
    } else {
      ZerosAreHex(js + seq(n, _ => '0') + "\"", p, n);
    }
  }

  lemma {:induction false} ZerosAreHex(js: string, p: nat, n: nat)
    requires p + n <= |js| && forall i :: p <= i < p + n ==> js[i] == '0'
    ensures HexError(js, p, n) == None
    decreases n
  {
    if n > 0 {
      ZerosAreHex(js, p + 1, n - 1);
    }
  }

  /** A string that is reported as cut off can be completed; its end is then the end of the text. */
  lemma {:induction false} StringCompletes(js: string, p: nat) returns (t: string)
    requires p <= |js| && ScanString(js, p) == Err(Partial)
    ensures t != "" && ScanString(js + t, p) == Ok(|js + t| - 1)
    decreases |js| - p
  {
    if p == |js| {
      t := "\"";
    } else if js[p] == '\\' && p + 1 == |js| {
      t := "\\\"";
      assert (js + t)[p..] == "\\\\\"";
      assert ScanString(js + t, p + 2) == Ok(p + 2);
    } else {
      var n := Unit(js, p);
      if n == 6 && HexError(js, p + 2, 4) == Some(Partial) {
        HexCompletes(js, p + 2, 4);
        t := seq(p + 6 - |js|, _ => '0') + "\"";
        assert js + t == js + seq(p + 2 + 4 - |js|, _ => '0') + "\"";
        assert ScanString(js + t, p + 6) == Ok(p + 6);
      } else {
        if n == 6 {
          HexOk(js, p + 2);
        }
        t := StringCompletes(js, p + n);
        if n == 6 {
          HexOn(js, t, p + 2, 4);
        }
      }
    }
  }

  /** The only codes a scanner refuses with. */
  lemma {:induction false} ScanCodes(js: string, p: nat)
    ensures ScanString(js, p).Err? ==> ScanString(js, p).error in {Partial, Invalid}
    ensures ScanPrimitive(js, p).Err? ==> ScanPrimitive(js, p).error in {Partial, Invalid}
    decreases |js| - p
  {
    if p < |js| {
      ScanCodes(js, p + 1);
      ScanCodes(js, p + 2);
      ScanCodes(js, p + 6);
      HexCodes(js, p + 2, 4);
    }
  }

  lemma {:induction false} HexCodes(js: string, p: nat, n: nat)
    ensures HexError(js, p, n).Some? ==> HexError(js, p, n).value in {Partial, Invalid}
    decreases n
  {
    if n > 0 {
      HexCodes(js, p + 1, n - 1);
    }
  }

  // ---- Primitives ----

  /** No character that ends a primitive, and no control character. */
  predicate Plain(t: string) {
    forall i :: 0 <= i < |t| ==> !EndsPrimitive(t[i]) && ' ' <= t[i]
  }

  /** A primitive ends at the first character that ends one; a control character before it is refused. */
  lemma {:induction false} ScansPrimitiveIff(js: string, p: nat, q: nat)
    requires p <= |js|
    ensures ScanPrimitive(js, p) == Ok(q) <==> p <= q < |js| && EndsPrimitive(js[q]) && Plain(js[p..q])
    ensures ScanPrimitive(js, p) == Err(Partial) <==> Plain(js[p..])
    decreases |js| - p
  {
    if p < |js| && !EndsPrimitive(js[p]) && ' ' <= js[p] {
      ScansPrimitiveIff(js, p + 1, q);
      assert js[p..] == [js[p]] + js[p + 1..];
      if p < q <= |js| {
        assert js[p..q] == [js[p]] + js[p + 1..q];
      }
    } else if p < |js| {
      assert js[p..][0] == js[p];
      if p < q <= |js| {
        assert js[p..q][0] == js[p];
      }
    }
  }

  lemma {:induction false} PrimitiveOn(js: string, t: string, p: nat)
    requires ScanPrimitive(js, p) != Err(Partial)
    ensures ScanPrimitive(js + t, p) == ScanPrimitive(js, p)
    decreases |js| - p
  {
    if p < |js| && !EndsPrimitive(js[p]) && ' ' <= js[p] {
      PrimitiveOn(js, t, p + 1);
    }
  }

  lemma {:induction false} PrimitiveCompletes(js: string, p: nat)
    requires p <= |js| && ScanPrimitive(js, p) == Err(Partial)
    ensures ScanPrimitive(js + " ", p) == Ok(|js|)
    decreases |js| - p
  {
    if p < |js| {
      PrimitiveCompletes(js, p + 1);
    }
  }

  // ---- What the tokens of a document spell ----

  /** The text of a token, told by its kind; a container may still be open. */
  ghost predicate Spells(js: string, t: Token) {
    match t.kind
    case String =>
      1 <= t.start <= t.end < |js| && js[t.start - 1] == '"' && js[t.end] == '"' && IsStringBody(js[t.start..t.end])
    case Primitive =>
      0 <= t.start < t.end < |js| && IsLexeme(js[t.start..t.end]) && EndsPrimitive(js[t.end])
    case Object =>
      0 <= t.start < |js| && js[t.start] == '{' && (t.end == -1 || (t.start < t.end - 1 < |js| && js[t.end - 1] == '}'))
    case Array =>
      0 <= t.start < |js| && js[t.start] == '[' && (t.end == -1 || (t.start < t.end - 1 < |js| && js[t.end - 1] == ']'))
    case Undefined => false
  }

  /** Whether the character at i belongs to the lexeme of a token. */
  predicate InLexeme(t: Token, i: int) {
    match t.kind
    case String => t.start - 1 <= i <= t.end
    case Primitive => t.start <= i < t.end
    case _ => i == t.start || (t.end != -1 && i == t.end - 1)
  }

  ghost predicate Accounted(js: string, toks: seq<Token>, i: int)
    requires 0 <= i < |js|
  {
    js[i] in {'\t', '\r', '\n', ' ', ':', ','} || exists k :: 0 <= k < |toks| && InLexeme(toks[k], i)
  }

  ghost predicate AllSpell(js: string, toks: seq<Token>) {
    forall k :: 0 <= k < |toks| ==> Spells(js, toks[k])
  }

  ghost predicate Covered(js: string, toks: seq<Token>, pos: nat)
    requires pos <= |js|
  {
    forall i :: 0 <= i < pos ==> Accounted(js, toks, i)
  }

  /** Kinds, starts and those ends that are set stay as they are. */
  ghost predicate Extends(a: seq<Token>, b: seq<Token>) {
    && |a| <= |b|
    && forall k :: 0 <= k < |a| ==>
         && a[k].kind == b[k].kind && a[k].start == b[k].start
         && (a[k].end != -1 ==> a[k].end == b[k].end)
  }

  lemma StaysAccounted(js: string, a: seq<Token>, b: seq<Token>, pos: nat, next: nat)
    requires pos <= next <= |js| && Covered(js, a, pos) && Extends(a, b)
    requires forall k :: 0 <= k < |a| && a[k].end == -1 ==> a[k].kind == Object || a[k].kind == Array
    requires forall i :: pos <= i < next ==> Accounted(js, b, i)
    ensures Covered(js, b, next)
  {
    forall i | 0 <= i < pos
      ensures Accounted(js, b, i)
    {
      assert Accounted(js, a, i);
      if js[i] !in {'\t', '\r', '\n', ' ', ':', ','} {
        var k :| 0 <= k < |a| && InLexeme(a[k], i);
        assert InLexeme(b[k], i);
      }
    }
  }

  lemma SpellingHasEnds(js: string, toks: seq<Token>)
    requires AllSpell(js, toks)
    ensures forall k :: 0 <= k < |toks| && toks[k].end == -1 ==> toks[k].kind == Object || toks[k].kind == Array
  {
    forall k | 0 <= k < |toks| && toks[k].end == -1
      ensures toks[k].kind == Object || toks[k].kind == Array
    {
      assert Spells(js, toks[k]);
    }
  }

  lemma AppendSpells(js: string, cap: nat, s: State, t: Token, next: nat)
    requires WellFormed(s) && s.pos <= next <= |js| && AllSpell(js, s.toks) && Covered(js, s.toks, s.pos)
    requires Spells(js, t) && forall i :: s.pos <= i < next ==> InLexeme(t, i)
    ensures var r := Bump(s.toks, s.super) + [t]; AllSpell(js, r) && Covered(js, r, next)
  {
    hide Spells, InLexeme, IsStringBody, IsLexeme;
    var b := Bump(s.toks, s.super);
    var r := b + [t];
    BumpSpells(js, s.toks, s.super);
    SpellingHasEnds(js, s.toks);
    assert r[|b|] == t;
    forall i | s.pos <= i < next
      ensures Accounted(js, r, i)
    {
      assert InLexeme(r[|b|], i);
    }
    StaysAccounted(js, s.toks, r, s.pos, next);
  }

  lemma BumpSpells(js: string, toks: seq<Token>, super: int)
    requires super < |toks| && AllSpell(js, toks)
    ensures AllSpell(js, Bump(toks, super))
  {
    hide Spells;
    forall k | 0 <= k < |toks|
      ensures Spells(js, Bump(toks, super)[k])
    {
      SizeDoesNotSpell(js, toks[k], Bump(toks, super)[k]);
    }
  }

  lemma SizeDoesNotSpell(js: string, a: Token, b: Token)
    requires Spells(js, a) && b.kind == a.kind && b.start == a.start && b.end == a.end
    ensures Spells(js, b)
  {
    hide IsStringBody, IsLexeme;
  }

  lemma CloseSpells(js: string, s: State, c: char)
    requires s.pos < |js| && js[s.pos] == c && (c == '}' || c == ']')
    requires WellFormed(s) && AllSpell(js, s.toks) && Covered(js, s.toks, s.pos)
    requires forall k :: 0 <= k < |s.toks| ==> s.toks[k].start < s.pos
    requires Close(s, BracketKind(c)).Ok?
    ensures var r := Close(s, BracketKind(c)).value; AllSpell(js, r.toks) && Covered(js, r.toks, s.pos + 1)
  {
    hide IsStringBody, IsLexeme;
    var i := LastOpen(s.toks, |s.toks|);
    var r := Close(s, BracketKind(c)).value.toks;
    forall k | 0 <= k < |r|
      ensures Spells(js, r[k])
    {
      assert Spells(js, s.toks[k]);
    }
    SpellingHasEnds(js, s.toks);
    assert InLexeme(r[i], s.pos);
    StaysAccounted(js, s.toks, r, s.pos, s.pos + 1);
  }

  lemma MoveSpells(js: string, s: State)
    requires s.pos < |js| && AllSpell(js, s.toks) && Covered(js, s.toks, s.pos)
    requires js[s.pos] in {'\t', '\r', '\n', ' ', ':', ','}
    ensures Covered(js, s.toks, s.pos + 1)
  {
  }

  /** The invariant of the main loop. */
  ghost predicate Spelled(js: string, s: State)
    requires s.pos <= |js|
  {
    AllSpell(js, s.toks) && Covered(js, s.toks, s.pos) && forall k :: 0 <= k < |s.toks| ==> s.toks[k].start < s.pos
  }

  lemma StartsEarlier(s: State, t: Token, next: nat)
    requires s.super < |s.toks| && s.pos < next && t.start < next
    requires forall k :: 0 <= k < |s.toks| ==> s.toks[k].start < s.pos
    ensures forall k :: 0 <= k <= |s.toks| ==> (Bump(s.toks, s.super) + [t])[k].start < next
  {
  }

  lemma OpenStepSpells(js: string, cap: nat, s: State)
    requires s.pos < |js| && WellFormed(s) && Spelled(js, s) && Step(js, cap, s).Ok?
    requires js[s.pos] == '{' || js[s.pos] == '['
    ensures Spelled(js, Step(js, cap, s).value)
  {
    hide Links, Covered, AllSpell;
    var t := Token(BracketKind(js[s.pos]), s.pos, -1, 0, s.super);
    AppendSpells(js, cap, s, t, s.pos + 1);
    StartsEarlier(s, t, s.pos + 1);
  }

  lemma StringStepSpells(js: string, cap: nat, s: State)
    requires s.pos < |js| && WellFormed(s) && Spelled(js, s) && Step(js, cap, s).Ok?
    requires js[s.pos] == '"'
    ensures Spelled(js, Step(js, cap, s).value)
  {
    hide Links, Covered, AllSpell, ScanString;
    var q := ScanString(js, s.pos + 1).value;
    ScansStringIff(js, s.pos + 1, q);
    var t := Token(String, s.pos + 1, q, 0, s.super);
    AppendSpells(js, cap, s, t, q + 1);
    StartsEarlier(s, t, q + 1);
  }

  lemma PrimitiveStepSpells(js: string, cap: nat, s: State)
    requires s.pos < |js| && WellFormed(s) && Spelled(js, s) && Step(js, cap, s).Ok?
    requires js[s.pos] !in {'{', '[', '}', ']', '"', ':', ','} && !IsWs(js[s.pos])
    ensures Spelled(js, Step(js, cap, s).value)
  {
    hide Links, Covered, AllSpell, ScanPrimitive;
    var q := ScanPrimitive(js, s.pos).value;
    ScansPrimitiveIff(js, s.pos, q);
    assert js[s.pos..q] != [] && js[s.pos..q][0] == js[s.pos];
    var t := Token(Primitive, s.pos, q, 0, s.super);
    AppendSpells(js, cap, s, t, q);
    StartsEarlier(s, t, q);
  }

  lemma StepSpells(js: string, cap: nat, s: State)
    requires s.pos < |js| && WellFormed(s) && Spelled(js, s) && Step(js, cap, s).Ok?
    ensures Spelled(js, Step(js, cap, s).value)
  {
    hide Links, ScanString, ScanPrimitive, Open, Append, LastOpen;
    var c := js[s.pos];
    CharacterClasses(c);
    if c == '{' || c == '[' {
      OpenStepSpells(js, cap, s);
    } else if c == '}' || c == ']' {
      CloseStepSpells(js, cap, s);
    } else if c == '"' {
      StringStepSpells(js, cap, s);
    } else if IsWs(c) || c == ':' || c == ',' {
      MoveSpells(js, s);
    } else {
      PrimitiveStepSpells(js, cap, s);
    }
  }

  lemma CloseStepSpells(js: string, cap: nat, s: State)
    requires s.pos < |js| && WellFormed(s) && Spelled(js, s) && Step(js, cap, s).Ok?
    requires js[s.pos] == '}' || js[s.pos] == ']'
    ensures Spelled(js, Step(js, cap, s).value)
  {
    hide Links, Covered, AllSpell;
    CloseSpells(js, s, js[s.pos]);
  }

  lemma {:induction false} RunSpells(js: string, cap: nat, s: State)
    requires s.pos <= |js| && WellFormed(s) && Spelled(js, s) && Run(js, cap, s).Ok?
    ensures var toks := Run(js, cap, s).value;
            && AllSpell(js, toks) && Covered(js, toks, |js|)
            && forall k :: 0 <= k < |toks| ==> !IsOpen(toks[k])
    decreases |js| - s.pos
  {
    hide Step, AllSpell, Covered, Links;
    if s.pos < |js| {
      StepSpells(js, cap, s);
      RunSpells(js, cap, Step(js, cap, s).value);
    }
  }

  /**
   Every accepted document, JSON or not: each token spells what its kind says, every container is closed by its own
   bracket, and every character is white space, a colon, a comma, or part of a token's lexeme.
   */
  lemma AcceptedIsSpelled(js: string, cap: nat)
    requires Parse(js, cap).Ok?
    ensures var toks := Parse(js, cap).value;
            && (forall k :: 0 <= k < |toks| ==> Spells(js, toks[k]) && toks[k].end != -1)
            && forall i :: 0 <= i < |js| ==> Accounted(js, toks, i)
  {
    RunSpells(js, cap, START);
    var toks := Parse(js, cap).value;
    forall k | 0 <= k < |toks|
      ensures Spells(js, toks[k]) && toks[k].end != -1
    {
      assert Spells(js, toks[k]) && !IsOpen(toks[k]);
    }
  }

  // ---- The cursor ----

  /** Where the next token will be counted, after each character, in a document of any shape. */
  lemma CursorMoves(js: string, cap: nat, s: State)
    requires s.pos < |js| && WellFormed(s) && Step(js, cap, s).Ok?
    ensures var c, r := js[s.pos], Step(js, cap, s).value;
            && (c in {'{', '['} ==> r.super == |s.toks|)
            && (c in {'}', ']'} ==>
                  exists i :: 0 <= i < |s.toks| && IsOpen(s.toks[i]) && r.super == s.toks[i].parent
                              && forall j :: i < j < |s.toks| ==> !IsOpen(s.toks[j]))
            && (c == ':' ==> r.super == |s.toks| - 1)
            && (c == ',' && s.super >= 0 && s.toks[s.super].kind in {Undefined, String, Primitive} ==>
                  r.super == s.toks[s.super].parent)
            && (c == ',' && (s.super == -1 || s.toks[s.super].kind in {Object, Array}) ==> r.super == s.super)
            && (c !in {'{', '[', '}', ']', ':', ','} ==> r.super == s.super)
    ensures var r := Step(js, cap, s).value;
            |r.toks| > |s.toks| ==> |r.toks| == |s.toks| + 1 && r.toks[|s.toks|].parent == s.super
  {
    hide ScanString, ScanPrimitive, Links;
  }
}
