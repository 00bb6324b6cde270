/** The tokenizer inverts the printer: every JSON value, written with any whitespace, is read back as
    its preorder list of tokens with exact types, spans and sizes (helpers/jsmn.c). */
module JsmnTree {
  import opened Common
  import opened Jsmn

  /** A JSON value with the whitespace it is written with. The gap of a container is the whitespace
      after its opening bracket. */
  datatype Json =
    | Bare(text: seq<char>)                      // number, true, false, null
    | Quoted(body: seq<char>)                    // string, escapes as written
    | List(gap: seq<char>, items: Items)
    | Record(gap: seq<char>, members: Members)

  datatype Items = NoItem | Item(value: Json, after: seq<char>, lead: seq<char>, rest: Items)

  /** "key" mid : lead value after, and next is the whitespace behind a following comma. */
  datatype Members =
    | NoMember
    | Member(key: seq<char>, mid: seq<char>, lead: seq<char>, value: Json, after: seq<char>, next: seq<char>,
             rest: Members)

  // ---------------------------------------------------------------- printing

  function Quote(body: seq<char>): seq<char> {
    "\"" + body + "\""
  }

  function Render(v: Json): seq<char> {
    match v
    case Bare(text) => text
    case Quoted(body) => Quote(body)
    case List(gap, items) => "[" + gap + RenderItems(items) + "]"
    case Record(gap, members) => "{" + gap + RenderMembers(members) + "}"
  }

  function RenderItems(items: Items): seq<char> {
    match items
    case NoItem => []
    case Item(v, after, lead, rest) =>
      Render(v) + after + if rest == NoItem then [] else "," + lead + RenderItems(rest)
  }

  function RenderMembers(members: Members): seq<char> {
    match members
    case NoMember => []
    case Member(key, mid, lead, v, after, next, rest) =>
      Quote(key) + (mid + (":" + (lead + (Render(v) + (after
      + if rest == NoMember then [] else "," + (next + RenderMembers(rest)))))))
  }

  // ---------------------------------------------------------------- well-formedness

  /** RFC 8259 section 2: insignificant whitespace. */
  predicate Spaces(ws: seq<char>) {
    forall i :: 0 <= i < |ws| ==> ws[i] in [' ', '\t', '\n', '\r']
  }

  /** RFC 8259 section 7: what may follow a backslash alone. */
  predicate EscapeChar(c: char) {
    c in ['\"', '\\', '/', 'b', 'f', 'n', 'r', 't']
  }

  /** RFC 8259 section 7, and any other character a C string may hold. */
  predicate StringBody(b: seq<char>)
    decreases |b|
  {
    b == [] ||
    (if b[0] == '\\' then
       |b| >= 2 &&
       if EscapeChar(b[1]) then StringBody(b[2..])
       else
         && b[1] == 'u' && |b| >= 6 && HexChar(b[2]) && HexChar(b[3]) && HexChar(b[4]) && HexChar(b[5])
         && StringBody(b[6..])
     else b[0] != '\"' && b[0] != '\0' && StringBody(b[1..]))
  }

  /** Characters from the space to the tilde, except those that end a number or a literal. */
  predicate BareChar(c: char) {
    ' ' < c <= '~' && c !in [':', ',', ']', '}']
  }

  /** The numbers and literals of RFC 8259 sections 3 and 6 are of this form. */
  predicate BareText(t: seq<char>) {
    && t != []
    && t[0] !in ['\"', '[', '{']
    && forall i :: 0 <= i < |t| ==> BareChar(t[i])
  }

  /** The classes of the tokenizer are those. */
  lemma ClassesAgree(c: char)
    ensures IsSpace(c) <==> c in [' ', '\t', '\n', '\r']
    ensures EndsPrimitive(c) <==> c in [' ', '\t', '\n', '\r', ':', ',', ']', '}']
    ensures IsOpener(c) <==> c in ['[', '{']
    ensures IsCloser(c) <==> c in [']', '}']
    ensures IsSimpleEscape(c) <==> EscapeChar(c)
    ensures IsHex(c) <==> HexChar(c)
    ensures Printable(c) && !EndsPrimitive(c) <==> BareChar(c)
    ensures Printable(c) <==> ' ' <= c <= '~'
  {
    HexCharIs(c);
  }

  lemma {:induction false} NoNulInBody(b: seq<char>)
    requires StringBody(b)
    ensures '\0' !in b
    decreases |b|
  {
    hide EscapeChar, HexChar;
    if b != [] && b[0] == '\\' {
      EscapeHasNoNul(b);
      var n := if EscapeChar(b[1]) then 2 else 6;
      NoNulInBody(b[n..]);
      assert b == b[..n] + b[n..];
    } else if b != [] {
      NoNulInBody(b[1..]);
      assert b == b[..1] + b[1..];
    }
  }

  lemma EscapeHasNoNul(b: seq<char>)
    requires StringBody(b) && b != [] && b[0] == '\\'
    ensures |b| >= 2
    ensures var n := if EscapeChar(b[1]) then 2 else 6;
            n <= |b| && StringBody(b[n..]) && '\0' !in b[..n]
  {
    hide EscapeChar, HexChar;
    ClassesAgree('\0');
    assert !IsHex('\0') && !IsSimpleEscape('\0');
    var n := if EscapeChar(b[1]) then 2 else 6;
    forall i | 0 <= i < n ensures b[..n][i] != '\0' {
      assert i == 0 || i == 1 || i == 2 || i == 3 || i == 4 || i == 5;
    }
  }

  predicate WellFormed(v: Json) {
    match v
    case Bare(text) => BareText(text)
    case Quoted(body) => StringBody(body)
    case List(gap, items) => Spaces(gap) && WellFormedItems(items)
    case Record(gap, members) => Spaces(gap) && WellFormedMembers(members)
  }

  predicate WellFormedItems(items: Items) {
    match items
    case NoItem => true
    case Item(v, after, lead, rest) => WellFormed(v) && Spaces(after) && Spaces(lead) && WellFormedItems(rest)
  }

  predicate WellFormedMembers(members: Members) {
    match members
    case NoMember => true
    case Member(key, mid, lead, v, after, next, rest) =>
      StringBody(key) && Spaces(mid) && Spaces(lead) && WellFormed(v) && Spaces(after) && Spaces(next)
      && WellFormedMembers(rest)
  }

  // ---------------------------------------------------------------- the tokens of a value

  function ItemCount(items: Items): nat {
    match items
    case NoItem => 0
    case Item(_, _, _, rest) => 1 + ItemCount(rest)
  }

  function MemberCount(members: Members): nat {
    match members
    case NoMember => 0
    case Member(_, _, _, _, _, _, rest) => 1 + MemberCount(rest)
  }

  /** The tokens of a value printed at position p: an array counts its elements, an object its keys,
      a key its one value, and leaves nothing. */
  function Tokens(v: Json, p: nat): (toks: seq<Token>)
    ensures toks != []
  {
    match v
    case Bare(text) => [Token(Primitive, p, p + |text|, 0)]
    case Quoted(body) => [Token(String, p + 1, p + 1 + |body|, 0)]
    case List(gap, items) =>
      [Token(Array, p, p + |Render(v)|, ItemCount(items))] + ItemTokens(items, p + 1 + |gap|)
    case Record(gap, members) =>
      [Token(Object, p, p + |Render(v)|, MemberCount(members))] + MemberTokens(members, p + 1 + |gap|)
  }

  function ItemTokens(items: Items, p: nat): seq<Token> {
    match items
    case NoItem => []
    case Item(v, after, lead, rest) =>
      Tokens(v, p) + ItemTokens(rest, p + |Render(v)| + |after| + 1 + |lead|)
  }

  function MemberTokens(members: Members, p: nat): seq<Token> {
    match members
    case NoMember => []
    case Member(key, mid, lead, v, after, next, rest) =>
      var q := p + |key| + 2 + |mid| + 1 + |lead|;
      [Token(String, p + 1, p + 1 + |key|, 1)] + Tokens(v, q)
      + MemberTokens(rest, q + |Render(v)| + |after| + 1 + |next|)
  }

  // ---------------------------------------------------------------- reading pieces of text

  ghost predicate At(js: seq<char>, p: nat, text: seq<char>) {
    p + |text| <= |js| && js[p..p + |text|] == text
  }

  lemma AtSplit(js: seq<char>, p: nat, a: seq<char>, b: seq<char>)
    requires At(js, p, a + b)
    ensures At(js, p, a) && At(js, p + |a|, b)
  {
    assert js[p..p + |a + b|][..|a|] == a;
    assert js[p..p + |a + b|][|a|..] == b;
  }

  /** One turn of the loop. */
  lemma OneStep(js: seq<char>, cap: nat, s: State, s': State)
    requires Linked(s) && !AtEnd(js, s.pos) && Step(js, cap, s) == Next(s')
    ensures Linked(s') && Run(js, cap, s) == Run(js, cap, s')
  {
  }

  lemma {:induction false} RunSpaces(js: seq<char>, cap: nat, s: State, ws: seq<char>)
    requires Linked(s) && At(js, s.pos, ws) && Spaces(ws)
    ensures Run(js, cap, s) == Run(js, cap, s.(pos := s.pos + |ws|))
    decreases |ws|
  {
    if ws != [] {
      assert js[s.pos..s.pos + |ws|][0] == ws[0];
      var s' := s.(pos := s.pos + 1);
      OneStep(js, cap, s, s');
      AtSplit(js, s.pos, ws[..1], ws[1..]) by { assert ws[..1] + ws[1..] == ws; }
      RunSpaces(js, cap, s', ws[1..]);
    }
  }

  lemma {:induction false} ScanBody(js: seq<char>, p: nat, b: seq<char>)
    requires StringBody(b) && At(js, p, b + "\"")
    ensures StringScan(js, p) == Closed(p + |b|)
    decreases |b|
  {
    var t := b + "\"";
    if b == [] {
      CharAt(js, p, t, 0);
    } else if b[0] == '\\' && IsSimpleEscape(b[1]) {
      CharAt(js, p, t, 0);
      CharAt(js, p, t, 1);
      ScanRest(js, p, b, 2);
      ScanBody(js, p + 2, b[2..]);
    } else if b[0] == '\\' {
      ScanUnicode(js, p, b);
      ScanRest(js, p, b, 6);
      ScanBody(js, p + 6, b[6..]);
    } else {
      CharAt(js, p, t, 0);
      ScanRest(js, p, b, 1);
      ScanBody(js, p + 1, b[1..]);
    }
  }

  lemma CharAt(js: seq<char>, p: nat, t: seq<char>, i: nat)
    requires At(js, p, t) && i < |t|
    ensures p + i < |js| && js[p + i] == t[i]
  {
    assert js[p..p + |t|][i] == t[i];
  }

  lemma ScanRest(js: seq<char>, p: nat, b: seq<char>, k: nat)
    requires At(js, p, b + "\"") && k <= |b|
    ensures At(js, p + k, b[k..] + "\"")
  {
    AtSplit(js, p, b[..k], b[k..] + "\"") by { assert b[..k] + (b[k..] + "\"") == b + "\""; }
  }

  /** An escape of four hex digits is passed over. */
  lemma ScanUnicode(js: seq<char>, p: nat, b: seq<char>)
    requires StringBody(b) && At(js, p, b + "\"") && b != [] && b[0] == '\\' && !IsSimpleEscape(b[1])
    ensures |b| >= 6 && StringBody(b[6..]) && p + 6 <= |js| && StringScan(js, p) == StringScan(js, p + 6)
  {
    hide IsSimpleEscape, IsHex, EscapeChar, HexChar;
    ClassesAgree(b[1]);
    UnicodeDigits(b);
    var t := b + "\"";
    CharAt(js, p, t, 0);
    CharAt(js, p, t, 1);
    CharAt(js, p, t, 2);
    CharAt(js, p, t, 3);
    CharAt(js, p, t, 4);
    CharAt(js, p, t, 5);
    FourHex(js, p + 2);
  }

  lemma UnicodeDigits(b: seq<char>)
    requires StringBody(b) && b != [] && b[0] == '\\' && !EscapeChar(b[1])
    ensures |b| >= 6 && IsHex(b[2]) && IsHex(b[3]) && IsHex(b[4]) && IsHex(b[5])
  {
    hide IsHex, EscapeChar, HexChar;
    ClassesAgree(b[2]);
    ClassesAgree(b[3]);
    ClassesAgree(b[4]);
    ClassesAgree(b[5]);
  }

  lemma FourHex(js: seq<char>, p: nat)
    requires p + 4 <= |js| && IsHex(js[p]) && IsHex(js[p + 1]) && IsHex(js[p + 2]) && IsHex(js[p + 3])
    ensures HexEnd(js, p, 4) == Some(p + 4)
  {
    assert HexEnd(js, p + 4, 0) == Some(p + 4);
    assert HexEnd(js, p + 3, 1) == Some(p + 4);
    assert HexEnd(js, p + 2, 2) == Some(p + 4);
    assert HexEnd(js, p + 1, 3) == Some(p + 4);
  }

  lemma {:induction false} ScanBare(js: seq<char>, p: nat, t: seq<char>)
    requires At(js, p, t) && forall i :: 0 <= i < |t| ==> Printable(t[i]) && !EndsPrimitive(t[i])
    requires AtEnd(js, p + |t|) || EndsPrimitive(js[p + |t|])
    ensures PrimitiveEnd(js, p) == Some(p + |t|)
    decreases |t|
  {
    if t != [] {
      assert js[p..p + |t|][0] == t[0];
      AtSplit(js, p, t[..1], t[1..]) by { assert t[..1] + t[1..] == t; }
      ScanBare(js, p + 1, t[1..]);
    }
  }

  // ---------------------------------------------------------------- reading values

  /** The state after reading a value: its tokens are there, the superior has one more child. */
  function After(s: State, v: Json): State
    requires Linked(s)
  {
    State(s.pos + |Render(v)|,
          if v.Bare? || v.Quoted? then s.super else LastOpen(s.toks, |s.toks|),
          Bump(s.toks, s.super) + Tokens(v, s.pos))
  }

  lemma {:induction false} LastOpenAppend(a: seq<Token>, b: seq<Token>, n: nat)
    requires n <= |b| && forall i :: 0 <= i < n ==> !IsOpen(b[i])
    ensures LastOpen(a + b, |a| + n) == LastOpen(a, |a|)
    ensures LastOpenContainer(a + b, |a| + n) == LastOpenContainer(a, |a|)
    decreases n
  {
    if n == 0 {
      LastOpenPrefix(a, b, |a|);
    } else {
      LastOpenAppend(a, b, n - 1);
    }
  }

  lemma {:induction false} LastOpenPrefix(a: seq<Token>, b: seq<Token>, n: nat)
    requires n <= |a|
    ensures LastOpen(a + b, n) == LastOpen(a, n)
    ensures LastOpenContainer(a + b, n) == LastOpenContainer(a, n)
    decreases n
  {
    if n > 0 {
      LastOpenPrefix(a, b, n - 1);
    }
  }

  lemma {:induction false} LastOpenSame(a: seq<Token>, b: seq<Token>, n: nat)
    requires n <= |a| == |b|
    requires forall i :: 0 <= i < |a| ==> a[i].(size := 0) == b[i].(size := 0)
    ensures LastOpen(a, n) == LastOpen(b, n)
    ensures LastOpenContainer(a, n) == LastOpenContainer(b, n)
    decreases n
  {
    if n > 0 {
      assert a[n - 1].(size := 0) == b[n - 1].(size := 0);
      LastOpenSame(a, b, n - 1);
    }
  }

  ghost predicate AllClosed(toks: seq<Token>) {
    forall i :: 0 <= i < |toks| ==> !IsOpen(toks[i])
  }

  lemma {:induction false} TokensClosed(v: Json, p: nat)
    ensures AllClosed(Tokens(v, p))
    decreases v
  {
    match v
    case Bare(_) =>
    case Quoted(_) =>
    case List(gap, items) => ItemTokensClosed(items, p + 1 + |gap|);
    case Record(gap, members) => MemberTokensClosed(members, p + 1 + |gap|);
  }

  lemma {:induction false} ItemTokensClosed(items: Items, p: nat)
    ensures AllClosed(ItemTokens(items, p))
    decreases items
  {
    match items
    case NoItem =>
    case Item(v, after, lead, rest) =>
      TokensClosed(v, p);
      ItemTokensClosed(rest, p + |Render(v)| + |after| + 1 + |lead|);
  }

  lemma {:induction false} MemberTokensClosed(members: Members, p: nat)
    ensures AllClosed(MemberTokens(members, p))
    decreases members
  {
    match members
    case NoMember =>
    case Member(key, mid, lead, v, after, next, rest) =>
      var q := p + |key| + 2 + |mid| + 1 + |lead|;
      TokensClosed(v, q);
      MemberTokensClosed(rest, q + |Render(v)| + |after| + 1 + |next|);
  }

  /** The container being filled: the superior is the innermost open token, at index k. */
  ghost predicate Filling(s: State, k: nat) {
    && k < |s.toks| && IsContainer(s.toks[k])
    && LastOpen(s.toks, |s.toks|) == k && LastOpenContainer(s.toks, |s.toks|) == k
  }

  ghost predicate Follows(js: seq<char>, p: nat) {
    AtEnd(js, p) || EndsPrimitive(js[p])
  }

  /** Reading one value, whatever is open around it. */
  lemma {:induction false} ReadValue(js: seq<char>, cap: nat, s: State, v: Json)
    requires Linked(s) && WellFormed(v) && At(js, s.pos, Render(v)) && Follows(js, s.pos + |Render(v)|)
    requires |s.toks| + |Tokens(v, s.pos)| <= cap
    ensures Linked(After(s, v)) && Run(js, cap, s) == Run(js, cap, After(s, v))
    decreases v, 3
  {
    match v
    case Bare(text) => ReadBare(js, cap, s, text);
    case Quoted(body) => ReadQuoted(js, cap, s, body);
    case List(gap, items) => ReadList(js, cap, s, gap, items);
    case Record(gap, members) => ReadRecord(js, cap, s, gap, members);
  }

  lemma ReadBare(js: seq<char>, cap: nat, s: State, text: seq<char>)
    requires Linked(s) && BareText(text) && At(js, s.pos, text) && Follows(js, s.pos + |text|)
    requires |s.toks| < cap
    ensures Linked(After(s, Bare(text))) && Run(js, cap, s) == Run(js, cap, After(s, Bare(text)))
  {
    assert js[s.pos] == js[s.pos..s.pos + |text|][0] == text[0];
    ScanBare(js, s.pos, text);
    OneStep(js, cap, s, After(s, Bare(text)));
  }

  lemma ReadQuoted(js: seq<char>, cap: nat, s: State, body: seq<char>)
    requires Linked(s) && StringBody(body) && At(js, s.pos, Quote(body))
    requires |s.toks| < cap
    ensures Linked(After(s, Quoted(body))) && Run(js, cap, s) == Run(js, cap, After(s, Quoted(body)))
  {
    assert js[s.pos] == js[s.pos..s.pos + |Quote(body)|][0] == '\"';
    AtSplit(js, s.pos, "\"", body + "\"") by { assert "\"" + (body + "\"") == Quote(body); }
    ScanBody(js, s.pos + 1, body);
    OneStep(js, cap, s, After(s, Quoted(body)));
  }

  lemma ReadList(js: seq<char>, cap: nat, s: State, gap: seq<char>, items: Items)
    requires Linked(s) && WellFormed(List(gap, items)) && At(js, s.pos, Render(List(gap, items)))
    requires |s.toks| + |Tokens(List(gap, items), s.pos)| <= cap
    ensures Linked(After(s, List(gap, items))) && Run(js, cap, s) == Run(js, cap, After(s, List(gap, items)))
    decreases List(gap, items), 2
  {
    hide Run;
    var text := RenderItems(items);
    var t := ReadOpening(js, cap, s, "[", gap, text + "]") by {
      assert Render(List(gap, items)) == "[" + (gap + (text + "]"));
    }
    ReadItems(js, cap, t, |s.toks|, items);
    ReadClosing(js, cap, s, t, ItemCount(items), ItemTokens(items, t.pos), |s.toks|, text, "]", Array);
  }

  lemma ReadRecord(js: seq<char>, cap: nat, s: State, gap: seq<char>, members: Members)
    requires Linked(s) && WellFormed(Record(gap, members)) && At(js, s.pos, Render(Record(gap, members)))
    requires |s.toks| + |Tokens(Record(gap, members), s.pos)| <= cap
    ensures Linked(After(s, Record(gap, members))) && Run(js, cap, s) == Run(js, cap, After(s, Record(gap, members)))
    decreases Record(gap, members), 2
  {
    hide Run;
    var text := RenderMembers(members);
    var t := ReadOpening(js, cap, s, "{", gap, text + "}") by {
      assert Render(Record(gap, members)) == "{" + (gap + (text + "}"));
    }
    var super := ReadMembers(js, cap, t, |s.toks|, members);
    ReadClosing(js, cap, s, t, MemberCount(members), MemberTokens(members, t.pos), super, text, "}", Object);
  }

  /** The tokens while a container opened in state s at p is being filled. */
  function Inside(s: State, kind: Kind, size: int, toks: seq<Token>): seq<Token>
    requires Linked(s)
  {
    Bump(s.toks, s.super) + ([Token(kind, s.pos, -1, size)] + toks)
  }

  /** An opening bracket and the whitespace behind it. */
  lemma ReadOpening(js: seq<char>, cap: nat, s: State, bracket: seq<char>, gap: seq<char>, tail: seq<char>)
    returns (t: State)
    requires Linked(s) && |s.toks| < cap && Spaces(gap)
    requires |bracket| == 1 && IsOpener(bracket[0]) && At(js, s.pos, bracket + (gap + tail))
    ensures t == State(s.pos + 1 + |gap|, |s.toks|, Inside(s, KindOf(bracket[0]), 0, []))
    ensures Linked(t) && Filling(t, |s.toks|) && At(js, t.pos, tail) && Run(js, cap, s) == Run(js, cap, t)
  {
    AtSplit(js, s.pos, bracket, gap + tail);
    assert js[s.pos] == js[s.pos..s.pos + 1][0] == bracket[0];
    t := Opened(js, cap, s, KindOf(bracket[0]));
    AtSplit(js, t.pos, gap, tail);
    RunSpaces(js, cap, t, gap);
    t := t.(pos := t.pos + |gap|);
  }

  lemma Opened(js: seq<char>, cap: nat, s: State, kind: Kind) returns (t: State)
    requires Linked(s) && s.pos < |js| && IsOpener(js[s.pos]) && KindOf(js[s.pos]) == kind && |s.toks| < cap
    ensures t == State(s.pos + 1, |s.toks|, Inside(s, kind, 0, [])) && Linked(t) && Filling(t, |s.toks|)
    ensures Run(js, cap, s) == Run(js, cap, t)
  {
    t := State(s.pos + 1, |s.toks|, Inside(s, kind, 0, []));
    assert Inside(s, kind, 0, []) == Bump(s.toks, s.super) + [Token(kind, s.pos, -1, 0)];
    OneStep(js, cap, s, t);
  }

  lemma Close(js: seq<char>, cap: nat, s: State, size: int, toks: seq<Token>, super: int, q: nat, kind: Kind)
    requires Linked(s) && -1 <= super < |s.toks| + 1 + |toks| && AllClosed(toks)
    requires q < |js| && IsCloser(js[q]) && KindOf(js[q]) == kind
    ensures var b := Bump(s.toks, s.super) + ([Token(kind, s.pos, q + 1, size)] + toks);
            Linked(State(q, super, Inside(s, kind, size, toks))) &&
            Run(js, cap, State(q, super, Inside(s, kind, size, toks)))
            == Run(js, cap, State(q + 1, LastOpen(s.toks, |s.toks|), b))
  {
    var bumped, k := Bump(s.toks, s.super), |s.toks|;
    var all := Inside(s, kind, size, toks);
    var b := bumped + ([Token(kind, s.pos, q + 1, size)] + toks);
    var head := bumped + [Token(kind, s.pos, -1, size)];
    assert all == head + toks;
    LastOpenAppend(head, toks, |toks|);
    assert LastOpen(all, |all|) == k;
    assert b == all[k := all[k].(end := q + 1)];
    assert !IsOpen(b[k]);
    assert LastOpen(b, k + 1) == LastOpen(b, k);
    LastOpenPrefix(bumped, [Token(kind, s.pos, q + 1, size)] + toks, k);
    LastOpenSame(bumped, s.toks, k);
    OneStep(js, cap, State(q, super, all), State(q + 1, LastOpen(s.toks, k), b));
  }

  function Grown(toks: seq<Token>, k: nat, n: int, more: seq<Token>): seq<Token>
    requires k < |toks|
  {
    toks[k := toks[k].(size := toks[k].size + n)] + more
  }

  /** The closing bracket of a container that was opened in state s and has been filled since t. */
  lemma ReadClosing(js: seq<char>, cap: nat, s: State, t: State, size: int, toks: seq<Token>, super: int,
                    text: seq<char>, bracket: seq<char>, kind: Kind)
    requires Linked(s) && -1 <= super < |s.toks| + 1 + |toks| && AllClosed(toks)
    requires |bracket| == 1 && IsCloser(bracket[0]) && KindOf(bracket[0]) == kind && At(js, t.pos, text + bracket)
    requires t.toks == Inside(s, kind, 0, [])
    ensures var all := Grown(t.toks, |s.toks|, size, toks);
            var b := Bump(s.toks, s.super) + ([Token(kind, s.pos, t.pos + |text| + 1, size)] + toks);
            && Linked(State(t.pos + |text|, super, all))
            && Run(js, cap, State(t.pos + |text|, super, all))
               == Run(js, cap, State(t.pos + |text| + 1, LastOpen(s.toks, |s.toks|), b))
  {
    hide Run;
    AtSplit(js, t.pos, text, bracket);
    var q := t.pos + |text|;
    assert js[q] == js[q..q + 1][0] == bracket[0];
    assert Grown(t.toks, |s.toks|, size, toks) == Inside(s, kind, size, toks);
    Close(js, cap, s, size, toks, super, q, kind);
  }

  lemma GrownFilling(s: State, k: nat, n: int, more: seq<Token>, pos: nat, super: int)
    requires Filling(s, k) && AllClosed(more)
    ensures Filling(State(pos, super, Grown(s.toks, k, n, more)), k)
  {
    var a := s.toks[k := s.toks[k].(size := s.toks[k].size + n)];
    LastOpenAppend(a, more, |more|);
    LastOpenSame(a, s.toks, |a|);
  }

  /** A comma and the whitespace behind it: the superior is the container again. */
  lemma ReadComma(js: seq<char>, cap: nat, s: State, k: nat, lead: seq<char>, tail: seq<char>) returns (t: State)
    requires Linked(s) && Filling(s, k) && 0 <= s.super && (s.super == k || !IsContainer(s.toks[s.super]))
    requires Spaces(lead) && At(js, s.pos, "," + (lead + tail))
    ensures t == State(s.pos + 1 + |lead|, k, s.toks)
    ensures Linked(t) && Filling(t, k) && At(js, t.pos, tail) && Run(js, cap, s) == Run(js, cap, t)
  {
    hide Run;
    AtSplit(js, s.pos, ",", lead + tail);
    assert js[s.pos] == js[s.pos..s.pos + 1][0] == ',';
    t := State(s.pos + 1, k, s.toks);
    OneStep(js, cap, s, t);
    AtSplit(js, t.pos, lead, tail);
    RunSpaces(js, cap, t, lead);
    t := t.(pos := t.pos + |lead|);
  }

  /** An element and the whitespace behind it. */
  lemma ReadItem(js: seq<char>, cap: nat, s: State, k: nat, v: Json, after: seq<char>, tail: seq<char>)
    returns (t: State)
    requires Linked(s) && Filling(s, k) && s.super == k && WellFormed(v) && Spaces(after)
    requires At(js, s.pos, Render(v) + (after + tail)) && tail != [] && EndsPrimitive(tail[0])
    requires |s.toks| + |Tokens(v, s.pos)| <= cap
    ensures t == State(s.pos + |Render(v)| + |after|, k, Grown(s.toks, k, 1, Tokens(v, s.pos)))
    ensures Linked(t) && Filling(t, k) && At(js, t.pos, tail) && Run(js, cap, s) == Run(js, cap, t)
    decreases v, 4
  {
    hide Run, Tokens, Render, StringBody, At, Spaces, WellFormed, EndsPrimitive;
    AtSplit(js, s.pos, Render(v), after + tail);
    AtSplit(js, s.pos + |Render(v)|, after, tail);
    SomethingFollows(js, s.pos + |Render(v)|, after, tail);
    ReadValue(js, cap, s, v);
    t := After(s, v);
    RunSpaces(js, cap, t, after);
    t := t.(pos := t.pos + |after|);
    TokensClosed(v, s.pos);
    GrownFilling(s, k, 1, Tokens(v, s.pos), t.pos, k);
  }

  lemma {:induction false} ReadItems(js: seq<char>, cap: nat, s: State, k: nat, items: Items)
    requires Linked(s) && Filling(s, k) && s.super == k
    requires WellFormedItems(items) && At(js, s.pos, RenderItems(items) + "]")
    requires |s.toks| + |ItemTokens(items, s.pos)| <= cap
    ensures var s' := State(s.pos + |RenderItems(items)|, k,
                            Grown(s.toks, k, ItemCount(items), ItemTokens(items, s.pos)));
            Linked(s') && Run(js, cap, s) == Run(js, cap, s') && AllClosed(ItemTokens(items, s.pos))
    decreases items, 1
  {
    hide Run, Tokens, Render, Filling, At, WellFormed, StringBody;
    ItemTokensClosed(items, s.pos);
    match items
    case NoItem =>
      assert Grown(s.toks, k, 0, []) == s.toks;
    case Item(v, after, lead, rest) =>
      var more := if rest == NoItem then [] else "," + lead + RenderItems(rest);
      var t := ReadItem(js, cap, s, k, v, after, more + "]") by {
        assert RenderItems(items) + "]" == Render(v) + (after + (more + "]"));
      }
      if rest == NoItem {
        assert ItemTokens(items, s.pos) == Tokens(v, s.pos);
      } else {
        t := ReadComma(js, cap, t, k, lead, RenderItems(rest) + "]") by {
          assert more + "]" == "," + (lead + (RenderItems(rest) + "]"));
        }
        ReadItems(js, cap, t, k, rest);
        GrowTwice(s.toks, k, 1, Tokens(v, s.pos), ItemCount(rest), ItemTokens(rest, t.pos));
      }
  }

  lemma GrowTwice(toks: seq<Token>, k: nat, m: int, a: seq<Token>, n: int, b: seq<Token>)
    requires k < |toks|
    ensures Grown(Grown(toks, k, m, a), k, n, b) == Grown(toks, k, m + n, a + b)
  {
  }

  /** Whatever stands behind a value in a container ends a primitive. */
  lemma SomethingFollows(js: seq<char>, p: nat, ws: seq<char>, tail: seq<char>)
    requires At(js, p, ws) && At(js, p + |ws|, tail) && Spaces(ws)
    requires tail != [] && EndsPrimitive(tail[0])
    ensures Follows(js, p)
  {
    if ws == [] {
      assert js[p..p + |tail|][0] == tail[0];
    } else {
      assert js[p..p + |ws|][0] == ws[0];
    }
  }

  /** A colon and the whitespace behind it: the superior is the last token. */
  lemma ReadColon(js: seq<char>, cap: nat, s: State, lead: seq<char>, tail: seq<char>) returns (t: State)
    requires Linked(s) && Spaces(lead) && At(js, s.pos, ":" + (lead + tail))
    ensures t == State(s.pos + 1 + |lead|, |s.toks| - 1, s.toks)
    ensures Linked(t) && At(js, t.pos, tail) && Run(js, cap, s) == Run(js, cap, t)
  {
    hide Run;
    AtSplit(js, s.pos, ":", lead + tail);
    assert js[s.pos] == js[s.pos..s.pos + 1][0] == ':';
    t := State(s.pos + 1, |s.toks| - 1, s.toks);
    OneStep(js, cap, s, t);
    AtSplit(js, t.pos, lead, tail);
    RunSpaces(js, cap, t, lead);
    t := t.(pos := t.pos + |lead|);
  }

  /** A key, the colon behind it and the whitespace around that: the superior is the key. */
  lemma ReadKey(js: seq<char>, cap: nat, s: State, k: nat, key: seq<char>, mid: seq<char>, lead: seq<char>,
                tail: seq<char>) returns (t: State)
    requires Linked(s) && Filling(s, k) && s.super == k && |s.toks| < cap
    requires StringBody(key) && Spaces(mid) && Spaces(lead)
    requires At(js, s.pos, Quote(key) + (mid + (":" + (lead + tail))))
    ensures t == State(s.pos + |key| + 2 + |mid| + 1 + |lead|, |s.toks|,
                       Grown(s.toks, k, 1, [Token(String, s.pos + 1, s.pos + 1 + |key|, 0)]))
    ensures Linked(t) && Filling(t, k) && At(js, t.pos, tail) && Run(js, cap, s) == Run(js, cap, t)
  {
    hide Run;
    var p := s.pos + |Quote(key)|;
    AtSplit(js, s.pos, Quote(key), mid + (":" + (lead + tail)));
    ReadQuoted(js, cap, s, key);
    t := After(s, Quoted(key));
    AtSplit(js, p, mid, ":" + (lead + tail));
    RunSpaces(js, cap, t, mid);
    t := t.(pos := p + |mid|);
    t := ReadColon(js, cap, t, lead, tail);
    GrownFilling(s, k, 1, [Token(String, s.pos + 1, s.pos + 1 + |key|, 0)], t.pos, t.super);
  }

  /** The value behind a key: the superior stays the key, or becomes the object when the value was
      itself a container. */
  lemma ReadMemberValue(js: seq<char>, cap: nat, s: State, k: nat, v: Json, after: seq<char>, tail: seq<char>)
    returns (t: State)
    requires Linked(s) && Filling(s, k) && k < s.super && s.super + 1 == |s.toks|
    requires !IsContainer(s.toks[s.super]) && WellFormed(v) && Spaces(after)
    requires At(js, s.pos, Render(v) + (after + tail)) && tail != [] && EndsPrimitive(tail[0])
    requires |s.toks| + |Tokens(v, s.pos)| <= cap
    ensures t == State(s.pos + |Render(v)| + |after|, t.super, Bump(s.toks, s.super) + Tokens(v, s.pos))
    ensures Linked(t) && t.super in {k, s.super} && At(js, t.pos, tail) && Run(js, cap, s) == Run(js, cap, t)
    decreases v, 4
  {
    hide Run, Tokens, Render, StringBody, At, Spaces, WellFormed, EndsPrimitive;
    AtSplit(js, s.pos, Render(v), after + tail);
    AtSplit(js, s.pos + |Render(v)|, after, tail);
    SomethingFollows(js, s.pos + |Render(v)|, after, tail);
    ReadValue(js, cap, s, v);
    t := After(s, v);
    RunSpaces(js, cap, t, after);
    t := t.(pos := t.pos + |after|);
  }

  /** One key and its value, up to the comma or the closing brace behind them. */
  lemma ReadMember(js: seq<char>, cap: nat, s: State, k: nat, key: seq<char>, mid: seq<char>, lead: seq<char>,
                   v: Json, after: seq<char>, tail: seq<char>) returns (t: State)
    requires Linked(s) && Filling(s, k) && s.super == k
    requires StringBody(key) && Spaces(mid) && Spaces(lead) && WellFormed(v) && Spaces(after)
    requires At(js, s.pos, Quote(key) + (mid + (":" + (lead + (Render(v) + (after + tail))))))
    requires tail != [] && EndsPrimitive(tail[0])
    requires |s.toks| + 1 + |Tokens(v, s.pos + |key| + 2 + |mid| + 1 + |lead|)| <= cap
    ensures var q := s.pos + |key| + 2 + |mid| + 1 + |lead|;
            && Linked(t) && Run(js, cap, s) == Run(js, cap, t) && Filling(t, k)
            && t.pos == q + |Render(v)| + |after| && At(js, t.pos, tail)
            && t.toks == Grown(s.toks, k, 1, [Token(String, s.pos + 1, s.pos + 1 + |key|, 1)] + Tokens(v, q))
            && 0 <= t.super && (t.super == k || !IsContainer(t.toks[t.super]))
    decreases v, 5
  {
    hide Run, Spaces, StringBody, WellFormed, At, EndsPrimitive;
    var u := ReadKey(js, cap, s, k, key, mid, lead, Render(v) + (after + tail));
    t := ReadMemberValue(js, cap, u, k, v, after, tail);
    var toks := [Token(String, s.pos + 1, s.pos + 1 + |key|, 1)] + Tokens(v, u.pos);
    assert t.toks == Grown(s.toks, k, 1, toks);
    TokensClosed(v, u.pos);
    GrownFilling(s, k, 1, toks, t.pos, t.super);
  }

  lemma MemberText(members: Members, tail: seq<char>)
    requires members.Member?
    ensures var Member(key, mid, lead, v, after, next, rest) := members;
            var more := if rest == NoMember then [] else "," + (next + RenderMembers(rest));
            && RenderMembers(members) + tail ==
               Quote(key) + (mid + (":" + (lead + (Render(v) + (after + (more + tail))))))
            && (rest != NoMember ==> more + tail == "," + (next + (RenderMembers(rest) + tail)))
  {
    var Member(key, mid, lead, v, after, next, rest) := members;
    var more := if rest == NoMember then [] else "," + (next + RenderMembers(rest));
    var r := Render(v);
    Assoc(",", next + RenderMembers(rest), tail);
    Assoc(next, RenderMembers(rest), tail);
    Assoc(after, more, tail);
    Assoc(r, after + more, tail);
    Assoc(lead, r + (after + more), tail);
    Assoc(":", lead + (r + (after + more)), tail);
    Assoc(mid, ":" + (lead + (r + (after + more))), tail);
    Assoc(Quote(key), mid + (":" + (lead + (r + (after + more)))), tail);
  }

  lemma {:induction false} ReadMembers(js: seq<char>, cap: nat, s: State, k: nat, members: Members) returns (super: int)
    requires Linked(s) && Filling(s, k) && s.super == k
    requires WellFormedMembers(members) && At(js, s.pos, RenderMembers(members) + "}")
    requires |s.toks| + |MemberTokens(members, s.pos)| <= cap
    ensures var s' := State(s.pos + |RenderMembers(members)|, super,
                            Grown(s.toks, k, MemberCount(members), MemberTokens(members, s.pos)));
            Linked(s') && Run(js, cap, s) == Run(js, cap, s') && AllClosed(MemberTokens(members, s.pos))
    decreases members, 1
  {
    hide Run, Tokens, Render, Filling, At, WellFormed, StringBody;
    MemberTokensClosed(members, s.pos);
    match members
    case NoMember =>
      assert Grown(s.toks, k, 0, []) == s.toks;
      super := k;
    case Member(key, mid, lead, v, after, next, rest) =>
      var more := if rest == NoMember then [] else "," + (next + RenderMembers(rest));
      MemberText(members, "}");
      var t := ReadMember(js, cap, s, k, key, mid, lead, v, after, more + "}");
      var toks := [Token(String, s.pos + 1, s.pos + 1 + |key|, 1)] + Tokens(v, s.pos + |key| + 2 + |mid| + 1 + |lead|);
      if rest == NoMember {
        assert MemberTokens(members, s.pos) == toks;
        super := t.super;
      } else {
        t := ReadComma(js, cap, t, k, next, RenderMembers(rest) + "}");
        super := ReadMembers(js, cap, t, k, rest);
        GrowTwice(s.toks, k, 1, toks, MemberCount(rest), MemberTokens(rest, t.pos));
      }
  }

  lemma RunStops(js: seq<char>, cap: nat, s: State)
    requires Linked(s) && AtEnd(js, s.pos) && AllClosed(s.toks)
    ensures Run(js, cap, s) == (s, |s.toks|)
  {
  }

  /** Parser inverts printer: a fresh parse of a printed value returns exactly its tokens. */
  lemma ParseInvertsPrint(before: seq<char>, v: Json, after: seq<char>, cap: nat)
    requires WellFormed(v) && Spaces(before) && Spaces(after)
    requires |Tokens(v, |before|)| <= cap
    ensures var js := before + Render(v) + after;
            Run(js, cap, Init) == (State(|js|, -1, Tokens(v, |before|)), |Tokens(v, |before|)|)
  {
    hide Run, Render, Tokens, At, Spaces, WellFormed;
    var js := before + Render(v) + after;
    TextParts(before, Render(v), after);
    RunSpaces(js, cap, Init, before);
    var s := Init.(pos := |before|);
    ReadValue(js, cap, s, v);
    var t := After(s, v);
    NothingBumped(v, |before|);
    RunSpaces(js, cap, t, after);
    t := t.(pos := t.pos + |after|);
    TokensClosed(v, |before|);
    RunStops(js, cap, t);
  }

  lemma TextParts(before: seq<char>, text: seq<char>, after: seq<char>)
    requires Spaces(after)
    ensures var js := before + text + after;
            && At(js, 0, before) && At(js, |before|, text) && At(js, |before| + |text|, after)
            && Follows(js, |before| + |text|)
  {
    var js := before + text + after;
    if after != [] {
      assert js[|before| + |text|] == after[0];
    }
  }

  lemma NothingBumped(v: Json, p: nat)
    ensures After(Init.(pos := p), v).toks == Tokens(v, p)
  {
    hide Render, Tokens;
  }
}
