/** Which texts the tokenizer accepts, by a lexical grammar of its own and balanced brackets (helpers/jsmn.c). */
module JsmnLexis {
  import opened Common
  import opened Jsmn
  import opened JsmnStack
  import opened JsmnTree

  // ---------------------------------------------------------------- lexemes

  /** Whitespace and punctuation, a word without quotes (a number or a literal, in JSON), and a string. */
  datatype Lexeme = Sign(c: char) | Plain(text: seq<char>) | Str(body: seq<char>)

  predicate Valid(l: Lexeme) {
    match l
    case Sign(c) => c in [' ', '\t', '\n', '\r', '{', '}', '[', ']', ':', ',']
    case Plain(text) => BareText(text)
    case Str(body) => StringBody(body)
  }

  function Spell(l: Lexeme): (t: seq<char>) {
    match l
    case Sign(c) => [c]
    case Plain(text) => text
    case Str(body) => Quote(body)
  }

  function Spelling(ls: seq<Lexeme>): seq<char> {
    if ls == [] then [] else Spell(ls[0]) + Spelling(ls[1..])
  }

  /** A word goes on to the next whitespace, colon, comma or closing bracket, or to the end. */
  predicate Lexed(ls: seq<Lexeme>) {
    ls == [] ||
    (Valid(ls[0]) && Lexed(ls[1..]) &&
     (ls[0].Plain? && |ls| > 1 ==> ls[1].Sign? && ls[1].c !in ['{', '[']))
  }

  /** What becomes a token: opening brackets, words and strings. */
  function KindsOf(ls: seq<Lexeme>): seq<Kind> {
    if ls == [] then []
    else
      (match ls[0]
       case Sign(c) => if c == '{' then [Object] else if c == '[' then [Array] else []
       case Plain(_) => [Primitive]
       case Str(_) => [String])
      + KindsOf(ls[1..])
  }

  function BracketsOf(ls: seq<Lexeme>): seq<Bracket> {
    if ls == [] then []
    else
      (if ls[0] == Sign('{') then [Opening(Object)]
       else if ls[0] == Sign('[') then [Opening(Array)]
       else if ls[0] == Sign('}') then [Closing(Object)]
       else if ls[0] == Sign(']') then [Closing(Array)]
       else [])
      + BracketsOf(ls[1..])
  }

  lemma SpellNonEmpty(l: Lexeme)
    requires Valid(l)
    ensures Spell(l) != [] && '\0' !in Spell(l)
  {
    hide StringBody;
    match l
    case Sign(c) =>
    case Plain(text) =>
      forall i | 0 <= i < |text| ensures text[i] != '\0' {
        assert BareChar(text[i]);
      }
    case Str(body) => NoNulInBody(body);
  }

  // ---------------------------------------------------------------- a lexeme is one step

  /** What stands behind a word. */
  lemma NextEnds(js: seq<char>, p: nat, ls: seq<Lexeme>)
    requires Lexed(ls) && At(js, p, Spelling(ls)) && AtEnd(js, p + |Spelling(ls)|)
    requires ls != [] && ls[0].Plain?
    ensures var q := p + |ls[0].text|; AtEnd(js, q) || EndsPrimitive(js[q])
  {
    hide AtEnd, StringBody, EndsPrimitive, BareText;
    AtSplit(js, p, Spell(ls[0]), Spelling(ls[1..]));
    if |ls| > 1 {
      var rest := ls[1..];
      assert rest[0] == ls[1] && Valid(rest[0]);
      CharAt(js, p + |ls[0].text|, Spelling(rest), 0);
      ClassesAgree(rest[0].c);
    }
  }

  function Counted(l: Lexeme): nat {
    if l.Sign? && l.c !in ['{', '['] then 0 else 1
  }

  lemma SignStep(js: seq<char>, p: nat, c: char)
    requires Valid(Sign(c)) && At(js, p, [c])
    ensures !AtEnd(js, p) && js[p] == c && DryStep(js, p) == DryNext(p + 1, Counted(Sign(c)))
  {
    hide StringScan, PrimitiveEnd;
    CharAt(js, p, [c], 0);
  }

  lemma PlainStep(js: seq<char>, p: nat, text: seq<char>)
    requires BareText(text) && At(js, p, text) && (AtEnd(js, p + |text|) || EndsPrimitive(js[p + |text|]))
    ensures !AtEnd(js, p) && js[p] == text[0] && DryStep(js, p) == DryNext(p + |text|, 1)
  {
    hide StringScan, PrimitiveEnd, IsSpace;
    WordScanned(js, p, text);
    assert BareChar(text[0]);
    ClassesAgree(text[0]);
  }

  lemma StrStep(js: seq<char>, p: nat, body: seq<char>)
    requires StringBody(body) && At(js, p, Quote(body))
    ensures !AtEnd(js, p) && js[p] == '\"' && DryStep(js, p) == DryNext(p + |body| + 2, 1)
  {
    hide StringScan, PrimitiveEnd, StringBody, At;
    StringScanned(js, p, body);
  }

  /** The first lexeme of a text is what one turn of the loop reads. */
  lemma LexemeStep(js: seq<char>, p: nat, ls: seq<Lexeme>)
    requires Lexed(ls) && ls != [] && At(js, p, Spelling(ls)) && AtEnd(js, p + |Spelling(ls)|)
    ensures var l := ls[0];
            && !AtEnd(js, p) && DryStep(js, p) == DryNext(p + |Spell(l)|, Counted(l))
            && At(js, p + |Spell(l)|, Spelling(ls[1..]))
            && p + |Spell(l)| + |Spelling(ls[1..])| == p + |Spelling(ls)|
            && Spell(l) != [] && js[p] == Spell(l)[0]
  {
    hide StringBody, BareText, DryStep, Lexed, At, Spelling, Valid;
    var l := ls[0];
    FirstValid(ls);
    FirstChar(l);
    SpellingUnfold(ls);
    AtSplit(js, p, Spell(l), Spelling(ls[1..]));
    ValidParts(l);
    match l
    case Sign(c) => SignStep(js, p, c);
    case Plain(text) =>
      NextEnds(js, p, ls);
      PlainStep(js, p, text);
    case Str(body) => StrStep(js, p, body);
  }

  lemma SpellingUnfold(ls: seq<Lexeme>)
    requires ls != []
    ensures Spelling(ls) == Spell(ls[0]) + Spelling(ls[1..])
    ensures |KindsOf(ls)| == Counted(ls[0]) + |KindsOf(ls[1..])|
  {
    hide Spell;
  }

  lemma BracketsUnfold(ls: seq<Lexeme>)
    requires ls != []
    ensures ls[0] in [Sign('{'), Sign('[')] ==>
              BracketsOf(ls) == [Opening(if ls[0].c == '{' then Object else Array)] + BracketsOf(ls[1..])
    ensures ls[0] in [Sign('}'), Sign(']')] ==>
              BracketsOf(ls) == [Closing(if ls[0].c == '}' then Object else Array)] + BracketsOf(ls[1..])
    ensures ls[0] !in [Sign('{'), Sign('['), Sign('}'), Sign(']')] ==> BracketsOf(ls) == BracketsOf(ls[1..])
  {
  }

  lemma ValidParts(l: Lexeme)
    requires Valid(l)
    ensures l.Plain? ==> BareText(l.text)
    ensures l.Str? ==> StringBody(l.body)
  {
  }

  lemma FirstValid(ls: seq<Lexeme>)
    requires Lexed(ls) && ls != []
    ensures Valid(ls[0]) && Lexed(ls[1..])
  {
  }

  lemma WordScanned(js: seq<char>, p: nat, text: seq<char>)
    requires BareText(text) && At(js, p, text) && (AtEnd(js, p + |text|) || EndsPrimitive(js[p + |text|]))
    ensures p < |js| && js[p] == text[0] && !EndsPrimitive(js[p]) && !IsOpener(js[p]) && js[p] != '\"'
    ensures PrimitiveEnd(js, p) == Some(p + |text|)
  {
    CharAt(js, p, text, 0);
    ScanBare(js, p, text);
  }

  lemma StringScanned(js: seq<char>, p: nat, body: seq<char>)
    requires StringBody(body) && At(js, p, Quote(body))
    ensures p < |js| && js[p] == '\"' && StringScan(js, p + 1) == Closed(p + 1 + |body|)
  {
    hide StringBody, StringScan;
    AtSplit(js, p, "\"", body + "\"") by { assert "\"" + (body + "\"") == Quote(body); }
    CharAt(js, p, "\"", 0);
    ScanBody(js, p + 1, body);
  }

  /** A lexed text is scanned to its end, with its tokens and its brackets. */
  lemma {:induction false} LexedScans(js: seq<char>, p: nat, count: nat, ls: seq<Lexeme>)
    requires Lexed(ls) && At(js, p, Spelling(ls)) && AtEnd(js, p + |Spelling(ls)|)
    ensures DryRun(js, p, count) == count + |KindsOf(ls)| && Brackets(js, p) == BracketsOf(ls)
    decreases |ls|
  {
    hide DryStep, DryRun, Brackets, Lexed, At, Spelling, Valid, KindsOf, BracketsOf;
    if ls == [] {
      NothingSpelled(js, p, count);
    } else {
      FirstValid(ls);
      LexemeStep(js, p, ls);
      DryRunStep(js, p, count);
      SpellingUnfold(ls);
      BracketsUnfold(ls);
      FirstBracket(js[p], ls[0]);
      LexedScans(js, p + |Spell(ls[0])|, count + Counted(ls[0]), ls[1..]);
    }
  }

  /** The brackets are the lexemes that begin like one. */
  lemma FirstBracket(c: char, l: Lexeme)
    requires Valid(l) && Spell(l) != [] && c == Spell(l)[0]
    ensures IsOpener(c) <==> l in [Sign('{'), Sign('[')]
    ensures IsCloser(c) <==> l in [Sign('}'), Sign(']')]
  {
    hide Valid;
    FirstChar(l);
    ClassesAgree(c);
  }

  lemma NothingSpelled(js: seq<char>, p: nat, count: nat)
    ensures Spelling([]) == [] && KindsOf([]) == [] && BracketsOf([]) == []
    ensures AtEnd(js, p) ==> DryRun(js, p, count) == count && Brackets(js, p) == []
  {
  }

  /** Words and strings do not begin like brackets. */
  lemma FirstChar(l: Lexeme)
    requires Valid(l)
    ensures Spell(l) != [] && '\0' !in Spell(l) && (!l.Sign? ==> Spell(l)[0] !in ['{', '[', '}', ']'])
  {
    hide StringBody;
    SpellNonEmpty(l);
    if l.Plain? {
      assert BareChar(l.text[0]);
    }
  }

  // ---------------------------------------------------------------- strings and words, exactly

  lemma {:induction false} HexEndIs(js: seq<char>, p: nat, n: nat)
    ensures match HexEnd(js, p, n)
            case Some(r) => AtEnd(js, r) || (r == p + n <= |js| && forall i :: p <= i < p + n ==> HexChar(js[i]))
            case None => NoHexAt(js, p, n)
    decreases n
  {
    hide HexChar, IsHex;
    if n > 0 && !AtEnd(js, p) {
      ClassesAgree(js[p]);
      HexEndIs(js, p + 1, n - 1);
      if !HexChar(js[p]) {
        assert FirstNoHex(js, p, n, 0);
      } else if HexEnd(js, p, n) == None {
        var i: nat :| FirstNoHex(js, p + 1, n - 1, i);
        assert FirstNoHex(js, p, n, i + 1);
      }
    }
  }

  predicate FirstNoHex(js: seq<char>, p: nat, n: nat, i: nat) {
    i < n && p + i < |js| && js[p + i] != '\0' && !HexChar(js[p + i]) && forall j :: p <= j < p + i ==> HexChar(js[j])
  }

  /** Among the n characters from p on there is one that is no hexadecimal digit, and the text does not end before. */
  ghost predicate NoHexAt(js: seq<char>, p: nat, n: nat) {
    exists i: nat :: FirstNoHex(js, p, n, i)
  }

  lemma {:induction false} NoHexStops(js: seq<char>, p: nat, n: nat, i: nat)
    requires FirstNoHex(js, p, n, i)
    ensures HexEnd(js, p, n) == None
    decreases n
  {
    hide HexChar, IsHex;
    ClassesAgree(js[p]);
    if i > 0 {
      ClassesAgree('\0');
      assert HexChar(js[p]);
      NulIsNoHex();
      NoHexStops(js, p + 1, n - 1, i - 1);
    }
  }

  lemma NulIsNoHex()
    ensures !HexChar('\0')
  {
    HexCharIs('\0');
  }

  /** The start of a string body is passed over. */
  lemma {:induction false} BodyPassed(js: seq<char>, p: nat, k: nat)
    requires p <= k <= |js| && StringBody(js[p..k])
    ensures StringScan(js, p) == StringScan(js, k)
    decreases k - p
  {
    hide StringScan, EscapeChar, HexChar;
    var b := js[p..k];
    if b != [] {
      NoNulInBody(b);
      assert b[0] == js[p];
      if b[0] == '\\' {
        EscapePassed(js, p, k);
        BodyPassed(js, if EscapeChar(b[1]) then p + 2 else p + 6, k);
      } else {
        assert js[p + 1..k] == b[1..];
        PlainPassed(js, p);
        BodyPassed(js, p + 1, k);
      }
    }
  }

  lemma PlainPassed(js: seq<char>, p: nat)
    requires p < |js| && js[p] != '\0' && js[p] != '\"' && (js[p] == '\\' ==> p + 1 >= |js|)
    ensures StringScan(js, p) == StringScan(js, p + 1)
  {
    hide IsSimpleEscape;
  }

  lemma EscapePassed(js: seq<char>, p: nat, k: nat)
    requires p < k <= |js| && StringBody(js[p..k]) && js[p] == '\\'
    ensures p + 1 < k
    ensures var n := if EscapeChar(js[p + 1]) then 2 else 6;
            p + n <= k && StringBody(js[p + n..k]) && StringScan(js, p) == StringScan(js, p + n)
  {
    hide StringScan, EscapeChar, HexChar, IsHex, IsSimpleEscape;
    var b := js[p..k];
    assert b[0] == js[p] && b[1] == js[p + 1];
    ClassesAgree(js[p + 1]);
    if EscapeChar(b[1]) {
      assert js[p + 2..k] == b[2..];
      SimplePassed(js, p);
    } else {
      UnicodeDigits(b);
      assert b[2] == js[p + 2] && b[3] == js[p + 3] && b[4] == js[p + 4] && b[5] == js[p + 5];
      assert js[p + 6..k] == b[6..];
      FourHex(js, p + 2);
      UnicodePassed(js, p, p + 6);
    }
  }

  lemma SimplePassed(js: seq<char>, p: nat)
    requires p + 1 < |js| && js[p] == '\\' && IsSimpleEscape(js[p + 1])
    ensures StringScan(js, p) == StringScan(js, p + 2)
  {
    hide IsSimpleEscape;
  }

  lemma UnicodePassed(js: seq<char>, p: nat, r: nat)
    requires p + 1 < |js| && js[p] == '\\' && !IsSimpleEscape(js[p + 1]) && js[p + 1] == 'u'
    requires HexEnd(js, p + 2, 4) == Some(r)
    ensures StringScan(js, p) == StringScan(js, r)
  {
    hide IsSimpleEscape, HexEnd;
  }

  /** A backslash at k with nothing allowed behind it. */
  ghost predicate BadEscape(js: seq<char>, k: nat) {
    k + 1 < |js| && js[k] == '\\' && !EscapeChar(js[k + 1]) && (js[k + 1] == 'u' ==> NoHexAt(js, k + 2, 4))
  }

  lemma BadEscapeIs(js: seq<char>, p: nat)
    requires p + 1 < |js| && js[p] == '\\'
    ensures BadEscape(js, p) ==> StringScan(js, p) == Bad
    ensures !BadEscape(js, p) ==>
              EscapeChar(js[p + 1]) || (js[p + 1] == 'u' && HexEnd(js, p + 2, 4).Some?)
  {
    hide EscapeChar, HexEnd, IsSimpleEscape;
    ClassesAgree(js[p + 1]);
    HexEndIs(js, p + 2, 4);
    if BadEscape(js, p) && js[p + 1] == 'u' {
      var i: nat :| FirstNoHex(js, p + 2, 4, i);
      NoHexStops(js, p + 2, 4, i);
    }
  }

  /** What is scanned of a string: a body and its closing quote, a bad escape behind the start of a body, or neither. */
  lemma {:induction false} StringScanIs(js: seq<char>, p: nat) returns (k: nat)
    requires p <= |js|
    ensures p <= k <= |js| && StringBody(js[p..k])
    ensures match StringScan(js, p)
            case Closed(q) => q == k < |js| && js[k] == '\"'
            case Bad => BadEscape(js, k)
            case Unfinished => AtEnd(js, k) || (k + 1 == |js| && js[k] == '\\') || CutUnicode(js, k)
    decreases |js| - p
  {
    hide StringScan, EscapeChar, HexChar, StringBody, BadEscape, HexEnd, NoHexAt, IsSimpleEscape;
    EmptyBody(js, p);
    k := p;
    if AtEnd(js, p) || js[p] == '\"' {
      ScanEnds(js, p);
    } else if js[p] != '\\' {
      PlainPassed(js, p);
      k := StringScanIs(js, p + 1);
      BodyGrows(js, p, 1, k);
    } else if p + 1 >= |js| {
      PlainPassed(js, p);
      ScanEnds(js, p + 1);
    } else if BadEscape(js, p) {
      BadEscapeIs(js, p);
    } else {
      k := EscapeScanIs(js, p);
    }
  }

  /** A u behind a backslash, and hexadecimal digits up to the end of the text. */
  ghost predicate CutUnicode(js: seq<char>, k: nat) {
    k + 1 < |js| && js[k] == '\\' && js[k + 1] == 'u' && exists r: nat :: CutAt(js, k, r)
  }

  predicate CutAt(js: seq<char>, k: nat, r: nat) {
    k + 2 <= r < k + 6 && AtEnd(js, r) && r <= |js| && forall i :: k + 2 <= i < r ==> HexChar(js[i])
  }

  lemma {:induction false} EscapeScanIs(js: seq<char>, p: nat) returns (k: nat)
    requires p + 1 < |js| && js[p] == '\\' && !BadEscape(js, p)
    ensures p <= k <= |js| && StringBody(js[p..k])
    ensures match StringScan(js, p)
            case Closed(q) => q == k < |js| && js[k] == '\"'
            case Bad => BadEscape(js, k)
            case Unfinished => AtEnd(js, k) || (k + 1 == |js| && js[k] == '\\') || CutUnicode(js, k)
    decreases |js| - p, 0
  {
    hide StringScan, EscapeChar, HexChar, StringBody, BadEscape, HexEnd, NoHexAt, IsSimpleEscape;
    BadEscapeIs(js, p);
    ClassesAgree(js[p + 1]);
    if EscapeChar(js[p + 1]) {
      SimplePassed(js, p);
      k := StringScanIs(js, p + 2);
      BodyGrows(js, p, 2, k);
    } else {
      var r := HexEnd(js, p + 2, 4).value;
      HexRange(js, p + 2, 4);
      UnicodePassed(js, p, r);
      HexEndIs(js, p + 2, 4);
      if r == p + 6 && forall i :: p + 2 <= i < p + 6 ==> HexChar(js[i]) {
        k := StringScanIs(js, p + 6);
        BodyGrows(js, p, 6, k);
      } else {
        k := p;
        EmptyBody(js, p);
        ScanEnds(js, r);
        assert CutAt(js, p, r);
      }
    }
  }

  lemma {:induction false} HexRange(js: seq<char>, p: nat, n: nat)
    requires p <= |js|
    ensures match HexEnd(js, p, n)
            case Some(r) => p <= r <= p + n && r <= |js| && forall i :: p <= i < r ==> HexChar(js[i])
            case None => true
    decreases n
  {
    hide HexChar, IsHex;
    if n > 0 && !AtEnd(js, p) {
      ClassesAgree(js[p]);
      HexRange(js, p + 1, n - 1);
    }
  }

  lemma EmptyBody(js: seq<char>, p: nat)
    requires p <= |js|
    ensures js[p..p] == [] && StringBody(js[p..p])
  {
  }

  lemma ScanEnds(js: seq<char>, p: nat)
    ensures AtEnd(js, p) ==> StringScan(js, p) == Unfinished
    ensures !AtEnd(js, p) && js[p] == '\"' ==> StringScan(js, p) == Closed(p)
  {
  }

  /** One more character or escape in front of a body. */
  lemma BodyGrows(js: seq<char>, p: nat, n: nat, k: nat)
    requires p + n <= k <= |js| && StringBody(js[p + n..k]) && n in [1, 2, 6]
    requires n == 1 ==> js[p] != '\\' && js[p] != '\"' && js[p] != '\0'
    requires n > 1 ==> js[p] == '\\' && (EscapeChar(js[p + 1]) <==> n == 2)
    requires n == 6 ==> js[p + 1] == 'u' && forall i :: p + 2 <= i < p + 6 ==> HexChar(js[i])
    ensures StringBody(js[p..k])
  {
    hide EscapeChar, HexChar;
    var b := js[p..k];
    assert b[n..] == js[p + n..k] && b[0] == js[p];
    if n > 1 {
      assert b[1] == js[p + 1];
    }
    if n == 6 {
      assert b[2] == js[p + 2] && b[3] == js[p + 3] && b[4] == js[p + 4] && b[5] == js[p + 5];
    }
  }

  /** A word goes to the next character that ends one, unless a character that none may hold is in front of that. */
  lemma {:induction false} WordIs(js: seq<char>, p: nat) returns (k: nat)
    requires p <= |js|
    ensures p <= k <= |js| && forall i :: p <= i < k ==> BareChar(js[i])
    ensures match PrimitiveEnd(js, p)
            case Some(q) => q == k && (AtEnd(js, k) || EndsPrimitive(js[k]))
            case None => k < |js| && js[k] != '\0' && !(' ' <= js[k] <= '~')
    decreases |js| - p
  {
    hide BareChar, Printable;
    k := p;
    if !AtEnd(js, p) {
      ClassesAgree(js[p]);
      if Printable(js[p]) && !EndsPrimitive(js[p]) {
        k := WordIs(js, p + 1);
      }
    }
  }

  // ---------------------------------------------------------------- what is scanned is lexed

  /** A lexeme in front of a lexed text. */
  lemma LexedCons(l: Lexeme, ls: seq<Lexeme>)
    requires Valid(l) && Lexed(ls)
    requires l.Plain? && ls != [] ==> ls[0].Sign? && ls[0].c !in ['{', '[']
    ensures Lexed([l] + ls) && Spelling([l] + ls) == Spell(l) + Spelling(ls)
  {
    hide Valid, Spell;
    var all := [l] + ls;
    assert all[1..] == ls;
  }

  lemma AtJoin(js: seq<char>, p: nat, a: seq<char>, b: seq<char>)
    requires At(js, p, a) && At(js, p + |a|, b)
    ensures At(js, p, a + b)
  {
    assert js[p..p + |a + b|] == js[p..p + |a|] + js[p + |a|..p + |a| + |b|];
  }

  /** What makes a lexeme that of one turn of the loop. */
  ghost predicate TurnReads(js: seq<char>, p: nat, l: Lexeme)
    requires p < |js| && !AtEnd(js, p) && DryStep(js, p).DryNext?
  {
    && Valid(l) && At(js, p, Spell(l)) && DryStep(js, p).pos == p + |Spell(l)|
    && (l.Plain? ==> AtEnd(js, p + |Spell(l)|) || EndsPrimitive(js[p + |Spell(l)|]))
    && (l.Sign? ==> l.c == js[p]) && (l.Str? ==> js[p] == '\"') && (l.Plain? ==> BareChar(js[p]))
  }

  lemma SignTurn(js: seq<char>, p: nat)
    requires p < |js| && !AtEnd(js, p) && DryStep(js, p).DryNext?
    requires js[p] in [' ', '\t', '\n', '\r', '{', '}', '[', ']', ':', ',']
    ensures TurnReads(js, p, Sign(js[p]))
  {
    hide StringScan, PrimitiveEnd, StringBody, BareChar, EndsPrimitive;
  }

  lemma StrTurn(js: seq<char>, p: nat) returns (l: Lexeme)
    requires p < |js| && !AtEnd(js, p) && DryStep(js, p).DryNext? && js[p] == '\"'
    ensures TurnReads(js, p, l)
  {
    hide StringScan, PrimitiveEnd, StringBody, BareChar, EndsPrimitive;
    var k := StringScanIs(js, p + 1);
    l := Str(js[p + 1..k]);
    assert js[p..k + 1] == "\"" + js[p + 1..k] + "\"";
  }

  lemma PlainTurn(js: seq<char>, p: nat) returns (l: Lexeme)
    requires p < |js| && !AtEnd(js, p) && DryStep(js, p).DryNext?
    requires js[p] !in [' ', '\t', '\n', '\r', '{', '}', '[', ']', ':', ',', '\"']
    ensures TurnReads(js, p, l)
  {
    hide StringScan, PrimitiveEnd, BareText, BareChar, EndsPrimitive, IsSpace, IsOpener, IsCloser;
    ClassesAgree(js[p]);
    var k := WordIs(js, p);
    l := Plain(js[p..k]);
    WordText(js, p, k);
  }

  /** The lexeme that one turn of the loop reads, whenever it reads on. */
  lemma StepLexeme(js: seq<char>, p: nat) returns (l: Lexeme)
    requires p < |js| && !AtEnd(js, p) && DryStep(js, p).DryNext?
    ensures Valid(l) && At(js, p, Spell(l)) && DryStep(js, p).pos == p + |Spell(l)|
    ensures l.Plain? ==> var q := p + |Spell(l)|; AtEnd(js, q) || EndsPrimitive(js[q])
    ensures (l.Sign? ==> l.c == js[p]) && (l.Str? ==> js[p] == '\"') && (l.Plain? ==> BareChar(js[p]))
  {
    hide DryStep, StringBody, BareText, BareChar, EndsPrimitive, Valid, At;
    var c := js[p];
    if c in [' ', '\t', '\n', '\r', '{', '}', '[', ']', ':', ','] {
      l := Sign(c);
      SignTurn(js, p);
    } else if c == '\"' {
      l := StrTurn(js, p);
    } else {
      l := PlainTurn(js, p);
    }
  }

  lemma WordText(js: seq<char>, p: nat, k: nat)
    requires p <= k <= |js| && p < |js| && forall i :: p <= i < k ==> BareChar(js[i])
    requires !EndsPrimitive(js[p]) && !IsOpener(js[p]) && js[p] != '\"'
    requires AtEnd(js, k) || EndsPrimitive(js[k])
    requires !AtEnd(js, p)
    ensures BareText(js[p..k]) && BareChar(js[p]) && At(js, p, js[p..k])
  {
    hide BareChar;
    ClassesAgree(js[p]);
    assert k > p;
    assert js[p..k][0] == js[p];
  }

  /** Every text that is scanned to its end is lexed. */
  lemma {:induction false} ScansLexed(js: seq<char>, p: nat, count: nat) returns (ls: seq<Lexeme>)
    requires p <= |js| && DryRun(js, p, count) >= 0
    ensures Lexed(ls) && At(js, p, Spelling(ls)) && AtEnd(js, p + |Spelling(ls)|)
    ensures ls == [] <==> AtEnd(js, p)
    ensures ls != [] ==> Valid(ls[0]) && Spell(ls[0]) != [] && Spell(ls[0])[0] == js[p]
    decreases |js| - p
  {
    hide DryStep, DryRun, Lexed, Spelling, Valid, At;
    if AtEnd(js, p) {
      ls := [];
      NothingLexed(js, p);
    } else {
      ScanGoesOn(js, p, count);
      var l := StepLexeme(js, p);
      var q := p + |Spell(l)|;
      SpellNonEmpty(l);
      AtBound(js, p, Spell(l));
      var rest := ScansLexed(js, q, count + DryStep(js, p).counted);
      if l.Plain? && rest != [] {
        EndsWithSign(js[q], rest[0]);
      }
      LexedCons(l, rest);
      AtJoin(js, p, Spell(l), Spelling(rest));
      ls := [l] + rest;
      AtFirst(js, p, Spell(l));
    }
  }

  lemma NothingLexed(js: seq<char>, p: nat)
    requires p <= |js|
    ensures Lexed([]) && Spelling([]) == [] && At(js, p, [])
  {
  }

  lemma AtBound(js: seq<char>, p: nat, t: seq<char>)
    requires At(js, p, t)
    ensures p + |t| <= |js|
  {
  }

  lemma AtFirst(js: seq<char>, p: nat, t: seq<char>)
    requires At(js, p, t) && t != []
    ensures p < |js| && t[0] == js[p]
  {
    CharAt(js, p, t, 0);
  }

  lemma ScanGoesOn(js: seq<char>, p: nat, count: nat)
    requires !AtEnd(js, p) && DryRun(js, p, count) >= 0
    ensures DryStep(js, p).DryNext?
    ensures DryRun(js, DryStep(js, p).pos, count + DryStep(js, p).counted) >= 0
  {
    hide DryStep;
  }

  lemma EndsWithSign(c: char, l: Lexeme)
    requires Valid(l) && Spell(l) != [] && Spell(l)[0] == c && EndsPrimitive(c)
    ensures l.Sign? && l.c !in ['{', '[']
  {
    hide StringBody, BareChar;
    ClassesAgree(c);
  }

  // ---------------------------------------------------------------- acceptance

  /** The text is made of these lexemes, and its brackets are balanced. */
  ghost predicate Reads(text: seq<char>, ls: seq<Lexeme>) {
    Lexed(ls) && Spelling(ls) == text && Balanced(BracketsOf(ls))
  }

  lemma {:induction false} SpellingHasNoNul(ls: seq<Lexeme>)
    requires Lexed(ls)
    ensures '\0' !in Spelling(ls)
    decreases |ls|
  {
    hide Spell, Valid;
    if ls != [] {
      FirstValid(ls);
      SpellNonEmpty(ls[0]);
      SpellingHasNoNul(ls[1..]);
    }
  }

  /** The text ends where its lexemes do. */
  lemma WholeSpelled(text: seq<char>, tail: seq<char>, ls: seq<Lexeme>)
    requires '\0' !in text && (tail != [] ==> tail[0] == '\0') && Lexed(ls)
    ensures At(text + tail, 0, Spelling(ls)) && AtEnd(text + tail, |Spelling(ls)|) <==> Spelling(ls) == text
  {
    hide Lexed, Spelling;
    var js, t := text + tail, Spelling(ls);
    SpellingHasNoNul(ls);
    assert forall i :: 0 <= i < |text| ==> js[i] == text[i] != '\0';
    assert |text| < |js| ==> js[|text|] == '\0';
    assert js[0..|text|] == text;
    if At(js, 0, t) {
      assert forall i :: 0 <= i < |t| ==> js[i] == js[0..|t|][i] == t[i];
    }
  }

  /** What the tokenizer makes of every text, up to a NUL: with lexemes whose brackets are balanced and a token for
      each opening bracket, word and string of them, the number of these, or -1 when the pool holds fewer; otherwise an
      error. */
  lemma AcceptedIff(text: seq<char>, tail: seq<char>, m: nat)
    requires '\0' !in text && (tail != [] ==> tail[0] == '\0')
    ensures Run(text + tail, m, Init).1 >= 0 <==> exists ls :: Reads(text, ls) && |KindsOf(ls)| <= m
    ensures forall ls :: Reads(text, ls) ==>
              Run(text + tail, m, Init).1 == if |KindsOf(ls)| <= m then |KindsOf(ls)| else -1
  {
    hide Run, DryRun, Brackets, StackRun, Lexed, Spelling, BracketsOf, KindsOf, At;
    var js := text + tail;
    ParseOutcome(js, m);
    StackRunCounts(js, 0, 0, []);
    MatchesIffBalanced(Brackets(js, 0));
    forall ls | Reads(text, ls)
      ensures Needed(js) == |KindsOf(ls)| && StackRun(js, 0, 0, []) == |KindsOf(ls)|
    {
      WholeSpelled(text, tail, ls);
      LexedScans(js, 0, 0, ls);
    }
    if Run(js, m, Init).1 >= 0 {
      var ls := ScansLexed(js, 0, 0);
      WholeSpelled(text, tail, ls);
      LexedScans(js, 0, 0, ls);
      assert Reads(text, ls);
    }
  }

  // ---------------------------------------------------------------- the tokens of a text

  function TokenKinds(toks: seq<Token>): (ks: seq<Kind>)
    ensures |ks| == |toks|
  {
    seq(|toks|, i requires 0 <= i < |toks| => toks[i].kind)
  }

  /** What one step adds to the types of the tokens. */
  lemma StepKinds(js: seq<char>, cap: nat, s: State)
    requires Linked(s) && !AtEnd(js, s.pos) && Step(js, cap, s).Next?
    ensures DryStep(js, s.pos).DryNext? && Step(js, cap, s).s.pos == DryStep(js, s.pos).pos
    ensures var c := js[s.pos];
            TokenKinds(Step(js, cap, s).s.toks) == TokenKinds(s.toks) +
            if c == '{' then [Object] else if c == '[' then [Array] else if c == '\"' then [String]
            else if IsCloser(c) || IsSpace(c) || c == ':' || c == ',' then [] else [Primitive]
  {
    hide StringScan, PrimitiveEnd, LastOpen, LastOpenContainer;
  }

  lemma KindsUnfold(ls: seq<Lexeme>)
    requires ls != []
    ensures KindsOf(ls) ==
            (if ls[0] == Sign('{') then [Object] else if ls[0] == Sign('[') then [Array]
             else if ls[0].Sign? then [] else if ls[0].Plain? then [Primitive] else [String]) + KindsOf(ls[1..])
  {
  }

  /** One step adds the type of the first lexeme, if it has one. */
  lemma StepReadsKind(js: seq<char>, cap: nat, s: State, ls: seq<Lexeme>)
    requires Linked(s) && !AtEnd(js, s.pos) && Step(js, cap, s).Next?
    requires ls != [] && Valid(ls[0]) && Spell(ls[0]) != [] && js[s.pos] == Spell(ls[0])[0]
    ensures TokenKinds(Step(js, cap, s).s.toks) + KindsOf(ls[1..]) == TokenKinds(s.toks) + KindsOf(ls)
  {
    hide Step, DryStep, Valid, Spell, KindsOf, TokenKinds, IsCloser, IsSpace;
    StepKinds(js, cap, s);
    KindsUnfold(ls);
    LexemeKind(js[s.pos], ls[0]);
  }

  /** The types of the tokens of an accepted text are those of its lexemes, in their order. */
  lemma {:induction false} KindsRead(js: seq<char>, cap: nat, s: State, ls: seq<Lexeme>)
    requires Linked(s) && Lexed(ls) && At(js, s.pos, Spelling(ls)) && AtEnd(js, s.pos + |Spelling(ls)|)
    requires Run(js, cap, s).1 >= 0
    ensures TokenKinds(Run(js, cap, s).0.toks) == TokenKinds(s.toks) + KindsOf(ls)
    decreases |ls|
  {
    hide Run, Step, DryStep, Lexed, Spelling, Spell, Valid, At, AtEnd, Linked, KindsOf, TokenKinds;
    if ls == [] {
      KindsNone();
      NothingSpelled(js, s.pos, 0);
      RunEnds(js, cap, s);
    } else {
      FirstValid(ls);
      LexemeStep(js, s.pos, ls);
      RunGoesOn(js, cap, s);
      StepReadsKind(js, cap, s, ls);
      assert Step(js, cap, s).s.pos == s.pos + |Spell(ls[0])| by { StepKinds(js, cap, s); }
      KindsRead(js, cap, Step(js, cap, s).s, ls[1..]);
    }
  }

  lemma KindsNone()
    ensures KindsOf([]) == []
  {
  }

  lemma RunEnds(js: seq<char>, cap: nat, s: State)
    requires Linked(s) && AtEnd(js, s.pos)
    ensures Run(js, cap, s).0 == s
  {
  }

  lemma RunGoesOn(js: seq<char>, cap: nat, s: State)
    requires Linked(s) && !AtEnd(js, s.pos) && Run(js, cap, s).1 >= 0
    ensures Step(js, cap, s).Next?
    ensures var s' := Step(js, cap, s).s; Linked(s') && Run(js, cap, s') == Run(js, cap, s)
  {
    hide LastOpen, StringScan, PrimitiveEnd, CloseStep, CommaStep;
  }

  lemma LexemeKind(c: char, l: Lexeme)
    requires Valid(l) && Spell(l) != [] && c == Spell(l)[0]
    ensures c == '{' <==> l == Sign('{')
    ensures c == '[' <==> l == Sign('[')
    ensures c == '\"' <==> l.Str?
    ensures IsCloser(c) || IsSpace(c) || c == ':' || c == ',' || c == '{' || c == '[' <==> l.Sign?
  {
    hide StringBody;
    ClassesAgree(c);
    if l.Plain? {
      assert BareChar(l.text[0]);
    }
  }
}
