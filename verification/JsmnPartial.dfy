/** What the two errors of the tokenizer promise: with PART more text can complete the text, with INVAL none can
    (helpers/jsmn.c, helpers/jsmn.h). */
module JsmnPartial {
  import opened Common
  import opened Jsmn
  import opened JsmnInvariants
  import opened JsmnResume
  import opened JsmnStack
  import opened JsmnTree
  import opened JsmnLexis

  // ---------------------------------------------------------------- no text helps an invalid one

  lemma {:induction false} PrimitiveEndFails(js: seq<char>, more: seq<char>, p: nat)
    requires PrimitiveEnd(js, p) == None
    ensures PrimitiveEnd(js + more, p) == None
    decreases |js| - p
  {
    if Printable(js[p]) {
      PrimitiveEndFails(js, more, p + 1);
    }
  }

  lemma BadEscapeStays(js: seq<char>, more: seq<char>, k: nat)
    requires BadEscape(js, k)
    ensures BadEscape(js + more, k)
  {
    hide EscapeChar, HexChar;
    if js[k + 1] == 'u' {
      var i: nat :| FirstNoHex(js, k + 2, 4, i);
      assert FirstNoHex(js + more, k + 2, 4, i);
    }
  }

  lemma BadStays(js: seq<char>, more: seq<char>, p: nat)
    requires p <= |js| && StringScan(js, p) == Bad
    ensures StringScan(js + more, p) == Bad
  {
    hide StringScan, StringBody, BadEscape, EscapeChar;
    var k := StringScanIs(js, p);
    BadEscapeStays(js, more, k);
    assert (js + more)[p..k] == js[p..k];
    BodyPassed(js + more, p, k);
    BadEscapeBounds(js, k);
    BadEscapeIs(js + more, k);
  }

  lemma BadEscapeBounds(js: seq<char>, k: nat)
    requires BadEscape(js, k)
    ensures k + 1 < |js| && js[k] == '\\'
  {
  }

  /** A step inside the text is the same in a longer one, unless it reads a word up to the end. */
  lemma DryStepExtends(js: seq<char>, more: seq<char>, p: nat)
    requires p < |js| && !AtEnd(js, p) && DryStep(js, p).DryNext? && DryStep(js, p).pos < |js|
    ensures !AtEnd(js + more, p) && DryStep(js + more, p) == DryStep(js, p)
  {
    hide StringScan, PrimitiveEnd;
    assert js <= js + more;
    var c := js[p];
    if c == '\"' {
      StringScanExtends(js, js + more, p + 1);
    } else if !(IsOpener(c) || IsCloser(c) || IsSpace(c) || c == ':' || c == ',') {
      PrimitiveEndExtends(js, js + more, p);
    }
  }

  /** A step that reads to the end of the text, but not a word, is the same too. */
  lemma LastStepExtends(js: seq<char>, more: seq<char>, p: nat)
    requires p < |js| && !AtEnd(js, p) && DryStep(js, p).DryNext?
    requires IsOpener(js[p]) || IsCloser(js[p])
    ensures !AtEnd(js + more, p) && DryStep(js + more, p) == DryStep(js, p)
  {
    hide StringScan, PrimitiveEnd;
  }

  lemma InvalidStepExtends(js: seq<char>, more: seq<char>, p: nat)
    requires p < |js| && !AtEnd(js, p) && DryStep(js, p) == DryStop(ERROR_INVAL)
    ensures !AtEnd(js + more, p) && DryStep(js + more, p) == DryStop(ERROR_INVAL)
  {
    hide StringScan, PrimitiveEnd;
    if js[p] == '\"' {
      BadStays(js, more, p + 1);
    } else {
      PrimitiveEndFails(js, more, p);
    }
  }

  lemma StackRunStops(js: seq<char>, p: nat, count: nat, stack: seq<Kind>)
    requires !AtEnd(js, p) && DryStep(js, p).DryStop?
    ensures StackRun(js, p, count, stack) == DryStep(js, p).error
  {
    hide DryStep;
  }

  lemma StackRunAtEnd(js: seq<char>, p: nat, count: nat, stack: seq<Kind>)
    requires AtEnd(js, p)
    ensures StackRun(js, p, count, stack) == if stack == [] then count else ERROR_PART
  {
  }

  /** A text that is invalid stays so. */
  lemma {:induction false} InvalidStays(js: seq<char>, more: seq<char>, p: nat, count: nat, stack: seq<Kind>)
    requires p <= |js| && StackRun(js, p, count, stack) == ERROR_INVAL
    ensures StackRun(js + more, p, count, stack) == ERROR_INVAL
    decreases |js| - p
  {
    hide DryStep, StackRun;
    if AtEnd(js, p) {
      StackRunAtEnd(js, p, count, stack);
    } else if DryStep(js, p).DryStop? {
      StackRunStops(js, p, count, stack);
      InvalidStepExtends(js, more, p);
      StackRunStops(js + more, p, count, stack);
    } else {
      StackRunStep(js, p, count, stack);
      InvalidGoesOn(js, more, p, count, stack);
      var DryNext(q, n) := DryStep(js, p);
      if IsOpener(js[p]) {
        InvalidStays(js, more, q, count + n, stack + [KindOf(js[p])]);
      } else if !IsCloser(js[p]) {
        InvalidStays(js, more, q, count + n, stack);
      } else if stack != [] && stack[|stack| - 1] == KindOf(js[p]) {
        InvalidStays(js, more, q, count + n, stack[..|stack| - 1]);
      }
    }
  }

  /** The step in front of an error behind it reads no word up to the end. */
  lemma InvalidGoesOn(js: seq<char>, more: seq<char>, p: nat, count: nat, stack: seq<Kind>)
    requires p < |js| && !AtEnd(js, p) && DryStep(js, p).DryNext? && StackRun(js, p, count, stack) == ERROR_INVAL
    ensures !AtEnd(js + more, p)
    ensures var DryNext(q, n) := DryStep(js, p);
            var c, r := js[p], StackRun(js + more, p, count, stack);
            && q <= |js|
            && (IsOpener(c) ==> r == StackRun(js + more, q, count + n, stack + [KindOf(c)]))
            && (IsCloser(c) ==>
                  r == if stack == [] || stack[|stack| - 1] != KindOf(c) then ERROR_INVAL
                       else StackRun(js + more, q, count + n, stack[..|stack| - 1]))
            && (!IsOpener(c) && !IsCloser(c) ==> r == StackRun(js + more, q, count + n, stack))
  {
    hide DryStep, StackRun;
    StepWithin(js, p);
    StackRunStep(js, p, count, stack);
    var q := DryStep(js, p).pos;
    if q < |js| {
      DryStepExtends(js, more, p);
    } else if IsOpener(js[p]) || IsCloser(js[p]) {
      LastStepExtends(js, more, p);
    } else {
      StackRunAtEnd(js, q, count + DryStep(js, p).counted, stack);
    }
    StackRunStep(js + more, p, count, stack);
  }

  lemma StepWithin(js: seq<char>, p: nat)
    requires p < |js| && !AtEnd(js, p) && DryStep(js, p).DryNext?
    ensures p < DryStep(js, p).pos <= |js|
  {
    hide StringScan, PrimitiveEnd;
  }

  /** The only errors. */
  lemma {:induction false} StackRunErrors(js: seq<char>, p: nat, count: nat, stack: seq<Kind>)
    ensures var r := StackRun(js, p, count, stack); r >= 0 || r == ERROR_PART || r == ERROR_INVAL
    decreases |js| - p
  {
    hide StringScan, PrimitiveEnd;
    if !AtEnd(js, p) && DryStep(js, p).DryNext? {
      var DryNext(q, n) := DryStep(js, p);
      if IsOpener(js[p]) {
        StackRunErrors(js, q, count + n, stack + [KindOf(js[p])]);
      } else if !IsCloser(js[p]) {
        StackRunErrors(js, q, count + n, stack);
      } else if stack != [] {
        StackRunErrors(js, q, count + n, stack[..|stack| - 1]);
      }
    }
  }

  // ---------------------------------------------------------------- completing a partial one

  function Closer(k: Kind): char {
    if k == Object then '}' else ']'
  }

  /** The brackets that close what is open. */
  function Closers(stack: seq<Kind>): seq<Lexeme> {
    if stack == [] then [] else [Sign(Closer(stack[|stack| - 1]))] + Closers(stack[..|stack| - 1])
  }

  lemma {:induction false} ClosersMatch(stack: seq<Kind>)
    requires forall i :: 0 <= i < |stack| ==> stack[i] == Object || stack[i] == Array
    ensures Lexed(Closers(stack)) && Matches(BracketsOf(Closers(stack)), stack)
    ensures Closers(stack) == [] <==> stack == []
    ensures stack != [] ==> Closers(stack)[0].Sign? && Closers(stack)[0].c in [']', '}']
    decreases |stack|
  {
    hide BracketsOf, Matches, Lexed;
    if stack == [] {
      EmptyMatches();
    } else {
      var n := |stack| - 1;
      var l, ls := Sign(Closer(stack[n])), Closers(stack[..n]);
      ClosersMatch(stack[..n]);
      LexedCons(l, ls);
      BracketsCons(l, ls);
      MatchesStep(Closing(stack[n]), BracketsOf(ls), stack);
    }
  }

  lemma EmptyMatches()
    ensures Lexed([]) && BracketsOf([]) == [] && Matches([], [])
  {
  }

  lemma BracketsCons(l: Lexeme, ls: seq<Lexeme>)
    ensures BracketsOf([l] + ls) ==
            (if l == Sign('{') then [Opening(Object)] else if l == Sign('[') then [Opening(Array)]
             else if l == Sign('}') then [Closing(Object)] else if l == Sign(']') then [Closing(Array)] else [])
            + BracketsOf(ls)
  {
    assert ([l] + ls)[1..] == ls;
  }

  lemma {:induction false} BodyJoin(a: seq<char>, b: seq<char>)
    requires StringBody(a) && StringBody(b)
    ensures StringBody(a + b)
    decreases |a|
  {
    hide EscapeChar, HexChar;
    if a == [] {
      assert a + b == b;
    } else {
      var n := if a[0] != '\\' then 1 else if EscapeChar(a[1]) then 2 else 6;
      assert (a + b)[n..] == a[n..] + b;
      BodyJoin(a[n..], b);
    }
  }

  /** What completes a string that the text ends in: its body and what is missing of that. */
  lemma FinishString(js: seq<char>, p: nat) returns (body: seq<char>, fin: seq<char>)
    requires p <= |js| && '\0' !in js && StringScan(js, p) == Unfinished
    ensures StringBody(body) && js[p..] + fin == body + "\"" && '\0' !in fin
  {
    hide StringScan, StringBody, EscapeChar, HexChar;
    var k := StringScanIs(js, p);
    assert js[p..|js|] == js[p..];
    if k == |js| {
      body, fin := js[p..], "\"";
    } else if k + 1 == |js| && js[k] == '\\' {
      QuoteEscaped();
      BodyJoin(js[p..k], "\\\"");
      body, fin := js[p..k] + "\\\"", "\"\"";
      assert js[p..] == js[p..k] + "\\";
    } else {
      assert js[k] != '\0';
      var r: nat :| CutAt(js, k, r);
      assert r == |js|;
      var zeros := seq(k + 6 - r, _ => '0');
      UnicodeBody(js[k + 2..], zeros);
      BodyJoin(js[p..k], "\\u" + (js[k + 2..] + zeros));
      body, fin := js[p..k] + ("\\u" + (js[k + 2..] + zeros)), zeros + "\"";
      assert js[p..] == js[p..k] + ("\\u" + js[k + 2..]);
    }
  }

  lemma QuoteEscaped()
    ensures StringBody("\\\"")
  {
    var b := "\\\"";
    assert |b| == 2 && b[0] == '\\' && EscapeChar(b[1]) && b[2..] == [] && StringBody(b[2..]);
  }

  lemma UnicodeBody(h: seq<char>, zeros: seq<char>)
    requires |h| + |zeros| == 4
    requires forall i :: 0 <= i < |h| ==> HexChar(h[i])
    requires forall i :: 0 <= i < |zeros| ==> zeros[i] == '0'
    ensures StringBody("\\u" + (h + zeros))
  {
    hide HexChar;
    HexCharIs('0');
    var d := h + zeros;
    assert forall i :: 0 <= i < 4 ==> HexChar(d[i]);
    var b := "\\u" + d;
    assert b[2] == d[0] && b[3] == d[1] && b[4] == d[2] && b[5] == d[3] && b[6..] == [];
  }

  ghost predicate ContainerKinds(stack: seq<Kind>) {
    forall i :: 0 <= i < |stack| ==> stack[i] == Object || stack[i] == Array
  }

  /** Lexemes of the text from p on and of what completes it, with brackets that close the stack. */
  ghost predicate Completes(js: seq<char>, p: nat, stack: seq<Kind>, ls: seq<Lexeme>, more: seq<char>) {
    && p <= |js| && Lexed(ls) && '\0' !in more && js[p..] + more == Spelling(ls) && Matches(BracketsOf(ls), stack)
    && ls != [] && Spell(ls[0]) != []
    && (if p < |js| then Spell(ls[0])[0] == js[p] else ls[0].Sign? && ls[0].c in [']', '}'])
  }

  /** Every text that is partial can be completed. */
  lemma {:induction false} Completion(js: seq<char>, p: nat, count: nat, stack: seq<Kind>)
    returns (ls: seq<Lexeme>, more: seq<char>)
    requires p <= |js| && '\0' !in js && ContainerKinds(stack) && StackRun(js, p, count, stack) == ERROR_PART
    ensures Completes(js, p, stack, ls, more)
    decreases |js| - p
  {
    hide DryStep, StackRun, Completes, ContainerKinds;
    if p == |js| {
      StackRunAtEnd(js, p, count, stack);
      ls, more := CloseAll(js, stack);
    } else if DryStep(js, p).DryStop? {
      StackRunStops(js, p, count, stack);
      ls, more := FinishAndClose(js, p, stack);
    } else {
      StackRunStep(js, p, count, stack);
      StepWithin(js, p);
      var DryNext(q, n) := DryStep(js, p);
      var c := js[p];
      StackStays(c, stack);
      var rest;
      rest, more := Completion(js, q, count + n, StackAfter(c, stack));
      ls := CompleteLexeme(js, p, stack, rest, more);
    }
  }

  function StackAfter(c: char, stack: seq<Kind>): seq<Kind> {
    if IsOpener(c) then stack + [KindOf(c)]
    else if IsCloser(c) && stack != [] then stack[..|stack| - 1]
    else stack
  }

  lemma StackStays(c: char, stack: seq<Kind>)
    requires ContainerKinds(stack)
    ensures ContainerKinds(StackAfter(c, stack))
  {
  }

  lemma CloseAll(js: seq<char>, stack: seq<Kind>) returns (ls: seq<Lexeme>, more: seq<char>)
    requires stack != [] && ContainerKinds(stack)
    ensures Completes(js, |js|, stack, ls, more)
  {
    hide Closers, Lexed, Spelling, BracketsOf, Matches;
    ClosersMatch(stack);
    ls := Closers(stack);
    more := Spelling(ls);
    SpellingHasNoNul(ls);
    assert js[|js|..] + more == more;
  }

  lemma FinishAndClose(js: seq<char>, p: nat, stack: seq<Kind>) returns (ls: seq<Lexeme>, more: seq<char>)
    requires p < |js| && '\0' !in js && ContainerKinds(stack) && DryStep(js, p) == DryStop(ERROR_PART)
    ensures Completes(js, p, stack, ls, more)
  {
    hide Closers, Lexed, Spelling, BracketsOf, Matches, StringBody, StringScan, PrimitiveEnd;
    assert js[p] == '\"' && StringScan(js, p + 1) == Unfinished;
    var body, fin := FinishString(js, p + 1);
    var closers := Closers(stack);
    ClosersMatch(stack);
    SpellingHasNoNul(closers);
    LexedCons(Str(body), closers);
    BracketsCons(Str(body), closers);
    ls, more := [Str(body)] + closers, fin + Spelling(closers);
    assert js[p..] == ['\"'] + js[p + 1..];
    assert js[p..] + more == ['\"'] + (js[p + 1..] + fin) + Spelling(closers);
    assert "\"" + body + "\"" == ['\"'] + (body + "\"");
    assert [] + BracketsOf(closers) == BracketsOf(closers);
  }

  lemma CompleteLexeme(js: seq<char>, p: nat, stack: seq<Kind>, rest: seq<Lexeme>, more: seq<char>)
    returns (ls: seq<Lexeme>)
    requires p < |js| && '\0' !in js && !AtEnd(js, p) && DryStep(js, p).DryNext?
    requires IsCloser(js[p]) ==> stack != [] && stack[|stack| - 1] == KindOf(js[p])
    requires Completes(js, DryStep(js, p).pos, StackAfter(js[p], stack), rest, more)
    ensures Completes(js, p, stack, ls, more)
  {
    hide DryStep, Lexed, Spelling, BracketsOf, Matches, Valid, At, StackAfter, Completes;
    var l := StepLexeme(js, p);
    SpellNonEmpty(l);
    AtFirst(js, p, Spell(l));
    SliceSplit(js, p, Spell(l));
    CompletesParts(js, p + |Spell(l)|, StackAfter(js[p], stack), rest, more);
    Follows(js, l, p + |Spell(l)|, rest);
    ls := [l] + rest;
    FirstBracket(js[p], l);
    CompletesCons(js, p, l, stack, rest, more);
  }

  /** Behind a word no word follows. */
  lemma Follows(js: seq<char>, l: Lexeme, q: nat, rest: seq<Lexeme>)
    requires q <= |js| && '\0' !in js && Lexed(rest) && rest != [] && Spell(rest[0]) != []
    requires if q < |js| then Spell(rest[0])[0] == js[q] else rest[0].Sign? && rest[0].c in [']', '}']
    requires l.Plain? ==> AtEnd(js, q) || EndsPrimitive(js[q])
    ensures l.Plain? ==> rest[0].Sign? && rest[0].c !in ['{', '[']
  {
    hide Lexed, EndsPrimitive;
    FirstRest(rest);
    if l.Plain? && q < |js| {
      EndsWithSign(js[q], rest[0]);
    }
  }

  lemma CompletesParts(js: seq<char>, q: nat, stack: seq<Kind>, ls: seq<Lexeme>, more: seq<char>)
    requires Completes(js, q, stack, ls, more)
    ensures q <= |js| && Lexed(ls) && ls != [] && Spell(ls[0]) != []
    ensures if q < |js| then Spell(ls[0])[0] == js[q] else ls[0].Sign? && ls[0].c in [']', '}']
  {
    hide Lexed, Spelling, BracketsOf, Matches;
  }

  lemma CompletesCons(js: seq<char>, p: nat, l: Lexeme, stack: seq<Kind>, rest: seq<Lexeme>, more: seq<char>)
    requires p < |js| && Valid(l) && Spell(l) != [] && Spell(l)[0] == js[p] && (l.Sign? ==> l.c == js[p])
    requires p + |Spell(l)| <= |js| && js[p..] == Spell(l) + js[p + |Spell(l)|..]
    requires IsOpener(js[p]) <==> l in [Sign('{'), Sign('[')]
    requires IsCloser(js[p]) <==> l in [Sign('}'), Sign(']')]
    requires IsCloser(js[p]) ==> stack != [] && stack[|stack| - 1] == KindOf(js[p])
    requires Completes(js, p + |Spell(l)|, StackAfter(js[p], stack), rest, more)
    requires l.Plain? ==> rest != [] && rest[0].Sign? && rest[0].c !in ['{', '[']
    ensures Completes(js, p, stack, [l] + rest, more)
  {
    hide Lexed, Spelling, BracketsOf, Matches, Valid, StackAfter, Spell, IsOpener, IsCloser, KindOf;
    LexedCons(l, rest);
    BracketsCons(l, rest);
    Assoc(Spell(l), js[p + |Spell(l)|..], more);
    StackBack(js[p], l, BracketsOf(rest), stack);
  }

  lemma FirstRest(rest: seq<Lexeme>)
    requires Lexed(rest) && rest != []
    ensures Valid(rest[0])
  {
  }

  lemma SliceSplit(js: seq<char>, p: nat, t: seq<char>)
    requires At(js, p, t)
    ensures p + |t| <= |js| && js[p..] == t + js[p + |t|..]
  {
  }

  /** A bracket in front of brackets that close what it leaves open. */
  lemma StackBack(c: char, l: Lexeme, w: seq<Bracket>, stack: seq<Kind>)
    requires IsOpener(c) <==> l in [Sign('{'), Sign('[')]
    requires IsCloser(c) <==> l in [Sign('}'), Sign(']')]
    requires l.Sign? ==> l.c == c
    requires IsCloser(c) ==> stack != [] && stack[|stack| - 1] == KindOf(c)
    requires Matches(w, StackAfter(c, stack))
    ensures Matches((if l == Sign('{') then [Opening(Object)] else if l == Sign('[') then [Opening(Array)]
                     else if l == Sign('}') then [Closing(Object)] else if l == Sign(']') then [Closing(Array)] else [])
                    + w, stack)
  {
    hide Matches;
    if IsOpener(c) {
      MatchesStep(Opening(KindOf(c)), w, stack);
    } else if IsCloser(c) {
      MatchesStep(Closing(KindOf(c)), w, stack);
    } else {
      assert [] + w == w;
    }
  }

  // ---------------------------------------------------------------- the errors

  /** With a token for every character the tokenizer returns PART exactly on the texts that are not accepted but can be
      completed, and INVAL exactly on those that nothing completes. */
  lemma PartialIff(text: seq<char>, m: nat)
    requires '\0' !in text && |text| <= m
    ensures var r := Run(text, m, Init).1;
            && (r == -3 <==>
                r < 0 && exists more :: '\0' !in more && Run(text + more, |text + more|, Init).1 >= 0)
            && (r == -2 <==>
                forall more :: '\0' !in more ==> Run(text + more, |text + more|, Init).1 < 0)
  {
    hide Run, StackRun, Completes;
    ResultWithTokens(text, m);
    StackRunErrors(text, 0, 0, []);
    assert text + [] == text;
    ResultWithTokens(text + [], |text|);
    if StackRun(text, 0, 0, []) == ERROR_PART {
      var ls, more := Completion(text, 0, 0, []);
      CompletionAccepted(text, ls, more);
    } else if StackRun(text, 0, 0, []) == ERROR_INVAL {
      forall more | '\0' !in more ensures Run(text + more, |text + more|, Init).1 < 0 {
        InvalidStays(text, more, 0, 0, []);
        ResultWithTokens(text + more, |text + more|);
      }
    }
  }

  lemma ResultWithTokens(js: seq<char>, m: nat)
    requires |js| <= m
    ensures Run(js, m, Init).1 == StackRun(js, 0, 0, [])
  {
    hide Run, StackRun;
    EnoughTokens(js, m, Init);
    RunRefinesStack(js, m, Init);
  }

  lemma CompletionAccepted(text: seq<char>, ls: seq<Lexeme>, more: seq<char>)
    requires '\0' !in text && Completes(text, 0, [], ls, more)
    ensures '\0' !in more && Run(text + more, |text + more|, Init).1 >= 0
  {
    hide Run, StackRun, DryRun, Brackets, Lexed, Spelling, BracketsOf, Matches, KindsOf;
    var js := text + more;
    assert text[0..] == text;
    assert js + [] == js;
    WholeSpelled(js, [], ls);
    LexedScans(js, 0, 0, ls);
    StackRunCounts(js, 0, 0, []);
    ResultWithTokens(js, |js|);
  }
}
