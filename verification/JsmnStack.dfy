/** The backward scans of the tokenizer refine an explicit stack, and from that the outcome of a parse
    is settled for every text and every pool size (helpers/jsmn.c). */
module JsmnStack {
  import opened Common
  import opened Jsmn
  import opened JsmnInvariants

  // ---------------------------------------------------------------- the stack of open containers

  /** The indices of the open tokens, outermost first. */
  function OpenStack(toks: seq<Token>): (st: seq<nat>)
    ensures forall k :: 0 <= k < |st| ==> st[k] < |toks| && IsOpen(toks[st[k]])
  {
    if toks == [] then []
    else
      var n := |toks| - 1;
      OpenStack(toks[..n]) + if IsOpen(toks[n]) then [n] else []
  }

  function Kinds(toks: seq<Token>): seq<Kind> {
    if toks == [] then []
    else
      var n := |toks| - 1;
      Kinds(toks[..n]) + if IsOpen(toks[n]) then [toks[n].kind] else []
  }

  function Top(st: seq<nat>): int {
    if st == [] then -1 else st[|st| - 1]
  }

  lemma {:induction false} KindsOfStack(toks: seq<Token>)
    ensures |Kinds(toks)| == |OpenStack(toks)|
    ensures forall k :: 0 <= k < |Kinds(toks)| ==> Kinds(toks)[k] == toks[OpenStack(toks)[k]].kind
  {
    if toks != [] {
      KindsOfStack(toks[..|toks| - 1]);
    }
  }

  lemma {:induction false} LastOpenIsTop(toks: seq<Token>, n: nat)
    requires n <= |toks|
    ensures LastOpen(toks, n) == Top(OpenStack(toks[..n]))
  {
    if n > 0 {
      assert toks[..n][..n - 1] == toks[..n - 1];
      LastOpenIsTop(toks, n - 1);
    }
  }

  /** Changing a token other than by opening or closing it leaves the stack alone. */
  lemma {:induction false} SameOpenSameStack(a: seq<Token>, b: seq<Token>)
    requires |a| == |b|
    requires forall i :: 0 <= i < |a| ==> a[i].(size := 0) == b[i].(size := 0)
    ensures OpenStack(a) == OpenStack(b) && Kinds(a) == Kinds(b)
  {
    if a != [] {
      assert a[|a| - 1].(size := 0) == b[|a| - 1].(size := 0);
      SameOpenSameStack(a[..|a| - 1], b[..|a| - 1]);
    }
  }

  lemma {:induction false} ClosingPops(toks: seq<Token>, i: nat, end: nat)
    requires i < |toks| && i == LastOpen(toks, |toks|)
    ensures var st, ks := OpenStack(toks), Kinds(toks);
            var closed := toks[i := toks[i].(end := end)];
            && |st| == |ks| > 0 && st[|st| - 1] == i && ks[|ks| - 1] == toks[i].kind
            && OpenStack(closed) == st[..|st| - 1] && Kinds(closed) == ks[..|ks| - 1]
  {
    var n := |toks| - 1;
    var closed := toks[i := toks[i].(end := end)];
    if i == n {
      KindsOfStack(toks[..n]);
      assert closed[..n] == toks[..n];
    } else {
      assert toks[..|toks|] == toks;
      LastOpenBelow(toks, n);
      ClosingPops(toks[..n], i, end);
      assert closed[..n] == toks[..n][i := toks[i].(end := end)];
    }
  }

  lemma {:induction false} LastOpenBelow(toks: seq<Token>, n: nat)
    requires n <= |toks|
    ensures LastOpen(toks[..n], n) == LastOpen(toks, n)
  {
    LastOpenIsTop(toks, n);
    LastOpenIsTop(toks[..n], n);
    assert toks[..n][..n] == toks[..n];
  }

  /** A closing bracket is refused exactly when the stack is empty or its top has the other type. */
  lemma CloseStepRefuses(s: State, kind: Kind)
    ensures var top := Top(OpenStack(s.toks));
            -1 <= top < |s.toks| &&
            (CloseStep(s, kind) == Stop(ERROR_INVAL) <==> top == -1 || s.toks[top].kind != kind)
  {
    LastOpenIsTop(s.toks, |s.toks|);
    assert s.toks[..|s.toks|] == s.toks;
  }

  /** Otherwise it closes the top of the stack and makes the new top the superior. */
  lemma CloseStepIsPop(s: State, kind: Kind)
    requires CloseStep(s, kind).Next?
    ensures var st, s' := OpenStack(s.toks), CloseStep(s, kind).s;
            && st != []
            && s'.toks == s.toks[Top(st) := s.toks[Top(st)].(end := s.pos + 1)]
            && OpenStack(s'.toks) == st[..|st| - 1]
            && s'.super == Top(st[..|st| - 1])
  {
    CloseStepRefuses(s, kind);
    LastOpenIsTop(s.toks, |s.toks|);
    assert s.toks[..|s.toks|] == s.toks;
    var i := LastOpen(s.toks, |s.toks|);
    ClosingPops(s.toks, i, s.pos + 1);
    var toks := CloseStep(s, kind).s.toks;
    LastOpenAfter(toks, i + 1);
    LastOpenIsTop(toks, |toks|);
    assert toks[..|toks|] == toks;
  }

  lemma {:induction false} LastOpenAfter(toks: seq<Token>, n: nat)
    requires n <= |toks| && forall j :: n <= j < |toks| ==> !IsOpen(toks[j])
    ensures LastOpen(toks, n) == LastOpen(toks, |toks|)
    decreases |toks| - n
  {
    if n < |toks| {
      LastOpenAfter(toks, n + 1);
    }
  }

  lemma {:induction false} EmitKinds(toks: seq<Token>, super: int, t: Token)
    requires -1 <= super < |toks|
    ensures OpenStack(Bump(toks, super) + [t]) == OpenStack(toks) + if IsOpen(t) then [|toks|] else []
    ensures Kinds(Bump(toks, super) + [t]) == Kinds(toks) + if IsOpen(t) then [t.kind] else []
  {
    var b := Bump(toks, super);
    assert (b + [t])[..|b|] == b;
    SameOpenSameStack(b, toks);
  }

  // ---------------------------------------------------------------- the reference matcher

  /** The tokenizer with an explicit stack of types and no tokens. */
  function StackRun(js: seq<char>, pos: nat, count: nat, stack: seq<Kind>): int
    decreases |js| - pos
  {
    if AtEnd(js, pos) then if stack == [] then count else ERROR_PART
    else
      match DryStep(js, pos)
      case DryStop(e) => e
      case DryNext(p, n) =>
        if IsOpener(js[pos]) then StackRun(js, p, count + n, stack + [KindOf(js[pos])])
        else if IsCloser(js[pos]) then
          if stack == [] || stack[|stack| - 1] != KindOf(js[pos]) then ERROR_INVAL
          else StackRun(js, p, count + n, stack[..|stack| - 1])
        else StackRun(js, p, count + n, stack)
  }

  lemma CloseRefines(s: State, kind: Kind)
    requires CloseStep(s, kind).Next?
    ensures var ks, s' := Kinds(s.toks), CloseStep(s, kind).s;
            && |s'.toks| == |s.toks| && s'.pos == s.pos + 1
            && ks != [] && ks[|ks| - 1] == kind && Kinds(s'.toks) == ks[..|ks| - 1]
  {
    ClosingPops(s.toks, LastOpen(s.toks, |s.toks|), s.pos + 1);
  }

  /** One step of the tokenizer against one step of the matcher. */
  lemma StepRefines(js: seq<char>, cap: nat, s: State)
    requires Linked(s) && !AtEnd(js, s.pos) && Step(js, cap, s).Next?
    ensures var ks, c, s' := Kinds(s.toks), js[s.pos], Step(js, cap, s).s;
            && |s.toks| <= |s'.toks|
            && DryStep(js, s.pos) == DryNext(s'.pos, |s'.toks| - |s.toks|)
            && (IsOpener(c) ==> Kinds(s'.toks) == ks + [KindOf(c)])
            && (IsCloser(c) ==> ks != [] && ks[|ks| - 1] == KindOf(c) && Kinds(s'.toks) == ks[..|ks| - 1])
            && (!IsOpener(c) && !IsCloser(c) ==> Kinds(s'.toks) == ks)
  {
    hide Kinds, OpenStack, LastOpen, StringScan, PrimitiveEnd, LastOpenContainer;
    var c := js[s.pos];
    if IsOpener(c) {
      EmitKinds(s.toks, s.super, Token(KindOf(c), s.pos, -1, 0));
    } else if IsCloser(c) {
      CloseRefines(s, KindOf(c));
    } else if c == '\"' {
      EmitKinds(s.toks, s.super, Token(String, s.pos + 1, StringScan(js, s.pos + 1).quote, 0));
    } else if IsSpace(c) || c == ':' || c == ',' {
    } else {
      EmitKinds(s.toks, s.super, Token(Primitive, s.pos, PrimitiveEnd(js, s.pos).value, 0));
    }
  }

  /** When the tokenizer stops for another reason than the pool, the matcher stops for the same one. */
  lemma StopRefines(js: seq<char>, cap: nat, s: State)
    requires Linked(s) && !AtEnd(js, s.pos)
    requires Step(js, cap, s).Stop? && Step(js, cap, s) != Stop(ERROR_NOMEM)
    ensures Step(js, cap, s).error == StackRun(js, s.pos, |s.toks|, Kinds(s.toks))
  {
    if IsCloser(js[s.pos]) {
      TopKind(s.toks);
    }
  }

  lemma TopKind(toks: seq<Token>)
    ensures var ks, top := Kinds(toks), LastOpen(toks, |toks|);
            if top == -1 then ks == [] else ks != [] && ks[|ks| - 1] == toks[top].kind
  {
    LastOpenIsTop(toks, |toks|);
    assert toks[..|toks|] == toks;
    KindsOfStack(toks);
  }

  /** The tokenizer refines the matcher: unless the pool runs out, both return the same. */
  lemma {:induction false} RunRefinesStack(js: seq<char>, cap: nat, s: State)
    requires Linked(s) && Run(js, cap, s).1 != ERROR_NOMEM
    ensures Run(js, cap, s).1 == StackRun(js, s.pos, |s.toks|, Kinds(s.toks))
    decreases |js| - s.pos
  {
    if AtEnd(js, s.pos) {
      TopKind(s.toks);
    } else if Step(js, cap, s).Stop? {
      StopRefines(js, cap, s);
    } else {
      StepRefines(js, cap, s);
      RunRefinesStack(js, cap, Step(js, cap, s).s);
    }
  }

  // ---------------------------------------------------------------- the token budget

  /** A run that did not run out of tokens used |f.toks| of them: with at least as many it goes the
      same way, with fewer it runs out. */
  lemma {:induction false} RunBudget(js: seq<char>, cap: nat, m: nat, s: State)
    requires Linked(s) && Run(js, cap, s).1 != ERROR_NOMEM
    ensures |Run(js, cap, s).0.toks| <= m ==> Run(js, m, s) == Run(js, cap, s)
    ensures |s.toks| <= m < |Run(js, cap, s).0.toks| ==> Run(js, m, s).1 == ERROR_NOMEM
    decreases |js| - s.pos
  {
    RunResult(js, cap, s);
    if !AtEnd(js, s.pos) && Step(js, cap, s).Next? {
      var s' := Step(js, cap, s).s;
      RunResult(js, cap, s');
      RunBudget(js, cap, m, s');
      if |s'.toks| <= m {
        assert Step(js, m, s) == Step(js, cap, s);
      }
    }
  }

  /** One token per character is always enough. */
  lemma {:induction false} EnoughTokens(js: seq<char>, cap: nat, s: State)
    requires Linked(s) && s.pos <= |js| && |s.toks| + |js| - s.pos <= cap
    ensures Run(js, cap, s).1 != ERROR_NOMEM
    decreases |js| - s.pos
  {
    if !AtEnd(js, s.pos) && Step(js, cap, s).Next? {
      StepSizes(js, cap, s);
      EnoughTokens(js, cap, Step(js, cap, s).s);
    }
  }

  /** How many tokens a text makes the tokenizer allocate before it ends or fails. */
  function Needed(js: seq<char>): nat {
    |Run(js, |js|, Init).0.toks|
  }

  /** The outcome of every parse of every text: what the matcher says when the pool holds the tokens
      the text needs, NOMEM when it does not. Success is the number of tokens, and the dry run
      without a pool returns that same number. */
  lemma ParseOutcome(js: seq<char>, m: nat)
    ensures Run(js, m, Init).1 == if Needed(js) <= m then StackRun(js, 0, 0, []) else ERROR_NOMEM
    ensures StackRun(js, 0, 0, []) >= 0 ==> DryRun(js, 0, 0) == StackRun(js, 0, 0, []) == Needed(js)
  {
    EnoughTokens(js, |js|, Init);
    RunBudget(js, |js|, m, Init);
    RunRefinesStack(js, |js|, Init);
    RunResult(js, |js|, Init);
    StackRunCounts(js, 0, 0, []);
  }

  // ---------------------------------------------------------------- bracket words

  datatype Bracket = Opening(kind: Kind) | Closing(kind: Kind)

  /** The brackets of a text outside its strings and primitives. */
  function Brackets(js: seq<char>, pos: nat): seq<Bracket>
    decreases |js| - pos
  {
    if AtEnd(js, pos) || DryStep(js, pos).DryStop? then []
    else
      var c := js[pos];
      (if IsOpener(c) then [Opening(KindOf(c))] else if IsCloser(c) then [Closing(KindOf(c))] else [])
      + Brackets(js, DryStep(js, pos).pos)
  }

  predicate Matches(w: seq<Bracket>, stack: seq<Kind>)
    decreases |w|
  {
    if w == [] then stack == []
    else match w[0]
      case Opening(k) => Matches(w[1..], stack + [k])
      case Closing(k) => stack != [] && stack[|stack| - 1] == k && Matches(w[1..], stack[..|stack| - 1])
  }

  lemma DryRunStep(js: seq<char>, pos: nat, count: nat)
    requires !AtEnd(js, pos) && DryStep(js, pos).DryNext?
    ensures var DryNext(p, n) := DryStep(js, pos);
            var c := js[pos];
            && DryRun(js, pos, count) == DryRun(js, p, count + n)
            && (IsOpener(c) ==> Brackets(js, pos) == [Opening(KindOf(c))] + Brackets(js, p))
            && (IsCloser(c) ==> Brackets(js, pos) == [Closing(KindOf(c))] + Brackets(js, p))
            && (!IsOpener(c) && !IsCloser(c) ==> Brackets(js, pos) == Brackets(js, p))
  {
    hide DryStep;
  }

  lemma StackRunStep(js: seq<char>, pos: nat, count: nat, stack: seq<Kind>)
    requires !AtEnd(js, pos) && DryStep(js, pos).DryNext?
    ensures var DryNext(p, n) := DryStep(js, pos);
            var c, r := js[pos], StackRun(js, pos, count, stack);
            && (IsOpener(c) ==> r == StackRun(js, p, count + n, stack + [KindOf(c)]))
            && (IsCloser(c) ==>
                  r == if stack == [] || stack[|stack| - 1] != KindOf(c) then ERROR_INVAL
                       else StackRun(js, p, count + n, stack[..|stack| - 1]))
            && (!IsOpener(c) && !IsCloser(c) ==> r == StackRun(js, p, count + n, stack))
  {
    hide DryStep;
  }

  lemma MatchesStep(b: Bracket, w: seq<Bracket>, stack: seq<Kind>)
    ensures b.Opening? ==> Matches([b] + w, stack) == Matches(w, stack + [b.kind])
    ensures b.Closing? ==>
              Matches([b] + w, stack) ==
              (stack != [] && stack[|stack| - 1] == b.kind && Matches(w, stack[..|stack| - 1]))
  {
    assert ([b] + w)[1..] == w;
  }

  lemma {:induction false} StackRunCounts(js: seq<char>, pos: nat, count: nat, stack: seq<Kind>)
    ensures StackRun(js, pos, count, stack) >= 0 <==>
            DryRun(js, pos, count) >= 0 && Matches(Brackets(js, pos), stack)
    ensures StackRun(js, pos, count, stack) >= 0 ==> StackRun(js, pos, count, stack) == DryRun(js, pos, count)
    decreases |js| - pos
  {
    hide DryStep, DryRun, StackRun, Brackets, Matches;
    if AtEnd(js, pos) || DryStep(js, pos).DryStop? {
      StackRunEnds(js, pos, count, stack);
    } else {
      var DryNext(p, n) := DryStep(js, pos);
      var c, w := js[pos], Brackets(js, p);
      DryRunStep(js, pos, count);
      StackRunStep(js, pos, count, stack);
      if IsOpener(c) {
        MatchesStep(Opening(KindOf(c)), w, stack);
        StackRunCounts(js, p, count + n, stack + [KindOf(c)]);
      } else if !IsCloser(c) {
        StackRunCounts(js, p, count + n, stack);
      } else {
        MatchesStep(Closing(KindOf(c)), w, stack);
        if stack != [] {
          StackRunCounts(js, p, count + n, stack[..|stack| - 1]);
        }
      }
    }
  }

  lemma StackRunEnds(js: seq<char>, pos: nat, count: nat, stack: seq<Kind>)
    requires AtEnd(js, pos) || DryStep(js, pos).DryStop?
    ensures StackRun(js, pos, count, stack) >= 0 <==>
            DryRun(js, pos, count) >= 0 && Matches(Brackets(js, pos), stack)
    ensures StackRun(js, pos, count, stack) >= 0 ==> StackRun(js, pos, count, stack) == DryRun(js, pos, count)
  {
    hide DryStep;
  }

  /** Balanced words, by their grammar and without a stack. */
  datatype Forest = Empty | Tree(kind: Kind, inside: Forest, next: Forest)

  function Word(f: Forest): seq<Bracket> {
    match f
    case Empty => []
    case Tree(k, inside, next) => [Opening(k)] + (Word(inside) + ([Closing(k)] + Word(next)))
  }

  ghost predicate Balanced(w: seq<Bracket>) {
    exists f: Forest :: Word(f) == w
  }

  lemma {:induction false} WordMatches(f: Forest, rest: seq<Bracket>, stack: seq<Kind>)
    ensures Matches(Word(f) + rest, stack) == Matches(rest, stack)
  {
    match f
    case Empty => assert Word(f) + rest == rest;
    case Tree(k, inside, next) =>
      var tail := [Closing(k)] + (Word(next) + rest);
      TreeBelow(k, inside, next, rest);
      assert (Word(f) + rest)[1..] == Word(inside) + tail;
      WordMatches(inside, tail, stack + [k]);
      assert tail[1..] == Word(next) + rest && (stack + [k])[..|stack|] == stack;
      WordMatches(next, rest, stack);
  }

  /** What is left of a balanced word when the given containers are open: for each of them, innermost
      first, a balanced word and its closing bracket. */
  function Layers(fs: seq<Forest>, stack: seq<Kind>): seq<Bracket>
    requires |fs| == |stack| + 1
  {
    var n := |stack|;
    Word(fs[n]) + if n == 0 then [] else [Closing(stack[n - 1])] + Layers(fs[..n], stack[..n - 1])
  }

  lemma {:induction false} MatchesGivesLayers(w: seq<Bracket>, stack: seq<Kind>) returns (fs: seq<Forest>)
    requires Matches(w, stack)
    ensures |fs| == |stack| + 1 && Layers(fs, stack) == w
    decreases |w|
  {
    var n := |stack|;
    if w == [] {
      return [Empty];
    }
    match w[0]
    case Opening(k) =>
      var inner := MatchesGivesLayers(w[1..], stack + [k]);
      fs := inner[..n] + [Tree(k, inner[n + 1], inner[n])];
      LayersOpen(inner, stack, k);
    case Closing(k) =>
      var outer := MatchesGivesLayers(w[1..], stack[..n - 1]);
      fs := outer + [Empty];
      assert fs[..n] == outer;
  }

  lemma {:induction false} LayersOpen(inner: seq<Forest>, stack: seq<Kind>, k: Kind)
    requires |inner| == |stack| + 2
    ensures var n := |stack|;
            Layers(inner[..n] + [Tree(k, inner[n + 1], inner[n])], stack) == [Opening(k)] + Layers(inner, stack + [k])
  {
    hide Word;
    var n := |stack|;
    var g, h := inner[n + 1], inner[n];
    var fs := inner[..n] + [Tree(k, g, h)];
    assert (stack + [k])[..n] == stack;
    assert inner[..n + 1][..n] == inner[..n];
    assert fs[..n] == inner[..n];
    var below := if n == 0 then [] else [Closing(stack[n - 1])] + Layers(inner[..n], stack[..n - 1]);
    assert Layers(fs, stack) == Word(Tree(k, g, h)) + below;
    assert Layers(inner[..n + 1], stack) == Word(h) + below;
    assert Layers(inner, stack + [k]) == Word(g) + ([Closing(k)] + Layers(inner[..n + 1], stack));
    TreeBelow(k, g, h, below);
  }

  lemma TreeBelow(k: Kind, g: Forest, h: Forest, below: seq<Bracket>)
    ensures Word(Tree(k, g, h)) + below == [Opening(k)] + (Word(g) + ([Closing(k)] + (Word(h) + below)))
  {
    Assoc([Closing(k)], Word(h), below);
    Assoc(Word(g), [Closing(k)] + Word(h), below);
    Assoc([Opening(k)], Word(g) + ([Closing(k)] + Word(h)), below);
  }

  lemma MatchesIffBalanced(w: seq<Bracket>)
    ensures Matches(w, []) <==> Balanced(w)
  {
    if Matches(w, []) {
      var fs := MatchesGivesLayers(w, []);
      assert Word(fs[0]) == w;
    }
    if Balanced(w) {
      var f :| Word(f) == w;
      WordMatches(f, [], []);
      assert w + [] == w;
    }
  }

  /** With a large enough pool, a text is accepted exactly when its strings and primitives are well
      formed and its brackets, outside of those, form a balanced word. */
  lemma SuccessIffBalanced(js: seq<char>, m: nat)
    requires |js| <= m
    ensures Run(js, m, Init).1 >= 0 <==> DryRun(js, 0, 0) >= 0 && Balanced(Brackets(js, 0))
  {
    EnoughTokens(js, |js|, Init);
    EnoughTokens(js, m, Init);
    ParseOutcome(js, m);
    StackRunCounts(js, 0, 0, []);
    MatchesIffBalanced(Brackets(js, 0));
  }
}
