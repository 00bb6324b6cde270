/** What every run of the tokenizer keeps: where tokens start and end, how their spans nest, and
    how their sizes add up (helpers/jsmn.c). */
module JsmnInvariants {
  import opened Jsmn

  ghost predicate TokenOk(t: Token, pos: nat) {
    && 0 <= t.start < pos
    && 0 <= t.size
    && if IsOpen(t) then IsContainer(t) else t.kind != Undefined && t.start <= t.end <= pos
  }

  /** The span of b, which starts later, lies inside the span of a or behind it. */
  ghost predicate NestedOrApart(a: Token, b: Token) {
    IsOpen(a) || a.end <= b.start || (!IsOpen(b) && b.end <= a.end)
  }

  ghost predicate Ordered(toks: seq<Token>) {
    forall i, j :: 0 <= i < j < |toks| ==> toks[i].start < toks[j].start && NestedOrApart(toks[i], toks[j])
  }

  ghost predicate Inv(s: State) {
    && Linked(s)
    && (forall i :: 0 <= i < |s.toks| ==> TokenOk(s.toks[i], s.pos))
    && Ordered(s.toks)
  }

  /** A token allocated at or behind pos keeps the order. */
  lemma EmitKeepsInv(s: State, t: Token, pos: nat, super: int)
    requires Inv(s) && s.pos <= t.start && s.pos < pos && TokenOk(t, pos) && -1 <= super <= |s.toks|
    ensures Inv(State(pos, super, Bump(s.toks, s.super) + [t]))
  {
    var toks := Bump(s.toks, s.super);
    assert forall i :: 0 <= i < |toks| ==> TokenOk(s.toks[i], s.pos) && toks[i].(size := 0) == s.toks[i].(size := 0);
    var all := toks + [t];
    forall i, j | 0 <= i < j < |all|
      ensures all[i].start < all[j].start && NestedOrApart(all[i], all[j])
    {
      if j < |toks| {
        assert s.toks[i].start < s.toks[j].start && NestedOrApart(s.toks[i], s.toks[j]);
      }
    }
  }

  /** Closing the innermost open token keeps the order: everything behind it is closed and inside. */
  lemma CloseKeepsInv(s: State, kind: Kind)
    requires Inv(s) && CloseStep(s, kind).Next?
    ensures Inv(CloseStep(s, kind).s)
  {
    var s' := CloseStep(s, kind).s;
    var toks := s'.toks;
    forall i, j | 0 <= i < j < |toks|
      ensures toks[i].start < toks[j].start && NestedOrApart(toks[i], toks[j])
    {
      assert TokenOk(s.toks[i], s.pos) && TokenOk(s.toks[j], s.pos);
      assert s.toks[i].start < s.toks[j].start && NestedOrApart(s.toks[i], s.toks[j]);
    }
  }

  lemma StepKeepsInv(js: seq<char>, cap: nat, s: State)
    requires Inv(s) && !AtEnd(js, s.pos) && Step(js, cap, s).Next?
    ensures Inv(Step(js, cap, s).s)
  {
    var c := js[s.pos];
    if IsOpener(c) {
      EmitKeepsInv(s, Token(KindOf(c), s.pos, -1, 0), s.pos + 1, |s.toks|);
    } else if IsCloser(c) {
      CloseKeepsInv(s, KindOf(c));
    } else if c == '\"' {
      var q := StringScan(js, s.pos + 1).quote;
      EmitKeepsInv(s, Token(String, s.pos + 1, q, 0), q + 1, s.super);
    } else if IsSpace(c) || c == ':' || c == ',' {
    } else {
      var q := PrimitiveEnd(js, s.pos).value;
      EmitKeepsInv(s, Token(Primitive, s.pos, q, 0), q, s.super);
    }
  }

  /** Every run of jsmn_parse from a sound state ends in a sound state: token starts strictly
      increase, toksuper points below toknext or is -1, and spans are nested or disjoint. */
  lemma {:induction false} RunKeepsInv(js: seq<char>, cap: nat, s: State)
    requires Inv(s)
    ensures Inv(Run(js, cap, s).0)
    decreases |js| - s.pos
  {
    if !AtEnd(js, s.pos) && Step(js, cap, s).Next? {
      StepKeepsInv(js, cap, s);
      RunKeepsInv(js, cap, Step(js, cap, s).s);
    }
  }

  /** A successful parse of a fresh text: no token is left open, and any two spans are nested or disjoint. */
  lemma SuccessIsLaminar(js: seq<char>, cap: nat)
    requires Run(js, cap, Init).1 >= 0
    ensures var (f, n) := Run(js, cap, Init);
            && n == |f.toks|
            && Inv(f)
            && (forall i :: 0 <= i < n ==> !IsOpen(f.toks[i]))
            && forall i, j :: 0 <= i < j < n ==>
                 f.toks[i].end <= f.toks[j].start ||
                 (f.toks[i].start < f.toks[j].start <= f.toks[j].end <= f.toks[i].end)
  {
    RunKeepsInv(js, cap, Init);
    RunResult(js, cap, Init);
    var f := Run(js, cap, Init).0;
    assert forall i, j :: 0 <= i < j < |f.toks| ==> NestedOrApart(f.toks[i], f.toks[j]) && TokenOk(f.toks[j], f.pos);
  }

  /** A nonnegative return value is the number of allocated tokens, and then nothing is open. */
  lemma {:induction false} RunResult(js: seq<char>, cap: nat, s: State)
    requires Linked(s)
    ensures var (f, r) := Run(js, cap, s);
            && |s.toks| <= |f.toks|
            && (r >= 0 ==> r == |f.toks| && AtEnd(js, f.pos) && LastOpen(f.toks, |f.toks|) == -1)
    decreases |js| - s.pos
  {
    if !AtEnd(js, s.pos) && Step(js, cap, s).Next? {
      RunResult(js, cap, Step(js, cap, s).s);
    }
  }

  // ---------------------------------------------------------------- sizes

  function SumSizes(toks: seq<Token>): int {
    if toks == [] then 0 else SumSizes(toks[..|toks| - 1]) + toks[|toks| - 1].size
  }

  lemma {:induction false} SumSizesUpdate(toks: seq<Token>, i: nat, t: Token)
    requires i < |toks|
    ensures SumSizes(toks[i := t]) == SumSizes(toks) - toks[i].size + t.size
  {
    var n := |toks| - 1;
    if i == n {
      assert toks[i := t][..n] == toks[..n];
    } else {
      assert toks[i := t][..n] == toks[..n][i := t];
      SumSizesUpdate(toks[..n], i, t);
    }
  }

  lemma {:induction false} SumSizesEmit(toks: seq<Token>, super: int, t: Token)
    requires -1 <= super < |toks| && t.size == 0
    ensures SumSizes(Bump(toks, super) + [t]) == SumSizes(toks) + if super == -1 then 0 else 1
  {
    var b := Bump(toks, super);
    assert (b + [t])[..|b|] == b;
    if super >= 0 {
      SumSizesUpdate(toks, super, toks[super].(size := toks[super].size + 1));
    }
  }

  /** How many tokens a run allocates while toksuper is -1. */
  function Roots(js: seq<char>, cap: nat, s: State): nat
    requires Linked(s)
    decreases |js| - s.pos
  {
    if AtEnd(js, s.pos) || Step(js, cap, s).Stop? then 0
    else
      var s' := Step(js, cap, s).s;
      (if |s'.toks| > |s.toks| && s.super == -1 then 1 else 0) + Roots(js, cap, s')
  }

  lemma StepSizes(js: seq<char>, cap: nat, s: State)
    requires Linked(s) && !AtEnd(js, s.pos) && Step(js, cap, s).Next?
    ensures var s' := Step(js, cap, s).s;
            && |s.toks| <= |s'.toks| <= |s.toks| + 1
            && SumSizes(s'.toks) - SumSizes(s.toks) == if s.super == -1 then 0 else |s'.toks| - |s.toks|
  {
    var c := js[s.pos];
    var s' := Step(js, cap, s).s;
    if IsCloser(c) {
      var i := LastOpen(s.toks, |s.toks|);
      SumSizesUpdate(s.toks, i, s.toks[i].(end := s.pos + 1));
    } else if |s'.toks| > |s.toks| {
      SumSizesEmit(s.toks, s.super, s'.toks[|s.toks|].(size := 0));
    }
  }

  /** Conservation: every allocated token is counted in exactly one other token's size, except
      those allocated while toksuper was -1. */
  lemma {:induction false} SizesAddUp(js: seq<char>, cap: nat, s: State)
    requires Linked(s)
    ensures var f := Run(js, cap, s).0;
            SumSizes(f.toks) - SumSizes(s.toks) == |f.toks| - |s.toks| - Roots(js, cap, s)
    decreases |js| - s.pos
  {
    if !AtEnd(js, s.pos) && Step(js, cap, s).Next? {
      StepSizes(js, cap, s);
      SizesAddUp(js, cap, Step(js, cap, s).s);
    }
  }
}
