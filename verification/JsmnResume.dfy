/** Stopping and going on: a run of the tokenizer that ran out of tokens or of text and is called
    again gives what one run on the whole text gives (helpers/jsmn.c). */
module JsmnResume {
  import opened Common
  import opened Jsmn
  import opened JsmnInvariants

  /** The text js ends in the middle of a primitive of the longer text more: the last token is a
      primitive that was cut off where js ends. */
  ghost predicate SplitsPrimitive(js: seq<char>, more: seq<char>, s: State) {
    && s.toks != []
    && s.toks[|s.toks| - 1].kind == Primitive
    && s.toks[|s.toks| - 1].end == |js|
    && !AtEnd(more, |js|)
    && !EndsPrimitive(more[|js|])
  }

  // ---------------------------------------------------------------- scanning a longer text

  lemma {:induction false} HexEndExtends(js: seq<char>, more: seq<char>, p: nat, n: nat)
    requires js <= more && p <= |js|
    requires HexEnd(js, p, n).Some? && HexEnd(js, p, n).value < |js|
    ensures HexEnd(more, p, n) == HexEnd(js, p, n)
    decreases n
  {
    if n != 0 && !AtEnd(js, p) {
      HexEndExtends(js, more, p + 1, n - 1);
    }
  }

  lemma {:induction false} StringScanExtends(js: seq<char>, more: seq<char>, p: nat)
    requires js <= more
    requires StringScan(js, p).Closed?
    ensures StringScan(more, p) == StringScan(js, p)
    decreases |js| - p
  {
    if js[p] == '\"' {
    } else if js[p] == '\\' && p + 1 < |js| {
      if IsSimpleEscape(js[p + 1]) {
        StringScanExtends(js, more, p + 2);
      } else {
        var q := HexEnd(js, p + 2, 4).value;
        HexEndExtends(js, more, p + 2, 4);
        StringScanExtends(js, more, q);
      }
    } else {
      StringScanExtends(js, more, p + 1);
    }
  }

  lemma {:induction false} PrimitiveEndExtends(js: seq<char>, more: seq<char>, p: nat)
    requires js <= more && p <= |js|
    requires PrimitiveEnd(js, p).Some?
    requires PrimitiveEnd(js, p).value < |js| || AtEnd(more, |js|) || EndsPrimitive(more[|js|])
    ensures PrimitiveEnd(more, p) == PrimitiveEnd(js, p)
    decreases |js| - p
  {
    if !AtEnd(js, p) && !EndsPrimitive(js[p]) {
      PrimitiveEndExtends(js, more, p + 1);
    }
  }

  /** When the primitive goes on behind js, the longer text never yields a primitive ending there. */
  lemma {:induction false} PrimitiveEndGrows(js: seq<char>, more: seq<char>, p: nat)
    requires js <= more && p <= |js|
    requires PrimitiveEnd(js, p) == Some(|js|) && !AtEnd(more, |js|) && !EndsPrimitive(more[|js|])
    ensures PrimitiveEnd(more, p) != Some(|js|)
    decreases |js| - p
  {
    if p < |js| {
      PrimitiveEndGrows(js, more, p + 1);
    }
  }

  /** A step that succeeds on js does the same on a longer text with a larger pool, unless it read
      a primitive up to the very end of js that the longer text continues. */
  lemma StepExtends(js: seq<char>, more: seq<char>, cap: nat, larger: nat, s: State)
    requires js <= more && cap <= larger && Linked(s) && !AtEnd(js, s.pos)
    requires Step(js, cap, s).Next? && !SplitsPrimitive(js, more, Step(js, cap, s).s)
    ensures Step(more, larger, s) == Step(js, cap, s)
  {
    var c := js[s.pos];
    if IsOpener(c) || IsCloser(c) || IsSpace(c) || c == ':' || c == ',' {
    } else if c == '\"' {
      StringScanExtends(js, more, s.pos + 1);
    } else {
      PrimitiveEndExtends(js, more, s.pos);
    }
  }

  /** A step never leaves a cut-off primitive before the end of js. */
  lemma StepSplitsAtEnd(js: seq<char>, more: seq<char>, cap: nat, s: State)
    requires Inv(s) && !AtEnd(js, s.pos) && Step(js, cap, s).Next?
    requires SplitsPrimitive(js, more, Step(js, cap, s).s)
    ensures Step(js, cap, s).s.pos >= |js|
  {
    StepKeepsInv(js, cap, s);
    var s' := Step(js, cap, s).s;
    assert TokenOk(s'.toks[|s'.toks| - 1], s'.pos);
  }

  // ---------------------------------------------------------------- resuming

  ghost predicate Resumable(r: int) {
    r == ERROR_NOMEM || r == ERROR_PART
  }

  /** Resume equals one shot. After NOMEM or PART, calling again with the same tokens in an array at
      least as large and a text at least as long gives the tokens, the parser state and the result of
      one call with that array and that text, unless the first text ends inside a primitive. */
  lemma {:induction false} ResumeIsOneShot(js: seq<char>, more: seq<char>, cap: nat, larger: nat, s: State)
    requires Inv(s) && js <= more && cap <= larger
    requires Resumable(Run(js, cap, s).1)
    requires !SplitsPrimitive(js, more, Run(js, cap, s).0)
    ensures Run(more, larger, Run(js, cap, s).0) == Run(more, larger, s)
    decreases |js| - s.pos
  {
    if !AtEnd(js, s.pos) && Step(js, cap, s).Next? {
      var s' := Step(js, cap, s).s;
      StepKeepsInv(js, cap, s);
      if SplitsPrimitive(js, more, s') {
        StepSplitsAtEnd(js, more, cap, s);
        assert false;
      }
      StepExtends(js, more, cap, larger, s);
      ResumeIsOneShot(js, more, cap, larger, s');
    }
  }

  /** Tokens are never removed, and a closed token keeps its type and its span. */
  lemma {:induction false} ClosedTokensStay(js: seq<char>, cap: nat, s: State, i: nat)
    requires Linked(s) && i < |s.toks| && !IsOpen(s.toks[i])
    ensures var f := Run(js, cap, s).0;
            i < |s.toks| <= |f.toks| && f.toks[i].(size := 0) == s.toks[i].(size := 0)
    decreases |js| - s.pos
  {
    if !AtEnd(js, s.pos) && Step(js, cap, s).Next? {
      ClosedTokensStay(js, cap, Step(js, cap, s).s, i);
    }
  }

  /** The step that reads the cut primitive. */
  lemma LastStepDiffers(js: seq<char>, more: seq<char>, cap: nat, larger: nat, s: State)
    requires Inv(s) && js <= more && cap <= larger && s.pos < |js| && !AtEnd(js, s.pos)
    requires Step(js, cap, s).Next? && Step(js, cap, s).s.pos >= |js|
    requires SplitsPrimitive(js, more, Run(js, cap, s).0)
    ensures Run(more, larger, Run(js, cap, s).0) != Run(more, larger, s)
  {
    var f := Run(js, cap, s).0;
    var k := |f.toks| - 1;
    RunKeepsInv(js, cap, s);
    assert TokenOk(f.toks[k], f.pos);
    assert Run(js, cap, s) == Run(js, cap, Step(js, cap, s).s);
    ClosedTokensStay(more, larger, f, k);
    assert forall i :: 0 <= i < |s.toks| ==> TokenOk(s.toks[i], s.pos) && s.toks[i].end < |js|;
    assert PrimitiveEnd(js, s.pos) == Some(|js|);
    PrimitiveEndGrows(js, more, s.pos);
    match PrimitiveEnd(more, s.pos)
    case None => assert Run(more, larger, s) == (s, ERROR_INVAL);
    case Some(q) =>
      var t := Step(more, larger, s).s;
      ClosedTokensStay(more, larger, t, k);
  }

  /** The exception is real: when the cut does split a primitive, resuming gives something else. */
  lemma {:induction false} SplitPrimitiveDiffers(js: seq<char>, more: seq<char>, cap: nat, larger: nat, s: State)
    requires Inv(s) && js <= more && cap <= larger && s.pos < |js|
    requires Resumable(Run(js, cap, s).1)
    requires SplitsPrimitive(js, more, Run(js, cap, s).0)
    ensures Run(more, larger, Run(js, cap, s).0) != Run(more, larger, s)
    decreases |js| - s.pos
  {
    var f := Run(js, cap, s).0;
    var k := |f.toks| - 1;
    RunKeepsInv(js, cap, s);
    assert TokenOk(f.toks[k], f.pos);
    if !AtEnd(js, s.pos) && Step(js, cap, s).Next? {
      var s' := Step(js, cap, s).s;
      StepKeepsInv(js, cap, s);
      if s'.pos < |js| {
        if SplitsPrimitive(js, more, s') {
          StepSplitsAtEnd(js, more, cap, s);
        }
        StepExtends(js, more, cap, larger, s);
        SplitPrimitiveDiffers(js, more, cap, larger, s');
      } else {
        LastStepDiffers(js, more, cap, larger, s);
      }
    }
  }

  /** "[12" and then "[123]": the number falls apart into two tokens. */
  lemma NumberCutInTwo(js: seq<char>, more: seq<char>)
    requires js == "[12" && more == "[123]"
    ensures var (f, r) := Run(js, 9, Init);
            && r == ERROR_PART
            && Run(more, 9, f).0.toks == [Token(Array, 0, 5, 2), Token(Primitive, 1, 3, 0), Token(Primitive, 3, 4, 0)]
            && Run(more, 9, Init).0.toks == [Token(Array, 0, 5, 1), Token(Primitive, 1, 4, 0)]
  {
    hide Run;
    var s1 := State(1, 0, [Token(Array, 0, -1, 0)]);
    var s2 := State(3, 0, [Token(Array, 0, -1, 1), Token(Primitive, 1, 3, 0)]);
    PrimitiveAt(js, 1, 3);
    Turn(js, Init, s1);
    Turn(js, s1, s2);
    Stops(js, s2);
    LastNumber(more, s2, [Token(Array, 0, -1, 1), Token(Primitive, 1, 3, 0)], 3);
    Turn(more, Init, s1);
    LastNumber(more, s1, [Token(Array, 0, -1, 0)], 1);
  }

  /** From p on the rest of the number and the bracket. */
  lemma LastNumber(js: seq<char>, s: State, toks: seq<Token>, p: nat)
    requires js == "[123]" && 1 <= p < 4 && s == State(p, 0, toks)
    requires |toks| <= 2 && toks != [] && IsOpen(toks[0]) && toks[0].kind == Array
    requires |toks| == 2 ==> !IsOpen(toks[1])
    ensures Run(js, 9, s).0.toks ==
            toks[0 := toks[0].(size := toks[0].size + 1, end := 5)] + [Token(Primitive, p, 4, 0)]
  {
    hide Run;
    var grown := toks[0 := toks[0].(size := toks[0].size + 1)] + [Token(Primitive, p, 4, 0)];
    var t := State(4, 0, grown);
    var t' := State(5, -1, grown[0 := grown[0].(end := 5)]);
    PrimitiveAt(js, p, 4);
    Turn(js, s, t);
    Turn(js, t, t');
    Stops(js, t');
  }

  lemma {:induction false} PrimitiveAt(js: seq<char>, p: nat, q: nat)
    requires p <= q <= |js| && forall i :: p <= i < q ==> Printable(js[i]) && !EndsPrimitive(js[i]) && js[i] != '\0'
    requires AtEnd(js, q) || EndsPrimitive(js[q])
    ensures PrimitiveEnd(js, p) == Some(q)
    decreases q - p
  {
    if p < q {
      PrimitiveAt(js, p + 1, q);
    }
  }

  lemma Turn(js: seq<char>, s: State, s': State)
    requires Linked(s) && !AtEnd(js, s.pos) && Step(js, 9, s) == Next(s')
    ensures Linked(s') && Run(js, 9, s) == Run(js, 9, s')
  {
  }

  lemma Stops(js: seq<char>, s: State)
    requires Linked(s) && AtEnd(js, s.pos)
    ensures Run(js, 9, s) == (s, if LastOpen(s.toks, |s.toks|) >= 0 then ERROR_PART else |s.toks|)
  {
  }

  /** Both halves: resuming equals one shot exactly when the cut does not split a primitive. */
  lemma ResumeIsOneShotIff(js: seq<char>, more: seq<char>, cap: nat, larger: nat, s: State)
    requires Inv(s) && js <= more && cap <= larger && s.pos < |js|
    requires Resumable(Run(js, cap, s).1)
    ensures Run(more, larger, Run(js, cap, s).0) == Run(more, larger, s)
       <==> !SplitsPrimitive(js, more, Run(js, cap, s).0)
  {
    if SplitsPrimitive(js, more, Run(js, cap, s).0) {
      SplitPrimitiveDiffers(js, more, cap, larger, s);
    } else {
      ResumeIsOneShot(js, more, cap, larger, s);
    }
  }

  // ---------------------------------------------------------------- any number of calls

  datatype Call = Call(text: seq<char>, cap: nat)

  /** The calls of a session: each gets a longer text or a larger pool than the one before, every
      call but the last asks to be resumed, and none of them is cut inside a primitive. */
  ghost predicate Session(calls: seq<Call>, s: State)
    requires Inv(s)
    decreases |calls|
  {
    |calls| >= 1 &&
    (|calls| > 1 ==>
      var (f, r) := Run(calls[0].text, calls[0].cap, s);
      var last := calls[|calls| - 1];
      RunKeepsInv(calls[0].text, calls[0].cap, s);
      && Resumable(r)
      && calls[0].text <= last.text && calls[0].cap <= last.cap
      && !SplitsPrimitive(calls[0].text, last.text, f)
      && Session(calls[1..], f))
  }

  function RunAll(calls: seq<Call>, s: State): (State, int)
    requires |calls| >= 1 && Linked(s)
    decreases |calls|
  {
    var (f, r) := Run(calls[0].text, calls[0].cap, s);
    if |calls| == 1 then (f, r) else RunAll(calls[1..], f)
  }

  /** A whole session, however its text was cut and its pool was grown, ends where one call with the
      last text and the last pool ends. */
  lemma {:induction false} SessionIsOneShot(calls: seq<Call>, s: State)
    requires Inv(s) && Session(calls, s)
    ensures var last := calls[|calls| - 1];
            RunAll(calls, s) == Run(last.text, last.cap, s)
    decreases |calls|
  {
    if |calls| > 1 {
      var last := calls[|calls| - 1];
      var f := Run(calls[0].text, calls[0].cap, s).0;
      RunKeepsInv(calls[0].text, calls[0].cap, s);
      SessionIsOneShot(calls[1..], f);
      ResumeIsOneShot(calls[0].text, last.text, calls[0].cap, last.cap, s);
    }
  }
}
