/** The jsmn tokenizer (helpers/jsmn.c, default build: neither JSMN_STRICT nor JSMN_PARENT_LINKS).

    The first half is the tokenizer as a step function over an explicit machine state; the second
    half is the C code itself, a class with the fields of jsmn_parser working on an array of tokens,
    proved to compute exactly what the machine computes. */
module Jsmn {
  import opened Common

  datatype Kind = Undefined | Object | Array | String | Primitive

  datatype Token = Token(kind: Kind, start: int, end: int, size: int)

  const ERROR_NOMEM := -1
  const ERROR_INVAL := -2
  const ERROR_PART := -3

  /** What jsmn_parser and the allocated part of the token array hold; toknext is |toks|. */
  datatype State = State(pos: nat, super: int, toks: seq<Token>)

  const Init := State(0, -1, [])

  ghost predicate Linked(s: State) {
    -1 <= s.super < |s.toks|
  }

  predicate IsOpen(t: Token) {
    t.start != -1 && t.end == -1
  }

  predicate IsContainer(t: Token) {
    t.kind == Array || t.kind == Object
  }

  predicate AtEnd(js: seq<char>, pos: nat) {
    pos >= |js| || js[pos] == '\0'
  }

  predicate IsSpace(c: char) {
    c == '\t' || c == '\r' || c == '\n' || c == ' '
  }

  predicate EndsPrimitive(c: char) {
    c == ':' || IsSpace(c) || c == ',' || c == ']' || c == '}'
  }

  predicate IsHex(c: char) {
    '0' <= c <= '9' || 'A' <= c <= 'F' || 'a' <= c <= 'f'
  }

  predicate IsSimpleEscape(c: char) {
    c == '\"' || c == '/' || c == '\\' || c == 'b' || c == 'f' || c == 'r' || c == 'n' || c == 't'
  }

  predicate Printable(c: char) {
    32 <= c as int < 127
  }

  // ---------------------------------------------------------------- scanning

  /** Where the primitive being read at p stops; None when it meets a character it may not hold. */
  function PrimitiveEnd(js: seq<char>, p: nat): (r: Option<nat>)
    ensures r.Some? ==> p <= r.value && (p <= |js| ==> r.value <= |js|)
    decreases |js| - p
  {
    if AtEnd(js, p) || EndsPrimitive(js[p]) then Some(p)
    else if !Printable(js[p]) then None
    else PrimitiveEnd(js, p + 1)
  }

  /** The first position from p on, at most n away, that does not continue a run of hex digits;
      None when a character other than the end of the text stops the run early. */
  function HexEnd(js: seq<char>, p: nat, n: nat): (r: Option<nat>)
    ensures r.Some? ==> p <= r.value && (p <= |js| ==> r.value <= |js|)
    decreases n
  {
    if n == 0 || AtEnd(js, p) then Some(p)
    else if !IsHex(js[p]) then None
    else HexEnd(js, p + 1, n - 1)
  }

  datatype Scan = Closed(quote: nat) | Unfinished | Bad

  /** Reads the characters of a string from p on, up to its closing quote. */
  function StringScan(js: seq<char>, p: nat): (r: Scan)
    ensures r.Closed? ==> p <= r.quote < |js| && js[r.quote] == '\"'
    decreases |js| - p
  {
    if AtEnd(js, p) then Unfinished
    else if js[p] == '\"' then Closed(p)
    else if js[p] == '\\' && p + 1 < |js| then
      if IsSimpleEscape(js[p + 1]) then StringScan(js, p + 2)
      else if js[p + 1] == 'u' then
        match HexEnd(js, p + 2, 4)
        case None => Bad
        case Some(q) => StringScan(js, q)
      else Bad
    else StringScan(js, p + 1)
  }

  // ---------------------------------------------------------------- the machine

  /** The innermost open token below index n, or -1. */
  function LastOpen(toks: seq<Token>, n: nat): (i: int)
    requires n <= |toks|
    ensures -1 <= i < n
    ensures i >= 0 ==> IsOpen(toks[i])
    ensures forall j :: i < j < n ==> !IsOpen(toks[j])
  {
    if n == 0 then -1
    else if IsOpen(toks[n - 1]) then n - 1
    else LastOpen(toks, n - 1)
  }

  /** The innermost open token below n whose type is object or array, or -1. */
  function LastOpenContainer(toks: seq<Token>, n: nat): (i: int)
    requires n <= |toks|
    ensures -1 <= i < n
    ensures i >= 0 ==> IsOpen(toks[i]) && IsContainer(toks[i])
    ensures forall j :: i < j < n ==> !(IsOpen(toks[j]) && IsContainer(toks[j]))
  {
    if n == 0 then -1
    else if IsContainer(toks[n - 1]) && IsOpen(toks[n - 1]) then n - 1
    else LastOpenContainer(toks, n - 1)
  }

  /** Counts one more child at the token super points to. */
  function Bump(toks: seq<Token>, super: int): (r: seq<Token>)
    requires -1 <= super < |toks|
    ensures |r| == |toks|
  {
    if super == -1 then toks else toks[super := toks[super].(size := toks[super].size + 1)]
  }

  datatype StepResult = Next(s: State) | Stop(error: int)

  /** Puts one more token at the end, charged to super, and moves on to pos. */
  function Emit(cap: nat, s: State, t: Token, pos: nat): (r: StepResult)
    requires Linked(s)
  {
    if |s.toks| >= cap then Stop(ERROR_NOMEM)
    else Next(State(pos, s.super, Bump(s.toks, s.super) + [t]))
  }

  predicate IsOpener(c: char) { c == '{' || c == '[' }

  predicate IsCloser(c: char) { c == '}' || c == ']' }

  function KindOf(c: char): Kind {
    if c == '{' || c == '}' then Object else Array
  }

  function CloseStep(s: State, kind: Kind): (r: StepResult)
  {
    var i := LastOpen(s.toks, |s.toks|);
    if i == -1 || s.toks[i].kind != kind then Stop(ERROR_INVAL)
    else
      var toks := s.toks[i := s.toks[i].(end := s.pos + 1)];
      Next(State(s.pos + 1, LastOpen(toks, i + 1), toks))
  }

  function CommaStep(s: State): (r: StepResult)
    requires Linked(s)
  {
    if s.super != -1 && !IsContainer(s.toks[s.super]) then
      var i := LastOpenContainer(s.toks, |s.toks|);
      Next(State(s.pos + 1, if i == -1 then s.super else i, s.toks))
    else Next(s.(pos := s.pos + 1))
  }

  /** One turn of the loop of jsmn_parse. A turn that stops leaves the state as it was. */
  function Step(js: seq<char>, cap: nat, s: State): (r: StepResult)
    requires Linked(s) && !AtEnd(js, s.pos)
    ensures r.Next? ==> s.pos < r.s.pos && Linked(r.s) && (s.pos <= |js| ==> r.s.pos <= |js|)
    ensures r.Stop? ==> r.error < 0
  {
    var c := js[s.pos];
    if IsOpener(c) then
      if |s.toks| >= cap then Stop(ERROR_NOMEM)
      else Next(State(s.pos + 1, |s.toks|, Bump(s.toks, s.super) + [Token(KindOf(c), s.pos, -1, 0)]))
    else if IsCloser(c) then CloseStep(s, KindOf(c))
    else if c == '\"' then
      match StringScan(js, s.pos + 1)
      case Bad => Stop(ERROR_INVAL)
      case Unfinished => Stop(ERROR_PART)
      case Closed(q) => Emit(cap, s, Token(String, s.pos + 1, q, 0), q + 1)
    else if IsSpace(c) then Next(s.(pos := s.pos + 1))
    else if c == ':' then Next(State(s.pos + 1, |s.toks| - 1, s.toks))
    else if c == ',' then CommaStep(s)
    else
      match PrimitiveEnd(js, s.pos)
      case None => Stop(ERROR_INVAL)
      case Some(q) => Emit(cap, s, Token(Primitive, s.pos, q, 0), q)
  }

  /** The whole of jsmn_parse with a token array of cap tokens: the state it leaves and what it returns. */
  function Run(js: seq<char>, cap: nat, s: State): (r: (State, int))
    requires Linked(s)
    ensures Linked(r.0)
    decreases |js| - s.pos
  {
    if AtEnd(js, s.pos) then (s, if LastOpen(s.toks, |s.toks|) >= 0 then ERROR_PART else |s.toks|)
    else
      match Step(js, cap, s)
      case Stop(e) => (s, e)
      case Next(s') => Run(js, cap, s')
  }

  datatype DryResult = DryNext(pos: nat, counted: nat) | DryStop(error: int)

  /** One turn of the loop when jsmn_parse is given no token array: it only counts. */
  function DryStep(js: seq<char>, pos: nat): (r: DryResult)
    requires !AtEnd(js, pos)
    ensures r.DryNext? ==> pos < r.pos && r.counted <= 1
    ensures r.DryStop? ==> r.error < 0
  {
    var c := js[pos];
    if IsOpener(c) then DryNext(pos + 1, 1)
    else if c == '\"' then
      match StringScan(js, pos + 1)
      case Bad => DryStop(ERROR_INVAL)
      case Unfinished => DryStop(ERROR_PART)
      case Closed(q) => DryNext(q + 1, 1)
    else if IsCloser(c) || IsSpace(c) || c == ':' || c == ',' then DryNext(pos + 1, 0)
    else
      match PrimitiveEnd(js, pos)
      case None => DryStop(ERROR_INVAL)
      case Some(q) => DryNext(q, 1)
  }

  function DryRun(js: seq<char>, pos: nat, count: nat): (r: int)
    decreases |js| - pos
  {
    if AtEnd(js, pos) then count
    else
      match DryStep(js, pos)
      case DryStop(e) => e
      case DryNext(pos', n) => DryRun(js, pos', count + n)
  }

  // ---------------------------------------------------------------- the code

  class Parser {
    var pos: nat
    var toknext: nat
    var toksuper: int

    constructor ()
      ensures pos == 0 && toknext == 0 && toksuper == -1
    {
      pos, toknext, toksuper := 0, 0, -1;
    }

    /** A parser that jsmn_init or an earlier call on the same tokens has left behind. */
    ghost predicate Valid(tokens: array<Token>)
      reads this
    {
      toknext <= tokens.Length && -1 <= toksuper < toknext
    }

    ghost function View(tokens: array<Token>): State
      requires toknext <= tokens.Length
      reads this, tokens
    {
      State(pos, toksuper, tokens[..toknext])
    }

    method AllocToken(tokens: array<Token>, numTokens: nat) returns (tok: Option<nat>)
      requires numTokens <= tokens.Length
      modifies this`toknext, tokens
      ensures old(toknext) >= numTokens ==> tok == None && toknext == old(toknext) && tokens[..] == old(tokens[..])
      ensures old(toknext) < numTokens ==>
                tok == Some(old(toknext)) && toknext == old(toknext) + 1 &&
                tokens[..] == old(tokens[..])[old(toknext) := old(tokens[toknext]).(start := -1, end := -1, size := 0)]
    {
      if toknext >= numTokens {
        return None;
      }
      var i := toknext;
      toknext := toknext + 1;
      tokens[i] := tokens[i].(start := -1, end := -1);
      tokens[i] := tokens[i].(size := 0);
      return Some(i);
    }

    method ParsePrimitive(js: seq<char>, tokens: array?<Token>, numTokens: nat) returns (r: int)
      requires !AtEnd(js, pos) && !EndsPrimitive(js[pos])
      requires tokens != null ==> numTokens <= tokens.Length && Valid(tokens)
      modifies this`pos, this`toknext
      modifies if tokens == null then {} else {tokens}
      ensures PrimitiveEnd(js, old(pos)) == None ==> r == ERROR_INVAL && pos == old(pos) && toknext == old(toknext)
      ensures tokens == null && PrimitiveEnd(js, old(pos)).Some? ==>
                r == 0 && pos + 1 == PrimitiveEnd(js, old(pos)).value > old(pos) && toknext == old(toknext)
      ensures tokens != null && PrimitiveEnd(js, old(pos)) == None ==> tokens[..] == old(tokens[..])
      ensures tokens != null && PrimitiveEnd(js, old(pos)).Some? ==>
                var q := PrimitiveEnd(js, old(pos)).value;
                if old(toknext) >= numTokens then
                  r == ERROR_NOMEM && pos == old(pos) && toknext == old(toknext) && tokens[..] == old(tokens[..])
                else
                  r == 0 && pos + 1 == q && toknext == old(toknext) + 1 &&
                  tokens[..] == old(tokens[..])[old(toknext) := Token(Primitive, old(pos), q, 0)]
    {
      var start := pos;
      while pos < |js| && js[pos] != '\0'
        invariant start <= pos <= |js|
        invariant pos == start ==> !AtEnd(js, pos) && !EndsPrimitive(js[pos])
        invariant PrimitiveEnd(js, pos) == PrimitiveEnd(js, start)
        modifies this`pos
      {
        if EndsPrimitive(js[pos]) {
          break;
        }
        if js[pos] as int < 32 || js[pos] as int >= 127 {
          pos := start;
          return ERROR_INVAL;
        }
        pos := pos + 1;
      }
      if tokens == null {
        pos := pos - 1;
        return 0;
      }
      var token := AllocToken(tokens, numTokens);
      if token == None {
        pos := start;
        return ERROR_NOMEM;
      }
      tokens[token.value] := Token(Primitive, start, pos, 0);
      pos := pos - 1;
      return 0;
    }

    /** The loop over the four digits of a \uXXXX escape. */
    method HexDigits(js: seq<char>) returns (ok: bool)
      requires pos <= |js|
      modifies this`pos
      ensures ok <==> HexEnd(js, old(pos), 4).Some?
      ensures ok ==> pos == HexEnd(js, old(pos), 4).value
    {
      var i := 0;
      while i < 4 && pos < |js| && js[pos] != '\0'
        invariant 0 <= i <= 4 && pos <= |js|
        invariant HexEnd(js, pos, 4 - i) == HexEnd(js, old(pos), 4)
      {
        if !IsHex(js[pos]) {
          return false;
        }
        pos := pos + 1;
        i := i + 1;
      }
      return true;
    }

    method ParseString(js: seq<char>, tokens: array?<Token>, numTokens: nat) returns (r: int)
      requires !AtEnd(js, pos)
      requires tokens != null ==> numTokens <= tokens.Length && Valid(tokens)
      modifies this`pos, this`toknext
      modifies if tokens == null then {} else {tokens}
      ensures !StringScan(js, old(pos) + 1).Closed? ==>
                pos == old(pos) && toknext == old(toknext) && (tokens != null ==> tokens[..] == old(tokens[..])) &&
                r == if StringScan(js, old(pos) + 1).Bad? then ERROR_INVAL else ERROR_PART
      ensures tokens == null && StringScan(js, old(pos) + 1).Closed? ==>
                r == 0 && pos == StringScan(js, old(pos) + 1).quote && toknext == old(toknext)
      ensures tokens != null && StringScan(js, old(pos) + 1).Closed? ==>
                var q := StringScan(js, old(pos) + 1).quote;
                if old(toknext) >= numTokens then
                  r == ERROR_NOMEM && pos == old(pos) && toknext == old(toknext) && tokens[..] == old(tokens[..])
                else
                  r == 0 && pos == q && toknext == old(toknext) + 1 &&
                  tokens[..] == old(tokens[..])[old(toknext) := Token(String, old(pos) + 1, q, 0)]
    {
      var start := pos;
      ghost var want := StringScan(js, start + 1);
      pos := pos + 1;
      while pos < |js| && js[pos] != '\0'
        invariant start < pos
        invariant StringScan(js, pos) == want
        invariant toknext == old(toknext)
        invariant tokens != null ==> tokens[..] == old(tokens[..])
        decreases |js| - pos
      {
        var c := js[pos];
        if c == '\"' {
          if tokens == null {
            return 0;
          }
          var token := AllocToken(tokens, numTokens);
          if token == None {
            pos := start;
            return ERROR_NOMEM;
          }
          tokens[token.value] := Token(String, start + 1, pos, 0);
          return 0;
        }
        if c == '\\' && pos + 1 < |js| {
          pos := pos + 1;
          if IsSimpleEscape(js[pos]) {
          } else if js[pos] == 'u' {
            pos := pos + 1;
            var ok := HexDigits(js);
            if !ok {
              pos := start;
              return ERROR_INVAL;
            }
            pos := pos - 1;
          } else {
            pos := start;
            return ERROR_INVAL;
          }
        }
        pos := pos + 1;
      }
      pos := start;
      return ERROR_PART;
    }

    /** Closes the innermost open token; false when there is none or its type differs. */
    method CloseBracket(tokens: array<Token>, kind: Kind) returns (ok: bool)
      requires Valid(tokens)
      modifies this`toksuper, tokens
      ensures tokens[toknext..] == old(tokens[toknext..])
      ensures match CloseStep(old(View(tokens)), kind)
              case Stop(_) => !ok && View(tokens) == old(View(tokens))
              case Next(s) => ok && State(pos + 1, toksuper, tokens[..toknext]) == s
    {
      ghost var toks := tokens[..toknext];
      var i: int := toknext - 1;
      while i >= 0
        invariant -1 <= i < toknext
        invariant LastOpen(toks, i + 1) == LastOpen(toks, |toks|)
        invariant toksuper == old(toksuper) && tokens[..] == old(tokens[..])
      {
        if tokens[i].start != -1 && tokens[i].end == -1 {
          break;
        }
        i := i - 1;
      }
      if i == -1 {
        return false;
      }
      if tokens[i].kind != kind {
        return false;
      }
      toksuper := -1;
      tokens[i] := tokens[i].(end := pos + 1);
      ghost var closed := tokens[..toknext];
      ghost var top := i;
      assert closed == toks[top := toks[top].(end := pos + 1)];
      while i >= 0
        invariant -1 <= i <= top
        invariant LastOpen(closed, i + 1) == LastOpen(closed, top + 1)
        invariant toksuper == -1
        invariant tokens[..toknext] == closed
      {
        if tokens[i].start != -1 && tokens[i].end == -1 {
          toksuper := i;
          break;
        }
        i := i - 1;
      }
      return true;
    }

    /** What a comma does to toksuper. */
    method Comma(tokens: array<Token>)
      requires Valid(tokens)
      modifies this`toksuper
      ensures Next(State(pos + 1, toksuper, tokens[..toknext])) == CommaStep(old(View(tokens)))
    {
      if toksuper != -1 && tokens[toksuper].kind != Array && tokens[toksuper].kind != Object {
        ghost var toks := tokens[..toknext];
        var i: int := toknext - 1;
        while i >= 0
          invariant -1 <= i < toknext
          invariant LastOpenContainer(toks, i + 1) == LastOpenContainer(toks, |toks|)
          invariant toksuper == old(toksuper)
        {
          if tokens[i].kind == Array || tokens[i].kind == Object {
            if tokens[i].start != -1 && tokens[i].end == -1 {
              toksuper := i;
              break;
            }
          }
          i := i - 1;
        }
      }
    }

    /** The child just emitted counts as one more of toksuper. */
    method Charge(tokens: array<Token>)
      requires Valid(tokens)
      modifies tokens
      ensures tokens[toknext..] == old(tokens[toknext..])
      ensures tokens[..toknext] == Bump(old(tokens[..toknext]), toksuper)
    {
      if toksuper != -1 {
        tokens[toksuper] := tokens[toksuper].(size := tokens[toksuper].size + 1);
      }
    }

    /** The case of an opening bracket; false when the pool is used up. */
    method OpenBracket(c: char, tokens: array<Token>, numTokens: nat) returns (ok: bool)
      requires IsOpener(c) && numTokens <= tokens.Length && Valid(tokens)
      modifies this`toknext, this`toksuper, tokens
      ensures ok == (old(toknext) < numTokens) && Valid(tokens)
      ensures !ok ==> View(tokens) == old(View(tokens)) && tokens[..] == old(tokens[..])
      ensures ok ==> toknext == old(toknext) + 1 && toksuper == toknext - 1
      ensures ok ==> tokens[toknext..] == old(tokens[..])[toknext..]
      ensures ok ==> tokens[..toknext] == Bump(old(tokens[..toknext]), old(toksuper)) + [Token(KindOf(c), pos, -1, 0)]
    {
      var token := AllocToken(tokens, numTokens);
      if token == None {
        return false;
      }
      if toksuper != -1 {
        tokens[toksuper] := tokens[toksuper].(size := tokens[toksuper].size + 1);
      }
      tokens[token.value] := tokens[token.value].(kind := if c == '{' then Object else Array);
      tokens[token.value] := tokens[token.value].(start := pos);
      toksuper := toknext - 1;
      return true;
    }

    /** The case of a quote. */
    method StringCase(js: seq<char>, tokens: array?<Token>, numTokens: nat) returns (r: int)
      requires tokens != null ==> numTokens <= tokens.Length && Valid(tokens)
      requires !AtEnd(js, pos) && js[pos] == '\"'
      modifies this`pos, this`toknext
      modifies if tokens == null then {} else {tokens}
      ensures tokens != null ==>
                Valid(tokens) && old(toknext) <= toknext && tokens[toknext..] == old(tokens[..])[toknext..]
      ensures tokens != null ==>
                match Step(js, numTokens, old(View(tokens)))
                case Stop(e) => r == e && View(tokens) == old(View(tokens))
                case Next(s) =>
                  r == 0 && State(pos + 1, toksuper, tokens[..toknext]) == s && toknext == old(toknext) + 1
      ensures tokens == null ==>
                toknext == old(toknext) &&
                match DryStep(js, old(pos))
                case DryStop(e) => r == e && pos == old(pos)
                case DryNext(p, n) => r == 0 && pos + 1 == p && n == 1
    {
      hide StringScan, PrimitiveEnd, LastOpen, LastOpenContainer;
      r := ParseString(js, tokens, numTokens);
      if r >= 0 && tokens != null {
        Charge(tokens);
      }
    }

    /** The default case: anything that is not quoted is a primitive. */
    method PrimitiveCase(js: seq<char>, tokens: array?<Token>, numTokens: nat) returns (r: int)
      requires tokens != null ==> numTokens <= tokens.Length && Valid(tokens)
      requires !AtEnd(js, pos) && !EndsPrimitive(js[pos]) && !IsOpener(js[pos]) && js[pos] != '\"'
      modifies this`pos, this`toknext
      modifies if tokens == null then {} else {tokens}
      ensures tokens != null ==>
                Valid(tokens) && old(toknext) <= toknext && tokens[toknext..] == old(tokens[..])[toknext..]
      ensures tokens != null ==>
                match Step(js, numTokens, old(View(tokens)))
                case Stop(e) => r == e && View(tokens) == old(View(tokens))
                case Next(s) =>
                  r == 0 && State(pos + 1, toksuper, tokens[..toknext]) == s && toknext == old(toknext) + 1
      ensures tokens == null ==>
                toknext == old(toknext) &&
                match DryStep(js, old(pos))
                case DryStop(e) => r == e && pos == old(pos)
                case DryNext(p, n) => r == 0 && pos + 1 == p && n == 1
    {
      r := ParsePrimitive(js, tokens, numTokens);
      if r >= 0 && tokens != null {
        Charge(tokens);
      }
    }

    /** The switch of jsmn_parse on one character: one step of the machine, or of the dry run when
        there is no token array. The second result is how many tokens it counted. */
    method Dispatch(js: seq<char>, tokens: array?<Token>, numTokens: nat) returns (r: int, counted: nat)
      requires tokens != null ==> numTokens <= tokens.Length && Valid(tokens)
      requires !AtEnd(js, pos)
      modifies this
      modifies if tokens == null then {} else {tokens}
      ensures tokens != null ==>
                Valid(tokens) && old(toknext) <= toknext && tokens[toknext..] == old(tokens[..])[toknext..]
      ensures tokens != null ==>
                match Step(js, numTokens, old(View(tokens)))
                case Stop(e) => r == e && View(tokens) == old(View(tokens))
                case Next(s) =>
                  r == 0 && State(pos + 1, toksuper, tokens[..toknext]) == s && counted == toknext - old(toknext)
      ensures tokens == null ==>
                toknext == old(toknext) &&
                match DryStep(js, old(pos))
                case DryStop(e) => r == e && pos == old(pos)
                case DryNext(p, n) => r == 0 && pos + 1 == p && counted == n
    {
      var c := js[pos];
      r, counted := 0, 0;
      if c == '{' || c == '[' {
        counted := 1;
        if tokens != null {
          var ok := OpenBracket(c, tokens, numTokens);
          r := if ok then 0 else ERROR_NOMEM;
        }
      } else if c == '}' || c == ']' {
        if tokens != null {
          var ok := CloseBracket(tokens, if c == '}' then Object else Array);
          r := if ok then 0 else ERROR_INVAL;
        }
      } else if c == '\"' {
        r := StringCase(js, tokens, numTokens);
        counted := if r < 0 then 0 else 1;
      } else if c == '\t' || c == '\r' || c == '\n' || c == ' ' {
      } else if c == ':' {
        toksuper := toknext - 1;
      } else if c == ',' {
        if tokens != null {
          Comma(tokens);
        }
      } else {
        r := PrimitiveCase(js, tokens, numTokens);
        counted := if r < 0 then 0 else 1;
      }
    }

    /** jsmn_parse. With a token array, the state it leaves and the code it returns are those of the
        machine, and the pool beyond the allocated tokens is not touched; without one it is a dry run. */
    method Parse(js: seq<char>, tokens: array?<Token>, numTokens: nat) returns (r: int)
      requires tokens != null ==> numTokens <= tokens.Length && Valid(tokens)
      modifies this
      modifies if tokens == null then {} else {tokens}
      ensures tokens != null ==>
                Valid(tokens) && old(toknext) <= toknext && tokens[toknext..] == old(tokens[..])[toknext..]
      ensures tokens != null ==> (View(tokens), r) == Run(js, numTokens, old(View(tokens)))
      ensures tokens == null ==> r == DryRun(js, old(pos), old(toknext)) && toknext == old(toknext)
    {
      var count := toknext;
      while pos < |js| && js[pos] != '\0'
        invariant tokens != null ==>
          Valid(tokens) && old(toknext) <= toknext && tokens[toknext..] == old(tokens[..])[toknext..]
        invariant tokens != null ==>
          count == toknext && Run(js, numTokens, View(tokens)) == Run(js, numTokens, old(View(tokens)))
        invariant tokens == null ==>
          toknext == old(toknext) && DryRun(js, pos, count) == DryRun(js, old(pos), old(toknext))
        decreases |js| - pos
      {
        var counted;
        r, counted := Dispatch(js, tokens, numTokens);
        if r < 0 {
          return r;
        }
        count := count + counted;
        pos := pos + 1;
      }
      if tokens != null {
        ghost var toks := tokens[..toknext];
        var i: int := toknext - 1;
        while i >= 0
          invariant -1 <= i < toknext
          invariant LastOpen(toks, i + 1) == LastOpen(toks, |toks|)
        {
          if tokens[i].start != -1 && tokens[i].end == -1 {
            return ERROR_PART;
          }
          i := i - 1;
        }
      }
      return count;
    }
  }
}
