/** Decoding the reply of an Ethereum node (eth/web3_jsonp.c, helpers/jsmn_utils.c): three loops over the tokens of the
    text. They look ahead past the tokens of the text and trust the spans of what they find; a run that would read
    outside the token array or outside the text is stuck. */
module Web3Reply {
  import opened Jsmn
  import JsmnInvariants
  import opened Uint256
  import opened HexToBin
  import opened Uint256Text

  // ---------------------------------------------------------------- single tokens

  predicate Within(js: seq<char>, tok: Token) {
    0 <= tok.start <= tok.end <= |js|
  }

  /** The characters of a token. */
  function Slice(js: seq<char>, tok: Token): seq<char>
    requires Within(js, tok)
  {
    js[tok.start..tok.end]
  }

  /** jsoneq reads the text only when the type and the length are right. */
  predicate Comparable(js: seq<char>, tok: Token, s: seq<char>) {
    tok.kind == String && |s| == tok.end - tok.start ==> Within(js, tok)
  }

  /** jsoneq returns 0. */
  predicate JsonEq(js: seq<char>, tok: Token, s: seq<char>)
    requires Comparable(js, tok, s)
  {
    tok.kind == String && |s| == tok.end - tok.start && js[tok.start..tok.end] == s
  }

  // ---------------------------------------------------------------- strtoul and strtol

  predicate IsBlank(c: char) {
    c == ' ' || '\t' <= c <= '\r'
  }

  function SkipBlanks(s: seq<char>, p: nat): (q: nat)
    requires p <= |s|
    ensures p <= q <= |s|
    decreases |s| - p
  {
    if p < |s| && IsBlank(s[p]) then SkipBlanks(s, p + 1) else p
  }

  predicate IsDigit(c: char) {
    '0' <= c <= '9'
  }

  predicate Digits10(t: seq<char>) {
    forall i :: 0 <= i < |t| ==> IsDigit(t[i])
  }

  function DigitRun(s: seq<char>, p: nat): (q: nat)
    requires p <= |s|
    ensures p <= q <= |s|
    ensures Digits10(s[p..q])
    decreases |s| - p
  {
    if p < |s| && IsDigit(s[p]) then
      assert forall q :: p + 1 <= q <= |s| ==> s[p..q] == [s[p]] + s[p + 1..q];
      DigitRun(s, p + 1)
    else p
  }

  lemma DigitIsHex(c: char)
    requires IsDigit(c)
    ensures 0 <= MapHex(c) < 10
  {
  }

  lemma DigitsAreHex(t: seq<char>)
    requires Digits10(t)
    ensures DigitsBelow(t, 10)
  {
    hide MapHex, IsDigit;
    forall i | 0 <= i < |t| ensures 0 <= MapHex(t[i]) < 10 {
      DigitIsHex(t[i]);
    }
  }

  function Decimal(t: seq<char>): nat
    requires Digits10(t)
  {
    DigitsAreHex(t);
    ValueIn(t, 10)
  }

  /** What strtoul and strtol find at p: an optional sign and digits, behind blanks. Without digits nothing is read. */
  datatype Number = NoNumber | Number(negative: bool, magnitude: nat, end: nat)

  function FindNumber(s: seq<char>, p: nat): Number
    requires p <= |s|
  {
    var q := SkipBlanks(s, p);
    var from := if q < |s| && (s[q] == '+' || s[q] == '-') then q + 1 else q;
    var e := DigitRun(s, from);
    if e == from then NoNumber else Number(q < from && s[q] == '-', Decimal(s[from..e]), e)
  }

  /** A token can be read as a number when it starts in the text. */
  predicate Starts(js: seq<char>, tok: Token) {
    0 <= tok.start <= |js|
  }

  /** __json_uint10, with max for ULONG_MAX: the result and what is stored. The number must end where the token ends. */
  function Uint10(js: seq<char>, tok: Token, max: nat): (r: (int, nat))
    requires Starts(js, tok)
    ensures r.0 == 0 || r.0 == -1
  {
    match FindNumber(js, tok.start)
    case NoNumber => (if tok.end == tok.start then 0 else -1, 0)
    case Number(negative, n, end) =>
      if n > max then (-1, max)
      else (if end == tok.end then 0 else -1, if negative && n > 0 then max + 1 - n else n)
  }

  /** __json_int10, with max for LONG_MAX. */
  function Int10(js: seq<char>, tok: Token, max: nat): (r: (int, int))
    requires Starts(js, tok)
    ensures r.0 == 0 || r.0 == -1
  {
    match FindNumber(js, tok.start)
    case NoNumber => (if tok.end == tok.start then 0 else -1, 0)
    case Number(negative, n, end) =>
      if negative then
        if n > max + 1 then (-1, -(max as int) - 1) else (if end == tok.end then 0 else -1, -(n as int))
      else
        if n > max then (-1, max) else (if end == tok.end then 0 else -1, n)
  }

  // ---------------------------------------------------------------- what the loops do

  /** The text and jsonrpc_result_t. The message is a pointer into the text, kept as a position. */
  datatype Reading = Reading(buf: seq<char>, id: nat, code: int, message: int)

  datatype Outcome = Stuck | Done(ret: int, s: Reading)

  /** ULONG_MAX and LONG_MAX. */
  datatype Limits = Limits(ulong: nat, long: nat)

  /** The loop of __jsonrpc_error_obj, on the tokens from base on. */
  ghost function ErrorLoop(toks: seq<Token>, base: nat, k: nat, s: Reading, max: Limits): (r: Outcome)
    requires base < |toks| && k > 0
    ensures r.Done? ==> r.ret == 0 || r.ret == -1
    decreases toks[base].size * 2 + 1 - k
  {
    if k >= toks[base].size * 2 + 1 then Done(0, s)
    else if base + k >= |toks| then Stuck
    else
      var t := toks[base + k];
      if t.kind != String then Done(-1, s)
      else if !Comparable(s.buf, t, "code") then Stuck
      else if JsonEq(s.buf, t, "code") then
        if base + k + 1 >= |toks| || !Starts(s.buf, toks[base + k + 1]) then Stuck
        else
          var (ret, v) := Int10(s.buf, toks[base + k + 1], max.long);
          if ret != 0 then Done(-1, s.(code := v)) else ErrorLoop(toks, base, k + 2, s.(code := v), max)
      else if !Comparable(s.buf, t, "message") then Stuck
      else if JsonEq(s.buf, t, "message") then
        if base + k + 1 >= |toks| || !(0 <= toks[base + k + 1].end < |s.buf|) then Stuck
        else
          var v := toks[base + k + 1];
          ErrorLoop(toks, base, k + 2, s.(message := v.start, buf := s.buf[v.end := '\0']), max)
      else ErrorLoop(toks, base, k + 1, s, max)
  }

  /** __jsonrpc_error_obj on the token at base. */
  ghost function ErrorObject(toks: seq<Token>, base: nat, s: Reading, max: Limits): (r: Outcome)
    ensures r.Done? ==> r.ret == 0 || r.ret == -1
  {
    if base >= |toks| then Stuck
    else if toks[base].kind != Object then Done(-1, s)
    else ErrorLoop(toks, base, 1, s, max)
  }

  /** The loop of __jsonrpc_result, over the first n tokens. */
  ghost function IdLoop(toks: seq<Token>, n: nat, i: nat, s: Reading, max: Limits): Outcome
    requires n <= |toks|
    decreases n - i
  {
    if i >= n then Done(0, s)
    else if !Comparable(s.buf, toks[i], "error") then Stuck
    else if JsonEq(s.buf, toks[i], "error") then
      match ErrorObject(toks, i + 1, s, max)
      case Stuck => Stuck
      case Done(ret, s') => if ret < 0 then Done(ret, s') else IdLoop(toks, n, i + 2, s', max)
    else if !Comparable(s.buf, toks[i], "id") then Stuck
    else if JsonEq(s.buf, toks[i], "id") then
      if i + 1 >= |toks| || !Starts(s.buf, toks[i + 1]) then Stuck
      else
        var (ret, v) := Uint10(s.buf, toks[i + 1], max.ulong);
        if ret < 0 then Done(ret, s.(id := v)) else IdLoop(toks, n, i + 2, s.(id := v), max)
    else IdLoop(toks, n, i + 1, s, max)
  }

  function UpToNul(s: seq<char>): (t: CString)
    ensures |t| <= |s|
    ensures '\0' !in s ==> t == s
  {
    if s == [] || s[0] == '\0' then [] else [s[0]] + UpToNul(s[1..])
  }

  /** What fromstring256 returns and leaves. */
  function Parsed(hex: seq<char>, was: nat): (r: (int, nat))
    ensures r.0 == 0 || r.0 == -1
  {
    if Parses(hex) then (0, ParsedValue(hex)) else (-1, if 1 <= |Strip(hex)| <= 64 then 0 else was)
  }

  /** __json_uint256_hex copies the token into 68 characters, of which the last must stay NUL. */
  predicate FitsBuffer(js: seq<char>, tok: Token) {
    Within(js, tok) && tok.end - tok.start < 68
  }

  datatype Value = NoValue | Value(ret: int, value: nat)

  /** The last loop of jsonrpc_decode_hexencoded. */
  ghost function ValueLoop(js: seq<char>, toks: seq<Token>, n: nat, i: nat, v: nat): Value
    requires n <= |toks|
    decreases n - i
  {
    if i >= n then Value(0, v)
    else if !Comparable(js, toks[i], "result") then NoValue
    else if JsonEq(js, toks[i], "result") then
      if i + 1 >= |toks| || !FitsBuffer(js, toks[i + 1]) then NoValue
      else
        var (ret, w) := Parsed(UpToNul(Slice(js, toks[i + 1])), v);
        if ret < 0 then Value(ret, w) else ValueLoop(js, toks, n, i + 2, w)
    else ValueLoop(js, toks, n, i + 1, v)
  }

  // ---------------------------------------------------------------- the code

  /** jsonrpc_result_t. */
  class RpcResult {
    var id: nat
    var code: int
    var message: int

    constructor (id: nat, code: int, message: int)
      ensures this.id == id && this.code == code && this.message == message
    {
      this.id, this.code, this.message := id, code, message;
    }

    ghost function View(buf: array<char>): Reading
      reads this, buf
    {
      Reading(buf[..], id, code, message)
    }
  }

  /** __jsonrpc_error_obj. */
  method ReadErrorObject(buf: array<char>, toks: array<Token>, base: nat, out: RpcResult, max: Limits)
    returns (ret: int)
    requires ErrorObject(toks[..], base, out.View(buf), max) != Stuck
    modifies buf, out
    ensures Done(ret, out.View(buf)) == old(ErrorObject(toks[..], base, out.View(buf), max))
  {
    hide Int10;
    ghost var ts, s0 := toks[..], out.View(buf);
    if toks[base].kind != Object {
      return -1;
    }
    var k := 1;
    while k < toks[base].size * 2 + 1
      invariant k > 0
      invariant ErrorLoop(ts, base, k, out.View(buf), max) == ErrorLoop(ts, base, 1, s0, max)
      decreases toks[base].size * 2 + 1 - k
    {
      var t := toks[base + k];
      if t.kind != String {
        return -1;
      }
      if JsonEq(buf[..], t, "code") {
        var (r, v) := Int10(buf[..], toks[base + k + 1], max.long);
        out.code := v;
        if r != 0 {
          return -1;
        }
        k := k + 1;
      } else if JsonEq(buf[..], t, "message") {
        out.message := toks[base + k + 1].start;
        buf[toks[base + k + 1].end] := '\0';
        k := k + 1;
      }
      k := k + 1;
    }
    return 0;
  }

  /** __jsonrpc_result. */
  method ReadResult(buf: array<char>, toks: array<Token>, ntoks: nat, out: RpcResult, max: Limits) returns (ret: int)
    requires 0 < ntoks <= toks.Length
    requires toks[0].kind == Object ==> IdLoop(toks[..], ntoks, 1, out.View(buf), max) != Stuck
    modifies buf, out
    ensures old(toks[0]).kind != Object ==> ret == -1 && out.View(buf) == old(out.View(buf))
    ensures old(toks[0]).kind == Object ==>
              Done(ret, out.View(buf)) == old(IdLoop(toks[..], ntoks, 1, out.View(buf), max))
  {
    hide Uint10, ErrorObject;
    ret := 0;
    if toks[0].kind != Object {
      return -1;
    }
    ghost var ts, s0 := toks[..], out.View(buf);
    var i := 1;
    while i < ntoks
      invariant ret == 0
      invariant IdLoop(ts, ntoks, i, out.View(buf), max) == IdLoop(ts, ntoks, 1, s0, max)
      decreases ntoks - i
    {
      assert toks[i] == ts[i];
      if JsonEq(buf[..], toks[i], "error") {
        ret := ReadErrorObject(buf, toks, i + 1, out, max);
        if ret < 0 {
          break;
        }
        i := i + 1;
      } else if JsonEq(buf[..], toks[i], "id") {
        assert toks[i + 1] == ts[i + 1];
        var (r, v) := Uint10(buf[..], toks[i + 1], max.ulong);
        ret, out.id := r, v;
        if ret < 0 {
          break;
        }
        i := i + 1;
      }
      i := i + 1;
    }
  }

  /** __json_uint256_hex: the token is copied to a buffer of NULs first. */
  method Uint256Hex(js: seq<char>, tok: Token, out: U256) returns (ret: int)
    requires FitsBuffer(js, tok) && out.Valid()
    modifies out.Repr()
    ensures (ret, out.Value()) == Parsed(UpToNul(Slice(js, tok)), old(out.Value()))
  {
    hide Parses, ParsedValue, U128.Value, U256.Value;
    var tmp := UpToNul(js[tok.start..tok.end]);
    ret := FromString256(tmp, out);
  }

  method ReadValues(js: seq<char>, toks: array<Token>, r: nat, out: U256) returns (ret: int)
    requires r <= toks.Length && out.Valid() && ValueLoop(js, toks[..], r, 1, out.Value()) != NoValue
    modifies out.Repr()
    ensures Value(ret, out.Value()) == ValueLoop(js, toks[..], r, 1, old(out.Value()))
  {
    hide U128.Value, U256.Value, Parsed;
    ret := 0;
    ghost var ts, v0 := toks[..], out.Value();
    var i := 1;
    while i < r
      invariant ret == 0
      invariant ValueLoop(js, ts, r, i, out.Value()) == ValueLoop(js, ts, r, 1, v0)
      decreases r - i
    {
      assert toks[i] == ts[i];
      if JsonEq(js, toks[i], "result") {
        assert toks[i + 1] == ts[i + 1];
        ret := Uint256Hex(js, toks[i + 1], out);
        if ret < 0 {
          break;
        }
        i := i + 1;
      }
      i := i + 1;
    }
  }

  // ---------------------------------------------------------------- the decoder

  const TOKENS: nat := 64

  lemma {:induction false} RunStaysInText(js: seq<char>, cap: nat, s: State)
    requires Linked(s) && s.pos <= |js|
    ensures Run(js, cap, s).0.pos <= |js|
    decreases |js| - s.pos
  {
    if !AtEnd(js, s.pos) && Step(js, cap, s).Next? {
      StepStaysInText(js, cap, s);
      RunStaysInText(js, cap, Step(js, cap, s).s);
    }
  }

  lemma StepStaysInText(js: seq<char>, cap: nat, s: State)
    requires Linked(s) && s.pos <= |js| && !AtEnd(js, s.pos) && Step(js, cap, s).Next?
    ensures Step(js, cap, s).s.pos <= |js|
  {
  }

  /** Every token of a text that parses lies within the text, so that comparing one never goes wrong. */
  lemma ParsedWithin(js: seq<char>, cap: nat)
    requires Run(js, cap, Init).1 >= 0
    ensures var toks := Run(js, cap, Init).0.toks;
            |toks| == Run(js, cap, Init).1 && forall i :: 0 <= i < |toks| ==> Within(js, toks[i])
  {
    hide Run;
    JsmnInvariants.SuccessIsLaminar(js, cap);
    RunStaysInText(js, cap, Init);
    var f := Run(js, cap, Init).0;
    forall i | 0 <= i < |f.toks| ensures Within(js, f.toks[i]) {
      assert JsmnInvariants.TokenOk(f.toks[i], f.pos);
    }
  }

  /** The result, or Crash for a run that is stuck or fails an assertion. */
  datatype Decoded = Crash | Decoded(ret: int, s: Reading, value: nat)

  /** The token array after the parse: what follows the tokens of the text is what the stack held before. */
  ghost function TokenArray(js: seq<char>, stack: seq<Token>): (toks: seq<Token>)
    requires |stack| == TOKENS && Run(js, TOKENS, Init).1 >= 0
    ensures |toks| >= Run(js, TOKENS, Init).1
  {
    hide Run;
    ParsedWithin(js, TOKENS);
    var f := Run(js, TOKENS, Init).0;
    f.toks + if |f.toks| <= TOKENS then stack[|f.toks|..] else []
  }

  ghost function DecodeReply(stack: seq<Token>, s: Reading, value: nat, max: Limits): Decoded
    requires |stack| == TOKENS
  {
    hide Run;
    var r := Run(s.buf, TOKENS, Init).1;
    if r < 0 then Decoded(-1, s, value)
    else if r == 0 then Crash
    else
      var toks := TokenArray(s.buf, stack);
      if toks[0].kind != Object then Decoded(-1, s, value)
      else
        match IdLoop(toks, r, 1, s, max)
        case Stuck => Crash
        case Done(ret, s') =>
          if ret < 0 then Decoded(-1, s', value)
          else
            match ValueLoop(s'.buf, toks, r, 1, value)
            case NoValue => Crash
            case Value(ret', value') => Decoded(ret', s', value')
  }

  /** jsonrpc_decode_hexencoded. stack is what its token array holds before it is filled. */
  method DecodeHexEncoded(buf: array<char>, stack: seq<Token>, result: RpcResult, out: U256, max: Limits)
    returns (ret: int)
    requires out.Valid() && |stack| == TOKENS
    requires DecodeReply(stack, result.View(buf), out.Value(), max) != Crash
    modifies buf, result, out.Repr()
    ensures Decoded(ret, result.View(buf), out.Value()) ==
            old(DecodeReply(stack, result.View(buf), out.Value(), max))
  {
    hide U128.Value, U256.Value, Run, IdLoop, ValueLoop;
    var js := buf[..];
    var t := new Token[TOKENS](i requires 0 <= i < TOKENS => stack[i]);
    assert t[..] == stack;
    var p := new Parser();
    ghost var start := p.View(t);
    assert start == Init;
    var r := p.Parse(js, t, TOKENS);
    if r < 0 {
      return -1;
    }
    ParsedWithin(js, TOKENS);
    assert t[..] == t[..r] + t[r..];
    assert t[..] == TokenArray(js, stack);
    ret := ReadResult(buf, t, r, result, max);
    if ret < 0 {
      return -1;
    }
    if r < 1 || t[0].kind != Object {
      return -1;
    }
    ret := ReadValues(buf[..], t, r, out);
  }
}
