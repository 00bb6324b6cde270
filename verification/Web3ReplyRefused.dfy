/** Texts that are no reply at all: the decoder returns -1 and leaves everything as it was (eth/web3_jsonp.c). */
module Web3ReplyRefused {
  import opened Common
  import opened Jsmn
  import opened JsmnInvariants
  import opened JsmnStack
  import opened JsmnTree
  import opened JsmnLexis
  import opened Web3Reply
  import opened Web3Nodes

  lemma ParseFailed(stack: seq<Token>, s: Reading, value: nat, max: Limits)
    requires |stack| == TOKENS && Run(s.buf, TOKENS, Init).1 < 0
    ensures DecodeReply(stack, s, value, max) == Decoded(-1, s, value)
  {
    hide Run, IdLoop, ValueLoop;
  }

  lemma FirstIsNoObject(stack: seq<Token>, s: Reading, value: nat, max: Limits)
    requires |stack| == TOKENS && Run(s.buf, TOKENS, Init).1 > 0
    requires |Run(s.buf, TOKENS, Init).0.toks| > 0 && Run(s.buf, TOKENS, Init).0.toks[0].kind != Object
    ensures DecodeReply(stack, s, value, max) == Decoded(-1, s, value)
  {
    hide Run, IdLoop, ValueLoop;
    ParsedWithin(s.buf, TOKENS);
  }

  /** A text, up to its first NUL, that is not made of lexemes with balanced brackets and at most 64 tokens. */
  lemma UnreadableRefused(text: seq<char>, tail: seq<char>, stack: seq<Token>, s: Reading, value: nat, max: Limits)
    requires '\0' !in text && (tail != [] ==> tail[0] == '\0') && s.buf == text + tail && |stack| == 64
    requires !exists ls :: Reads(text, ls) && |KindsOf(ls)| <= 64
    ensures DecodeReply(stack, s, value, max) == Decoded(-1, s, value)
  {
    hide Run, DecodeReply, Reads, KindsOf;
    AcceptedIff(text, tail, 64);
    ParseFailed(stack, s, value, max);
  }

  /** A text whose first token is none of a brace. */
  lemma NoObjectRefused(text: seq<char>, tail: seq<char>, ls: seq<Lexeme>, stack: seq<Token>, s: Reading, value: nat,
                        max: Limits)
    requires '\0' !in text && (tail != [] ==> tail[0] == '\0') && s.buf == text + tail && |stack| == 64
    requires Reads(text, ls) && 0 < |KindsOf(ls)| && KindsOf(ls)[0] != Object
    ensures DecodeReply(stack, s, value, max) == Decoded(-1, s, value)
  {
    hide Run, DecodeReply, KindsOf, Lexed, Spelling, Balanced, BracketsOf;
    if |KindsOf(ls)| <= 64 {
      AcceptedIff(text, tail, 64);
      WholeSpelled(text, tail, ls);
      KindsRead(s.buf, 64, Init, ls);
      RunResult(s.buf, 64, Init);
      assert TokenKinds(Run(s.buf, 64, Init).0.toks) == KindsOf(ls);
      FirstIsNoObject(stack, s, value, max);
    } else {
      TooManyTokens(text, tail, ls);
      ParseFailed(stack, s, value, max);
    }
  }

  lemma TooManyTokens(text: seq<char>, tail: seq<char>, ls: seq<Lexeme>)
    requires '\0' !in text && (tail != [] ==> tail[0] == '\0') && Reads(text, ls) && |KindsOf(ls)| > 64
    ensures Run(text + tail, 64, Init).1 < 0
  {
    hide Run, Reads, KindsOf;
    AcceptedIff(text, tail, 64);
  }

  /** A text without any token fails the assertion. */
  lemma NothingAsserted(text: seq<char>, tail: seq<char>, ls: seq<Lexeme>, stack: seq<Token>, s: Reading, value: nat,
                        max: Limits)
    requires '\0' !in text && (tail != [] ==> tail[0] == '\0') && s.buf == text + tail && |stack| == 64
    requires Reads(text, ls) && KindsOf(ls) == []
    ensures DecodeReply(stack, s, value, max) == Crash
  {
    hide Run, Reads, KindsOf, IdLoop, ValueLoop;
    AcceptedIff(text, tail, 64);
  }

  /** The text that breaks off behind its first brace. */
  lemma TruncatedRefused(stack: seq<Token>, s: Reading, value: nat, max: Limits)
    requires s.buf == "{" && |stack| == 64
    ensures DecodeReply(stack, s, value, max) == Decoded(-1, s, value)
  {
    hide DecodeReply;
    var begun := State(1, 0, [Token(Object, 0, -1, 0)]);
    assert Step("{", 64, Init) == Next(begun);
    assert Run("{", 64, begun).1 < 0;
    ParseFailed(stack, s, value, max);
  }

  /** A printed value of more than 64 nodes, of whatever kind. */
  lemma PrintedTooLong(before: seq<char>, v: Json, after: seq<char>, stack: seq<Token>, s: Reading, value: nat,
                       max: Limits)
    requires WellFormed(v) && Spaces(before) && Spaces(after) && s.buf == before + Render(v) + after
    requires |Nodes(v)| > 64 && |stack| == 64
    ensures DecodeReply(stack, s, value, max) == Decoded(-1, s, value)
  {
    hide Run, DecodeReply, Render, Tokens, WellFormed, Spaces, Nodes;
    TokenCount(v, |before|);
    ParseInvertsPrint(before, v, after, |Nodes(v)|);
    RunBudget(s.buf, |Nodes(v)|, 64, Init);
    ParseFailed(stack, s, value, max);
  }

  /** A printed array, string, number or literal. */
  lemma PrintedNoObject(before: seq<char>, v: Json, after: seq<char>, stack: seq<Token>, s: Reading, value: nat,
                        max: Limits)
    requires WellFormed(v) && Spaces(before) && Spaces(after) && s.buf == before + Render(v) + after
    requires !v.Record? && |stack| == 64
    ensures DecodeReply(stack, s, value, max) == Decoded(-1, s, value)
  {
    hide Run, DecodeReply, Render, WellFormed, Spaces;
    if |Nodes(v)| > 64 {
      PrintedTooLong(before, v, after, stack, s, value, max);
    } else {
      TokenCount(v, |before|);
      ParseInvertsPrint(before, v, after, 64);
      FirstIsNoObject(stack, s, value, max);
    }
  }
}
