/** Replies that the decoder does not read right (eth/web3_jsonp.c). */
module Web3ReplyMisread {
  import opened Common
  import opened Jsmn
  import opened JsmnTree
  import opened HexToBin
  import opened Uint256Text
  import opened Web3Reply
  import opened Web3Nodes
  import opened Web3ReplyTree

  /** A member written without whitespace. */
  function Pair(key: seq<char>, v: Json, rest: Members): Members {
    Member(key, [], [], v, [], [], rest)
  }

  lemma DigitReads(c: char, max: Limits)
    requires IsDigit(c) && c as int - '0' as int <= max.ulong
    ensures ReadsUint(Bare([c]), max) && UintOf(Bare([c]), max) == c as int - '0' as int
  {
    hide IsDigit;
    DigitIsHex(c);
    DigitsAreNumeral([c]);
    UintTextIff([c], max.ulong);
    OneDigit(c);
  }

  lemma OneDigit(c: char)
    requires IsDigit(c)
    ensures Digits10([c]) && Decimal([c]) == c as int - '0' as int
  {
    var t := [c];
    assert t[..|t| - 1] == [] && ValueIn([], 10) == 0;
  }

  lemma HexDigitReads(c: char)
    requires MapHex(c) >= 0
    ensures ReadsHex(Quoted(['0', 'x', c])) && HexOf(Quoted(['0', 'x', c])) == MapHex(c)
  {
    hide Parses, ParsedValue;
    assert [c][..0] == [];
    assert AllHex([c]) && HexValue([c]) == MapHex(c);
    HexTextParses([c]);
    assert "0x" + [c] == ['0', 'x', c];
  }

  /** An id of 1, a result of 5, and a deeper id of 2. */
  function DeeperId(): Members {
    Pair("id", Bare("1"), Pair("result", Quoted("0x5"),
         Pair("x", Record([], Pair("id", Bare("2"), NoMember)), NoMember)))
  }

  /** Of several ids and results the last are decoded. */
  lemma LastDecoded(before: seq<char>, members: Members, after: seq<char>, stack: seq<Token>, s: Reading, value: nat,
                    max: Limits, ids: seq<Json>, id: Json, results: seq<Json>, result: Json)
    requires IsReply(before, [], members, after, s.buf) && |stack| == TOKENS && Accepted(MemberNodes(members), max)
    requires Followers(MemberNodes(members), "id") == ids + [id]
    requires Followers(MemberNodes(members), "result") == results + [result] && ReadsHex(result)
    ensures DecodeReply(stack, s, value, max).Decoded?
    ensures var d := DecodeReply(stack, s, value, max);
            d.ret == 0 && d.s.id == UintOf(id, max) && d.value == HexOf(result)
  {
    hide IsReply, DecodeReply, MemberNodes, MemberTokens, Accepted, Regular, UintOf, ReadsHex, HexOf, ReadFrom,
      Followers;
    var ns, ts := MemberNodes(members), MemberTokens(members, |before| + 1 + 0);
    AcceptedPasses(ns, ts, s, max);
    ReplyDecodes(before, [], members, after, stack, s, value, max);
    ReadFromLast(ns, ts, 0, s, max);
    assert ns[0..] == ns;
  }

  predicate PlainBody(b: seq<char>) {
    '\\' !in b && '\"' !in b && '\0' !in b
  }

  lemma {:induction false} PlainIsBody(b: seq<char>)
    requires PlainBody(b)
    ensures StringBody(b)
    decreases |b|
  {
    if b != [] {
      PlainIsBody(b[1..]);
    }
  }

  /** A string value of a name, in front of keys that read as its kind. */
  function NamesAsValues(): Members {
    Pair("id", Bare("1"), Pair("result", Quoted("0x5"), Pair("x", Quoted("id"), Pair("7", Quoted("result"),
         Pair("0x9", Bare("null"), NoMember)))))
  }

  lemma NothingSums(max: Limits)
    ensures Sums(NoMember, 0, [], [], None, None, max)
  {
  }

  lemma LeafNodes(key: seq<char>, v: Json, rest: Members)
    requires IsLeaf(v)
    ensures MemberNodes(Pair(key, v, rest)) == [Quoted(key), v] + MemberNodes(rest)
  {
    assert Nodes(v) == [v];
  }

  lemma PlainLeaf(key: seq<char>, v: Json, rest: Members)
    requires PlainBody(key) && WellFormedMembers(rest) && IsLeaf(v)
    requires if v.Quoted? then PlainBody(v.body) else BareText(v.text)
    ensures WellFormedMembers(Pair(key, v, rest))
    ensures forall name :: Own(Pair(key, v, rest), name) ==
                           if Own(rest, name).Some? then Own(rest, name) else if key == name then Some(v) else None
  {
    hide StringBody;
    PlainIsBody(key);
    if v.Quoted? {
      PlainIsBody(v.body);
    }
  }

  /** What a member with a leaf puts in front of the nodes behind it. */
  lemma PairFollowers(key: seq<char>, v: Json, ns: seq<Json>, name: seq<char>)
    ensures Followers([Quoted(key), v] + ns, name) ==
            (if key == name then [v] else []) + ((if v == Quoted(name) && ns != [] then [ns[0]] else [])
                                                 + Followers(ns, name))
  {
    var ms := [Quoted(key), v] + ns;
    assert ms[1..] == [v] + ns && ms[1..][1..] == ns;
  }

  lemma PairAccepted(key: seq<char>, v: Json, ns: seq<Json>, max: Limits)
    requires Accepted(ns, max) && key != "error" && v != Quoted("error")
    requires (key == "id" ==> ReadsUint(v, max)) && (key == "result" ==> ReadsHex(v))
    requires v == Quoted("id") ==> ns != [] && ReadsUint(ns[0], max)
    requires v == Quoted("result") ==> ns != [] && ReadsHex(ns[0])
    ensures Accepted([Quoted(key), v] + ns, max)
  {
    hide ReadsUint, ReadsHex, ErrorMembers;
    var ms := [Quoted(key), v] + ns;
    forall k | 0 <= k < |ms| ensures Fine(ms, k, max) && FineResult(ms, k) {
      if k >= 2 {
        assert Fine(ns, k - 2, max) && FineResult(ns, k - 2);
      }
    }
  }

  /** An accepted reply of n nodes, the nodes behind its names, and its own id and result. */
  ghost predicate Sums(m: Members, n: nat, ids: seq<Json>, results: seq<Json>, id: Option<Json>, result: Option<Json>,
                       max: Limits) {
    && WellFormedMembers(m) && Accepted(MemberNodes(m), max) && |MemberNodes(m)| == n
    && Followers(MemberNodes(m), "id") == ids && Followers(MemberNodes(m), "result") == results
    && Own(m, "id") == id && Own(m, "result") == result
  }

  function OrElse(o: Option<Json>, v: Json): Option<Json> {
    if o.Some? then o else Some(v)
  }

  /** A member with a leaf, in front of others. */
  lemma PairSums(key: seq<char>, v: Json, rest: Members, n: nat, ids: seq<Json>, results: seq<Json>, id: Option<Json>,
                 result: Option<Json>, max: Limits)
    requires Sums(rest, n, ids, results, id, result, max)
    requires IsLeaf(v) && key != "error" && v != Quoted("error")
    requires (key == "id" ==> ReadsUint(v, max)) && (key == "result" ==> ReadsHex(v))
    requires v == Quoted("id") ==> rest.Member? && ReadsUint(Quoted(rest.key), max)
    requires v == Quoted("result") ==> rest.Member? && ReadsHex(Quoted(rest.key))
    requires PlainBody(key) && if v.Quoted? then PlainBody(v.body) else BareText(v.text)
    ensures Sums(Pair(key, v, rest), n + 2,
                 (if key == "id" then [v] else []) + ((if v == Quoted("id") then [Quoted(rest.key)] else []) + ids),
                 (if key == "result" then [v] else []) +
                 ((if v == Quoted("result") then [Quoted(rest.key)] else []) + results),
                 if key == "id" then OrElse(id, v) else id, if key == "result" then OrElse(result, v) else result, max)
  {
    hide ReadsUint, ReadsHex, Accepted, StringBody, Followers, BareText;
    var ns := MemberNodes(rest);
    LeafNodes(key, v, rest);
    PlainLeaf(key, v, rest);
    PairAccepted(key, v, ns, max);
    PairFollowers(key, v, ns, "id");
    PairFollowers(key, v, ns, "result");
  }

  /** A plain member adds nothing. */
  lemma PlainSums(key: seq<char>, v: Json, rest: Members, n: nat, ids: seq<Json>, results: seq<Json>, id: Option<Json>,
                  result: Option<Json>, max: Limits)
    requires Sums(rest, n, ids, results, id, result, max) && v.Bare? && BareText(v.text)
    requires PlainBody(key) && !IsName(Quoted(key))
    ensures Sums(Pair(key, v, rest), n + 2, ids, results, id, result, max)
  {
    hide Sums, BareText, PlainBody, ReadsUint, ReadsHex;
    PairSums(key, v, rest, n, ids, results, id, result, max);
    assert [] + ([] + ids) == ids && [] + ([] + results) == results;
  }

  lemma IdSums(v: Json, rest: Members, n: nat, ids: seq<Json>, results: seq<Json>, result: Option<Json>, max: Limits)
    requires Sums(rest, n, ids, results, None, result, max) && v.Bare? && BareText(v.text) && ReadsUint(v, max)
    ensures Sums(Pair("id", v, rest), n + 2, [v] + ids, results, Some(v), result, max)
  {
    hide Sums, BareText, ReadsUint, ReadsHex;
    PairSums("id", v, rest, n, ids, results, None, result, max);
    assert [v] + ([] + ids) == [v] + ids && [] + ([] + results) == results;
  }

  lemma ResultSums(v: Json, rest: Members, n: nat, ids: seq<Json>, results: seq<Json>, id: Option<Json>, max: Limits)
    requires Sums(rest, n, ids, results, id, None, max) && v.Quoted? && PlainBody(v.body) && ReadsHex(v)
    ensures Sums(Pair("result", v, rest), n + 2, ids, [v] + results, id, Some(v), max)
  {
    hide Sums, BareText, ReadsUint, ReadsHex;
    if IsName(v) {
      NamesReadAsNothing(v, max);
    }
    PairSums("result", v, rest, n, ids, results, id, None, max);
    assert [v] + ([] + results) == [v] + results && [] + ([] + ids) == ids;
  }

  /** A value "id" adds the key behind it to the ids, a value "result" to the results. */
  lemma ValueIdSums(key: seq<char>, rest: Members, n: nat, ids: seq<Json>, results: seq<Json>, id: Option<Json>,
                    result: Option<Json>, max: Limits)
    requires Sums(rest, n, ids, results, id, result, max) && PlainBody(key) && !IsName(Quoted(key))
    requires rest.Member? && ReadsUint(Quoted(rest.key), max)
    ensures Sums(Pair(key, Quoted("id"), rest), n + 2, [Quoted(rest.key)] + ids, results, id, result, max)
  {
    hide Sums, BareText, ReadsUint, ReadsHex;
    PairSums(key, Quoted("id"), rest, n, ids, results, id, result, max);
    assert [] + ([Quoted(rest.key)] + ids) == [Quoted(rest.key)] + ids && [] + ([] + results) == results;
  }

  lemma ValueResultSums(key: seq<char>, rest: Members, n: nat, ids: seq<Json>, results: seq<Json>, id: Option<Json>,
                        result: Option<Json>, max: Limits)
    requires Sums(rest, n, ids, results, id, result, max) && PlainBody(key) && !IsName(Quoted(key))
    requires rest.Member? && ReadsHex(Quoted(rest.key))
    ensures Sums(Pair(key, Quoted("result"), rest), n + 2, ids, [Quoted(rest.key)] + results, id, result, max)
  {
    hide Sums, BareText, ReadsUint, ReadsHex;
    PairSums(key, Quoted("result"), rest, n, ids, results, id, result, max);
    assert [] + ([Quoted(rest.key)] + results) == [Quoted(rest.key)] + results && [] + ([] + ids) == ids;
  }

  lemma LastTwoRead(max: Limits)
    ensures Sums(Pair("7", Quoted("result"), Pair("0x9", Bare("null"), NoMember)), 4, [], [Quoted("0x9")] + [], None,
                 None, max)
  {
    hide ReadsUint, ReadsHex, Sums, BareText, PlainBody;
    HexDigitReads('9');
    PlainTexts();
    NothingSums(max);
    PlainSums("0x9", Bare("null"), NoMember, 0, [], [], None, None, max);
    ValueResultSums("7", Pair("0x9", Bare("null"), NoMember), 2, [], [], None, None, max);
  }

  lemma LastThreeRead(rest: Members, max: Limits)
    requires max.ulong >= 7 && rest.Member? && rest.key == "7"
    requires Sums(rest, 4, [], [Quoted("0x9")] + [], None, None, max)
    ensures Sums(Pair("x", Quoted("id"), rest), 6, [Quoted("7")] + [], [Quoted("0x9")] + [], None, None, max)
  {
    hide ReadsUint, ReadsHex, Sums, BareText, PlainBody;
    DigitReads('7', max);
    SameText("7", max);
    PlainTexts();
    ValueIdSums("x", rest, 4, [], [Quoted("0x9")] + [], None, None, max);
  }

  lemma FirstTwoRead(rest: Members, n: nat, ids: seq<Json>, results: seq<Json>, max: Limits)
    requires max.ulong >= 1 && Sums(rest, n, ids, results, None, None, max)
    ensures Sums(Pair("id", Bare("1"), Pair("result", Quoted("0x5"), rest)), n + 4, [Bare("1")] + ids,
                 [Quoted("0x5")] + results, Some(Bare("1")), Some(Quoted("0x5")), max)
  {
    hide ReadsUint, ReadsHex, Sums, BareText, PlainBody;
    DigitReads('1', max);
    HexDigitReads('5');
    PlainTexts();
    ResultSums(Quoted("0x5"), rest, n, ids, results, None, max);
    IdSums(Bare("1"), Pair("result", Quoted("0x5"), rest), n + 2, ids, [Quoted("0x5")] + results, Some(Quoted("0x5")),
           max);
  }

  lemma NamesAsValuesRead(max: Limits)
    requires max.ulong >= 7
    ensures Sums(NamesAsValues(), 10, [Bare("1")] + ([Quoted("7")] + []), [Quoted("0x5")] + ([Quoted("0x9")] + []),
                 Some(Bare("1")), Some(Quoted("0x5")), max)
  {
    hide Sums;
    var fourth := Pair("7", Quoted("result"), Pair("0x9", Bare("null"), NoMember));
    LastTwoRead(max);
    LastThreeRead(fourth, max);
    FirstTwoRead(Pair("x", Quoted("id"), fourth), 6, [Quoted("7")] + [], [Quoted("0x9")] + [], max);
  }

  lemma PlainTexts()
    ensures BareText("null") && BareText("1") && BareText("2")
    ensures PlainBody("x") && PlainBody("7") && PlainBody("0x5") && PlainBody("0x9")
  {
  }

  lemma SameText(t: seq<char>, max: Limits)
    ensures ReadsUint(Quoted(t), max) == ReadsUint(Bare(t), max) && UintOf(Quoted(t), max) == UintOf(Bare(t), max)
  {
  }

  /** {"id":1,"result":"0x5","x":"id","7":"result","0x9":null} is read as result 9 of request 7. */
  lemma NamesAsValuesWin(before: seq<char>, after: seq<char>, stack: seq<Token>, s: Reading, value: nat, max: Limits)
    requires Spaces(before) && Spaces(after) && s.buf == Text(before, [], NamesAsValues(), after)
    requires |stack| == TOKENS && max.ulong >= 7
    ensures Own(NamesAsValues(), "id") == Some(Bare("1")) && Own(NamesAsValues(), "result") == Some(Quoted("0x5"))
    ensures var d := DecodeReply(stack, s, value, max);
            d.Decoded? && d.ret == 0 && d.s.id == 7 && d.value == 9
  {
    hide DecodeReply, Spaces, Text, NamesAsValues, ReadsHex, HexOf, UintOf, ReadsUint, Sums;
    HexDigitReads('9');
    DigitReads('7', max);
    SameText("7", max);
    NamesAsValuesRead(max);
    SumsDecoded(before, NamesAsValues(), after, stack, s, value, max, 10, [Bare("1")], Quoted("7"), [Quoted("0x5")],
                Quoted("0x9"), Some(Bare("1")), Some(Quoted("0x5")));
  }

  lemma SumsDecoded(before: seq<char>, members: Members, after: seq<char>, stack: seq<Token>, s: Reading, value: nat,
                    max: Limits, n: nat, ids: seq<Json>, id: Json, results: seq<Json>, result: Json,
                    ownId: Option<Json>, ownResult: Option<Json>)
    requires Spaces(before) && Spaces(after) && s.buf == Text(before, [], members, after) && |stack| == TOKENS
    requires Sums(members, n, ids + ([id] + []), results + ([result] + []), ownId, ownResult, max)
    requires ReadsHex(result) && n < TOKENS
    ensures Own(members, "id") == ownId && Own(members, "result") == ownResult
    ensures DecodeReply(stack, s, value, max).Decoded?
    ensures var d := DecodeReply(stack, s, value, max);
            d.ret == 0 && d.s.id == UintOf(id, max) && d.value == HexOf(result)
  {
    hide DecodeReply, Text, ReadsHex, HexOf, UintOf, ReadsUint, Followers, Accepted, Own, MemberNodes;
    assert [id] + [] == [id] && [result] + [] == [result];
    LastDecoded(before, members, after, stack, s, value, max, ids, id, results, result);
  }

  /** A last member with an object passes on what is in that. */
  lemma RecordSums(key: seq<char>, inner: Members, n: nat, ids: seq<Json>, results: seq<Json>, id: Option<Json>,
                   result: Option<Json>, max: Limits)
    requires Sums(inner, n, ids, results, id, result, max) && PlainBody(key) && !IsName(Quoted(key))
    ensures Sums(Pair(key, Record([], inner), NoMember), n + 2, ids, results, None, None, max)
  {
    hide Accepted, StringBody, Followers, PlainBody;
    var v, ns := Record([], inner), MemberNodes(inner);
    var m := Pair(key, v, NoMember);
    assert MemberNodes(m) == [Quoted(key), v] + ns;
    PlainIsBody(key);
    assert WellFormed(v) && WellFormedMembers(m);
    assert Own(m, "id") == None && Own(m, "result") == None;
    PairAccepted(key, v, ns, max);
    PairFollowers(key, v, ns, "id");
    PairFollowers(key, v, ns, "result");
    assert [] + ([] + ids) == ids && [] + ([] + results) == results;
  }

  lemma DeeperIdRead(max: Limits)
    requires max.ulong >= 2
    ensures Sums(DeeperId(), 8, [Bare("1")] + ([Bare("2")] + []), [Quoted("0x5")] + [], Some(Bare("1")),
                 Some(Quoted("0x5")), max)
  {
    hide ReadsUint, Sums, BareText, PlainBody;
    var inner := Pair("id", Bare("2"), NoMember);
    PlainTexts();
    DigitReads('2', max);
    NothingSums(max);
    IdSums(Bare("2"), NoMember, 0, [], [], None, max);
    RecordSums("x", inner, 2, [Bare("2")] + [], [], Some(Bare("2")), None, max);
    FirstTwoRead(Pair("x", Record([], inner), NoMember), 4, [Bare("2")] + [], [], max);
  }

  /** {"id":1,"result":"0x5","x":{"id":2}} is read as a reply to request 2. */
  lemma DeeperIdWins(before: seq<char>, after: seq<char>, stack: seq<Token>, s: Reading, value: nat, max: Limits)
    requires Spaces(before) && Spaces(after) && s.buf == Text(before, [], DeeperId(), after)
    requires |stack| == TOKENS && max.ulong >= 2
    ensures Own(DeeperId(), "id") == Some(Bare("1"))
    ensures var d := DecodeReply(stack, s, value, max);
            d.Decoded? && d.ret == 0 && d.s.id == 2 && d.value == 5
  {
    hide DecodeReply, Spaces, Text, DeeperId, ReadsHex, HexOf, UintOf, ReadsUint, Sums;
    HexDigitReads('5');
    DigitReads('2', max);
    DeeperIdRead(max);
    assert [] + ([Quoted("0x5")] + []) == [Quoted("0x5")] + [];
    SumsDecoded(before, DeeperId(), after, stack, s, value, max, 8, [Bare("1")], Bare("2"), [], Quoted("0x5"),
                Some(Bare("1")), Some(Quoted("0x5")));
  }

  /** {"x":"id"}: behind the last token stands what the stack held before. */
  function LastName(): Members {
    Pair("x", Quoted("id"), NoMember)
  }

  /** The same text is accepted or refused, as the memory behind its tokens happens to be. */
  lemma LastNameReadsStack(after: seq<char>, stack: seq<Token>, s: Reading, value: nat, max: Limits)
    requires Spaces(after) && s.buf == Text([], [], LastName(), after) && |stack| == TOKENS
    ensures stack[3] == Token(Primitive, 0, 0, 0) ==>
              DecodeReply(stack, s, value, max) == Decoded(0, s.(id := 0), value)
    ensures stack[3] == Token(Primitive, 0, 1, 0) ==>
              DecodeReply(stack, s, value, max) == Decoded(-1, s.(id := 0), value)
  {
    hide Run, Laid, Kept, TokenArray, MemberTokens, Text, IdLoop, ValueLoop;
    LastNameFormed();
    var js, ts, ns := s.buf, MemberTokens(LastName(), 1), [Quoted("x"), Quoted("id")];
    ReplyLaid([], [], LastName(), after, stack);
    var toks := TokenArray(js, stack);
    StackBehind(js, stack);
    IdSkip(js, toks, ts, ns, 0, s, max);
    TextStarts(after);
    if stack[3].start == 0 {
      StaleNumber(js, toks, ts, ns, s, max);
    }
    var s' := s.(id := 0);
    ValueSkip(js, js, toks, ts, ns, 0, value);
    ValueSkip(js, js, toks, ts, ns, 1, value);
    LoopsEnd(js, toks, 3, s', value, max);
  }

  lemma LastNameFormed()
    ensures WellFormed(Record([], LastName())) && MemberNodes(LastName()) == [Quoted("x"), Quoted("id")]
  {
    PlainIsBody("x");
    PlainIsBody("id");
    LeafNodes("x", Quoted("id"), NoMember);
  }

  lemma TextStarts(after: seq<char>)
    ensures var js := Text([], [], LastName(), after); js != [] && js[0] == '{'
  {
    hide RenderMembers;
    assert Text([], [], LastName(), after) == "{" + (RenderMembers(LastName()) + "}" + after);
  }

  /** What the stack held is still behind the tokens of the text. */
  lemma StackBehind(js: seq<char>, stack: seq<Token>)
    requires |stack| == TOKENS && 0 <= Run(js, TOKENS, Init).1 < TOKENS
    ensures var n := Run(js, TOKENS, Init).1; |TokenArray(js, stack)| == TOKENS && TokenArray(js, stack)[n] == stack[n]
  {
    hide Run;
    ParsedWithin(js, TOKENS);
  }

  lemma StaleNumber(js: seq<char>, toks: seq<Token>, ts: seq<Token>, ns: seq<Json>, s: Reading, max: Limits)
    requires Laid(js, toks, ts, ns) && Kept(js, js, ts) && s.buf == js && js != [] && js[0] == '{'
    requires ns == [Quoted("x"), Quoted("id")] && |toks| == TOKENS && toks[3].start == 0
    ensures IdLoop(toks, 3, 2, s, max) == Done(if toks[3].end == 0 then 0 else -1, s.(id := 0))
  {
    hide Laid, Kept, Comparable, JsonEq, ErrorObject;
    NodeName(js, js, toks, ts, ns, 1, "id");
    NodeName(js, js, toks, ts, ns, 1, "error");
    Characters('{');
    BracketIsNoNumber(js, 0);
  }
}
