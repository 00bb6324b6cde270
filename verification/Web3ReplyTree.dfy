/** What the decoder makes of a printed reply, whatever its whitespace, its order and its depth, and when that is what
    the reply says (eth/web3_jsonp.c). */
module Web3ReplyTree {
  import opened Common
  import opened Jsmn
  import opened JsmnTree
  import opened HexToBin
  import opened Uint256Text
  import opened Web3Reply
  import opened Web3Nodes

  // ---------------------------------------------------------------- what a node can be read as

  predicate ReadsUint(v: Json, max: Limits) {
    UintText(TextOf(v), max.ulong).0 == 0
  }

  function UintOf(v: Json, max: Limits): nat {
    UintText(TextOf(v), max.ulong).1
  }

  predicate ReadsInt(v: Json, max: Limits) {
    IntText(TextOf(v), max.long).0 == 0
  }

  function IntOf(v: Json, max: Limits): int {
    IntText(TextOf(v), max.long).1
  }

  predicate ReadsHex(v: Json) {
    Parses(TextOf(v))
  }

  function HexOf(v: Json): nat
    requires ReadsHex(v)
  {
    ParsedValue(TextOf(v))
  }

  predicate IsName(v: Json) {
    v == Quoted("id") || v == Quoted("error") || v == Quoted("result")
  }

  // ---------------------------------------------------------------- error objects

  /** A member that the loop over an error object passes. */
  predicate ErrorMember(key: seq<char>, v: Json, max: Limits) {
    if key == "code" then ReadsInt(v, max)
    else if key == "message" then IsLeaf(v)
    else v.Quoted? && v.body != "code" && v.body != "message"
  }

  /** A member that stops it. */
  predicate ErrorFault(key: seq<char>, v: Json, max: Limits) {
    if key == "code" then !ReadsInt(v, max) else key != "message" && !v.Quoted?
  }

  /** An error object the loop passes. */
  predicate ErrorMembers(members: Members, max: Limits) {
    match members
    case NoMember => true
    case Member(key, _, _, v, _, _, rest) => ErrorMember(key, v, max) && ErrorMembers(rest, max)
  }

  /** An error object in which keys stay keys up to the first fault: no message is an array or an object, and no other
      value is the string "code" or "message". */
  predicate ErrorRegular(members: Members, max: Limits) {
    match members
    case NoMember => true
    case Member(key, _, _, v, _, _, rest) =>
      ErrorFault(key, v, max) || (ErrorMember(key, v, max) && ErrorRegular(rest, max))
  }

  /** What the loop returns and leaves, when the members have the tokens from j on: the last code, the last message by
      its position, and a NUL behind every message. */
  function ErrorRead(members: Members, ts: seq<Token>, j: nat, s: Reading, max: Limits): (r: (int, Reading))
    ensures r.0 == 0 || r.0 == -1
  {
    match members
    case NoMember => (0, s)
    case Member(key, _, _, v, _, _, rest) =>
      if ErrorFault(key, v, max) then (-1, if key == "code" then s.(code := IntOf(v, max)) else s)
      else ErrorRead(rest, ts, j + 2, ErrorStep(key, v, ts, j, s, max), max)
  }

  function ErrorStep(key: seq<char>, v: Json, ts: seq<Token>, j: nat, s: Reading, max: Limits): Reading {
    if key == "code" then s.(code := IntOf(v, max))
    else if key == "message" && j + 1 < |ts| then
      s.(message := ts[j + 1].start, buf := Ended(s.buf, ts[j + 1].end))
    else s
  }

  // ---------------------------------------------------------------- the reading of a reply

  /** Every name up to the first fault is followed by something the reply itself holds, and every error object on the
      way is regular. */
  predicate Regular(ns: seq<Json>, k: nat, max: Limits)
    decreases |ns| - k
  {
    k >= |ns| ||
    if !IsName(ns[k]) then Regular(ns, k + 1, max)
    else k + 1 < |ns| && (Fault(ns, k, max) || (Fine(ns, k, max) && Regular(ns, k + 1, max)))
  }

  /** Nothing stops the first loop at node k. */
  predicate Fine(ns: seq<Json>, k: nat, max: Limits)
    requires k < |ns|
  {
    (ns[k] == Quoted("id") ==> k + 1 < |ns| && ReadsUint(ns[k + 1], max)) &&
    (ns[k] == Quoted("error") ==> k + 1 < |ns| && ns[k + 1].Record? && ErrorMembers(ns[k + 1].members, max))
  }

  predicate Fault(ns: seq<Json>, k: nat, max: Limits)
    requires k + 1 < |ns|
  {
    (ns[k] == Quoted("id") && !ReadsUint(ns[k + 1], max)) ||
    (ns[k] == Quoted("error") &&
     (!ns[k + 1].Record? || (ErrorRegular(ns[k + 1].members, max) && !ErrorMembers(ns[k + 1].members, max))))
  }

  /** Nothing stops the last loop at node k. */
  predicate FineResult(ns: seq<Json>, k: nat)
    requires k < |ns|
  {
    ns[k] == Quoted("result") ==> k + 1 < |ns| && ReadsHex(ns[k + 1])
  }

  /** Wherever a name stands, as a key or as a value and at any depth, something of its kind is behind it. */
  predicate Accepted(ns: seq<Json>, max: Limits) {
    forall k :: 0 <= k < |ns| ==> Fine(ns, k, max) && FineResult(ns, k)
  }

  /** The first loop over the nodes from k on. */
  function ReadFrom(ns: seq<Json>, ts: seq<Token>, k: nat, s: Reading, max: Limits): (r: (int, Reading))
    ensures r.0 == 0 || r.0 == -1
    decreases |ns| - k
  {
    if k + 1 >= |ns| then (0, s)
    else if ns[k] == Quoted("error") then
      if !ns[k + 1].Record? then (-1, s)
      else
        var (ret, s') := ErrorRead(ns[k + 1].members, ts, k + 2, s, max);
        if ret < 0 then (ret, s') else ReadFrom(ns, ts, k + 1, s', max)
    else if ns[k] == Quoted("id") then
      var s' := s.(id := UintOf(ns[k + 1], max));
      if ReadsUint(ns[k + 1], max) then ReadFrom(ns, ts, k + 1, s', max) else (-1, s')
    else ReadFrom(ns, ts, k + 1, s, max)
  }

  /** The nodes that stand behind a name, in the order of the text. */
  function Followers(ns: seq<Json>, name: seq<char>): (vs: seq<Json>) {
    if |ns| < 2 then []
    else (if ns[0] == Quoted(name) then [ns[1]] else []) + Followers(ns[1..], name)
  }

  /** What is left in the id when these have been read one after the other. */
  function LastUint(vs: seq<Json>, was: nat, max: Limits): nat {
    if vs == [] then was else UintOf(vs[|vs| - 1], max)
  }

  function LastHex(vs: seq<Json>, was: nat): nat {
    if vs != [] && ReadsHex(vs[|vs| - 1]) then HexOf(vs[|vs| - 1]) else was
  }

  /** The codes of an error object, and of several. */
  function Codes(members: Members, max: Limits): seq<int> {
    match members
    case NoMember => []
    case Member(key, _, _, v, _, _, rest) => (if key == "code" then [IntOf(v, max)] else []) + Codes(rest, max)
  }

  function AllCodes(vs: seq<Json>, max: Limits): seq<int> {
    if vs == [] then []
    else (if vs[0].Record? then Codes(vs[0].members, max) else []) + AllCodes(vs[1..], max)
  }

  function LastInt(xs: seq<int>, was: int): int {
    if xs == [] then was else xs[|xs| - 1]
  }

  // ---------------------------------------------------------------- the tokens of a reply in the token array

  /** The tokens of the nodes stand in the array behind one more. */
  ghost predicate Laid(js: seq<char>, toks: seq<Token>, ts: seq<Token>, ns: seq<Json>) {
    Printed(js, ts, ns) && Apart(ts) && Nested(ns) && 1 + |ts| <= |toks| && toks[1..1 + |ts|] == ts
  }

  lemma TokenOf(js: seq<char>, buf: seq<char>, toks: seq<Token>, ts: seq<Token>, ns: seq<Json>, k: nat)
    requires Laid(js, toks, ts, ns) && Kept(js, buf, ts) && k < |ns|
    ensures |ts| == |ns| && 1 + |ns| <= |toks| && toks[1 + k] == ts[k] && IsAt(js, ts[k], ns[k])
    ensures Intact(js, buf, ts[k]) && forall c :: 0 <= c < |js| ==> buf[c] == js[c] || buf[c] == '\0'
  {
    hide IsAt, Apart, Nested;
    assert toks[1 + k] == toks[1..1 + |ts|][k];
  }

  lemma LaidLength(js: seq<char>, toks: seq<Token>, ts: seq<Token>, ns: seq<Json>)
    requires Laid(js, toks, ts, ns)
    ensures |ts| == |ns| && 1 + |ns| <= |toks|
  {
  }

  lemma NodeName(js: seq<char>, buf: seq<char>, toks: seq<Token>, ts: seq<Token>, ns: seq<Json>, k: nat,
                 name: seq<char>)
    requires Laid(js, toks, ts, ns) && Kept(js, buf, ts) && k < |ns|
    ensures 1 + |ns| <= |toks|
    ensures Comparable(buf, toks[1 + k], name) && (JsonEq(buf, toks[1 + k], name) <==> ns[k] == Quoted(name))
  {
    hide Laid, Kept, IsAt, Intact, Comparable, JsonEq;
    TokenOf(js, buf, toks, ts, ns, k);
    NameAt(js, buf, ts[k], ns[k], name);
  }

  lemma NodeNumber(js: seq<char>, buf: seq<char>, toks: seq<Token>, ts: seq<Token>, ns: seq<Json>, k: nat, max: Limits)
    requires Laid(js, toks, ts, ns) && Kept(js, buf, ts) && k < |ns|
    ensures 1 + |ns| <= |toks| && Starts(buf, toks[1 + k])
    ensures Uint10(buf, toks[1 + k], max.ulong) == (if ReadsUint(ns[k], max) then 0 else -1, UintOf(ns[k], max))
    ensures Int10(buf, toks[1 + k], max.long) == (if ReadsInt(ns[k], max) then 0 else -1, IntOf(ns[k], max))
  {
    hide Laid, Kept, IsAt, Intact, Uint10, Int10, UintText, IntText, TextOf, Starts;
    TokenOf(js, buf, toks, ts, ns, k);
    NumberAt(js, buf, ts[k], ns[k], max);
  }

  lemma NodeKind(js: seq<char>, buf: seq<char>, toks: seq<Token>, ts: seq<Token>, ns: seq<Json>, k: nat)
    requires Laid(js, toks, ts, ns) && Kept(js, buf, ts) && k < |ns|
    ensures 1 + |ns| <= |toks| && (toks[1 + k].kind == String <==> ns[k].Quoted?)
    ensures toks[1 + k].kind == Object <==> ns[k].Record?
    ensures ns[k].Record? ==> toks[1 + k].size == MemberCount(ns[k].members)
    ensures IsLeaf(ns[k]) ==> 0 <= toks[1 + k].end < |buf|
  {
    hide Laid, Kept, At, TextOf, WellFormed, Render;
    TokenOf(js, buf, toks, ts, ns, k);
  }

  lemma MessageEnded(js: seq<char>, buf: seq<char>, toks: seq<Token>, ts: seq<Token>, ns: seq<Json>, k: nat)
    requires Laid(js, toks, ts, ns) && Kept(js, buf, ts) && k < |ns|
    ensures |ts| == |ns| && Kept(js, Ended(buf, ts[k].end), ts)
  {
    hide IsAt, Apart, Nested, Kept, Ended;
    KeptEnded(js, buf, ts, k);
  }

  /** A name is no number, no object and no hexadecimal text. */
  lemma NamesReadAsNothing(v: Json, max: Limits)
    requires IsName(v)
    ensures !ReadsUint(v, max) && !v.Record? && !ReadsHex(v)
  {
    assert MapHex('i') == -1 && MapHex('r') == -1 && MapHex('s') == -1;
    var t := v.body;
    NoHexFirst(t);
    BracketIsNoNumber(t, 0);
  }

  lemma NoHexFirst(t: seq<char>)
    requires t == "id" || t == "error" || t == "result"
    ensures !Parses(t)
  {
    assert MapHex('i') == -1 && MapHex('r') == -1 && MapHex('s') == -1;
    assert Strip(t) == t;
    if t == "error" {
      assert t[1] == 'r' && t[1..][0] == 'r';
      assert Strip(t[1..]) == t[1..];
    } else {
      assert t[0] == 'i' || t[0] == 'r';
    }
  }

  // ---------------------------------------------------------------- the loop over an error object

  lemma {:induction false} ErrorReadPasses(members: Members, ts: seq<Token>, j: nat, s: Reading, max: Limits)
    requires ErrorRegular(members, max)
    ensures ErrorRead(members, ts, j, s, max).0 == 0 <==> ErrorMembers(members, max)
    decreases members
  {
    hide ReadsInt, IntOf;
    if members.Member? && !ErrorFault(members.key, members.value, max) {
      ErrorReadPasses(members.rest, ts, j + 2, ErrorStep(members.key, members.value, ts, j, s, max), max);
    }
  }

  lemma {:induction false} PassedIsRegular(members: Members, max: Limits)
    requires ErrorMembers(members, max)
    ensures ErrorRegular(members, max)
    decreases members
  {
    hide ReadsInt;
    if members.Member? {
      PassedIsRegular(members.rest, max);
    }
  }

  lemma PassedIsLeaf(key: seq<char>, v: Json, max: Limits)
    requires ErrorMember(key, v, max)
    ensures IsLeaf(v)
  {
    hide RenderItems, RenderMembers;
    if !IsLeaf(v) {
      var t := Render(v);
      assert t[0] == '[' || t[0] == '{';
      Characters(t[0]);
      BracketIsNoNumber(t, 0);
    }
  }

  /** The nodes of the first member of an object. */
  lemma FirstMember(members: Members, ns: seq<Json>, j: nat)
    requires members.Member? && j <= |ns| && MemberNodes(members) <= ns[j..]
    ensures j + 1 < |ns| && ns[j] == Quoted(members.key) && ns[j + 1] == members.value
    ensures IsLeaf(members.value) ==> j + 2 <= |ns| && MemberNodes(members.rest) <= ns[j + 2..]
  {
    var v, all := members.value, MemberNodes(members);
    assert all[0] == Quoted(members.key) && all[1] == Nodes(v)[0];
    assert ns[j] == ns[j..][0] && ns[j + 1] == ns[j..][1];
    if IsLeaf(v) {
      assert all[2..] == MemberNodes(members.rest);
      assert ns[j + 2..] == ns[j..][2..];
    }
  }

  lemma {:induction false} ErrorLoopIs(js: seq<char>, toks: seq<Token>, ts: seq<Token>, ns: seq<Json>, e: nat, j: nat,
                                       members: Members, s: Reading, max: Limits)
    requires Laid(js, toks, ts, ns) && Kept(js, s.buf, ts) && e < j <= |ns| && 1 + e < |toks|
    requires ErrorRegular(members, max) && MemberNodes(members) <= ns[j..]
    requires j - e + 2 * MemberCount(members) == toks[1 + e].size * 2 + 1
    ensures var r := ErrorRead(members, ts, j, s, max);
            Kept(js, r.1.buf, ts) && ErrorLoop(toks, 1 + e, j - e, s, max) == Done(r.0, r.1)
    decreases members
  {
    hide Laid, Kept, Comparable, JsonEq, Int10, ReadsInt, IntOf, MemberNodes, Starts;
    if members.Member? {
      var key, v := members.key, members.value;
      FirstMember(members, ns, j);
      ErrorRound(js, toks, ts, ns, e, j, key, v, s, max);
      if !ErrorFault(key, v, max) {
        PassedIsLeaf(key, v, max);
        ErrorLoopIs(js, toks, ts, ns, e, j + 2, members.rest, ErrorStep(key, v, ts, j, s, max), max);
      }
    }
  }

  /** One member, in one round of the loop or in two. */
  lemma ErrorRound(js: seq<char>, toks: seq<Token>, ts: seq<Token>, ns: seq<Json>, e: nat, j: nat, key: seq<char>,
                   v: Json, s: Reading, max: Limits)
    requires Laid(js, toks, ts, ns) && Kept(js, s.buf, ts) && e < j && j + 1 < |ns| && 1 + e < |toks|
    requires ns[j] == Quoted(key) && ns[j + 1] == v && j - e + 2 <= toks[1 + e].size * 2 + 1
    requires ErrorFault(key, v, max) || ErrorMember(key, v, max)
    ensures var r := ErrorLoop(toks, 1 + e, j - e, s, max);
            if ErrorFault(key, v, max) then r == Done(-1, if key == "code" then s.(code := IntOf(v, max)) else s)
            else r == ErrorLoop(toks, 1 + e, j - e + 2, ErrorStep(key, v, ts, j, s, max), max)
    ensures Kept(js, ErrorStep(key, v, ts, j, s, max).buf, ts)
  {
    hide Laid, Kept, ReadsInt, IntOf, Ended, ErrorLoop, IsLeaf;
    LaidLength(js, toks, ts, ns);
    if key == "code" {
      CodeRound(js, toks, ts, ns, e, j, s, max);
    } else if key == "message" {
      MessageRound(js, toks, ts, ns, e, j, s, max);
    } else {
      OtherRound(js, toks, ts, ns, e, j, s, max);
    }
  }

  lemma CodeRound(js: seq<char>, toks: seq<Token>, ts: seq<Token>, ns: seq<Json>, e: nat, j: nat, s: Reading,
                  max: Limits)
    requires Laid(js, toks, ts, ns) && Kept(js, s.buf, ts) && e < j && j + 1 < |ns| && 1 + e < |toks|
    requires ns[j] == Quoted("code") && j - e + 2 <= toks[1 + e].size * 2 + 1
    ensures var s' := s.(code := IntOf(ns[j + 1], max));
            ErrorLoop(toks, 1 + e, j - e, s, max) ==
            if ReadsInt(ns[j + 1], max) then ErrorLoop(toks, 1 + e, j - e + 2, s', max) else Done(-1, s')
  {
    hide Laid, Kept, Comparable, JsonEq, Int10, ReadsInt, IntOf, Starts;
    NodeName(js, s.buf, toks, ts, ns, j, "code");
    NodeKind(js, s.buf, toks, ts, ns, j);
    NodeNumber(js, s.buf, toks, ts, ns, j + 1, max);
  }

  lemma OtherRound(js: seq<char>, toks: seq<Token>, ts: seq<Token>, ns: seq<Json>, e: nat, j: nat, s: Reading,
                   max: Limits)
    requires Laid(js, toks, ts, ns) && Kept(js, s.buf, ts) && e < j && j + 1 < |ns| && 1 + e < |toks|
    requires ns[j].Quoted? && ns[j].body != "code" && ns[j].body != "message"
    requires j - e + 2 <= toks[1 + e].size * 2 + 1
    requires ns[j + 1] != Quoted("code") && ns[j + 1] != Quoted("message")
    ensures ErrorLoop(toks, 1 + e, j - e, s, max) ==
            if ns[j + 1].Quoted? then ErrorLoop(toks, 1 + e, j - e + 2, s, max) else Done(-1, s)
  {
    hide Laid, Kept, ErrorLoop;
    ErrorSkip(js, toks, ts, ns, e, j, s, max);
    ErrorSkip(js, toks, ts, ns, e, j + 1, s, max);
  }

  /** A token that is no name. */
  lemma ErrorSkip(js: seq<char>, toks: seq<Token>, ts: seq<Token>, ns: seq<Json>, e: nat, j: nat, s: Reading,
                  max: Limits)
    requires Laid(js, toks, ts, ns) && Kept(js, s.buf, ts) && e < j < |ns| && 1 + e < |toks|
    requires j - e < toks[1 + e].size * 2 + 1 && ns[j] != Quoted("code") && ns[j] != Quoted("message")
    ensures ErrorLoop(toks, 1 + e, j - e, s, max) ==
            if ns[j].Quoted? then ErrorLoop(toks, 1 + e, j - e + 1, s, max) else Done(-1, s)
  {
    hide Laid, Kept, Comparable, JsonEq, Int10, Starts;
    NodeName(js, s.buf, toks, ts, ns, j, "code");
    NodeName(js, s.buf, toks, ts, ns, j, "message");
    NodeKind(js, s.buf, toks, ts, ns, j);
  }

  lemma MessageRound(js: seq<char>, toks: seq<Token>, ts: seq<Token>, ns: seq<Json>, e: nat, j: nat, s: Reading,
                     max: Limits)
    requires Laid(js, toks, ts, ns) && Kept(js, s.buf, ts) && e < j && j + 1 < |ns| && 1 + e < |toks|
    requires ns[j] == Quoted("message") && IsLeaf(ns[j + 1]) && j - e + 2 <= toks[1 + e].size * 2 + 1
    ensures |ts| == |ns| && Kept(js, Ended(s.buf, ts[j + 1].end), ts)
    ensures ErrorLoop(toks, 1 + e, j - e, s, max) ==
            ErrorLoop(toks, 1 + e, j - e + 2,
                      s.(message := ts[j + 1].start, buf := Ended(s.buf, ts[j + 1].end)), max)
  {
    hide Laid, Kept, Comparable, JsonEq, IsAt, Intact;
    NodeName(js, s.buf, toks, ts, ns, j, "code");
    NodeName(js, s.buf, toks, ts, ns, j, "message");
    NodeKind(js, s.buf, toks, ts, ns, j);
    NodeKind(js, s.buf, toks, ts, ns, j + 1);
    TokenOf(js, s.buf, toks, ts, ns, j + 1);
    MessageEnded(js, s.buf, toks, ts, ns, j + 1);
  }

  // ---------------------------------------------------------------- the first loop

  lemma IdSkip(js: seq<char>, toks: seq<Token>, ts: seq<Token>, ns: seq<Json>, k: nat, s: Reading, max: Limits)
    requires Laid(js, toks, ts, ns) && Kept(js, s.buf, ts) && k < |ns|
    requires ns[k] != Quoted("id") && ns[k] != Quoted("error")
    ensures 1 + |ns| <= |toks| && IdLoop(toks, 1 + |ns|, 1 + k, s, max) == IdLoop(toks, 1 + |ns|, 2 + k, s, max)
  {
    hide Laid, Kept, Comparable, JsonEq, ErrorObject, Uint10, Starts;
    NodeName(js, s.buf, toks, ts, ns, k, "id");
    NodeName(js, s.buf, toks, ts, ns, k, "error");
  }

  lemma IdRound(js: seq<char>, toks: seq<Token>, ts: seq<Token>, ns: seq<Json>, k: nat, s: Reading, max: Limits)
    requires Laid(js, toks, ts, ns) && Kept(js, s.buf, ts) && k + 1 < |ns| && ns[k] == Quoted("id")
    ensures 1 + |ns| <= |toks|
    ensures var s' := s.(id := UintOf(ns[k + 1], max));
            IdLoop(toks, 1 + |ns|, 1 + k, s, max) ==
            if ReadsUint(ns[k + 1], max) then IdLoop(toks, 1 + |ns|, 2 + k, s', max) else Done(-1, s')
  {
    hide Laid, Kept, ReadsUint, UintOf, ReadsHex, IdLoop;
    IdMet(js, toks, ts, ns, k, s, max);
    if ReadsUint(ns[k + 1], max) {
      if IsName(ns[k + 1]) {
        NamesReadAsNothing(ns[k + 1], max);
      }
      IdSkip(js, toks, ts, ns, k + 1, s.(id := UintOf(ns[k + 1], max)), max);
    }
  }

  lemma IdMet(js: seq<char>, toks: seq<Token>, ts: seq<Token>, ns: seq<Json>, k: nat, s: Reading, max: Limits)
    requires Laid(js, toks, ts, ns) && Kept(js, s.buf, ts) && k + 1 < |ns| && ns[k] == Quoted("id")
    ensures 1 + |ns| <= |toks|
    ensures var s' := s.(id := UintOf(ns[k + 1], max));
            IdLoop(toks, 1 + |ns|, 1 + k, s, max) ==
            if ReadsUint(ns[k + 1], max) then IdLoop(toks, 1 + |ns|, 3 + k, s', max) else Done(-1, s')
  {
    hide Laid, Kept, Comparable, JsonEq, ErrorObject, Uint10, Starts, ReadsUint, UintOf;
    NodeName(js, s.buf, toks, ts, ns, k, "id");
    NodeName(js, s.buf, toks, ts, ns, k, "error");
    NodeNumber(js, s.buf, toks, ts, ns, k + 1, max);
  }

  lemma MembersBehind(js: seq<char>, toks: seq<Token>, ts: seq<Token>, ns: seq<Json>, k: nat)
    requires Laid(js, toks, ts, ns) && k < |ns| && ns[k].Record?
    ensures MemberNodes(ns[k].members) <= ns[k + 1..]
  {
    hide MemberNodes, Printed, Apart;
  }

  lemma ErrorMet(js: seq<char>, toks: seq<Token>, ts: seq<Token>, ns: seq<Json>, k: nat, s: Reading, max: Limits)
    requires Laid(js, toks, ts, ns) && Kept(js, s.buf, ts) && k + 1 < |ns| && ns[k] == Quoted("error")
    requires ns[k + 1].Record? ==> ErrorRegular(ns[k + 1].members, max)
    ensures 1 + |ns| <= |toks|
    ensures if !ns[k + 1].Record? then ErrorObject(toks, 2 + k, s, max) == Done(-1, s)
            else var r := ErrorRead(ns[k + 1].members, ts, k + 2, s, max);
                 Kept(js, r.1.buf, ts) && ErrorObject(toks, 2 + k, s, max) == Done(r.0, r.1)
  {
    hide Laid, Kept, ErrorRead, ErrorRegular, ErrorLoop, MemberNodes;
    NodeKind(js, s.buf, toks, ts, ns, k + 1);
    if ns[k + 1].Record? {
      MembersBehind(js, toks, ts, ns, k + 1);
      ErrorLoopIs(js, toks, ts, ns, k + 1, k + 2, ns[k + 1].members, s, max);
    }
  }

  lemma ErrorInLoop(js: seq<char>, toks: seq<Token>, ts: seq<Token>, ns: seq<Json>, k: nat, s: Reading, max: Limits)
    requires Laid(js, toks, ts, ns) && Kept(js, s.buf, ts) && k + 1 < |ns| && ns[k] == Quoted("error")
    requires ns[k + 1].Record? ==> ErrorRegular(ns[k + 1].members, max)
    ensures 1 + |ns| <= |toks|
    ensures var r := if ns[k + 1].Record? then ErrorRead(ns[k + 1].members, ts, k + 2, s, max) else (-1, s);
            Kept(js, r.1.buf, ts) &&
            IdLoop(toks, 1 + |ns|, 1 + k, s, max) ==
            if r.0 == 0 then IdLoop(toks, 1 + |ns|, 2 + k, r.1, max) else Done(r.0, r.1)
  {
    hide Laid, Kept, ErrorRead, ErrorRegular, ErrorObject, Comparable, JsonEq, Uint10, Starts;
    NodeName(js, s.buf, toks, ts, ns, k, "error");
    ErrorMet(js, toks, ts, ns, k, s, max);
    if ns[k + 1].Record? {
      var r := ErrorRead(ns[k + 1].members, ts, k + 2, s, max);
      IdSkip(js, toks, ts, ns, k + 1, r.1, max);
    }
  }

  lemma {:induction false} IdLoopIs(js: seq<char>, toks: seq<Token>, ts: seq<Token>, ns: seq<Json>, k: nat, s: Reading,
                                    max: Limits)
    requires Laid(js, toks, ts, ns) && Kept(js, s.buf, ts) && k <= |ns| && Regular(ns, k, max)
    ensures 1 + |ns| <= |toks|
    ensures var r := ReadFrom(ns, ts, k, s, max);
            Kept(js, r.1.buf, ts) && IdLoop(toks, 1 + |ns|, 1 + k, s, max) == Done(r.0, r.1)
    decreases |ns| - k
  {
    hide Laid, Kept, ErrorRead, ErrorRegular, ErrorMembers, ReadsUint, UintOf, IdLoop;
    LaidLength(js, toks, ts, ns);
    if k == |ns| {
      LoopsEnd(js, toks, 1 + |ns|, s, 0, max);
    } else if ns[k] == Quoted("error") {
      if ns[k + 1].Record? && ErrorMembers(ns[k + 1].members, max) {
        PassedIsRegular(ns[k + 1].members, max);
      }
      ErrorInLoop(js, toks, ts, ns, k, s, max);
      if ns[k + 1].Record? {
        var r := ErrorRead(ns[k + 1].members, ts, k + 2, s, max);
        ErrorReadPasses(ns[k + 1].members, ts, k + 2, s, max);
        if r.0 == 0 {
          IdLoopIs(js, toks, ts, ns, k + 1, r.1, max);
        }
      }
    } else if ns[k] == Quoted("id") {
      IdRound(js, toks, ts, ns, k, s, max);
      if ReadsUint(ns[k + 1], max) {
        IdLoopIs(js, toks, ts, ns, k + 1, s.(id := UintOf(ns[k + 1], max)), max);
      }
    } else {
      IdSkip(js, toks, ts, ns, k, s, max);
      IdLoopIs(js, toks, ts, ns, k + 1, s, max);
    }
  }

  lemma LoopsEnd(js: seq<char>, toks: seq<Token>, n: nat, s: Reading, w: nat, max: Limits)
    requires n <= |toks|
    ensures IdLoop(toks, n, n, s, max) == Done(0, s) && ValueLoop(js, toks, n, n, w) == Value(0, w)
  {
  }

  /** The first loop ends well exactly when nothing stops it. */
  lemma {:induction false} ReadFromPasses(ns: seq<Json>, ts: seq<Token>, k: nat, s: Reading, max: Limits)
    requires k <= |ns| && Regular(ns, k, max)
    ensures ReadFrom(ns, ts, k, s, max).0 == 0 <==> forall i :: k <= i < |ns| ==> Fine(ns, i, max)
    ensures ReadFrom(ns, ts, k, s, max).0 == 0 ==> forall i :: k <= i < |ns| && IsName(ns[i]) ==> i + 1 < |ns|
    decreases |ns| - k
  {
    hide ReadsUint, UintOf, ErrorMembers, ErrorRegular, ErrorRead;
    if k + 1 < |ns| {
      if ns[k] == Quoted("error") && ns[k + 1].Record? {
        if ErrorMembers(ns[k + 1].members, max) {
          PassedIsRegular(ns[k + 1].members, max);
        }
        ErrorReadPasses(ns[k + 1].members, ts, k + 2, s, max);
        if ErrorMembers(ns[k + 1].members, max) {
          ReadFromPasses(ns, ts, k + 1, ErrorRead(ns[k + 1].members, ts, k + 2, s, max).1, max);
        } else {
          assert !Fine(ns, k, max);
        }
      } else if ns[k] == Quoted("id") {
        if ReadsUint(ns[k + 1], max) {
          ReadFromPasses(ns, ts, k + 1, s.(id := UintOf(ns[k + 1], max)), max);
        } else {
          assert !Fine(ns, k, max);
        }
      } else if ns[k] == Quoted("error") {
        assert !Fine(ns, k, max);
      } else {
        ReadFromPasses(ns, ts, k + 1, s, max);
        assert Fine(ns, k, max);
      }
    }
  }

  /** What is accepted is regular. */
  lemma {:induction false} AcceptedIsRegular(ns: seq<Json>, k: nat, max: Limits)
    requires k <= |ns| && Accepted(ns, max)
    ensures Regular(ns, k, max)
    decreases |ns| - k
  {
    hide ReadsUint, ErrorMembers, ErrorRegular, ReadsHex;
    if k < |ns| {
      assert Fine(ns, k, max) && FineResult(ns, k);
      AcceptedIsRegular(ns, k + 1, max);
    }
  }

  // ---------------------------------------------------------------- the last loop

  lemma ValueSkip(js: seq<char>, buf: seq<char>, toks: seq<Token>, ts: seq<Token>, ns: seq<Json>, k: nat, w: nat)
    requires Laid(js, toks, ts, ns) && Kept(js, buf, ts) && k < |ns| && ns[k] != Quoted("result")
    ensures 1 + |ns| <= |toks| && ValueLoop(buf, toks, 1 + |ns|, 1 + k, w) == ValueLoop(buf, toks, 1 + |ns|, 2 + k, w)
  {
    hide Laid, Kept, Comparable, JsonEq, Parsed, UpToNul, FitsBuffer;
    NodeName(js, buf, toks, ts, ns, k, "result");
  }

  lemma NodeHex(js: seq<char>, buf: seq<char>, toks: seq<Token>, ts: seq<Token>, ns: seq<Json>, k: nat, w: nat)
    requires Laid(js, toks, ts, ns) && Kept(js, buf, ts) && k < |ns|
    ensures 1 + |ns| <= |toks|
    ensures |TextOf(ns[k])| < 68 <==> FitsBuffer(buf, toks[1 + k])
    ensures FitsBuffer(buf, toks[1 + k]) ==>
              var r := Parsed(UpToNul(Slice(buf, toks[1 + k])), w);
              if ReadsHex(ns[k]) then r == (0, HexOf(ns[k])) else r.0 == -1
    ensures ReadsHex(ns[k]) ==> |TextOf(ns[k])| < 68
  {
    hide Laid, Kept, IsAt, Intact, TextOf, Parses, ParsedValue, Parsed, UpToNul;
    TokenOf(js, buf, toks, ts, ns, k);
    IsAtWithin(js, ts[k], ns[k]);
    if FitsBuffer(buf, toks[1 + k]) || |TextOf(ns[k])| < 68 {
      HexAt(js, buf, ts[k], ns[k], w);
    }
    if ReadsHex(ns[k]) {
      ParsesIsShort(TextOf(ns[k]));
    }
  }

  /** A result that is no hexadecimal text stops the loop, one that is too long for the buffer makes it overrun. */
  lemma ValueRound(js: seq<char>, buf: seq<char>, toks: seq<Token>, ts: seq<Token>, ns: seq<Json>, k: nat, w: nat)
    requires Laid(js, toks, ts, ns) && Kept(js, buf, ts) && k + 1 < |ns| && ns[k] == Quoted("result")
    ensures 1 + |ns| <= |toks|
    ensures var r := ValueLoop(buf, toks, 1 + |ns|, 1 + k, w);
            if ReadsHex(ns[k + 1]) then r == ValueLoop(buf, toks, 1 + |ns|, 2 + k, HexOf(ns[k + 1]))
            else if |TextOf(ns[k + 1])| < 68 then r.Value? && r.ret == -1
            else r == NoValue
  {
    hide Laid, Kept, Comparable, JsonEq, Parsed, UpToNul, FitsBuffer, ReadsHex, HexOf, TextOf, Slice;
    NodeName(js, buf, toks, ts, ns, k, "result");
    NodeHex(js, buf, toks, ts, ns, k + 1, w);
    if ReadsHex(ns[k + 1]) {
      if ns[k + 1] == Quoted("result") {
        NamesReadAsNothing(ns[k + 1], Limits(0, 0));
      }
      ValueSkip(js, buf, toks, ts, ns, k + 1, HexOf(ns[k + 1]));
    }
  }

  /** No text behind a "result" overruns the buffer. */
  predicate ShortResults(ns: seq<Json>) {
    forall k :: 0 <= k && k + 1 < |ns| && ns[k] == Quoted("result") ==> |TextOf(ns[k + 1])| < 68
  }

  lemma {:induction false} ValueLoopIs(js: seq<char>, buf: seq<char>, toks: seq<Token>, ts: seq<Token>, ns: seq<Json>,
                                       k: nat, w: nat)
    requires Laid(js, toks, ts, ns) && Kept(js, buf, ts) && k <= |ns|
    requires forall i :: k <= i < |ns| && IsName(ns[i]) ==> i + 1 < |ns|
    ensures 1 + |ns| <= |toks|
    ensures var r := ValueLoop(buf, toks, 1 + |ns|, 1 + k, w);
            && (r.Value? && r.ret == 0 <==> forall i :: k <= i < |ns| ==> FineResult(ns, i))
            && (r.Value? && r.ret == 0 ==> r.value == LastHex(Followers(ns[k..], "result"), w))
            && (r.Value? ==> r.ret == 0 || r.ret == -1) && (ShortResults(ns) ==> r.Value?)
    decreases |ns| - k
  {
    hide Laid, Kept, ValueLoop, ReadsHex, HexOf, TextOf, Followers;
    LaidLength(js, toks, ts, ns);
    if k == |ns| {
      LoopsEnd(buf, toks, 1 + |ns|, Reading(buf, 0, 0, 0), w, Limits(0, 0));
      NoFollowers(ns[k..], "result");
    } else {
      FollowersFrom(ns, k, "result");
      if ns[k] == Quoted("result") {
        ValueRound(js, buf, toks, ts, ns, k, w);
        if ReadsHex(ns[k + 1]) {
          ValueLoopIs(js, buf, toks, ts, ns, k + 1, HexOf(ns[k + 1]));
        } else {
          assert !FineResult(ns, k);
        }
      } else {
        ValueSkip(js, buf, toks, ts, ns, k, w);
        ValueLoopIs(js, buf, toks, ts, ns, k + 1, w);
      }
      if forall i :: k + 1 <= i < |ns| ==> FineResult(ns, i) {
        FollowersRead(ns, k + 1);
      }
    }
  }

  lemma NoFollowers(ns: seq<Json>, name: seq<char>)
    requires |ns| < 2
    ensures Followers(ns, name) == []
  {
  }

  lemma FollowersFrom(ns: seq<Json>, k: nat, name: seq<char>)
    requires k < |ns|
    ensures Followers(ns[k..], name) ==
            (if k + 1 < |ns| && ns[k] == Quoted(name) then [ns[k + 1]] else []) + Followers(ns[k + 1..], name)
  {
    assert ns[k..][1..] == ns[k + 1..];
  }

  /** Behind the names that are fine stand hexadecimal texts. */
  lemma {:induction false} FollowersRead(ns: seq<Json>, k: nat)
    requires k <= |ns| && forall i :: k <= i < |ns| ==> FineResult(ns, i)
    ensures forall v :: v in Followers(ns[k..], "result") ==> ReadsHex(v)
    decreases |ns| - k
  {
    hide ReadsHex, Followers;
    if k == |ns| {
      NoFollowers(ns[k..], "result");
    } else {
      FollowersFrom(ns, k, "result");
      FollowersRead(ns, k + 1);
      assert FineResult(ns, k);
    }
  }

  // ---------------------------------------------------------------- the decoder on a reply

  /** The printed text. */
  function Text(before: seq<char>, gap: seq<char>, members: Members, after: seq<char>): seq<char> {
    before + Render(Record(gap, members)) + after
  }

  lemma TokensParsed(before: seq<char>, gap: seq<char>, members: Members, after: seq<char>, stack: seq<Token>)
    requires WellFormed(Record(gap, members)) && Spaces(before) && Spaces(after) && |stack| == TOKENS
    requires 1 + |MemberNodes(members)| <= TOKENS
    ensures var js, ts := Text(before, gap, members, after), Tokens(Record(gap, members), |before|);
            && Run(js, TOKENS, Init).1 == |ts| > 0 && |TokenArray(js, stack)| == TOKENS
            && TokenArray(js, stack)[..|ts|] == ts
  {
    hide Run, Render, Tokens, WellFormed, MemberNodes;
    TokenCount(Record(gap, members), |before|);
    ParseInvertsPrint(before, Record(gap, members), after, TOKENS);
  }

  lemma MiddleAt(a: seq<char>, b: seq<char>, c: seq<char>)
    ensures At(a + b + c, |a|, b)
  {
  }

  /** What the decoder works on. */
  lemma ReplyLaid(before: seq<char>, gap: seq<char>, members: Members, after: seq<char>, stack: seq<Token>)
    requires WellFormed(Record(gap, members)) && Spaces(before) && Spaces(after) && |stack| == TOKENS
    requires 1 + |MemberNodes(members)| <= TOKENS
    ensures var js, p, ns := Text(before, gap, members, after), |before| + 1 + |gap|, MemberNodes(members);
            && Run(js, TOKENS, Init).1 == 1 + |ns| <= |TokenArray(js, stack)|
            && TokenArray(js, stack)[0].kind == Object
            && Laid(js, TokenArray(js, stack), MemberTokens(members, p), ns)
            && Kept(js, js, MemberTokens(members, p))
  {
    hide Run, Render, MemberTokens, MemberNodes, TokenArray, Kept, At, Spaces, Printed, Apart, Nested,
      WellFormedMembers;
    var v := Record(gap, members);
    var js, p := Text(before, gap, members, after), |before| + 1 + |gap|;
    var ts := MemberTokens(members, p);
    TokensParsed(before, gap, members, after, stack);
    MiddleAt(before, Render(v), after);
    InsideAt(js, |before|, v);
    MemberNodesAt(js, p, members);
    MembersApart(members, p);
    NestedMembers(members);
    KeptItself(js, ts, MemberNodes(members));
    PrintedLength(js, ts, MemberNodes(members));
    var toks, all := TokenArray(js, stack), Tokens(v, |before|);
    assert all == [all[0]] + ts;
    assert toks[0] == toks[..|all|][0];
    assert toks[1..1 + |ts|] == toks[..|all|][1..];
  }

  lemma PrintedLength(js: seq<char>, ts: seq<Token>, ns: seq<Json>)
    requires Printed(js, ts, ns)
    ensures |ts| == |ns|
  {
  }

  /** A reply that fits the token array. */
  predicate IsReply(before: seq<char>, gap: seq<char>, members: Members, after: seq<char>, buf: seq<char>) {
    WellFormed(Record(gap, members)) && Spaces(before) && Spaces(after) &&
    1 + |MemberNodes(members)| <= TOKENS && buf == Text(before, gap, members, after)
  }

  /** The reading of the first loop. */
  function ReadReply(before: seq<char>, gap: seq<char>, members: Members, s: Reading, max: Limits): (r: (int, Reading))
    ensures r.0 == 0 || r.0 == -1
  {
    ReadFrom(MemberNodes(members), MemberTokens(members, |before| + 1 + |gap|), 0, s, max)
  }

  /** On every regular reply, with any whitespace, in any order and at any depth, the decoder returns 0 if and only if
      behind every name, be it a key or a value, stands something of its kind; the first loop leaves its reading, and
      the number decoded is the last one behind a "result". */
  lemma {:induction false} ReplyDecodes(before: seq<char>, gap: seq<char>, members: Members, after: seq<char>,
                                        stack: seq<Token>, s: Reading, value: nat, max: Limits)
    requires IsReply(before, gap, members, after, s.buf) && |stack| == TOKENS
    requires Regular(MemberNodes(members), 0, max)
    ensures var d, r := DecodeReply(stack, s, value, max), ReadReply(before, gap, members, s, max);
            var ns := MemberNodes(members);
            && (d.Decoded? && d.ret == 0 <==> Accepted(ns, max))
            && (Accepted(ns, max) ==> d == Decoded(0, r.1, LastHex(Followers(ns, "result"), value)))
            && (r.0 < 0 ==> d == Decoded(-1, r.1, value))
            && (d.Decoded? ==> d.s == r.1) && (d == Crash ==> !ShortResults(ns))
  {
    hide Run, Render, IdLoop, ValueLoop, ReadFrom, MemberTokens, MemberNodes, WellFormed, Regular, TokenArray, Laid,
      Kept, Spaces, Fine, FineResult, Followers, LastHex, ShortResults, Tokens, Text;
    ReplyLaid(before, gap, members, after, stack);
    var js, ts, ns := s.buf, MemberTokens(members, |before| + 1 + |gap|), MemberNodes(members);
    var toks, r := TokenArray(js, stack), ReadFrom(ns, ts, 0, s, max);
    IdLoopIs(js, toks, ts, ns, 0, s, max);
    ReadFromPasses(ns, ts, 0, s, max);
    if r.0 == 0 {
      assert ns[0..] == ns;
      ValueLoopIs(js, r.1.buf, toks, ts, ns, 0, value);
    }
  }

  /** The first fault refuses the reply, whatever follows. */
  lemma FirstFaultRefuses(before: seq<char>, gap: seq<char>, members: Members, after: seq<char>, stack: seq<Token>,
                          s: Reading, value: nat, max: Limits, k: nat)
    requires IsReply(before, gap, members, after, s.buf) && |stack| == TOKENS
    requires k + 1 < |MemberNodes(members)| && Fault(MemberNodes(members), k, max)
    requires forall i :: 0 <= i < k ==> Fine(MemberNodes(members), i, max)
    ensures DecodeReply(stack, s, value, max) == Decoded(-1, ReadReply(before, gap, members, s, max).1, value)
  {
    hide IsReply, DecodeReply, MemberNodes, MemberTokens, ReadFrom, Regular, Fault, Fine, Accepted;
    var ns := MemberNodes(members);
    FaultIsRegular(ns, k, 0, max);
    ReplyDecodes(before, gap, members, after, stack, s, value, max);
    ReadFromPasses(ns, MemberTokens(members, |before| + 1 + |gap|), 0, s, max);
    FaultIsNotFine(ns, k, max);
  }

  lemma FaultIsNotFine(ns: seq<Json>, k: nat, max: Limits)
    requires k + 1 < |ns| && Fault(ns, k, max)
    ensures !Fine(ns, k, max) && IsName(ns[k])
  {
    hide ReadsUint, ErrorMembers, ErrorRegular;
  }

  lemma {:induction false} FaultIsRegular(ns: seq<Json>, k: nat, j: nat, max: Limits)
    requires j <= k && k + 1 < |ns| && Fault(ns, k, max) && forall i :: 0 <= i < k ==> Fine(ns, i, max)
    ensures Regular(ns, j, max)
    decreases k - j
  {
    hide Fault, Fine;
    if j < k {
      assert Fine(ns, j, max);
      FaultIsRegular(ns, k, j + 1, max);
    } else {
      FaultIsNotFine(ns, k, max);
    }
  }

  // ---------------------------------------------------------------- what the first loop leaves

  lemma LastUintJoin(us: seq<Json>, vs: seq<Json>, was: nat, max: Limits)
    ensures LastUint(us + vs, was, max) == LastUint(vs, LastUint(us, was, max), max)
  {
    hide UintOf;
  }

  lemma LastIntJoin(xs: seq<int>, ys: seq<int>, was: int)
    ensures LastInt(xs + ys, was) == LastInt(ys, LastInt(xs, was))
  {
  }

  lemma {:induction false} ErrorReadLast(members: Members, ts: seq<Token>, j: nat, s: Reading, max: Limits)
    requires ErrorRead(members, ts, j, s, max).0 == 0
    ensures var r := ErrorRead(members, ts, j, s, max).1;
            r.id == s.id && r.code == LastInt(Codes(members, max), s.code)
    decreases members
  {
    hide ErrorFault, IntOf;
    if members.Member? {
      var key, v := members.key, members.value;
      ErrorReadLast(members.rest, ts, j + 2, ErrorStep(key, v, ts, j, s, max), max);
      LastIntJoin(if key == "code" then [IntOf(v, max)] else [], Codes(members.rest, max), s.code);
    }
  }

  /** The id left is the last number behind an "id", the code the last one in an object behind an "error". */
  lemma {:induction false} ReadFromLast(ns: seq<Json>, ts: seq<Token>, k: nat, s: Reading, max: Limits)
    requires k <= |ns| && ReadFrom(ns, ts, k, s, max).0 == 0
    ensures var r := ReadFrom(ns, ts, k, s, max).1;
            && r.id == LastUint(Followers(ns[k..], "id"), s.id, max)
            && r.code == LastInt(AllCodes(Followers(ns[k..], "error"), max), s.code)
    decreases |ns| - k
  {
    hide ReadsUint, UintOf, ErrorRead, Followers, Codes, AllCodes;
    if k + 1 >= |ns| {
      NoFollowers(ns[k..], "id");
      NoFollowers(ns[k..], "error");
      NoCodes(max);
    } else {
      var us, es := Followers(ns[k + 1..], "id"), Followers(ns[k + 1..], "error");
      FollowersFrom(ns, k, "id");
      FollowersFrom(ns, k, "error");
      var s' := s;
      if ns[k] == Quoted("error") {
        s' := ErrorRead(ns[k + 1].members, ts, k + 2, s, max).1;
        ErrorReadLast(ns[k + 1].members, ts, k + 2, s, max);
        CodesFirst(ns[k + 1], es, max);
        LastIntJoin(Codes(ns[k + 1].members, max), AllCodes(es, max), s.code);
        assert [] + us == us;
      } else if ns[k] == Quoted("id") {
        s' := s.(id := UintOf(ns[k + 1], max));
        LastUintJoin([ns[k + 1]], us, s.id, max);
        assert [] + es == es;
      } else {
        assert [] + us == us && [] + es == es;
      }
      ReadFromLast(ns, ts, k + 1, s', max);
    }
  }

  lemma NoCodes(max: Limits)
    ensures AllCodes([], max) == []
  {
  }

  lemma CodesFirst(v: Json, vs: seq<Json>, max: Limits)
    requires v.Record?
    ensures AllCodes([v] + vs, max) == Codes(v.members, max) + AllCodes(vs, max)
  {
    hide Codes;
    assert ([v] + vs)[1..] == vs;
  }

  // ---------------------------------------------------------------- what the reply says

  /** The value of the last member of that name of the reply itself. */
  function Own(members: Members, name: seq<char>): Option<Json> {
    match members
    case NoMember => None
    case Member(key, _, _, v, _, _, rest) =>
      if Own(rest, name).Some? then Own(rest, name) else if key == name then Some(v) else None
  }

  /** That value and all nodes behind it. */
  function FromOwn(members: Members, name: seq<char>): seq<Json>
    requires Own(members, name).Some?
  {
    if Own(members.rest, name).Some? then FromOwn(members.rest, name)
    else Nodes(members.value) + MemberNodes(members.rest)
  }

  /** What stands further behind other strings of that name: keys deeper down and values. */
  function Strays(members: Members, name: seq<char>): seq<Json>
    requires Own(members, name).Some?
  {
    Followers(FromOwn(members, name), name)
  }

  lemma {:induction false} FollowersJoin(a: seq<Json>, b: seq<Json>, name: seq<char>)
    requires a != [] && a[|a| - 1] == Quoted(name) && b != []
    ensures Followers(a + b, name) == Followers(a, name) + [b[0]] + Followers(b, name)
    decreases |a|
  {
    var ns := a + b;
    if |a| == 1 {
      assert ns[1..] == b;
      assert [] + [b[0]] == [b[0]];
    } else {
      assert ns[1..] == a[1..] + b;
      FollowersJoin(a[1..], b, name);
      var first := if a[0] == Quoted(name) then [a[1]] else [];
      assert Followers(a, name) == first + Followers(a[1..], name);
      Assoc(first, Followers(a[1..], name), [b[0]]);
      Assoc(first, Followers(a[1..], name) + [b[0]], Followers(b, name));
    }
  }

  /** The nodes up to the last own key of that name, and from its value on. */
  lemma {:induction false} OwnSplit(members: Members, name: seq<char>) returns (a: seq<Json>)
    requires Own(members, name).Some?
    ensures MemberNodes(members) == a + FromOwn(members, name) && a != [] && a[|a| - 1] == Quoted(name)
    ensures FromOwn(members, name) != [] && FromOwn(members, name)[0] == Own(members, name).value
    decreases members
  {
    hide Nodes;
    var head, v := [Quoted(members.key)], Nodes(members.value);
    if Own(members.rest, name).Some? {
      var b := OwnSplit(members.rest, name);
      a := head + v + b;
      Assoc(head + v, b, FromOwn(members.rest, name));
    } else {
      a := head;
      Assoc(head, v, MemberNodes(members.rest));
    }
  }

  /** The own value is read, and then what strays. */
  lemma OwnThenStrays(members: Members, name: seq<char>) returns (front: seq<Json>)
    requires Own(members, name).Some?
    ensures Followers(MemberNodes(members), name) == front + [Own(members, name).value] + Strays(members, name)
  {
    hide MemberNodes, Followers, FromOwn, Own;
    var a := OwnSplit(members, name);
    FollowersJoin(a, FromOwn(members, name), name);
    front := Followers(a, name);
  }

  /** The decoder returns 0 with the id and the result of the reply itself. */
  ghost predicate DecodedRight(d: Decoded, members: Members, max: Limits)
    requires Own(members, "id").Some? && Own(members, "result").Some?
  {
    var w := Own(members, "result").value;
    d.Decoded? && d.ret == 0 && d.s.id == UintOf(Own(members, "id").value, max) && ReadsHex(w) && d.value == HexOf(w)
  }

  /** Nothing strays behind the own value, or the last that does is the same number. */
  predicate IdStays(members: Members, max: Limits)
    requires Own(members, "id").Some?
  {
    var strays := Strays(members, "id");
    strays == [] || UintOf(strays[|strays| - 1], max) == UintOf(Own(members, "id").value, max)
  }

  predicate ResultStays(members: Members)
    requires Own(members, "result").Some?
  {
    var w, strays := Own(members, "result").value, Strays(members, "result");
    strays == [] ||
    var x := strays[|strays| - 1];
    ReadsHex(x) && ReadsHex(w) && HexOf(x) == HexOf(w)
  }

  /** Each of these is right exactly under a condition on the reply alone: every name finds its kind, and nothing that
      strays is another number. */
  lemma DecodedRightIff(before: seq<char>, gap: seq<char>, members: Members, after: seq<char>, stack: seq<Token>,
                        s: Reading, value: nat, max: Limits)
    requires IsReply(before, gap, members, after, s.buf) && |stack| == TOKENS
    requires Regular(MemberNodes(members), 0, max) && Own(members, "id").Some? && Own(members, "result").Some?
    ensures DecodedRight(DecodeReply(stack, s, value, max), members, max) <==>
            Accepted(MemberNodes(members), max) && IdStays(members, max) && ResultStays(members)
  {
    hide IsReply, DecodeReply, MemberNodes, MemberTokens, Regular, Accepted, Own, Strays, UintOf, ReadsHex, HexOf, Fine,
      ReadFrom, Followers;
    ReplyDecodes(before, gap, members, after, stack, s, value, max);
    if Accepted(MemberNodes(members), max) {
      IdLeft(before, gap, members, s, max);
      ResultLeft(members, value, max);
    }
  }

  lemma {:induction false} IdLeft(before: seq<char>, gap: seq<char>, members: Members, s: Reading, max: Limits)
    requires Accepted(MemberNodes(members), max) && Own(members, "id").Some?
    ensures ReadReply(before, gap, members, s, max).1.id == UintOf(Own(members, "id").value, max) <==>
            IdStays(members, max)
  {
    hide MemberNodes, MemberTokens, Accepted, Own, Strays, UintOf, ReadFrom, Followers;
    var ns, ts, v := MemberNodes(members), MemberTokens(members, |before| + 1 + |gap|), Own(members, "id").value;
    AcceptedPasses(ns, ts, s, max);
    ReadFromLast(ns, ts, 0, s, max);
    assert ns[0..] == ns;
    var front := OwnThenStrays(members, "id");
    LastUintJoin(front + [v], Strays(members, "id"), s.id, max);
  }

  lemma AcceptedPasses(ns: seq<Json>, ts: seq<Token>, s: Reading, max: Limits)
    requires Accepted(ns, max)
    ensures Regular(ns, 0, max) && ReadFrom(ns, ts, 0, s, max).0 == 0
  {
    hide ReadFrom, Regular, Fine, FineResult;
    AcceptedIsRegular(ns, 0, max);
    ReadFromPasses(ns, ts, 0, s, max);
  }

  lemma ResultLeft(members: Members, value: nat, max: Limits)
    requires Accepted(MemberNodes(members), max) && Own(members, "result").Some?
    ensures var w, strays := Own(members, "result").value, Strays(members, "result");
            && ReadsHex(w) && (strays != [] ==> ReadsHex(strays[|strays| - 1]))
            && LastHex(Followers(MemberNodes(members), "result"), value) ==
               if strays == [] then HexOf(w) else HexOf(strays[|strays| - 1])
  {
    hide MemberNodes, Own, Strays, ReadsHex, HexOf, Followers, Fine;
    var ns, w, strays := MemberNodes(members), Own(members, "result").value, Strays(members, "result");
    var front := OwnThenStrays(members, "result");
    FollowersRead(ns, 0);
    assert ns[0..] == ns;
    var all := Followers(ns, "result");
    assert all[|front|] == w && w in all;
    assert strays != [] ==> all[|all| - 1] == strays[|strays| - 1] && strays[|strays| - 1] in all;
  }

  /** The same for a reply with an error: its last code. */
  ghost predicate ErrorDecodedRight(d: Decoded, members: Members, max: Limits)
    requires Own(members, "id").Some? && Own(members, "error").Some?
  {
    var e := Own(members, "error").value;
    d.Decoded? && d.ret == 0 && d.s.id == UintOf(Own(members, "id").value, max) &&
    e.Record? && Codes(e.members, max) != [] && d.s.code == LastInt(Codes(e.members, max), 0)
  }

  predicate CodeStays(members: Members, max: Limits)
    requires Own(members, "error").Some?
  {
    var e := Own(members, "error").value;
    e.Record? && Codes(e.members, max) != [] &&
    var code, strays := LastInt(Codes(e.members, max), 0), AllCodes(Strays(members, "error"), max);
    strays == [] || strays[|strays| - 1] == code
  }

  lemma ErrorDecodedRightIff(before: seq<char>, gap: seq<char>, members: Members, after: seq<char>, stack: seq<Token>,
                             s: Reading, value: nat, max: Limits)
    requires IsReply(before, gap, members, after, s.buf) && |stack| == TOKENS
    requires Regular(MemberNodes(members), 0, max) && Own(members, "id").Some? && Own(members, "error").Some?
    ensures ErrorDecodedRight(DecodeReply(stack, s, value, max), members, max) <==>
            Accepted(MemberNodes(members), max) && IdStays(members, max) && CodeStays(members, max)
  {
    hide IsReply, DecodeReply, MemberNodes, MemberTokens, Regular, Accepted, Own, Strays, UintOf, Fine, ReadFrom,
      Followers, Codes, AllCodes, IdStays, CodeStays;
    ReplyDecodes(before, gap, members, after, stack, s, value, max);
    if Accepted(MemberNodes(members), max) {
      IdLeft(before, gap, members, s, max);
      CodeLeft(before, gap, members, s, max);
    }
  }

  lemma CodeLeft(before: seq<char>, gap: seq<char>, members: Members, s: Reading, max: Limits)
    requires Accepted(MemberNodes(members), max) && Own(members, "error").Some?
    ensures var e, code := Own(members, "error").value, ReadReply(before, gap, members, s, max).1.code;
            e.Record? && (Codes(e.members, max) != [] && code == LastInt(Codes(e.members, max), 0) <==>
                          CodeStays(members, max))
  {
    hide MemberNodes, MemberTokens, Accepted, Own, Strays, Codes, AllCodes, ReadFrom, Followers;
    var ns, ts, e := MemberNodes(members), MemberTokens(members, |before| + 1 + |gap|), Own(members, "error").value;
    AcceptedPasses(ns, ts, s, max);
    ReadFromLast(ns, ts, 0, s, max);
    assert ns[0..] == ns;
    var strays := Strays(members, "error");
    var front := OwnThenStrays(members, "error");
    FollowersAreRecords(ns, 0, max);
    assert Followers(ns, "error")[|front|] == e;
    CodesJoin(front + [e], strays, max);
    CodesJoin(front, [e], max);
    CodesFirst(e, [], max);
    NoCodes(max);
    assert Codes(e.members, max) + [] == Codes(e.members, max) && [e] + [] == [e];
    LastIntJoin(AllCodes(front, max) + Codes(e.members, max), AllCodes(strays, max), s.code);
  }

  lemma {:induction false} CodesJoin(us: seq<Json>, vs: seq<Json>, max: Limits)
    ensures AllCodes(us + vs, max) == AllCodes(us, max) + AllCodes(vs, max)
    decreases |us|
  {
    hide Codes;
    if us == [] {
      assert us + vs == vs;
    } else {
      assert (us + vs)[1..] == us[1..] + vs;
      CodesJoin(us[1..], vs, max);
    }
  }

  lemma {:induction false} FollowersAreRecords(ns: seq<Json>, k: nat, max: Limits)
    requires k <= |ns| && Accepted(ns, max)
    ensures forall v :: v in Followers(ns[k..], "error") ==> v.Record?
    decreases |ns| - k
  {
    hide Followers, ErrorMembers, FineResult, ReadsUint;
    if k == |ns| {
      NoFollowers(ns[k..], "error");
    } else {
      FollowersFrom(ns, k, "error");
      FollowersAreRecords(ns, k + 1, max);
      assert Fine(ns, k, max);
    }
  }

  // ---------------------------------------------------------------- orderly replies

  /** Below v, at any depth, no string value is a name, an id is a number, a result a hexadecimal text, and an error an
      error object. */
  predicate Orderly(v: Json, max: Limits) {
    match v
    case Bare(_) => true
    case Quoted(_) => !IsName(v)
    case List(_, items) => OrderlyItems(items, max)
    case Record(_, members) => OrderlyMembers(members, max)
  }

  predicate OrderlyItems(items: Items, max: Limits) {
    match items
    case NoItem => true
    case Item(v, _, _, rest) => Orderly(v, max) && OrderlyItems(rest, max)
  }

  predicate OrderlyMembers(members: Members, max: Limits) {
    match members
    case NoMember => true
    case Member(key, _, _, v, _, _, rest) => OrderlyMembers(rest, max) && Orderly(v, max) && OfItsKind(key, v, max)
  }

  predicate OfItsKind(key: seq<char>, v: Json, max: Limits) {
    (key == "id" ==> ReadsUint(v, max)) && (key == "result" ==> ReadsHex(v)) &&
    (key == "error" ==> v.Record? && ErrorMembers(v.members, max))
  }

  predicate EndsPlain(ns: seq<Json>) {
    ns != [] ==> !IsName(ns[|ns| - 1])
  }

  lemma AcceptedJoin(a: seq<Json>, b: seq<Json>, max: Limits)
    requires Accepted(a, max) && Accepted(b, max) && EndsPlain(a) && EndsPlain(b)
    ensures Accepted(a + b, max) && EndsPlain(a + b)
  {
    hide ReadsUint, ReadsHex, ErrorMembers;
    var ns := a + b;
    forall k | 0 <= k < |ns| ensures Fine(ns, k, max) && FineResult(ns, k) {
      if k < |a| {
        assert Fine(a, k, max) && FineResult(a, k) && ns[k] == a[k];
        assert k + 1 < |a| ==> ns[k + 1] == a[k + 1];
      } else {
        var j := k - |a|;
        assert Fine(b, j, max) && FineResult(b, j) && ns[k] == b[j];
        assert j + 1 < |b| ==> ns[k + 1] == b[j + 1];
      }
    }
  }

  lemma AcceptedHead(v: Json, ns: seq<Json>, max: Limits)
    requires Accepted(ns, max) && EndsPlain(ns)
    requires IsName(v) ==> ns != [] && OfItsKind(v.body, ns[0], max)
    ensures Accepted([v] + ns, max) && EndsPlain([v] + ns)
  {
    hide ReadsUint, ReadsHex, ErrorMembers;
    var ms := [v] + ns;
    forall k | 0 <= k < |ms| ensures Fine(ms, k, max) && FineResult(ms, k) {
      if k > 0 {
        assert Fine(ns, k - 1, max) && FineResult(ns, k - 1) && ms[k] == ns[k - 1];
        assert k < |ns| ==> ms[k + 1] == ns[k];
      } else {
        assert ns != [] ==> ms[1] == ns[0];
      }
    }
  }

  lemma AcceptedNothing(max: Limits)
    ensures Accepted([], max) && EndsPlain([])
  {
  }

  lemma {:induction false} OrderlyIsAccepted(v: Json, max: Limits)
    requires Orderly(v, max)
    ensures Accepted(Nodes(v), max) && EndsPlain(Nodes(v))
    decreases v
  {
    hide Accepted, EndsPlain, OfItsKind;
    AcceptedNothing(max);
    match v
    case Bare(_) =>
      AcceptedHead(v, [], max);
      assert [v] + [] == [v];
    case Quoted(_) =>
      AcceptedHead(v, [], max);
      assert [v] + [] == [v];
    case List(_, items) =>
      OrderlyItemsAccepted(items, max);
      AcceptedHead(v, ItemNodes(items), max);
    case Record(_, members) =>
      OrderlyMembersAccepted(members, max);
      AcceptedHead(v, MemberNodes(members), max);
  }

  lemma {:induction false} OrderlyItemsAccepted(items: Items, max: Limits)
    requires OrderlyItems(items, max)
    ensures Accepted(ItemNodes(items), max) && EndsPlain(ItemNodes(items))
    decreases items
  {
    hide Accepted, EndsPlain, Nodes, Orderly;
    match items
    case NoItem => AcceptedNothing(max);
    case Item(v, _, _, rest) =>
      OrderlyIsAccepted(v, max);
      OrderlyItemsAccepted(rest, max);
      AcceptedJoin(Nodes(v), ItemNodes(rest), max);
  }

  /** Orderly replies are accepted. */
  lemma {:induction false} OrderlyMembersAccepted(members: Members, max: Limits)
    requires OrderlyMembers(members, max)
    ensures Accepted(MemberNodes(members), max) && EndsPlain(MemberNodes(members))
    decreases members
  {
    hide Accepted, EndsPlain, Nodes, Orderly, OfItsKind;
    match members
    case NoMember => AcceptedNothing(max);
    case Member(key, _, _, v, _, _, rest) =>
      OrderlyIsAccepted(v, max);
      OrderlyMembersAccepted(rest, max);
      AcceptedHead(Quoted(key), Nodes(v), max);
      AcceptedJoin([Quoted(key)] + Nodes(v), MemberNodes(rest), max);
  }

  /** With one id and one result, wherever they stand, those two are what is decoded. */
  lemma OneIdOneResult(before: seq<char>, gap: seq<char>, members: Members, after: seq<char>, stack: seq<Token>,
                       s: Reading, value: nat, max: Limits, v: Json, w: Json)
    requires IsReply(before, gap, members, after, s.buf) && |stack| == TOKENS && OrderlyMembers(members, max)
    requires Followers(MemberNodes(members), "id") == [v] && Followers(MemberNodes(members), "result") == [w]
    ensures var d := DecodeReply(stack, s, value, max);
            d.Decoded? && d.ret == 0 && d.s.id == UintOf(v, max) && ReadsHex(w) && d.value == HexOf(w)
  {
    hide IsReply, DecodeReply, MemberNodes, MemberTokens, OrderlyMembers, Accepted, Regular, UintOf, ReadsHex, HexOf,
      ReadFrom, Followers, FineResult, Fine;
    var ns, ts := MemberNodes(members), MemberTokens(members, |before| + 1 + |gap|);
    OrderlyMembersAccepted(members, max);
    AcceptedPasses(ns, ts, s, max);
    ReplyDecodes(before, gap, members, after, stack, s, value, max);
    ReadFromLast(ns, ts, 0, s, max);
    assert ns[0..] == ns;
    FollowersRead(ns, 0) by { AcceptedResults(ns, max); }
    assert w in Followers(ns, "result");
  }

  lemma AcceptedResults(ns: seq<Json>, max: Limits)
    requires Accepted(ns, max)
    ensures forall i :: 0 <= i < |ns| ==> FineResult(ns, i)
  {
  }

  // ---------------------------------------------------------------- a name that is a value

  /** Text that strtoul cannot make anything of. */
  predicate NoNumberText(t: seq<char>) {
    t != [] && NoNumberChar(t[0])
  }

  /** A value "id" is taken for the name: the key behind it is read as a number. Unless it is one the reply is refused,
      whatever the rest of it says. */
  lemma NameAsValueRefused(before: seq<char>, gap: seq<char>, members: Members, after: seq<char>, stack: seq<Token>,
                           s: Reading, value: nat, max: Limits)
    requires IsReply(before, gap, members, after, s.buf) && |stack| == TOKENS
    requires members.Member? && !IsName(Quoted(members.key)) && members.value == Quoted("id")
    requires members.rest.Member? && NoNumberText(members.rest.key)
    ensures DecodeReply(stack, s, value, max) == Decoded(-1, s.(id := 0), value)
  {
    hide IsReply, DecodeReply, MemberTokens, ReadsUint, UintOf;
    var ns, rest := MemberNodes(members), members.rest;
    FirstMember(members, ns, 0) by { assert ns[0..] == ns; }
    FirstMember(rest, ns, 2);
    NoNumberReads(rest.key, max);
    assert Fine(ns, 0, max);
    assert Fault(ns, 1, max);
    FirstFaultRefuses(before, gap, members, after, stack, s, value, max, 1);
    var ts := MemberTokens(members, |before| + 1 + |gap|);
    assert ReadFrom(ns, ts, 0, s, max) == ReadFrom(ns, ts, 1, s, max);
  }

  lemma NoNumberReads(t: seq<char>, max: Limits)
    requires NoNumberText(t)
    ensures !ReadsUint(Quoted(t), max) && UintOf(Quoted(t), max) == 0
  {
    hide NoNumberChar;
    BracketIsNoNumber(t, 0);
  }
}
