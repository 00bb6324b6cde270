/** A printed JSON value as the list of its nodes, and what the readers of eth/web3_jsonp.c find at the token of a node,
    whatever NULs have been written behind other tokens meanwhile. */
module Web3Nodes {
  import opened Common
  import opened Jsmn
  import opened JsmnTree
  import opened HexToBin
  import opened Uint256Text
  import opened Web3Reply

  // ---------------------------------------------------------------- nodes

  /** The values in v at any depth, in the order of the text. A key is a string like any other. */
  function Nodes(v: Json): (ns: seq<Json>)
    ensures ns != [] && ns[0] == v
  {
    match v
    case Bare(_) => [v]
    case Quoted(_) => [v]
    case List(_, items) => [v] + ItemNodes(items)
    case Record(_, members) => [v] + MemberNodes(members)
  }

  function ItemNodes(items: Items): seq<Json> {
    match items
    case NoItem => []
    case Item(v, _, _, rest) => Nodes(v) + ItemNodes(rest)
  }

  function MemberNodes(members: Members): seq<Json> {
    match members
    case NoMember => []
    case Member(key, _, _, v, _, _, rest) => [Quoted(key)] + Nodes(v) + MemberNodes(rest)
  }

  /** What the token of a node spans. */
  function TextOf(v: Json): seq<char> {
    if v.Quoted? then v.body else Render(v)
  }

  predicate IsLeaf(v: Json) {
    v.Bare? || v.Quoted?
  }

  /** The nodes of an object follow it. */
  ghost predicate Nested(ns: seq<Json>) {
    forall k :: 0 <= k < |ns| && ns[k].Record? ==> MemberNodes(ns[k].members) <= ns[k + 1..]
  }

  lemma NestedJoin(a: seq<Json>, b: seq<Json>)
    requires Nested(a) && Nested(b)
    ensures Nested(a + b)
  {
    hide MemberNodes;
    var ns := a + b;
    forall k | 0 <= k < |ns| && ns[k].Record? ensures MemberNodes(ns[k].members) <= ns[k + 1..] {
      if k < |a| {
        assert ns[k + 1..] == a[k + 1..] + b;
      } else {
        assert ns[k + 1..] == b[k - |a| + 1..];
      }
    }
  }

  lemma NestedHead(v: Json, below: seq<Json>)
    requires Nested(below) && (v.Record? ==> below == MemberNodes(v.members))
    ensures Nested([v] + below)
  {
    hide MemberNodes;
    var ns := [v] + below;
    forall k | 0 <= k < |ns| && ns[k].Record? ensures MemberNodes(ns[k].members) <= ns[k + 1..] {
      assert ns[k + 1..] == below[k..];
    }
  }

  lemma {:induction false} NestedNodes(v: Json)
    ensures Nested(Nodes(v))
    decreases v
  {
    match v
    case Bare(_) =>
    case Quoted(_) =>
    case List(_, items) =>
      NestedItems(items);
      NestedHead(v, ItemNodes(items));
    case Record(_, members) =>
      NestedMembers(members);
      NestedHead(v, MemberNodes(members));
  }

  lemma {:induction false} NestedItems(items: Items)
    ensures Nested(ItemNodes(items))
    decreases items
  {
    hide Nodes, Nested;
    match items
    case NoItem => NestedNothing();
    case Item(v, _, _, rest) =>
      NestedNodes(v);
      NestedItems(rest);
      NestedJoin(Nodes(v), ItemNodes(rest));
  }

  lemma NestedNothing()
    ensures Nested([])
  {
  }

  lemma {:induction false} NestedMembers(members: Members)
    ensures Nested(MemberNodes(members))
    decreases members
  {
    hide Nodes, Nested;
    match members
    case NoMember => NestedNothing();
    case Member(key, _, _, v, _, _, rest) =>
      NestedNodes(v);
      NestedMembers(rest);
      NestedNothing();
      NestedHead(Quoted(key), []);
      assert [Quoted(key)] + [] == [Quoted(key)];
      NestedJoin([Quoted(key)], Nodes(v));
      NestedJoin([Quoted(key)] + Nodes(v), MemberNodes(rest));
  }

  /** A token for every node. */
  lemma {:induction false} TokenCount(v: Json, p: nat)
    ensures |Tokens(v, p)| == |Nodes(v)|
    decreases v
  {
    hide Render;
    match v
    case Bare(_) =>
    case Quoted(_) =>
    case List(gap, items) => ItemTokenCount(items, p + 1 + |gap|);
    case Record(gap, members) => MemberTokenCount(members, p + 1 + |gap|);
  }

  lemma {:induction false} ItemTokenCount(items: Items, p: nat)
    ensures |ItemTokens(items, p)| == |ItemNodes(items)|
    decreases items
  {
    hide Render, Tokens, Nodes;
    match items
    case NoItem =>
    case Item(v, after, lead, rest) =>
      TokenCount(v, p);
      ItemTokenCount(rest, p + |Render(v)| + |after| + 1 + |lead|);
  }

  lemma {:induction false} MemberTokenCount(members: Members, p: nat)
    ensures |MemberTokens(members, p)| == |MemberNodes(members)|
    decreases members
  {
    hide Render, Tokens, Nodes;
    match members
    case NoMember =>
    case Member(key, mid, lead, v, after, next, rest) =>
      var q := p + |key| + 2 + |mid| + 1 + |lead|;
      TokenCount(v, q);
      MemberTokenCount(rest, q + |Render(v)| + |after| + 1 + |next|);
  }

  // ---------------------------------------------------------------- where the parts of a text are

  /** Where the value of the first member starts, and the members behind it, when they are printed at p. */
  function ValueStart(members: Members, p: nat): nat
    requires members.Member?
  {
    p + |members.key| + 2 + |members.mid| + 1 + |members.lead|
  }

  function RestStart(members: Members, p: nat): nat
    requires members.Member?
  {
    ValueStart(members, p) + |Render(members.value)| + |members.after| + 1 + |members.next|
  }

  function ItemRest(items: Items, p: nat): nat
    requires items.Item?
  {
    p + |Render(items.value)| + |items.after| + 1 + |items.lead|
  }

  lemma QuoteAt(js: seq<char>, p: nat, body: seq<char>)
    requires At(js, p, Quote(body))
    ensures p + 1 + |body| < |js| && js[p + 1..p + 1 + |body|] == body
  {
    AtSplit(js, p, "\"", body + "\"") by { assert "\"" + (body + "\"") == Quote(body); }
    AtSplit(js, p + 1, body, "\"");
  }

  function Inner(v: Json): seq<char>
    requires v.List? || v.Record?
  {
    if v.List? then RenderItems(v.items) + "]" else RenderMembers(v.members) + "}"
  }

  /** What follows the opening bracket and its whitespace. */
  lemma InsideAt(js: seq<char>, p: nat, v: Json)
    requires v.List? || v.Record?
    requires At(js, p, Render(v))
    ensures At(js, p + 1 + |v.gap|, Inner(v))
  {
    hide At, RenderItems, RenderMembers;
    var bracket := if v.List? then "[" else "{";
    assert Render(v) == bracket + (v.gap + Inner(v));
    AtSplit(js, p, bracket, v.gap + Inner(v));
    AtSplit(js, p + 1, v.gap, Inner(v));
  }

  lemma ItemTokensUnfold(items: Items, p: nat)
    ensures ItemTokens(items, p) ==
            if items == NoItem then []
            else Tokens(items.value, p)
                 + ItemTokens(items.rest, ItemRest(items, p))
  {
    hide Render, Tokens;
  }

  /** The elements behind the first. */
  function MoreItems(items: Items): seq<char>
    requires items.Item?
  {
    if items.rest == NoItem then [] else "," + (items.lead + RenderItems(items.rest))
  }

  lemma ItemText(items: Items, tail: seq<char>)
    requires items.Item?
    ensures RenderItems(items) + tail == Render(items.value) + (items.after + (MoreItems(items) + tail))
  {
    hide Render;
    assert RenderItems(items) == Render(items.value) + items.after + MoreItems(items) by {
      Assoc(",", items.lead, RenderItems(items.rest));
    }
    Assoc(Render(items.value) + items.after, MoreItems(items), tail);
    Assoc(Render(items.value), items.after, MoreItems(items) + tail);
  }

  /** Where the parts of the first element are. */
  lemma {:induction false} ItemAt(js: seq<char>, items: Items, p: nat, tail: seq<char>)
    requires items.Item? && At(js, p, RenderItems(items) + tail)
    ensures At(js, p, Render(items.value))
    ensures items.rest != NoItem ==>
              At(js, ItemRest(items, p), RenderItems(items.rest) + tail)
    ensures At(js, p + |Render(items.value)|, items.after + (MoreItems(items) + tail))
  {
    hide At, Render, RenderItems;
    ItemText(items, tail);
    AtSplit(js, p, Render(items.value), items.after + (MoreItems(items) + tail));
    if items.rest != NoItem {
      RestAt(js, p + |Render(items.value)|, items.after, items.lead, RenderItems(items.rest), tail);
    }
  }

  /** Where the parts of a text in five parts and a tail are. */
  lemma PartsAt(js: seq<char>, p: nat, a: seq<char>, b: seq<char>, c: seq<char>, d: seq<char>, e: seq<char>,
                t: seq<char>)
    requires At(js, p, a + (b + (c + (d + (e + t)))))
    ensures At(js, p, a) && At(js, p + |a| + |b| + |c|, d) && At(js, p + |a| + |b| + |c| + |d|, e)
    ensures At(js, p + |a| + |b| + |c| + |d| + |e|, t)
  {
    hide At;
    AtSplit(js, p, a, b + (c + (d + (e + t))));
    AtSplit(js, p + |a|, b, c + (d + (e + t)));
    AtSplit(js, p + |a| + |b|, c, d + (e + t));
    AtSplit(js, p + |a| + |b| + |c|, d, e + t);
    AtSplit(js, p + |a| + |b| + |c| + |d|, e, t);
  }

  /** What is behind the value of the first member. */
  function Behind(members: Members, tail: seq<char>): seq<char>
    requires members.Member?
  {
    members.after
    + ((if members.rest == NoMember then [] else "," + (members.next + RenderMembers(members.rest))) + tail)
  }

  /** Where the parts of the first member are. */
  lemma MemberAt(js: seq<char>, members: Members, p: nat, tail: seq<char>)
    requires members.Member? && At(js, p, RenderMembers(members) + tail)
    ensures At(js, p, Quote(members.key)) && At(js, ValueStart(members, p), Render(members.value))
    ensures At(js, ValueStart(members, p) + |Render(members.value)|, Behind(members, tail))
    ensures members.rest != NoMember ==> At(js, RestStart(members, p), RenderMembers(members.rest) + tail)
  {
    hide At, Render, RenderMembers;
    var Member(key, mid, lead, v, after, next, rest) := members;
    MemberText(members, tail);
    PartsAt(js, p, Quote(key), mid, ":", lead, Render(v), Behind(members, tail));
    if rest != NoMember {
      RestAt(js, ValueStart(members, p) + |Render(v)|, after, next, RenderMembers(rest), tail);
    }
  }

  lemma RestAt(js: seq<char>, p: nat, after: seq<char>, next: seq<char>, rest: seq<char>, tail: seq<char>)
    requires At(js, p, after + (("," + (next + rest)) + tail))
    ensures At(js, p + |after| + 1 + |next|, rest + tail)
  {
    hide At;
    AtSplit(js, p, after, ("," + (next + rest)) + tail);
    assert ("," + (next + rest)) + tail == "," + (next + (rest + tail));
    AtSplit(js, p + |after|, ",", next + (rest + tail));
    AtSplit(js, p + |after| + 1, next, rest + tail);
  }

  function KeyToken(members: Members, p: nat): Token
    requires members.Member?
  {
    Token(String, p + 1, p + 1 + |members.key|, 1)
  }

  lemma MemberTokensUnfold(members: Members, p: nat)
    ensures MemberTokens(members, p) ==
            if members == NoMember then []
            else [KeyToken(members, p)] + Tokens(members.value, ValueStart(members, p))
                 + MemberTokens(members.rest, RestStart(members, p))
  {
    hide Render, Tokens;
  }


  /** Blanks and then a separator: a value in front of them ends there. */
  lemma EndsAt(js: seq<char>, p: nat, ws: seq<char>, tail: seq<char>)
    requires At(js, p, ws + tail) && Spaces(ws) && tail != [] && EndsPrimitive(tail[0])
    ensures p < |js| && EndsPrimitive(js[p])
  {
    CharAt(js, p, ws + tail, 0);
  }

  // ---------------------------------------------------------------- the tokens of the nodes

  /** Token t is the one of node v. */
  ghost predicate IsAt(js: seq<char>, t: Token, v: Json) {
    && t.start >= 0 && At(js, t.start, TextOf(v)) && t.end == t.start + |TextOf(v)| && WellFormed(v)
    && match v
       case Bare(_) => t.kind == Primitive && t.end < |js| && EndsPrimitive(js[t.end])
       case Quoted(_) => t.kind == String && t.end < |js| && js[t.end] == '\"'
       case List(_, _) => t.kind == Array
       case Record(_, members) => t.kind == Object && t.size == MemberCount(members)
  }

  ghost predicate Printed(js: seq<char>, ts: seq<Token>, ns: seq<Json>) {
    |ts| == |ns| && forall k :: 0 <= k < |ns| ==> IsAt(js, ts[k], ns[k])
  }

  lemma PrintedJoin(js: seq<char>, ts: seq<Token>, ns: seq<Json>, us: seq<Token>, ms: seq<Json>)
    requires Printed(js, ts, ns) && Printed(js, us, ms)
    ensures Printed(js, ts + us, ns + ms)
  {
    hide IsAt;
  }

  lemma PrintedHead(js: seq<char>, t: Token, v: Json)
    requires IsAt(js, t, v)
    ensures Printed(js, [t], [v])
  {
    hide IsAt;
  }

  lemma {:induction false} QuotedIsAt(js: seq<char>, p: nat, body: seq<char>, size: int)
    requires At(js, p, Quote(body)) && StringBody(body)
    ensures IsAt(js, Token(String, p + 1, p + 1 + |body|, size), Quoted(body))
  {
    hide StringBody, Render, At;
    QuoteAt(js, p, body);
    QuoteParts(js, p, body);
  }

  lemma QuoteParts(js: seq<char>, p: nat, body: seq<char>)
    requires At(js, p, Quote(body))
    ensures At(js, p + 1, body) && p + 1 + |body| < |js| && js[p + 1 + |body|] == '\"'
  {
    QuoteAt(js, p, body);
    CharAt(js, p, Quote(body), 1 + |body|);
  }

  /** A leaf, or the token of a bracket pair. */
  lemma HeadIsAt(js: seq<char>, p: nat, v: Json)
    requires WellFormed(v) && At(js, p, Render(v))
    requires p + |Render(v)| < |js| && EndsPrimitive(js[p + |Render(v)|])
    ensures IsAt(js, Tokens(v, p)[0], v)
  {
    hide At, RenderItems, RenderMembers, ItemTokens, MemberTokens, WellFormedItems, WellFormedMembers, StringBody,
      BareText;
    if v.Quoted? {
      QuotedIsAt(js, p, v.body, 0);
    }
  }

  lemma {:induction false} NodesAt(js: seq<char>, p: nat, v: Json)
    requires WellFormed(v) && At(js, p, Render(v))
    requires p + |Render(v)| < |js| && EndsPrimitive(js[p + |Render(v)|])
    ensures Printed(js, Tokens(v, p), Nodes(v))
    decreases v, 1
  {
    hide At, Render, RenderItems, RenderMembers, ItemTokens, MemberTokens, IsAt, Printed, StringBody, BareText;
    HeadIsAt(js, p, v);
    PrintedHead(js, Tokens(v, p)[0], v);
    match v
    case Bare(_) =>
    case Quoted(_) =>
    case List(gap, items) =>
      InsideAt(js, p, v);
      ItemNodesAt(js, p + 1 + |gap|, items);
      PrintedJoin(js, [Tokens(v, p)[0]], [v], ItemTokens(items, p + 1 + |gap|), ItemNodes(items));
    case Record(gap, members) =>
      InsideAt(js, p, v);
      MemberNodesAt(js, p + 1 + |gap|, members);
      PrintedJoin(js, [Tokens(v, p)[0]], [v], MemberTokens(members, p + 1 + |gap|), MemberNodes(members));
  }

  lemma PrintedNothing(js: seq<char>)
    ensures Printed(js, [], [])
  {
  }

  lemma {:induction false} ItemNodesAt(js: seq<char>, p: nat, items: Items)
    requires WellFormedItems(items) && (items != NoItem ==> At(js, p, RenderItems(items) + "]"))
    ensures Printed(js, ItemTokens(items, p), ItemNodes(items))
    decreases items, 0
  {
    hide At, Render, RenderItems, Tokens, ItemTokens, Nodes, IsAt, Printed, WellFormed, Spaces;
    ItemTokensUnfold(items, p);
    match items
    case NoItem => PrintedNothing(js);
    case Item(v, after, _, rest) =>
      ItemAt(js, items, p, "]");
      EndsAt(js, p + |Render(v)|, after, MoreItems(items) + "]");
      NodesAt(js, p, v);
      ItemNodesAt(js, ItemRest(items, p), rest);
      PrintedJoin(js, Tokens(v, p), Nodes(v), ItemTokens(rest, ItemRest(items, p)), ItemNodes(rest));
  }

  lemma {:induction false} MemberNodesAt(js: seq<char>, p: nat, members: Members)
    requires WellFormedMembers(members) && (members != NoMember ==> At(js, p, RenderMembers(members) + "}"))
    ensures Printed(js, MemberTokens(members, p), MemberNodes(members))
    decreases members, 0
  {
    hide At, Render, RenderMembers, Tokens, MemberTokens, Nodes, IsAt, Printed, WellFormed, Spaces, StringBody,
      ValueStart, RestStart;
    MemberTokensUnfold(members, p);
    match members
    case NoMember => PrintedNothing(js);
    case Member(key, _, _, v, after, _, rest) =>
      var q, r := ValueStart(members, p), RestStart(members, p);
      MemberAt(js, members, p, "}");
      QuotedIsAt(js, p, key, 1);
      PrintedHead(js, KeyToken(members, p), Quoted(key));
      BehindEnds(js, q + |Render(v)|, members);
      NodesAt(js, q, v);
      PrintedJoin(js, [KeyToken(members, p)], [Quoted(key)], Tokens(v, q), Nodes(v));
      MemberNodesAt(js, r, rest);
      PrintedJoin(js, [KeyToken(members, p)] + Tokens(v, q), [Quoted(key)] + Nodes(v),
                  MemberTokens(rest, r), MemberNodes(rest));
  }

  lemma BehindEnds(js: seq<char>, p: nat, members: Members)
    requires members.Member? && Spaces(members.after) && At(js, p, Behind(members, "}"))
    ensures p < |js| && EndsPrimitive(js[p])
  {
    hide At, RenderMembers;
    var more := if members.rest == NoMember then [] else "," + (members.next + RenderMembers(members.rest));
    EndsAt(js, p, members.after, more + "}");
  }

  // ---------------------------------------------------------------- how the tokens lie to each other

  /** The tokens lie between lo and hi. */
  ghost predicate Between(ts: seq<Token>, lo: int, hi: int) {
    forall k :: 0 <= k < |ts| ==> lo <= ts[k].start <= ts[k].end <= hi
  }

  /** No token ends within a leaf, or where a bracket pair starts. */
  ghost predicate Apart(ts: seq<Token>) {
    forall k, m :: 0 <= k < |ts| && 0 <= m < |ts| ==> OutOf(ts[k], ts[m].end)
  }

  predicate OutOf(t: Token, e: int) {
    e < t.start || e >= t.end || (IsContainer(t) && e > t.start)
  }

  lemma ApartJoin(a: seq<Token>, b: seq<Token>, lo: int, mid: int, hi: int)
    requires Apart(a) && Apart(b) && Between(a, lo, mid) && Between(b, mid + 1, hi) && lo <= mid <= hi
    ensures Apart(a + b) && Between(a + b, lo, hi)
  {
    var ts := a + b;
    forall k, m | 0 <= k < |ts| && 0 <= m < |ts| ensures OutOf(ts[k], ts[m].end) {
      var t := if k < |a| then a[k] else b[k - |a|];
      var u := if m < |a| then a[m] else b[m - |a|];
      assert ts[k] == t && ts[m] == u;
    }
  }

  lemma ApartHead(t: Token, ts: seq<Token>)
    requires Apart(ts) && IsContainer(t) && t.start < t.end && Between(ts, t.start + 1, t.end)
    ensures Apart([t] + ts) && Between([t] + ts, t.start, t.end)
  {
    var us := [t] + ts;
    forall k, m | 0 <= k < |us| && 0 <= m < |us| ensures OutOf(us[k], us[m].end) {
      assert k > 0 ==> us[k] == ts[k - 1];
      assert m > 0 ==> us[m] == ts[m - 1];
    }
  }

  lemma ApartOne(t: Token)
    requires t.start <= t.end
    ensures Apart([t]) && Between([t], t.start, t.end)
  {
  }

  lemma Wider(ts: seq<Token>, lo: int, hi: int, lo': int, hi': int)
    requires Between(ts, lo, hi) && lo' <= lo && hi <= hi'
    ensures Between(ts, lo', hi')
  {
  }

  lemma {:induction false} TokensApart(v: Json, p: nat)
    ensures Apart(Tokens(v, p)) && Between(Tokens(v, p), p, p + |Render(v)|)
    decreases v, 1
  {
    hide Render, RenderItems, RenderMembers, ItemTokens, MemberTokens, Apart, Between;
    RenderLength(v);
    match v
    case Bare(text) => ApartOne(Tokens(v, p)[0]);
    case Quoted(body) =>
      ApartOne(Tokens(v, p)[0]);
      Wider(Tokens(v, p), p + 1, p + 1 + |body|, p, p + |Render(v)|);
    case List(gap, items) =>
      ItemsApart(items, p + 1 + |gap|);
      ApartInside(Tokens(v, p)[0], ItemTokens(items, p + 1 + |gap|), p + 1 + |gap|, |RenderItems(items)|);
    case Record(gap, members) =>
      MembersApart(members, p + 1 + |gap|);
      ApartInside(Tokens(v, p)[0], MemberTokens(members, p + 1 + |gap|), p + 1 + |gap|, |RenderMembers(members)|);
  }

  lemma RenderLength(v: Json)
    ensures match v
            case Bare(text) => Render(v) == text
            case Quoted(body) => |Render(v)| == |body| + 2
            case List(gap, items) => |Render(v)| == |gap| + |RenderItems(items)| + 2
            case Record(gap, members) => |Render(v)| == |gap| + |RenderMembers(members)| + 2
  {
    hide RenderItems, RenderMembers;
  }

  lemma ApartInside(t: Token, ts: seq<Token>, q: int, n: nat)
    requires Apart(ts) && Between(ts, q, q + n) && IsContainer(t) && t.start < q && q + n < t.end
    ensures Apart([t] + ts) && Between([t] + ts, t.start, t.end)
  {
    hide Apart, Between;
    Wider(ts, q, q + n, t.start + 1, t.end);
    ApartHead(t, ts);
  }

  lemma ApartNothing(lo: int, hi: int)
    ensures Apart([]) && Between([], lo, hi)
  {
  }

  lemma {:induction false} ItemsApart(items: Items, p: nat)
    ensures Apart(ItemTokens(items, p)) && Between(ItemTokens(items, p), p, p + |RenderItems(items)|)
    decreases items, 0
  {
    hide Render, Tokens, ItemTokens, Apart, Between;
    ItemTokensUnfold(items, p);
    match items
    case NoItem => ApartNothing(p, p);
    case Item(v, after, lead, rest) =>
      var a, b, q := Tokens(v, p), ItemTokens(rest, ItemRest(items, p)), p + |RenderItems(items)|;
      TokensApart(v, p);
      if rest == NoItem {
        ItemTokensUnfold(rest, ItemRest(items, p));
        assert a + [] == a;
        Wider(a, p, p + |Render(v)|, p, q);
      } else {
        ItemsApart(rest, ItemRest(items, p));
        Wider(b, ItemRest(items, p), ItemRest(items, p) + |RenderItems(rest)|, p + |Render(v)| + 1, q);
        ApartJoin(a, b, p, p + |Render(v)|, q);
      }
  }

  lemma {:induction false} MembersApart(members: Members, p: nat)
    ensures Apart(MemberTokens(members, p)) && Between(MemberTokens(members, p), p, p + |RenderMembers(members)|)
    decreases members, 0
  {
    hide Render, Tokens, MemberTokens, Apart, Between;
    MemberTokensUnfold(members, p);
    match members
    case NoMember => ApartNothing(p, p);
    case Member(key, mid, lead, v, after, next, rest) =>
      var q, r, e := ValueStart(members, p), RestStart(members, p), p + |RenderMembers(members)|;
      var k, a, b := [KeyToken(members, p)], Tokens(v, q), MemberTokens(rest, r);
      MemberLength(members);
      ApartOne(k[0]);
      Wider(k, p + 1, p + 1 + |key|, p, p + 1 + |key|);
      TokensApart(v, q);
      Wider(a, q, q + |Render(v)|, p + 1 + |key| + 1, q + |Render(v)|);
      ApartJoin(k, a, p, p + 1 + |key|, q + |Render(v)|);
      if rest == NoMember {
        MemberTokensUnfold(rest, r);
        assert k + a + [] == k + a;
        Wider(k + a, p, q + |Render(v)|, p, e);
      } else {
        MembersApart(rest, r);
        Wider(b, r, r + |RenderMembers(rest)|, q + |Render(v)| + 1, e);
        ApartJoin(k + a, b, p, q + |Render(v)|, e);
      }
  }

  lemma MemberLength(members: Members)
    requires members.Member?
    ensures |RenderMembers(members)| == ValueStart(members, 0) + |Render(members.value)| + |members.after|
            + if members.rest == NoMember then 0 else 1 + |members.next| + |RenderMembers(members.rest)|
  {
    hide Render;
  }

  // ---------------------------------------------------------------- NULs behind tokens

  ghost predicate Intact(js: seq<char>, buf: seq<char>, t: Token) {
    |buf| == |js| && Within(js, t) &&
    if IsContainer(t) then t.start < t.end && buf[t.start] == js[t.start]
    else buf[t.start..t.end] == js[t.start..t.end]
  }

  /** The text with NULs here and there, but not in a leaf and not over an opening bracket. */
  ghost predicate Kept(js: seq<char>, buf: seq<char>, ts: seq<Token>) {
    |buf| == |js| && (forall c :: 0 <= c < |js| ==> buf[c] == js[c] || buf[c] == '\0')
    && forall k :: 0 <= k < |ts| ==> Intact(js, buf, ts[k])
  }

  lemma KeptItself(js: seq<char>, ts: seq<Token>, ns: seq<Json>)
    requires Printed(js, ts, ns)
    ensures Kept(js, js, ts)
  {
    hide IsAt, Render;
    forall k | 0 <= k < |ts| ensures Intact(js, js, ts[k]) {
      assert IsAt(js, ts[k], ns[k]);
      IsAtWithin(js, ts[k], ns[k]);
    }
  }

  lemma IsAtWithin(js: seq<char>, t: Token, v: Json)
    requires IsAt(js, t, v)
    ensures Within(js, t) && Slice(js, t) == TextOf(v) && (IsContainer(t) <==> !IsLeaf(v))
    ensures !IsLeaf(v) ==> t.start < t.end && js[t.start] == if v.List? then '[' else '{'
  {
    hide RenderItems, RenderMembers, StringBody, BareText, WellFormedItems, WellFormedMembers;
    if !IsLeaf(v) {
      CharAt(js, t.start, Render(v), 0);
    }
  }

  /** The text with a NUL written at e. */
  function Ended(buf: seq<char>, e: int): (r: seq<char>)
    ensures |r| == |buf|
  {
    if 0 <= e < |buf| then buf[e := '\0'] else buf
  }

  /** A NUL behind a token breaks nothing. */
  lemma KeptEnded(js: seq<char>, buf: seq<char>, ts: seq<Token>, m: nat)
    requires Kept(js, buf, ts) && Apart(ts) && m < |ts|
    ensures Kept(js, Ended(buf, ts[m].end), ts)
  {
    var e := ts[m].end;
    forall k | 0 <= k < |ts| ensures Intact(js, Ended(buf, e), ts[k]) {
      assert Intact(js, buf, ts[k]) && OutOf(ts[k], e);
      if !IsContainer(ts[k]) && 0 <= e < |buf| {
        assert Ended(buf, e)[ts[k].start..ts[k].end] == buf[ts[k].start..ts[k].end];
      }
    }
  }

  /** What the readers see of the token of a leaf, and behind it. */
  lemma LeafKept(js: seq<char>, buf: seq<char>, t: Token, v: Json)
    requires IsAt(js, t, v) && IsLeaf(v) && Intact(js, buf, t)
    requires forall c :: 0 <= c < |js| ==> buf[c] == js[c] || buf[c] == '\0'
    ensures At(buf, t.start, TextOf(v)) && t.end < |buf| && t.end == t.start + |TextOf(v)|
    ensures v.Quoted? ==> buf[t.end] == '\"' || buf[t.end] == '\0'
    ensures v.Bare? ==> EndsPrimitive(buf[t.end]) || buf[t.end] == '\0'
  {
    hide Render, StringBody, BareText, EndsPrimitive;
  }

  // ---------------------------------------------------------------- numbers

  function Whole(t: seq<char>): Token {
    Token(String, 0, |t|, 0)
  }

  /** What __json_uint10 and __json_int10 make of a text that nothing follows: 0 or -1, and what is stored. */
  function UintText(t: seq<char>, max: nat): (r: (int, nat))
    ensures r.0 == 0 || r.0 == -1
  {
    Uint10(t, Whole(t), max)
  }

  function IntText(t: seq<char>, max: nat): (r: (int, int))
    ensures r.0 == 0 || r.0 == -1
  {
    Int10(t, Whole(t), max)
  }

  predicate NoNumberChar(c: char) {
    !IsBlank(c) && !IsDigit(c) && c != '+' && c != '-'
  }

  function Moved(n: Number, p: nat): Number {
    match n
    case NoNumber => NoNumber
    case Number(negative, magnitude, end) => Number(negative, magnitude, p + end)
  }

  lemma {:induction false} BlanksMoved(buf: seq<char>, p: nat, t: seq<char>, k: nat)
    requires k <= |t| && At(buf, p, t) && p + |t| < |buf|
    requires !IsBlank(buf[p + |t|]) || (k < |t| && !IsBlank(t[k]))
    ensures SkipBlanks(buf, p + k) == p + SkipBlanks(t, k)
    decreases |t| - k
  {
    hide IsBlank;
    if k < |t| {
      CharAt(buf, p, t, k);
      if IsBlank(t[k]) {
        BlanksMoved(buf, p, t, k + 1);
      }
    }
  }

  lemma {:induction false} DigitsMoved(buf: seq<char>, p: nat, t: seq<char>, k: nat)
    requires k <= |t| && At(buf, p, t) && p + |t| < |buf| && !IsDigit(buf[p + |t|])
    ensures DigitRun(buf, p + k) == p + DigitRun(t, k)
    decreases |t| - k
  {
    hide IsDigit;
    if k < |t| {
      CharAt(buf, p, t, k);
      if IsDigit(t[k]) {
        DigitsMoved(buf, p, t, k + 1);
      }
    }
  }

  predicate EndsNumber(c: char, t: seq<char>) {
    !IsDigit(c) && c != '+' && c != '-' && (!IsBlank(c) || (t != [] && !IsBlank(t[0])))
  }

  /** A number is found in a longer text as in the text alone, unless what is behind that goes on or begins one. */
  lemma NumberMoved(buf: seq<char>, p: nat, t: seq<char>)
    requires At(buf, p, t) && p + |t| < |buf| && EndsNumber(buf[p + |t|], t)
    ensures FindNumber(buf, p) == Moved(FindNumber(t, 0), p)
  {
    hide IsDigit, IsBlank, DigitRun, SkipBlanks, Decimal;
    BlanksMoved(buf, p, t, 0);
    var q := SkipBlanks(t, 0);
    if q < |t| {
      CharAt(buf, p, t, q);
    }
    var from := if q < |t| && (t[q] == '+' || t[q] == '-') then q + 1 else q;
    DigitsMoved(buf, p, t, from);
    var e := DigitRun(t, from);
    PartAt(buf, p, t, from, e);
  }

  lemma PartAt(buf: seq<char>, p: nat, t: seq<char>, i: nat, j: nat)
    requires At(buf, p, t) && i <= j <= |t|
    ensures p + j <= |buf| && buf[p + i..p + j] == t[i..j]
  {
    forall k | i <= k < j ensures buf[p + k] == t[k] {
      CharAt(buf, p, t, k);
    }
  }

  lemma BracketIsNoNumber(buf: seq<char>, p: nat)
    requires p < |buf| && NoNumberChar(buf[p])
    ensures FindNumber(buf, p) == NoNumber
  {
  }

  lemma Characters(c: char)
    ensures c == '[' || c == '{' || c == '\"' || c == '\0' ==> NoNumberChar(c)
    ensures EndsPrimitive(c) ==> !IsDigit(c) && c != '+' && c != '-'
    ensures Printable(c) && !EndsPrimitive(c) ==> !IsBlank(c)
  {
  }

  /** At the token of any node the readers find what they find in its text alone. */
  lemma NumberAt(js: seq<char>, buf: seq<char>, t: Token, v: Json, max: Limits)
    requires IsAt(js, t, v) && Intact(js, buf, t)
    requires forall c :: 0 <= c < |js| ==> buf[c] == js[c] || buf[c] == '\0'
    ensures Starts(buf, t)
    ensures Uint10(buf, t, max.ulong) == UintText(TextOf(v), max.ulong)
    ensures Int10(buf, t, max.long) == IntText(TextOf(v), max.long)
  {
    hide IsBlank, IsDigit, EndsPrimitive, Printable, FindNumber, Render, StringBody, IsAt, At, Intact;
    IsAtWithin(js, t, v);
    IntactLength(js, buf, t);
    if IsLeaf(v) {
      LeafKept(js, buf, t, v);
      Characters(buf[t.end]);
      if v.Bare? {
        BareHasNoBlank(js, t, v);
      }
      NumberMoved(buf, t.start, TextOf(v));
    } else {
      BracketThere(js, buf, t, v);
      BracketIsNoNumber(buf, t.start);
      BracketIsNoNumber(TextOf(v), 0);
    }
  }

  lemma IntactLength(js: seq<char>, buf: seq<char>, t: Token)
    requires Intact(js, buf, t)
    ensures |buf| == |js|
  {
  }

  lemma BareHasNoBlank(js: seq<char>, t: Token, v: Json)
    requires IsAt(js, t, v) && v.Bare?
    ensures TextOf(v) == v.text != [] && !IsBlank(v.text[0])
  {
    Characters(v.text[0]);
  }

  lemma BracketThere(js: seq<char>, buf: seq<char>, t: Token, v: Json)
    requires IsAt(js, t, v) && !IsLeaf(v) && Intact(js, buf, t)
    ensures t.start < t.end && TextOf(v) != [] && buf[t.start] == TextOf(v)[0] && NoNumberChar(buf[t.start])
    ensures TextOf(v)[0] == '[' || TextOf(v)[0] == '{'
  {
    hide At, IsBlank, IsDigit, RenderItems, RenderMembers;
    IsAtWithin(js, t, v);
    Characters('[');
    Characters('{');
  }

  // ---------------------------------------------------------------- which texts are numbers

  function Unblanked(t: seq<char>): seq<char> {
    if t != [] && IsBlank(t[0]) then Unblanked(t[1..]) else t
  }

  lemma {:induction false} UnblankedIs(t: seq<char>)
    ensures var r := Unblanked(t);
            |r| <= |t| && r == t[|t| - |r|..] && SkipBlanks(t, 0) == |t| - |r| && (r != [] ==> !IsBlank(r[0]))
    decreases |t|
  {
    hide IsBlank;
    if t != [] && IsBlank(t[0]) {
      BlankOff(t);
      UnblankedIs(t[1..]);
    }
  }

  lemma {:induction false} BlanksTail(t: seq<char>, k: nat, p: nat)
    requires k <= p <= |t|
    ensures SkipBlanks(t, p) == k + SkipBlanks(t[k..], p - k)
    decreases |t| - p
  {
    hide IsBlank;
    if p < |t| {
      assert t[k..][p - k] == t[p];
      if IsBlank(t[p]) {
        BlanksTail(t, k, p + 1);
      }
    }
  }

  lemma BlankOff(t: seq<char>)
    requires t != [] && IsBlank(t[0])
    ensures SkipBlanks(t, 0) == 1 + SkipBlanks(t[1..], 0)
  {
    hide IsBlank;
    BlanksTail(t, 1, 1);
  }

  function SignOff(t: seq<char>): seq<char> {
    if t != [] && (t[0] == '+' || t[0] == '-') then t[1..] else t
  }

  /** Blanks, a sign, digits: the first two may be missing. */
  predicate IsNumeral(t: seq<char>) {
    var d := SignOff(Unblanked(t));
    d != [] && Digits10(d)
  }

  function Magnitude(t: seq<char>): nat
    requires IsNumeral(t)
  {
    Decimal(SignOff(Unblanked(t)))
  }

  predicate IsNegative(t: seq<char>) {
    Unblanked(t) != [] && Unblanked(t)[0] == '-'
  }

  lemma {:induction false} DigitRunToEnd(t: seq<char>, p: nat)
    requires p <= |t|
    ensures DigitRun(t, p) == |t| <==> Digits10(t[p..])
    decreases |t| - p
  {
    hide IsDigit;
    if p < |t| {
      assert t[p..][0] == t[p] && t[p..][1..] == t[p + 1..];
      if IsDigit(t[p]) {
        DigitRunToEnd(t, p + 1);
        assert t[p..] == [t[p]] + t[p + 1..];
      }
    }
  }

  lemma NumberWhole(t: seq<char>)
    ensures if IsNumeral(t) then FindNumber(t, 0) == Number(IsNegative(t), Magnitude(t), |t|)
            else FindNumber(t, 0) == NoNumber || FindNumber(t, 0).end < |t|
  {
    hide IsBlank, IsDigit, SkipBlanks, DigitRun, Decimal, Digits10, Unblanked;
    var u := Unblanked(t);
    UnblankedIs(t);
    var q := |t| - |u|;
    assert u != [] ==> t[q] == u[0];
    var from := if u != [] && (u[0] == '+' || u[0] == '-') then q + 1 else q;
    assert SignOff(u) == t[from..];
    DigitRunToEnd(t, from);
    assert t[from..|t|] == t[from..];
  }

  /** The digits, and the blanks of the C locale. */
  lemma NumberClasses(c: char)
    ensures IsDigit(c) <==> c in "0123456789"
    ensures IsBlank(c) <==> c in [' ', '\t', '\n', '\U{0B}', '\U{0C}', '\r']
  {
    if '0' <= c <= '9' {
      assert "0123456789"[c as int - '0' as int] == c;
    }
  }

  /** Blanks, at most one sign and digits are a numeral. */
  lemma {:induction false} NumeralForms(b: seq<char>, sign: seq<char>, d: seq<char>)
    requires forall i :: 0 <= i < |b| ==> b[i] in [' ', '\t', '\n', '\U{0B}', '\U{0C}', '\r']
    requires sign in [[], ['+'], ['-']] && d != [] && forall i :: 0 <= i < |d| ==> d[i] in "0123456789"
    ensures Digits10(d) && IsNumeral(b + sign + d) && Magnitude(b + sign + d) == Decimal(d)
    ensures IsNegative(b + sign + d) <==> sign == ['-']
    decreases |b|
  {
    hide Decimal, IsBlank, IsDigit, Unblanked;
    forall i | 0 <= i < |d| ensures IsDigit(d[i]) {
      NumberClasses(d[i]);
    }
    var t := b + sign + d;
    NumberClasses(t[0]);
    UnblankedUnfold(t);
    if b != [] {
      assert t[1..] == b[1..] + sign + d;
      NumeralForms(b[1..], sign, d);
    } else {
      DigitIsPlain(d[0]);
      assert sign != [] ==> t[1..] == d;
      assert sign == [] ==> t == d;
    }
  }

  lemma UnblankedUnfold(t: seq<char>)
    requires t != []
    ensures Unblanked(t) == if IsBlank(t[0]) then Unblanked(t[1..]) else t
  {
  }

  /** __json_uint10 accepts the empty text and the numerals that fit, and a minus wraps; of others that are numerals it
      leaves the greatest number. */
  lemma UintTextIff(t: seq<char>, max: nat)
    ensures UintText(t, max).0 == 0 <==> t == [] || (IsNumeral(t) && Magnitude(t) <= max)
    ensures IsNumeral(t) ==>
              UintText(t, max).1 == if Magnitude(t) > max then max
                                    else if IsNegative(t) && Magnitude(t) > 0 then max + 1 - Magnitude(t)
                                    else Magnitude(t)
  {
    hide IsNumeral, Magnitude, IsNegative, FindNumber;
    NumberWhole(t);
    NothingIsNoNumeral();
  }

  /** __json_int10 likewise. */
  lemma {:induction false} IntTextIff(t: seq<char>, max: nat)
    ensures IntText(t, max).0 == 0 <==>
            t == [] || (IsNumeral(t) && Magnitude(t) <= if IsNegative(t) then max + 1 else max)
    ensures IsNumeral(t) ==>
              var n := Magnitude(t);
              IntText(t, max).1 == if IsNegative(t) then -((if n > max + 1 then max + 1 else n) as int)
                                   else if n > max then max else n
  {
    hide IsNumeral, Magnitude, IsNegative, FindNumber;
    NumberWhole(t);
    NothingIsNoNumeral();
  }

  lemma NothingIsNoNumeral()
    ensures !IsNumeral([]) && FindNumber([], 0) == NoNumber
  {
  }

  lemma DigitIsPlain(c: char)
    requires IsDigit(c)
    ensures !IsBlank(c) && c != '+' && c != '-'
  {
  }

  /** Digits alone are themselves. */
  lemma DigitsAreNumeral(t: seq<char>)
    requires t != [] && Digits10(t)
    ensures IsNumeral(t) && Magnitude(t) == Decimal(t) && !IsNegative(t)
  {
    hide IsDigit, IsBlank, Decimal;
    DigitIsPlain(t[0]);
    assert Unblanked(t) == t && SignOff(t) == t;
  }

  // ---------------------------------------------------------------- hexadecimal texts

  lemma BracketIsNoHex(t: seq<char>)
    requires t != [] && (t[0] == '[' || t[0] == '{')
    ensures !Parses(t)
  {
    assert MapHex('[') == -1 && MapHex('{') == -1;
  }

  lemma LeafHasNoNul(js: seq<char>, t: Token, v: Json)
    requires IsAt(js, t, v) && IsLeaf(v)
    ensures '\0' !in TextOf(v)
  {
    hide At;
    if v.Quoted? {
      NoNulInBody(v.body);
    } else {
      assert !Printable('\0');
    }
  }

  /** The reader of 256-bit numbers too sees the text of the node. */
  lemma HexAt(js: seq<char>, buf: seq<char>, t: Token, v: Json, was: nat)
    requires IsAt(js, t, v) && Intact(js, buf, t) && |TextOf(v)| < 68
    requires forall c :: 0 <= c < |js| ==> buf[c] == js[c] || buf[c] == '\0'
    ensures FitsBuffer(buf, t)
    ensures var r := Parsed(UpToNul(Slice(buf, t)), was);
            if Parses(TextOf(v)) then r == (0, ParsedValue(TextOf(v))) else r.0 == -1
    ensures IsLeaf(v) ==> Parsed(UpToNul(Slice(buf, t)), was) == Parsed(TextOf(v), was)
  {
    hide Parses, ParsedValue, IsAt, At, Render, Strip;
    IsAtWithin(js, t, v);
    if IsLeaf(v) {
      LeafKept(js, buf, t, v);
      SliceIs(buf, t.start, TextOf(v));
      LeafHasNoNul(js, t, v);
    } else {
      BracketThere(js, buf, t, v);
      BracketIsNoHex(TextOf(v));
      assert Slice(buf, t)[0] == buf[t.start];
      BracketIsNoHex(UpToNul(Slice(buf, t)));
    }
  }

  lemma SliceIs(buf: seq<char>, p: nat, t: seq<char>)
    requires At(buf, p, t)
    ensures p + |t| <= |buf| && buf[p..p + |t|] == t
  {
  }

  lemma ParsesIsShort(t: seq<char>)
    requires Parses(t)
    ensures |t| <= 66
  {
    hide Accepts2;
  }

  // ---------------------------------------------------------------- names

  /** Comparing a token with a name is comparing the node with it. */
  lemma NameAt(js: seq<char>, buf: seq<char>, t: Token, v: Json, name: seq<char>)
    requires IsAt(js, t, v) && Intact(js, buf, t)
    ensures Comparable(buf, t, name) && (JsonEq(buf, t, name) <==> v == Quoted(name))
  {
    hide At, Render, WellFormed;
    IsAtWithin(js, t, v);
  }
}
