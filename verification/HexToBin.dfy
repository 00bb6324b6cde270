/** Hexadecimal text to bytes and back (helpers/hextobin.c). */
module HexToBin {
  import opened Common
  import opened Words
  import opened Bytes

  const E_EMPTY_STRING := -1
  const E_INVALID_STRING_LEN := -2
  const E_INVALID_CHAR := -3

  /** A C string: its characters before the terminating NUL. */
  type CString = s: seq<char> | forall i :: 0 <= i < |s| ==> s[i] != '\0'

  function MapHex(c: char): (v: int)
    ensures -1 <= v < 16
  {
    if '0' <= c <= '9' then c as int - '0' as int
    else if 'A' <= c <= 'F' then c as int - 'A' as int + 10
    else if 'a' <= c <= 'f' then c as int - 'a' as int + 10
    else -1
  }

  /** The value of a digit is its place in the table of lower-case or of upper-case digits. */
  lemma MapHexIff(c: char, v: nat)
    requires v < 16
    ensures MapHex(c) == v <==> c == "0123456789abcdef"[v] || c == "0123456789ABCDEF"[v]
  {
  }

  lemma NoDigitIff(c: char)
    ensures MapHex(c) == -1 <==> c !in "0123456789abcdefABCDEF"
  {
    hide HexChar;
    HexCharIs(c);
    assert HexChar(c) <==> c in "0123456789abcdefABCDEF" by { HexCharTable(c); }
  }

  predicate AllHex(t: seq<char>) {
    forall i :: 0 <= i < |t| ==> MapHex(t[i]) >= 0
  }

  lemma AllHexIff(t: seq<char>)
    ensures AllHex(t) <==> forall i :: 0 <= i < |t| ==> t[i] in "0123456789abcdefABCDEF"
  {
    hide MapHex;
    forall i | 0 <= i < |t| ensures MapHex(t[i]) >= 0 <==> t[i] in "0123456789abcdefABCDEF" {
      NoDigitIff(t[i]);
    }
  }

  /** A digit of either case. */
  predicate DigitOf(c: char, v: nat)
    requires v < 16
  {
    c == "0123456789abcdef"[v] || c == "0123456789ABCDEF"[v]
  }

  lemma DigitsOfPair(h: char, l: char)
    requires MapHex(h) >= 0 && MapHex(l) >= 0
    ensures var b := MapHex(h) * 16 + MapHex(l);
            b / 16 < 16 && DigitOf(h, b / 16) && DigitOf(l, b % 16)
  {
    hide MapHex, DigitOf;
    var b := MapHex(h) * 16 + MapHex(l);
    assert b / 16 == MapHex(h) && b % 16 == MapHex(l);
    DigitIs(h, MapHex(h));
    DigitIs(l, MapHex(l));
  }

  lemma DigitIs(c: char, v: nat)
    requires v < 16 && MapHex(c) == v
    ensures DigitOf(c, v)
  {
    hide MapHex;
    MapHexIff(c, v);
  }

  /** The number a text of hex digits denotes. */
  function HexValue(t: seq<char>): nat
    requires AllHex(t)
  {
    if t == [] then 0 else HexValue(t[..|t| - 1]) * 16 + MapHex(t[|t| - 1])
  }

  predicate HasPrefix(s: seq<char>) {
    |s| > 2 && s[0] == '0' && s[1] == 'x'
  }

  /** The text without one leading 0x. */
  function Strip(s: seq<char>): (t: seq<char>)
    ensures |t| <= |s|
  {
    if HasPrefix(s) then s[2..] else s
  }

  /** One 0x is taken off when something follows it. */
  lemma StripIs(t: seq<char>)
    ensures t != [] ==> Strip("0x" + t) == t
    ensures |t| <= 2 || t[..2] != "0x" ==> Strip(t) == t
  {
    assert ("0x" + t)[2..] == t;
    if HasPrefix(t) {
      assert t[..2] == "0x";
    }
  }

  lemma HexHasNoPrefix(t: seq<char>)
    requires AllHex(t)
    ensures Strip(t) == t
  {
    assert MapHex('x') == -1;
  }

  /** Two digits to a byte. */
  function PairBytes(t: seq<char>): (b: seq<byte>)
    requires AllHex(t) && |t| % 2 == 0
    ensures |b| == |t| / 2
  {
    if t == [] then [] else
      var n := |t| - 2;
      PairBytes(t[..n]) + [MapHex(t[n]) * 16 + MapHex(t[n + 1])]
  }

  lemma {:induction false} PairBytesValue(t: seq<char>)
    requires AllHex(t) && |t| % 2 == 0
    ensures FromBE(PairBytes(t)) == HexValue(t)
  {
    hide MapHex, FromBE, PairBytes, HexValue;
    if t == [] {
      NothingDenoted();
    } else {
      var n := |t| - 2;
      PairBytesUnfold(t);
      PairBytesValue(t[..n]);
      FromBEPush(PairBytes(t[..n]), MapHex(t[n]) * 16 + MapHex(t[n + 1]));
      HexValuePair(t);
    }
  }

  lemma NothingDenoted()
    ensures PairBytes([]) == [] && FromBE([]) == 0 && HexValue([]) == 0
  {
  }

  lemma {:induction false} HexValuePair(t: seq<char>)
    requires AllHex(t) && |t| >= 2
    ensures var n := |t| - 2;
            HexValue(t) == (HexValue(t[..n]) * 16 + MapHex(t[n])) * 16 + MapHex(t[n + 1])
  {
    hide MapHex;
    var n := |t| - 2;
    assert t[..n + 1][..n] == t[..n] && t[..n + 1][n] == t[n];
    assert HexValue(t) == HexValue(t[..n + 1]) * 16 + MapHex(t[n + 1]);
  }

  /** How many pairs of hex digits a text starts with. */
  function GoodPairs(t: seq<char>): (k: nat)
    ensures 2 * k <= |t| && AllHex(t[..2 * k])
  {
    if |t| >= 2 && MapHex(t[0]) >= 0 && MapHex(t[1]) >= 0 then
      MoreHex(t, GoodPairs(t[2..]));
      1 + GoodPairs(t[2..])
    else 0
  }

  lemma MoreHex(t: seq<char>, k: nat)
    requires |t| >= 2 && MapHex(t[0]) >= 0 && MapHex(t[1]) >= 0
    requires 2 * k <= |t[2..]| && AllHex(t[2..][..2 * k])
    ensures AllHex(t[..2 * (1 + k)])
  {
    hide MapHex;
    forall i | 0 <= i < 2 * (1 + k) ensures MapHex(t[i]) >= 0 {
      assert i >= 2 ==> t[i] == t[2..][..2 * k][i - 2];
    }
  }

  /** They end where the text ends or where the first bad pair stands. */
  lemma {:induction false} GoodPairsIs(t: seq<char>, k: nat)
    requires 2 * k <= |t| && AllHex(t[..2 * k])
    requires 2 * k + 2 <= |t| ==> MapHex(t[2 * k]) < 0 || MapHex(t[2 * k + 1]) < 0
    ensures GoodPairs(t) == k
    decreases k
  {
    hide MapHex;
    if k > 0 {
      assert t[0] == t[..2 * k][0] && t[1] == t[..2 * k][1];
      var r := t[2..];
      forall i | 0 <= i < 2 * (k - 1) ensures MapHex(r[i]) >= 0 {
        assert r[i] == t[..2 * k][i + 2];
      }
      GoodPairsIs(r, k - 1);
    }
  }

  /** The bytes found before the first bad pair. */
  function Found(t: seq<char>): (b: seq<byte>)
    ensures |b| <= |t| / 2
  {
    PairBytes(t[..2 * GoodPairs(t)])
  }

  lemma {:induction false} FoundAll(t: seq<char>)
    requires AllHex(t) && |t| % 2 == 0
    ensures Found(t) == PairBytes(t)
  {
    hide MapHex;
    assert t[..|t|] == t;
    GoodPairsIs(t, |t| / 2);
  }

  lemma {:induction false} PairBytesAt(t: seq<char>, i: nat)
    requires AllHex(t) && |t| % 2 == 0 && i < |t| / 2
    ensures var b := PairBytes(t)[i]; DigitOf(t[2 * i], b / 16) && DigitOf(t[2 * i + 1], b % 16)
    decreases |t|
  {
    hide MapHex, PairBytes, DigitOf;
    PairBytesUnfold(t);
    var n := |t| - 2;
    if i < n / 2 {
      PairBytesAt(t[..n], i);
    } else {
      DigitsOfPair(t[n], t[n + 1]);
    }
  }

  /** Every byte found is the one its two digits make. */
  lemma FoundAt(t: seq<char>, i: nat)
    requires i < |Found(t)|
    ensures 2 * i + 1 < |t|
    ensures var b := Found(t)[i]; DigitOf(t[2 * i], b / 16) && DigitOf(t[2 * i + 1], b % 16)
  {
    hide MapHex, PairBytes, DigitOf;
    PairBytesAt(t[..2 * GoodPairs(t)], i);
  }

  // ---------------------------------------------------------------- decoding

  /** What hextobin returns for digits of even number. */
  function Count(t: seq<char>): int {
    if AllHex(t) then |t| / 2 else E_INVALID_CHAR
  }

  /** The loop counter is a uint8_t: past 254 characters it never reaches the end of the text, unless a
      character that is no digit stops it first. */
  predicate Terminates(t: seq<char>) {
    |t| < 256 || exists i :: 0 <= i < 256 && MapHex(t[i]) < 0
  }

  /** The loop ends before its round k: the counter, which wraps, has reached the end, or a digit is bad. */
  predicate EndsBefore(t: seq<char>, k: nat)
    requires |t| % 2 == 0
  {
    var pos := 2 * k % 256;
    pos >= |t| || MapHex(t[pos]) < 0 || MapHex(t[pos + 1]) < 0
  }

  lemma Position(k: nat)
    ensures 2 * k % 256 % 2 == 0 && 2 * k % 256 <= 254
  {
    var q := 2 * k / 256;
    assert 2 * k % 256 == 2 * (k - 128 * q);
  }

  lemma NoRoundEnds(t: seq<char>, k: nat)
    requires |t| % 2 == 0 && !Terminates(t)
    ensures !EndsBefore(t, k)
  {
    hide MapHex;
    Position(k);
    var pos := 2 * k % 256;
    assert MapHex(t[pos]) >= 0 && MapHex(t[pos + 1]) >= 0;
  }

  lemma SomeRoundEnds(t: seq<char>) returns (k: nat)
    requires |t| % 2 == 0 && Terminates(t)
    ensures EndsBefore(t, k)
  {
    hide MapHex;
    if |t| < 256 {
      k := |t| / 2;
    } else {
      var i :| 0 <= i < 256 && MapHex(t[i]) < 0;
      k := i / 2;
      assert 2 * k % 256 == 2 * k;
    }
  }

  /** That is exactly when some round is its last. */
  lemma TerminatesIff(t: seq<char>)
    requires |t| % 2 == 0
    ensures Terminates(t) <==> exists k :: EndsBefore(t, k)
  {
    hide Terminates, EndsBefore;
    if Terminates(t) {
      var k := SomeRoundEnds(t);
    } else {
      forall k: nat ensures !EndsBefore(t, k) {
        NoRoundEnds(t, k);
      }
    }
  }

  /** hextobin into the blen bytes at off. */
  method Hextobin(str: CString, bytes: array<byte>, off: nat, blen: nat) returns (ret: int)
    requires off + blen <= bytes.Length
    requires |str| > 0 && |str| % 2 == 0 ==> |Strip(str)| <= 2 * blen && Terminates(Strip(str))
    modifies bytes
    ensures bytes[..off] == old(bytes[..off]) && bytes[off + blen..] == old(bytes[off + blen..])
    ensures ret == if |str| == 0 then -1 else if |str| % 2 != 0 then -2
                   else if AllHex(Strip(str)) then |Strip(str)| / 2 else -3
    ensures |str| == 0 || |str| % 2 != 0 ==> bytes[..] == old(bytes[..])
    ensures |str| > 0 && |str| % 2 == 0 ==>
              var found := Found(Strip(str));
              |found| <= blen && bytes[off..off + blen] == found + Zeros(blen - |found|)
    ensures |str| > 0 && |str| % 2 == 0 ==>
              var t := Strip(str);
              forall i :: 0 <= i < |Found(t)| ==>
                var h, l := bytes[off + i] / 16, bytes[off + i] % 16;
                (t[2 * i] == "0123456789abcdef"[h] || t[2 * i] == "0123456789ABCDEF"[h]) &&
                (t[2 * i + 1] == "0123456789abcdef"[l] || t[2 * i + 1] == "0123456789ABCDEF"[l])
  {
    hide Found, AllHex, MapHex, Terminates, Zeros;
    if |str| == 0 {
      return E_EMPTY_STRING;
    }
    if |str| % 2 != 0 {
      return E_INVALID_STRING_LEN;
    }
    var t: seq<char> := str;
    if |t| > 2 && t[0] == '0' && t[1] == 'x' {
      t := t[2..];
    }
    assert t == Strip(str);
    Clear(bytes, off, blen);
    var ok := DecodePairs(t, bytes, off, blen);
    ClearedIs(bytes[..], off, blen, Found(t));
    FoundDigits(bytes[..], off, t);
    if !ok {
      return E_INVALID_CHAR;
    }
    return |t| / 2;
  }

  lemma FoundDigits(s: seq<byte>, off: nat, t: seq<char>)
    requires off + |Found(t)| <= |s| && s[off..off + |Found(t)|] == Found(t)
    ensures forall i :: 0 <= i < |Found(t)| ==>
              var h, l := s[off + i] / 16, s[off + i] % 16;
              2 * i + 1 < |t| &&
              (t[2 * i] == "0123456789abcdef"[h] || t[2 * i] == "0123456789ABCDEF"[h]) &&
              (t[2 * i + 1] == "0123456789abcdef"[l] || t[2 * i + 1] == "0123456789ABCDEF"[l])
  {
    hide Found, MapHex;
    forall i | 0 <= i < |Found(t)|
      ensures 2 * i + 1 < |t|
      ensures DigitOf(t[2 * i], s[off + i] / 16) && DigitOf(t[2 * i + 1], s[off + i] % 16)
    {
      FoundAt(t, i);
      assert s[off + i] == Found(t)[i];
    }
  }

  lemma PairBytesNext(t: seq<char>, pos: nat)
    requires pos % 2 == 0 && pos + 2 <= |t| && AllHex(t[..pos]) && MapHex(t[pos]) >= 0 && MapHex(t[pos + 1]) >= 0
    ensures AllHex(t[..pos + 2])
    ensures PairBytes(t[..pos + 2]) == PairBytes(t[..pos]) + [MapHex(t[pos]) * 16 + MapHex(t[pos + 1])]
  {
    hide MapHex;
    assert t[..pos + 2] == t[..pos] + [t[pos], t[pos + 1]];
    PairBytesAppend(t[..pos], t[pos], t[pos + 1]);
  }

  lemma AllHexAppend(t: seq<char>, h: char, l: char)
    requires AllHex(t) && MapHex(h) >= 0 && MapHex(l) >= 0
    ensures AllHex(t + [h, l])
  {
    hide MapHex;
  }

  lemma {:induction false} PairBytesAppend(t: seq<char>, h: char, l: char)
    requires AllHex(t) && |t| % 2 == 0 && MapHex(h) >= 0 && MapHex(l) >= 0
    ensures AllHex(t + [h, l]) && PairBytes(t + [h, l]) == PairBytes(t) + [MapHex(h) * 16 + MapHex(l)]
  {
    hide PairBytes, MapHex, AllHex;
    AllHexAppend(t, h, l);
    var s := t + [h, l];
    assert |s| % 2 == 0;
    assert s[..|s| - 2] == t;
    PairBytesUnfold(s);
  }

  lemma PairBytesUnfold(s: seq<char>)
    requires AllHex(s) && |s| % 2 == 0 && s != []
    ensures AllHex(s[..|s| - 2])
    ensures PairBytes(s) == PairBytes(s[..|s| - 2]) + [MapHex(s[|s| - 2]) * 16 + MapHex(s[|s| - 1])]
  {
    hide MapHex;
  }

  lemma NoWrap(t: seq<char>, pos: nat)
    requires Terminates(t) && pos + 2 <= |t| && pos + 2 <= 256 && AllHex(t[..pos + 2])
    ensures pos + 2 < 256
  {
    hide MapHex;
    assert forall i :: 0 <= i < pos + 2 ==> MapHex(t[i]) == MapHex(t[..pos + 2][i]) >= 0;
  }

  lemma NotHex(t: seq<char>, i: nat)
    requires i < |t| && MapHex(t[i]) < 0
    ensures !AllHex(t)
  {
    hide MapHex;
  }

  /** The loop of hextobin, over cleared bytes. */
  method DecodePairs(t: seq<char>, bytes: array<byte>, off: nat, blen: nat) returns (ok: bool)
    requires off + blen <= bytes.Length && |t| % 2 == 0 && |t| <= 2 * blen && Terminates(t)
    requires forall j :: off <= j < off + blen ==> bytes[j] == 0
    modifies bytes
    ensures bytes[..off] == old(bytes[..off]) && bytes[off + blen..] == old(bytes[off + blen..])
    ensures ok <==> AllHex(t)
    ensures Cleared(bytes[..], off, blen, Found(t))
  {
    hide PairBytes, MapHex, AllHex, Terminates, Found, Cleared;
    PairBytesNone(t);
    ClearedStart(bytes[..], off, blen);
    var pos: byte := 0;
    while pos < 2 * blen && pos < |t|
      invariant pos % 2 == 0 && pos <= |t| && AllHex(t[..pos])
      invariant Cleared(bytes[..], off, blen, PairBytes(t[..pos]))
      invariant bytes[..off] == old(bytes[..off]) && bytes[off + blen..] == old(bytes[off + blen..])
      decreases |t| - pos
    {
      var b0 := MapHex(t[pos]);
      if b0 < 0 {
        NotHex(t, pos);
        FoundSoFar(t, pos);
        return false;
      }
      var b1 := MapHex(t[pos + 1]);
      if b1 < 0 {
        NotHex(t, pos + 1);
        FoundSoFar(t, pos);
        return false;
      }
      PairBytesNext(t, pos);
      NoWrap(t, pos);
      StoreNext(bytes, off, blen, PairBytes(t[..pos]), pos / 2, b0 * 16 + b1);
      pos := (pos + 2) % 256;
    }
    assert t[..pos] == t;
    FoundSoFar(t, pos);
    return true;
  }

  /** The bytes at off are those found, then zeros. */
  ghost predicate Cleared(s: seq<byte>, off: nat, blen: nat, found: seq<byte>) {
    |found| <= blen && off + blen <= |s| && s[off..off + |found|] == found &&
    forall j :: off + |found| <= j < off + blen ==> s[j] == 0
  }

  lemma ClearedStart(s: seq<byte>, off: nat, blen: nat)
    requires off + blen <= |s| && forall j :: off <= j < off + blen ==> s[j] == 0
    ensures Cleared(s, off, blen, [])
  {
  }

  lemma ClearedIs(s: seq<byte>, off: nat, blen: nat, found: seq<byte>)
    requires Cleared(s, off, blen, found)
    ensures |found| <= blen && s[off..off + blen] == found + Zeros(blen - |found|)
  {
    SplitZeros(s[off..off + blen], |found|);
    assert s[off..off + blen][..|found|] == found;
  }

  method StoreNext(bytes: array<byte>, off: nat, blen: nat, ghost found: seq<byte>, at: nat, b: byte)
    requires Cleared(bytes[..], off, blen, found) && at == |found| < blen
    modifies bytes
    ensures Cleared(bytes[..], off, blen, found + [b])
    ensures bytes[..off] == old(bytes[..off]) && bytes[off + blen..] == old(bytes[off + blen..])
  {
    bytes[off + at] := b;
    assert bytes[..][off..off + at] == found;
    assert bytes[..][off..off + at + 1] == found + [b];
  }

  lemma FoundSoFar(t: seq<char>, pos: nat)
    requires pos % 2 == 0 && pos <= |t| && AllHex(t[..pos])
    requires pos + 2 <= |t| ==> MapHex(t[pos]) < 0 || MapHex(t[pos + 1]) < 0
    ensures Found(t) == PairBytes(t[..pos]) && |Found(t)| == pos / 2
  {
    hide MapHex, PairBytes, GoodPairs, AllHex;
    GoodPairsIs(t, pos / 2);
  }

  lemma PairBytesNone(t: seq<char>)
    ensures AllHex(t[..0]) && PairBytes(t[..0]) == []
  {
  }

  /** memset to 0. */
  method Clear(bytes: array<byte>, off: nat, n: nat)
    requires off + n <= bytes.Length
    modifies bytes
    ensures bytes[..off] == old(bytes[..off]) && bytes[off + n..] == old(bytes[off + n..])
    ensures forall j :: off <= j < off + n ==> bytes[j] == 0
  {
    var i := 0;
    while i < n
      invariant 0 <= i <= n
      invariant bytes[..off] == old(bytes[..off]) && bytes[off + i..] == old(bytes[off + i..])
      invariant forall j :: off <= j < off + i ==> bytes[j] == 0
    {
      bytes[off + i] := 0;
      i := i + 1;
    }
  }

  lemma SplitZeros(s: seq<byte>, k: nat)
    requires k <= |s| && forall j :: k <= j < |s| ==> s[j] == 0
    ensures s == s[..k] + Zeros(|s| - k)
  {
  }

  /** hextobin_2 accepts an odd number of digits: the first then makes a byte of its own. */
  function Decode2(s: seq<char>): (r: seq<byte>)
    requires Accepts2(s)
  {
    var t := Strip(s);
    if |t| % 2 == 0 then PairBytes(Strip(t))
    else [MapHex(t[0])] + PairBytes(Strip(t[1..]))
  }

  /** What hextobin_2 accepts. A 0x is taken off up to two times, the second time behind an odd digit. */
  predicate Accepts2(s: seq<char>) {
    var t := Strip(s);
    s != [] &&
    if |t| % 2 == 0 then AllHex(Strip(t)) else MapHex(t[0]) >= 0 && AllHex(Strip(t[1..]))
  }

  predicate Terminates2(s: seq<char>) {
    var t := Strip(s);
    if |t| % 2 == 0 then Terminates(Strip(t)) else MapHex(t[0]) >= 0 ==> Terminates(Strip(t[1..]))
  }

  /** What hextobin_2 returns: an odd first digit is not counted. */
  function Count2(s: seq<char>): int {
    var t := Strip(s);
    if s == [] then E_EMPTY_STRING
    else if |t| % 2 == 0 then Count(Strip(t))
    else if MapHex(t[0]) < 0 then E_INVALID_CHAR
    else Count(Strip(t[1..]))
  }

  /** The bytes it finds before a bad digit. */
  function Found2(s: seq<char>): (b: seq<byte>) {
    var t := Strip(s);
    if |t| % 2 == 0 then Found(Strip(t))
    else if MapHex(t[0]) < 0 then []
    else [MapHex(t[0])] + Found(Strip(t[1..]))
  }

  /** Where it does not fail, it has found everything. */
  lemma Found2All(s: seq<char>)
    ensures Count2(s) >= 0 <==> Accepts2(s)
    ensures Accepts2(s) ==> Found2(s) == Decode2(s)
  {
    hide MapHex, AllHex, PairBytes, Found;
    if Accepts2(s) {
      var t := Strip(s);
      FoundAll(Strip(if |t| % 2 == 0 then t else t[1..]));
    }
  }

  /** Written out: an even number of digits is read as hextobin reads it; an odd first one is a byte of its own. */
  lemma Found2Is(s: seq<char>)
    requires s != []
    ensures var t := Strip(s);
            Count2(s) == if |t| % 2 == 0 then (if AllHex(Strip(t)) then |Strip(t)| / 2 else -3)
                         else if t[0] in "0123456789abcdefABCDEF" && AllHex(Strip(t[1..])) then |Strip(t[1..])| / 2
                         else -3
    ensures var t := Strip(s);
            && (|t| % 2 == 0 ==> Found2(s) == Found(Strip(t)))
            && (|t| % 2 == 1 && t[0] !in "0123456789abcdefABCDEF" ==> Found2(s) == [])
            && (|t| % 2 == 1 && t[0] in "0123456789abcdefABCDEF" ==>
                && |Found2(s)| > 0 && Found2(s)[0] < 16 && DigitOf(t[0], Found2(s)[0])
                && Found2(s)[1..] == Found(Strip(t[1..])))
  {
    hide MapHex, AllHex, Found, DigitOf;
    var t := Strip(s);
    if |t| % 2 == 1 {
      NoDigitIff(t[0]);
      if MapHex(t[0]) >= 0 {
        DigitIs(t[0], MapHex(t[0]));
      }
    }
  }

  method Hextobin2(str: CString, bytes: array<byte>, off: nat, blen: nat) returns (ret: int)
    requires off + blen <= bytes.Length
    requires |str| > 0 ==> |Strip(str)| <= 2 * blen && Terminates2(str)
    modifies bytes
    ensures bytes[..off] == old(bytes[..off]) && bytes[off + blen..] == old(bytes[off + blen..])
    ensures ret == Count2(str)
    ensures var t := Strip(str);
            ret == if str == [] then -1
                   else if |t| % 2 == 0 then (if AllHex(Strip(t)) then |Strip(t)| / 2 else -3)
                   else if t[0] in "0123456789abcdefABCDEF" && AllHex(Strip(t[1..])) then |Strip(t[1..])| / 2
                   else -3
    ensures str == [] ==> bytes[..] == old(bytes[..])
    ensures str != [] ==>
              |Found2(str)| <= blen && bytes[off..off + blen] == Found2(str) + Zeros(blen - |Found2(str)|)
  {
    hide PairBytes, MapHex, Terminates, AllHex, Found, Zeros;
    if |str| == 0 {
      return E_EMPTY_STRING;
    }
    Found2Is(str);
    var t: CString := str;
    if |t| > 2 && t[0] == '0' && t[1] == 'x' {
      t := t[2..];
    }
    Clear(bytes, off, blen);
    if |t| % 2 != 0 {
      ret := OddDigits(t, bytes, off, blen);
    } else {
      ret := Hextobin(t, bytes, off, blen);
    }
  }

  /** An odd number of characters, the prefix taken off: the first digit, then the rest. */
  method OddDigits(t: CString, bytes: array<byte>, off: nat, blen: nat) returns (ret: int)
    requires off + blen <= bytes.Length && |t| % 2 == 1 && |t| <= 2 * blen
    requires MapHex(t[0]) >= 0 ==> Terminates(Strip(t[1..]))
    requires forall j :: off <= j < off + blen ==> bytes[j] == 0
    modifies bytes
    ensures bytes[..off] == old(bytes[..off]) && bytes[off + blen..] == old(bytes[off + blen..])
    ensures ret == if MapHex(t[0]) < 0 then E_INVALID_CHAR else Count(Strip(t[1..]))
    ensures var d := if MapHex(t[0]) < 0 then [] else [MapHex(t[0])] + Found(Strip(t[1..]));
            |d| <= blen && bytes[off..off + blen] == d + Zeros(blen - |d|)
  {
    hide PairBytes, MapHex, Terminates, AllHex, Strip, Found, Zeros;
    var b1 := MapHex(t[0]);
    if b1 < 0 {
      SplitZeros(bytes[off..off + blen], 0);
      return E_INVALID_CHAR;
    }
    bytes[off] := b1;
    var rest: CString := t[1..];
    if |rest| == 0 {
      EmptyRest(rest);
      SplitZeros(bytes[off..off + blen], 1);
      return 0;
    }
    ghost var front := bytes[..off + 1];
    ret := Hextobin(rest, bytes, off + 1, blen - 1);
    FrontKept(bytes[..], front, old(bytes[..off]), b1, off, blen);
  }

  lemma EmptyRest(t: seq<char>)
    requires t == []
    ensures Strip(t) == [] && AllHex([]) && PairBytes([]) == [] && Found([]) == [] && Count([]) == 0
  {
  }

  /** What the first byte and those behind it make together. */
  lemma FrontKept(s: seq<byte>, front: seq<byte>, before: seq<byte>, b: byte, off: nat, blen: nat)
    requires blen > 0 && off + blen <= |s| && s[..off + 1] == front == before + [b] && |before| == off
    ensures s[..off] == before && s[off..off + blen] == [b] + s[off + 1..off + 1 + (blen - 1)]
  {
    assert s[..off] == s[..off + 1][..off];
    assert s[off] == s[..off + 1][off];
  }

  // ---------------------------------------------------------------- encoding

  const HEX_DIGITS: seq<char> := "0123456789abcdef"

  function HexDigit(v: nat): (c: char)
    requires v < 16
    ensures MapHex(c) == v && c != 'x' && c != '\0'
  {
    HEX_DIGITS[v]
  }

  /** What bintohex makes of bytes. */
  function HexText(b: seq<byte>): (t: seq<char>)
    ensures |t| == 2 * |b|
  {
    if b == [] then [] else
      var n := |b| - 1;
      HexText(b[..n]) + [HexDigit(b[n] / 16), HexDigit(b[n] % 16)]
  }

  /** Decoding what was encoded gives the bytes back. */
  lemma {:induction false} PairBytesOfHexText(b: seq<byte>)
    ensures AllHex(HexText(b)) && PairBytes(HexText(b)) == b
  {
    hide MapHex, HexDigit, PairBytes;
    EmptyRest([]);
    if b != [] {
      var n := |b| - 1;
      PairBytesOfHexText(b[..n]);
      PairBytesAppend(HexText(b[..n]), HexDigit(b[n] / 16), HexDigit(b[n] % 16));
    }
  }

  /** Every byte is written as the two lower-case digits of its halves. */
  lemma {:induction false} HexTextAt(b: seq<byte>, i: nat)
    requires i < |b|
    ensures HexText(b)[2 * i] == "0123456789abcdef"[b[i] / 16]
    ensures HexText(b)[2 * i + 1] == "0123456789abcdef"[b[i] % 16]
    decreases |b|
  {
    if i < |b| - 1 {
      HexTextAt(b[..|b| - 1], i);
    }
  }

  /** hextobin inverts bintohex for 1 to 127 bytes; it refuses the text of none, and never ends on that of more. */
  lemma {:induction false} DecodeInvertsHexTextIff(b: seq<byte>)
    ensures var t := HexText(b);
            Terminates(Strip(t)) && t != [] && Count(Strip(t)) == |b| && Found(Strip(t)) == b <==> 1 <= |b| <= 127
  {
    hide MapHex, Found;
    var t := HexText(b);
    PairBytesOfHexText(b);
    HexHasNoPrefix(t);
    FoundAll(t);
  }

  /** On the text of 128 bytes no round is the last. */
  lemma {:induction false} LongTextNeverEnds(b: seq<byte>)
    requires |b| == 128
    ensures forall k :: !EndsBefore(HexText(b), k)
  {
    hide MapHex, EndsBefore;
    PairBytesOfHexText(b);
    TerminatesIff(HexText(b));
  }

  lemma HexTextNext(b: seq<byte>, i: nat)
    requires i < |b|
    ensures HexText(b[..i + 1]) == HexText(b[..i]) + [HexDigit(b[i] / 16)] + [HexDigit(b[i] % 16)]
  {
    hide HexDigit;
    assert b[..i + 1][..i] == b[..i];
  }

  /** One more character behind those already written. */
  method PutChar(out: array<char>, p: nat, c: char, ghost done: seq<char>, ghost was: seq<char>)
    requires |done| == p < out.Length == |was| && out[..] == done + was[p..]
    modifies out
    ensures out[..] == done + [c] + was[p + 1..]
  {
    out[p] := c;
    SetNext(done, was, c);
  }

  lemma Regrouped(done: seq<char>, c: char, rest: seq<char>)
    ensures done + ([c] + rest) == (done + [c]) + rest
  {
  }

  lemma SetNext(done: seq<char>, was: seq<char>, c: char)
    requires |done| < |was|
    ensures (done + was[|done|..])[|done| := c] == done + [c] + was[|done| + 1..]
  {
  }

  method BinToHexNoNull(bytes: array<byte>, out: array<char>, outLen: nat) returns (ret: int)
    requires outLen <= out.Length
    modifies out
    ensures ret == if bytes.Length == 0 then -1 else if outLen < 2 * bytes.Length then -2 else 2 * bytes.Length
    ensures ret >= 0 ==> out[..] == HexText(bytes[..]) + old(out[2 * bytes.Length..])
    ensures ret < 0 ==> out[..] == old(out[..])
  {
    hide HexText;
    if bytes.Length == 0 {
      return E_EMPTY_STRING;
    }
    if outLen < 2 * bytes.Length {
      return E_INVALID_STRING_LEN;
    }
    WriteDigits(bytes, out);
    return 2 * bytes.Length;
  }

  /** The loop of bintohex_nonull. */
  method WriteDigits(bytes: array<byte>, out: array<char>)
    requires 2 * bytes.Length <= out.Length
    modifies out
    ensures out[..] == HexText(bytes[..]) + old(out[2 * bytes.Length..])
  {
    hide HexText, Written;
    ghost var was, bs := out[..], bytes[..];
    NothingWritten(was, bs);
    var i := 0;
    while i < bytes.Length
      invariant 0 <= i <= bytes.Length && Written(out[..], was, bs, i)
    {
      WriteByte(out, i, bytes[i], bs, was);
      i := i + 1;
    }
    AllWritten(out[..], was, bs);
  }

  /** The digits of i bytes are written. */
  ghost predicate Written(now: seq<char>, was: seq<char>, bs: seq<byte>, i: nat) {
    i <= |bs| && 2 * |bs| <= |was| && now == HexText(bs[..i]) + was[2 * i..]
  }

  lemma NothingWritten(was: seq<char>, bs: seq<byte>)
    requires 2 * |bs| <= |was|
    ensures Written(was, was, bs, 0)
  {
    NoHexText(bs[..0]);
  }

  lemma {:induction false} AllWritten(now: seq<char>, was: seq<char>, bs: seq<byte>)
    requires Written(now, was, bs, |bs|)
    ensures now == HexText(bs) + was[2 * |bs|..]
  {
    assert bs[..|bs|] == bs;
  }

  method WriteByte(out: array<char>, i: nat, b: byte, ghost bs: seq<byte>, ghost was: seq<char>)
    requires |was| == out.Length && Written(out[..], was, bs, i) && i < |bs| && b == bs[i]
    modifies out
    ensures Written(out[..], was, bs, i + 1)
  {
    hide HexText, HexDigit;
    HexTextNext(bs, i);
    PutByte(out, 2 * i, b, HexText(bs[..i]), was);
  }

  /** The two digits of a byte. */
  method PutByte(out: array<char>, p: nat, b: byte, ghost done: seq<char>, ghost was: seq<char>)
    requires |done| == p && p + 1 < out.Length == |was| && out[..] == done + was[p..]
    modifies out
    ensures out[..] == done + [HexDigit(b / 16)] + [HexDigit(b % 16)] + was[p + 2..]
  {
    hide HexDigit;
    PutChar(out, p, HexDigit(b / 16), done, was);
    PutChar(out, p + 1, HexDigit(b % 16), done + [HexDigit(b / 16)], was);
  }

  lemma NoHexText(b: seq<byte>)
    requires b == []
    ensures HexText(b) == []
  {
  }

  method BinToHex(bytes: array<byte>, out: array<char>, outLen: nat) returns (ret: int)
    requires outLen <= out.Length
    modifies out
    ensures ret == if bytes.Length == 0 then -1 else if outLen < 2 * bytes.Length + 1 then -2 else 2 * bytes.Length + 1
    ensures ret >= 0 ==> out[..] == HexText(bytes[..]) + ['\0'] + old(out[2 * bytes.Length + 1..])
    ensures ret < 0 ==> out[..] == old(out[..])
  {
    if bytes.Length == 0 {
      return E_EMPTY_STRING;
    }
    if outLen < 2 * bytes.Length + 1 {
      return E_INVALID_STRING_LEN;
    }
    ret := BinToHexNoNull(bytes, out, outLen);
    if ret < 0 {
      return ret;
    }
    ghost var mid := out[..];
    out[2 * bytes.Length] := '\0';
    assert out[..] == mid[2 * bytes.Length := '\0'];
    return ret + 1;
  }
}
