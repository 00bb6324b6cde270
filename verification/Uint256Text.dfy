/** 256-bit integers as big-endian bytes and as text (helpers/uint256.c). */
module Uint256Text {
  import opened Words
  import opened Bytes
  import opened Uint256
  import opened Division
  import opened HexToBin

  // ---------------------------------------------------------------- big-endian bytes

  /** One more byte ored in below v, at the place W = 2^k. */
  lemma OrByte(v: nat, b: byte, k: nat, W: nat)
    requires W == Pow2(k)
    ensures Or(v * (256 * W), b * W) == (v * 256 + b) * W
  {
    hide Pow2, Or;
    Pow2Add(8, k);
    Pow2Eight();
    MulAssoc(v, 256, W);
    MulMonotonic(b + 1, 256, W);
    MulDistributes(b, 1, W);
    MulDistributes(v * 256, b, W);
    DivModUnique(v * (256 * W), 256 * W, v, 0);
    OrIsSum(v * (256 * W), b * W, 8 + k);
  }

  lemma PlaceValues()
    ensures Pow2(0) == 1 && Pow2(8) == 0x100 && Pow2(16) == 0x1_0000 && Pow2(24) == 0x100_0000
    ensures Pow2(32) == 0x1_0000_0000 && Pow2(40) == 0x100_0000_0000 && Pow2(48) == 0x1_0000_0000_0000
  {
    PowZero();
    hide Pow2;
    Pow2Eight();
    Pow2Add(8, 8);
    Pow2Add(16, 8);
    Pow2Add(16, 16);
    Pow2Add(32, 8);
    Pow2Add(32, 16);
  }

  lemma PowZero()
    ensures Pow2(0) == 1
  {
  }

  /** readUint64BE: eight bytes shifted to their places and ored together. */
  function ReadUint64BE(m: seq<byte>): (r: nat)
    requires |m| == 8
    ensures r == FromBE(m)
  {
    ReadIsFromBE(m);
    OredBytes(m)
  }

  function OredBytes(m: seq<byte>): nat
    requires |m| == 8
  {
    var r1 := Or(m[0] as nat * 0x100_0000_0000_0000, m[1] as nat * 0x1_0000_0000_0000);
    var r2 := Or(r1, m[2] as nat * 0x100_0000_0000);
    var r3 := Or(r2, m[3] as nat * 0x1_0000_0000);
    var r4 := Or(r3, m[4] as nat * 0x100_0000);
    var r5 := Or(r4, m[5] as nat * 0x1_0000);
    var r6 := Or(r5, m[6] as nat * 0x100);
    Or(r6, m[7])
  }

  lemma FromBESnoc(s: seq<byte>, n: nat)
    requires n < |s|
    ensures FromBE(s[..n + 1]) == FromBE(s[..n]) * 256 + s[n]
  {
    assert s[..n + 1][..n] == s[..n];
  }

  lemma ReadIsFromBE(m: seq<byte>)
    requires |m| == 8
    ensures OredBytes(m) == FromBE(m)
  {
    hide Pow2, Or, FromBE;
    assert FromBE(m[..0]) == 0 by { FromBEZeros(0); assert Zeros(0) == m[..0]; }
    FromBESnoc(m, 0);
    FromBESnoc(m, 1);
    FromBESnoc(m, 2);
    FromBESnoc(m, 3);
    FromBESnoc(m, 4);
    FromBESnoc(m, 5);
    FromBESnoc(m, 6);
    FromBESnoc(m, 7);
    PlaceValues();
    OrByte(FromBE(m[..1]), m[1], 48, 0x1_0000_0000_0000);
    OrByte(FromBE(m[..2]), m[2], 40, 0x100_0000_0000);
    OrByte(FromBE(m[..3]), m[3], 32, 0x1_0000_0000);
    OrByte(FromBE(m[..4]), m[4], 24, 0x100_0000);
    OrByte(FromBE(m[..5]), m[5], 16, 0x1_0000);
    OrByte(FromBE(m[..6]), m[6], 8, 0x100);
    OrByte(FromBE(m[..7]), m[7], 0, 1);
    assert m[..8] == m;
  }

  function ReadWord(m: seq<byte>): (r: uint64)
    requires |m| == 8
    ensures r == FromBE(m)
  {
    FromBEBelow(m);
    Pow256Words();
    ReadUint64BE(m)
  }

  method ReadU128BE(buffer: array<byte>, off: nat, target: U128)
    requires off + 16 <= buffer.Length
    modifies target
    ensures target.Value() == FromBE(buffer[off..off + 16])
  {
    hide FromBE, Pow;
    var u, l := buffer[off..off + 8], buffer[off + 8..off + 16];
    target.upper := ReadWord(u);
    target.lower := ReadWord(l);
    FromBEAppend(u, l);
    assert buffer[off..off + 16] == u + l;
    Pow256Words();
    JoinIs(B64, FromBE(u), FromBE(l));
  }

  method ReadU256BE(buffer: array<byte>, off: nat, target: U256)
    requires target.Valid() && off + 32 <= buffer.Length
    modifies target.Repr()
    ensures target.Value() == FromBE(buffer[off..off + 32])
  {
    hide FromBE, Pow, Join, U128.Value;
    var u, l := buffer[off..off + 16], buffer[off + 16..off + 32];
    ReadU128BE(buffer, off, target.upper);
    ReadU128BE(buffer, off + 16, target.lower);
    FromBEAppend(u, l);
    assert buffer[off..off + 32] == u + l;
    Pow256Sixteen();
    JoinIs(B128, FromBE(u), FromBE(l));
  }

  /** Storing the byte-swapped word through a uint64_t pointer. */
  method StoreSwapped(buffer: array<byte>, off: nat, x: uint64)
    requires off + 8 <= buffer.Length
    modifies buffer
    ensures buffer[..] == old(buffer[..off]) + BEFixed(x, 8) + old(buffer[off + 8..])
  {
    var m := LE(ByteSwap64(x), 8);
    var i := 0;
    while i < 8
      invariant 0 <= i <= 8
      invariant buffer[..off] == old(buffer[..off]) && buffer[off + i..] == old(buffer[off + i..])
      invariant buffer[off..off + i] == m[..i]
    {
      buffer[off + i] := m[i];
      assert buffer[off..off + i + 1] == buffer[off..off + i] + [m[i]];
      i := i + 1;
    }
    assert buffer[..] == buffer[..off] + buffer[off..off + 8] + buffer[off + 8..];
  }

  method WriteU128BE(number: U128, buffer: array<byte>, off: nat)
    requires off + 16 <= buffer.Length
    modifies buffer
    ensures buffer[..] == old(buffer[..off]) + BEFixed(number.Value(), 16) + old(buffer[off + 16..])
  {
    hide BEFixed, Pow;
    StoreSwapped(buffer, off, number.upper);
    ghost var mid := buffer[..];
    StoreSwapped(buffer, off + 8, number.lower);
    Pow256Words();
    BEFixedAppend(number.upper, 8, number.lower, 8);
    JoinIs(B64, number.upper, number.lower);
    assert mid[..off + 8] == old(buffer[..off]) + BEFixed(number.upper, 8);
    assert mid[off + 16..] == old(buffer[off + 16..]);
  }

  /** writeu256BE: the 32 bytes of the number, most significant first. */
  method WriteU256BE(number: U256, buffer: array<byte>, off: nat)
    requires off + 32 <= buffer.Length
    modifies buffer
    ensures buffer[..] == old(buffer[..off]) + BEFixed(number.Value(), 32) + old(buffer[off + 32..])
  {
    hide BEFixed, Pow, Join, U128.Value;
    WriteU128BE(number.upper, buffer, off);
    ghost var mid := buffer[..];
    WriteU128BE(number.lower, buffer, off + 16);
    Pow256Sixteen();
    BEFixedAppend(number.upper.Value(), 16, number.lower.Value(), 16);
    JoinIs(B128, number.upper.Value(), number.lower.Value());
    assert mid[..off + 16] == old(buffer[..off]) + BEFixed(number.upper.Value(), 16);
    assert mid[off + 32..] == old(buffer[off + 32..]);
  }

  // ---------------------------------------------------------------- numerals

  function Reverse(s: seq<char>): (r: seq<char>)
    ensures |r| == |s|
  {
    if s == [] then [] else Reverse(s[1..]) + [s[0]]
  }

  lemma {:induction false} ReverseAt(s: seq<char>, k: nat)
    requires k < |s|
    ensures Reverse(s)[k] == s[|s| - 1 - k]
  {
    if k < |s| - 1 {
      ReverseAt(s[1..], k);
    }
  }

  predicate Base(b: nat) {
    2 <= b <= 16
  }

  /** The digits of n, least significant first: the order in which division finds them. */
  function Digits(n: nat, b: nat): (d: seq<char>)
    requires Base(b)
    ensures d != []
    decreases n
  {
    Smaller(n, b);
    [HexDigit(n % b)] + if n / b == 0 then [] else Digits(n / b, b)
  }

  lemma Smaller(n: nat, b: nat)
    requires Base(b)
    ensures n / b <= n && (n / b > 0 ==> n / b < n)
  {
    if n / b > 0 {
      MulAtLeast(n / b, b - 1);
      MulMonotonic(1, b - 1, n / b);
    }
  }

  /** The usual way to write n. */
  function Numeral(n: nat, b: nat): (t: seq<char>)
    requires Base(b)
    ensures t != []
  {
    Reverse(Digits(n, b))
  }

  lemma NumeralBackwards(n: nat, b: nat)
    requires Base(b)
    ensures |Numeral(n, b)| == |Digits(n, b)|
    ensures forall i :: 0 <= i < |Digits(n, b)| ==> Digits(n, b)[i] == Numeral(n, b)[|Numeral(n, b)| - 1 - i]
  {
    hide Digits;
    var d := Digits(n, b);
    forall i | 0 <= i < |d| ensures d[i] == Numeral(n, b)[|d| - 1 - i] {
      ReverseAt(d, |d| - 1 - i);
    }
  }

  lemma NumeralUnfold(n: nat, b: nat)
    requires Base(b)
    ensures Numeral(n, b) == (if n / b == 0 then [] else Numeral(n / b, b)) + [HexDigit(n % b)]
  {
    hide Digits, Reverse, HexDigit;
    DigitsUnfold(n, b);
    var more := if n / b == 0 then [] else Digits(n / b, b);
    ReverseCons(HexDigit(n % b), more);
  }

  lemma ReverseCons(c: char, s: seq<char>)
    ensures Reverse([c] + s) == Reverse(s) + [c] && Reverse([]) == []
  {
    assert ([c] + s)[1..] == s;
  }

  /** The number that digits below the base denote. */
  function ValueIn(t: seq<char>, b: nat): nat
    requires AllHex(t)
  {
    if t == [] then 0 else ValueIn(t[..|t| - 1], b) * b + MapHex(t[|t| - 1])
  }

  lemma {:induction false} ValueInSixteen(t: seq<char>)
    requires AllHex(t)
    ensures ValueIn(t, 16) == HexValue(t)
  {
    if t != [] {
      ValueInSixteen(t[..|t| - 1]);
    }
  }

  predicate DigitsBelow(t: seq<char>, b: nat) {
    forall i :: 0 <= i < |t| ==> 0 <= MapHex(t[i]) < b
  }

  lemma ValueInSnoc(t: seq<char>, c: char, b: nat)
    requires Base(b) && DigitsBelow(t, b) && 0 <= MapHex(c) < b
    ensures DigitsBelow(t + [c], b) && ValueIn(t + [c], b) == ValueIn(t, b) * b + MapHex(c)
  {
    hide MapHex;
    assert (t + [c])[..|t|] == t;
  }

  /** The numeral is written with the first b of the decimal digits and the lower-case letters. */
  lemma {:induction false} NumeralDigits(n: nat, b: nat)
    requires Base(b)
    ensures forall i :: 0 <= i < |Numeral(n, b)| ==> Numeral(n, b)[i] in "0123456789abcdef"[..b]
    decreases n
  {
    hide HexDigit, Numeral;
    NumeralUnfold(n, b);
    Smaller(n, b);
    DigitInTable(n % b, b);
    if n / b > 0 {
      NumeralDigits(n / b, b);
    }
  }

  lemma DigitInTable(v: nat, b: nat)
    requires v < b <= 16
    ensures HexDigit(v) == "0123456789abcdef"[v] && HexDigit(v) in "0123456789abcdef"[..b]
  {
    assert "0123456789abcdef"[..b][v] == HexDigit(v);
  }

  /** The numeral denotes the number, uses only digits of its base, and has no leading zero. */
  lemma {:induction false} NumeralDenotes(n: nat, b: nat)
    requires Base(b)
    ensures DigitsBelow(Numeral(n, b), b) && ValueIn(Numeral(n, b), b) == n
    ensures n > 0 ==> Numeral(n, b)[0] != '0'
    decreases n
  {
    hide HexDigit, MapHex, Numeral, ValueIn;
    NumeralUnfold(n, b);
    Smaller(n, b);
    ValueInNone(b);
    if n / b == 0 {
      DivModUnique(n, b, 0, n);
      assert Numeral(n, b) == [HexDigit(n % b)];
      ValueInSnoc([], HexDigit(n % b), b);
    } else {
      NumeralDenotes(n / b, b);
      ValueInSnoc(Numeral(n / b, b), HexDigit(n % b), b);
    }
  }

  lemma ValueInNone(b: nat)
    ensures ValueIn([], b) == 0 && MapHex('0') == 0
  {
  }

  lemma DivBelowIff(n: nat, b: nat, P: nat)
    requires b > 0
    ensures n / b < P <==> n < b * P
  {
    if n / b < P {
      MulMonotonic(n / b + 1, P, b);
      MulDistributes(n / b, 1, b);
    } else {
      MulMonotonic(P, n / b, b);
    }
  }

  lemma ShorterIff(n: nat, b: nat, k: nat)
    requires Base(b) && k > 0
    ensures n / b < Pow(b, k - 1) <==> n < Pow(b, k)
  {
    hide Pow;
    PowStep(b, k);
    DivBelowIff(n, b, Pow(b, k - 1));
  }

  /** k digits suffice exactly below b^k. */
  lemma {:induction false} NumeralLengthIff(n: nat, b: nat, k: nat)
    requires Base(b) && k > 0
    ensures |Numeral(n, b)| <= k <==> n < Pow(b, k)
    decreases k
  {
    hide Numeral, Pow;
    NumeralUnfold(n, b);
    ShorterIff(n, b, k);
    if n / b > 0 {
      if k > 1 {
        NumeralLengthIff(n / b, b, k - 1);
      } else {
        PowNone(b);
      }
    } else {
      Pow1(b, k - 1);
    }
  }

  lemma Pow1(b: nat, k: nat)
    requires b > 0
    ensures Pow(b, k) >= 1
  {
  }

  // ---------------------------------------------------------------- tostring256

  /** reverseString on the first length characters. */
  method ReverseString(str: array<char>, length: uint32)
    requires 0 < length <= str.Length
    modifies str
    ensures str[..] == Reverse(old(str[..length])) + old(str[length..])
  {
    ghost var was := str[..length];
    var i: uint32, j: uint32 := 0, length - 1;
    while i < j
      invariant 0 <= i <= length && i + j == length - 1
      invariant i <= j + 1
      invariant forall k :: 0 <= k < i ==> str[k] == was[length - 1 - k]
      invariant forall k :: j < k < length ==> str[k] == was[length - 1 - k]
      invariant forall k :: i <= k <= j ==> str[k] == was[k]
      invariant str[length..] == old(str[length..])
      decreases j - i
    {
      str[i], str[j] := str[j], str[i];
      i, j := i + 1, j - 1;
    }
    forall k | 0 <= k < length ensures str[k] == Reverse(was)[k] {
      ReverseAt(was, k);
    }
    assert str[..] == str[..length] + str[length..];
  }

  lemma {:induction false} PowAtLeast(b: nat, k: nat)
    requires b >= 2
    ensures Pow(b, k) >= Pow2(k)
  {
    if k > 0 {
      PowAtLeast(b, k - 1);
      MulMonotonic(2, b, Pow(b, k - 1));
    }
  }

  lemma NumeralShort(n: nat, b: nat)
    requires Base(b) && n < B256
    ensures |Numeral(n, b)| <= 256
  {
    hide Pow, Pow2, Numeral;
    Pow2Words();
    PowAtLeast(b, 256);
    NumeralLengthIff(n, b, 256);
  }

  /** The room tostring needs: the digits it writes before it gives up, or all of them and a NUL. A length of 0 is no
      bound at all, since outLength - 1 wraps. */
  predicate RoomFor(n: nat, b: nat, room: nat, outLength: uint32) {
    Base(b) ==> if Fits(n, b, outLength) then |Numeral(n, b)| < room else outLength <= room
  }

  predicate Fits(n: nat, b: nat, outLength: uint32)
    requires Base(b)
  {
    outLength == 0 || |Numeral(n, b)| <= outLength
  }

  /** What tostring leaves: the numeral and a NUL; or, when it does not fit, its low digits, in reverse and without
      a NUL. */
  function TextImage(was: seq<char>, n: nat, b: nat, outLength: uint32): seq<char>
    requires Base(b) && RoomFor(n, b, |was|, outLength)
  {
    if Fits(n, b, outLength) then Numeral(n, b) + ['\0'] + was[|Numeral(n, b)| + 1..]
    else Digits(n, b)[..outLength] + was[outLength..]
  }

  lemma TextImageIs(was: seq<char>, n: nat, b: nat, outLength: uint32)
    requires Base(b) && RoomFor(n, b, |was|, outLength)
    ensures |Numeral(n, b)| == |Digits(n, b)|
    ensures TextImage(was, n, b, outLength) ==
            if Fits(n, b, outLength) then Numeral(n, b) + ['\0'] + was[|Numeral(n, b)| + 1..]
            else Digits(n, b)[..outLength] + was[outLength..]
  {
  }

  /** The NUL behind the digits, which are then reversed. */
  method Finish(out: array<char>, offset: uint32, ghost n: nat, ghost b: nat, ghost was: seq<char>)
    requires Base(b) && |Digits(n, b)| == offset < out.Length == |was|
    requires out[..] == Digits(n, b) + was[offset..]
    modifies out
    ensures out[..] == Numeral(n, b) + ['\0'] + was[|Numeral(n, b)| + 1..]
  {
    hide Digits;
    PutChar(out, offset, '\0', Digits(n, b), was);
    assert out[..offset] == Digits(n, b);
    ReverseString(out, offset);
  }

  method CopyOf256(number: U256) returns (copy: U256)
    requires number.Valid()
    ensures copy.Valid() && fresh(copy.Repr()) && copy.Value() == number.Value()
  {
    hide U128.Value, U256.Value;
    copy := new U256();
    Copy256(copy, number);
  }

  method Base256(b: uint32) returns (base: U256)
    ensures base.Valid() && fresh(base.Repr()) && base.Value() == b
  {
    hide U128.Value, U256.Value;
    base := new U256();
    SetUint64(base, b);
  }

  /** The low byte of a number, as a character of the digit table. */
  method LowDigit256(number: U256) returns (c: char)
    requires number.Value() < 16
    ensures c == HexDigit(number.Value())
  {
    LowWord256(number);
    c := HexDigit(number.lower.lower % 256);
  }

  lemma LowWord256(number: U256)
    requires number.Value() < 16
    ensures number.lower.lower == number.Value()
  {
    JoinIs(B128, number.upper.Value(), number.lower.Value());
    JoinIs(B64, number.lower.upper, number.lower.lower);
  }

  /** One division, in place: its remainder is the next digit. */
  method NextDigit256(rDiv: U256, base: U256, rMod: U256) returns (c: char)
    requires rDiv.Valid() && base.Valid() && rMod.Valid() && rDiv.Repr() !! base.Repr() !! rMod.Repr()
    requires Base(base.Value())
    modifies rDiv.Repr(), rMod.Repr()
    ensures rDiv.Value() == 0 || rDiv.Value() < old(rDiv.Value())
    ensures Digits(old(rDiv.Value()), base.Value()) ==
            [c] + if rDiv.Value() == 0 then [] else Digits(rDiv.Value(), base.Value())
  {
    hide U128.Value, U256.Value, Digits, HexDigit;
    DigitsUnfold(rDiv.Value(), base.Value());
    Smaller(rDiv.Value(), base.Value());
    Divmod256(rDiv, base, rDiv, rMod);
    c := LowDigit256(rMod);
  }

  /** The next digit behind those already written. */
  method EmitDigit256(rDiv: U256, base: U256, rMod: U256, out: array<char>, offset: nat, ghost done: seq<char>,
                     ghost was: seq<char>) returns (ghost done': seq<char>, ghost rest: seq<char>)
    requires rDiv.Valid() && base.Valid() && rMod.Valid() && rDiv.Repr() !! base.Repr() !! rMod.Repr()
    requires Base(base.Value()) && |done| == offset < out.Length == |was| && out[..] == done + was[offset..]
    modifies rDiv.Repr(), rMod.Repr(), out
    ensures rDiv.Value() == 0 || rDiv.Value() < old(rDiv.Value())
    ensures rest == if rDiv.Value() == 0 then [] else Digits(rDiv.Value(), base.Value())
    ensures done + Digits(old(rDiv.Value()), base.Value()) == done' + rest && |done'| == offset + 1
    ensures out[..] == done' + was[offset + 1..]
  {
    hide U128.Value, U256.Value, Digits;
    var c := NextDigit256(rDiv, base, rMod);
    PutChar(out, offset, c, done, was);
    rest := if rDiv.Value() == 0 then [] else Digits(rDiv.Value(), base.Value());
    Regrouped(done, c, rest);
    done' := done + [c];
  }

  /** The loop of tostring256: one digit for every division. */
  method DivideOut256(rDiv: U256, base: U256, out: array<char>, outLength: uint32, ghost all: seq<char>)
    returns (ok: bool, offset: uint32)
    requires rDiv.Valid() && base.Valid() && rDiv.Repr() !! base.Repr() && Base(base.Value())
    requires all == Digits(rDiv.Value(), base.Value()) && |all| <= 256
    requires if outLength == 0 || |all| <= outLength then |all| < out.Length else outLength <= out.Length
    modifies rDiv.Repr(), out
    ensures ok <==> outLength == 0 || |all| <= outLength
    ensures offset == if ok then |all| else outLength
    ensures out[..] == all[..offset] + old(out[..])[offset..]
  {
    hide U128.Value, U256.Value, Digits, Join, Numeral;
    var rMod := new U256();
    ghost var was, done, rest, b := out[..], [], all, base.Value();
    offset := 0;
    while true
      invariant base.Value() == b && rest == Digits(rDiv.Value(), b)
      invariant outLength == 0 || offset <= outLength
      invariant |done| == offset < |all| && offset <= out.Length && all == done + rest
      invariant out[..] == done + was[offset..]
      decreases rDiv.Value()
    {
      if offset > (outLength as int - 1) % 0x1_0000_0000 {
        PrefixOf(done, rest);
        return false, offset;
      }
      done, rest := EmitDigit256(rDiv, base, rMod, out, offset, done, was);
      offset := offset + 1;
      if Zero256(rDiv) {
        break;
      }
    }
    PrefixOf(done, rest);
    return true, offset;
  }

  /** tostring256: the quotient is divided in place until it is 0. */
  method ToString256(number: U256, baseParam: uint32, out: array<char>, outLength: uint32) returns (ok: bool)
    requires number.Valid() && RoomFor(number.Value(), baseParam, out.Length, outLength)
    modifies out
    ensures ok <==> 2 <= baseParam <= 16 && (outLength == 0 || |Numeral(number.Value(), baseParam)| <= outLength)
    ensures ok ==> var t := Numeral(number.Value(), baseParam); out[..] == t + ['\0'] + old(out[..])[|t| + 1..]
    ensures !ok && 2 <= baseParam <= 16 ==>
              var t := Numeral(number.Value(), baseParam);
              outLength <= |t| && outLength <= out.Length && out[outLength..] == old(out[..])[outLength..] &&
              forall i :: 0 <= i < outLength ==> out[i] == t[|t| - 1 - i]
    ensures out[..] == if Base(baseParam) then TextImage(old(out[..]), number.Value(), baseParam, outLength)
                       else old(out[..])
  {
    hide U128.Value, U256.Value, Digits, Numeral, TextImage;
    if baseParam < 2 || baseParam > 16 {
      return false;
    }
    ghost var n, was := number.Value(), out[..];
    NumeralShort(n, baseParam);
    TextImageIs(was, n, baseParam, outLength);
    NumeralBackwards(n, baseParam);
    var rDiv := CopyOf256(number);
    var base := Base256(baseParam);
    var offset;
    ok, offset := DivideOut256(rDiv, base, out, outLength, Digits(n, baseParam));
    if !ok {
      return false;
    }
    Finish(out, offset, n, baseParam, was);
    return true;
  }

  method LowDigit128(number: U128) returns (c: char)
    requires number.Value() < 16
    ensures c == HexDigit(number.Value())
  {
    LowWord128(number);
    c := HexDigit(number.lower % 256);
  }

  lemma LowWord128(number: U128)
    requires number.Value() < 16
    ensures number.lower == number.Value()
  {
    JoinIs(B64, number.upper, number.lower);
  }

  /** One division, in place: its remainder is the next digit. */
  method NextDigit128(rDiv: U128, base: U128, rMod: U128) returns (c: char)
    requires rDiv != base && rDiv != rMod && base != rMod
    requires Base(base.Value())
    modifies rDiv, rMod
    ensures rDiv.Value() == 0 || rDiv.Value() < old(rDiv.Value())
    ensures Digits(old(rDiv.Value()), base.Value()) ==
            [c] + if rDiv.Value() == 0 then [] else Digits(rDiv.Value(), base.Value())
  {
    hide U128.Value, U256.Value, Digits, HexDigit;
    DigitsUnfold(rDiv.Value(), base.Value());
    Smaller(rDiv.Value(), base.Value());
    Divmod128(rDiv, base, rDiv, rMod);
    c := LowDigit128(rMod);
  }

  /** The next digit behind those already written. */
  method EmitDigit128(rDiv: U128, base: U128, rMod: U128, out: array<char>, offset: nat, ghost done: seq<char>,
                     ghost was: seq<char>) returns (ghost done': seq<char>, ghost rest: seq<char>)
    requires rDiv != base && rDiv != rMod && base != rMod
    requires Base(base.Value()) && |done| == offset < out.Length == |was| && out[..] == done + was[offset..]
    modifies rDiv, rMod, out
    ensures rDiv.Value() == 0 || rDiv.Value() < old(rDiv.Value())
    ensures rest == if rDiv.Value() == 0 then [] else Digits(rDiv.Value(), base.Value())
    ensures done + Digits(old(rDiv.Value()), base.Value()) == done' + rest && |done'| == offset + 1
    ensures out[..] == done' + was[offset + 1..]
  {
    hide U128.Value, U256.Value, Digits;
    var c := NextDigit128(rDiv, base, rMod);
    PutChar(out, offset, c, done, was);
    rest := if rDiv.Value() == 0 then [] else Digits(rDiv.Value(), base.Value());
    Regrouped(done, c, rest);
    done' := done + [c];
  }

  /** The loop of tostring128: one digit for every division. */
  method DivideOut128(rDiv: U128, base: U128, out: array<char>, outLength: uint32, ghost all: seq<char>)
    returns (ok: bool, offset: uint32)
    requires rDiv != base && Base(base.Value())
    requires all == Digits(rDiv.Value(), base.Value()) && |all| <= 256
    requires if outLength == 0 || |all| <= outLength then |all| < out.Length else outLength <= out.Length
    modifies rDiv, out
    ensures ok <==> outLength == 0 || |all| <= outLength
    ensures offset == if ok then |all| else outLength
    ensures out[..] == all[..offset] + old(out[..])[offset..]
  {
    hide U128.Value, U256.Value, Digits, Join, Numeral;
    var rMod := new U128(0, 0);
    ghost var was, done, rest, b := out[..], [], all, base.Value();
    offset := 0;
    while true
      invariant base.Value() == b && rest == Digits(rDiv.Value(), b)
      invariant outLength == 0 || offset <= outLength
      invariant |done| == offset < |all| && offset <= out.Length && all == done + rest
      invariant out[..] == done + was[offset..]
      decreases rDiv.Value()
    {
      if offset > (outLength as int - 1) % 0x1_0000_0000 {
        PrefixOf(done, rest);
        return false, offset;
      }
      done, rest := EmitDigit128(rDiv, base, rMod, out, offset, done, was);
      offset := offset + 1;
      if Zero128(rDiv) {
        break;
      }
    }
    PrefixOf(done, rest);
    return true, offset;
  }

  /** tostring128, the same on 128 bits. */
  method ToString128(number: U128, baseParam: uint32, out: array<char>, outLength: uint32) returns (ok: bool)
    requires RoomFor(number.Value(), baseParam, out.Length, outLength)
    modifies out
    ensures ok <==> 2 <= baseParam <= 16 && (outLength == 0 || |Numeral(number.Value(), baseParam)| <= outLength)
    ensures ok ==> var t := Numeral(number.Value(), baseParam); out[..] == t + ['\0'] + old(out[..])[|t| + 1..]
    ensures !ok && 2 <= baseParam <= 16 ==>
              var t := Numeral(number.Value(), baseParam);
              outLength <= |t| && outLength <= out.Length && out[outLength..] == old(out[..])[outLength..] &&
              forall i :: 0 <= i < outLength ==> out[i] == t[|t| - 1 - i]
    ensures out[..] == if Base(baseParam) then TextImage(old(out[..]), number.Value(), baseParam, outLength)
                       else old(out[..])
  {
    hide U128.Value, U256.Value, Digits, Numeral, TextImage;
    if baseParam < 2 || baseParam > 16 {
      return false;
    }
    ghost var n, was := number.Value(), out[..];
    NumeralShort(n, baseParam);
    TextImageIs(was, n, baseParam, outLength);
    NumeralBackwards(n, baseParam);
    var rDiv := new U128(0, 0);
    Copy128(rDiv, number);
    var base := new U128(0, baseParam);
    var offset;
    ok, offset := DivideOut128(rDiv, base, out, outLength, Digits(n, baseParam));
    if !ok {
      return false;
    }
    Finish(out, offset, n, baseParam, was);
    return true;
  }

  lemma PrefixOf(done: seq<char>, rest: seq<char>)
    ensures (done + rest)[..|done|] == done
  {
  }

  lemma DigitsUnfold(n: nat, b: nat)
    requires Base(b)
    ensures Digits(n, b) == [HexDigit(n % b)] + if n / b == 0 then [] else Digits(n / b, b)
  {
  }

  // ---------------------------------------------------------------- fromstring256

  /** What fromstring256 accepts: hextobin_2 takes prefixes off again. */
  predicate Parses(hex: seq<char>) {
    var t := Strip(hex);
    1 <= |t| <= 64 && Accepts2(t)
  }

  /** What it makes of it: the bytes found stand at the top of the room kept for the text. */
  function ParsedValue(hex: seq<char>): nat
    requires Parses(hex)
  {
    hide FromBE, PairBytes, MapHex, Accepts2, AllHex;
    var t := Strip(hex);
    var d := Decode2(t);
    Decode2Length(t);
    FromBE(d) * Pow(256, (|t| + 1) / 2 - |d|)
  }

  lemma Decode2Length(t: seq<char>)
    requires Accepts2(t)
    ensures |Decode2(t)| <= (|t| + 1) / 2
  {
    hide MapHex, PairBytes, AllHex;
  }

  lemma ShortTerminates(t: seq<char>)
    requires |t| <= 64
    ensures Terminates2(t)
  {
  }

  lemma {:induction false} ZerosAround(m: nat, d: seq<byte>, n: nat)
    ensures FromBE(Zeros(m) + d + Zeros(n)) == FromBE(d) * Pow(256, n)
  {
    hide FromBE, Pow, Zeros;
    FromBEAppend(Zeros(m), d);
    FromBEZeros(m);
    ZeroTimes(Pow(256, |d|));
    FromBEAppend(Zeros(m) + d, Zeros(n));
    FromBEZeros(n);
  }

  lemma ZeroTimes(x: nat)
    ensures 0 * x == 0
  {
  }

  lemma AllZeros(s: seq<byte>)
    requires forall i :: 0 <= i < |s| ==> s[i] == 0
    ensures s == Zeros(|s|)
  {
  }

  lemma BufferValue(s: seq<byte>, off: nat, d: seq<byte>)
    requires off + |d| <= |s| && s[..off] == Zeros(off)
    requires s[off..off + (|s| - off)] == d + Zeros(|s| - off - |d|)
    ensures FromBE(s) == FromBE(d) * Pow(256, |s| - off - |d|)
  {
    hide FromBE, Pow, Zeros;
    assert s == s[..off] + s[off..off + (|s| - off)];
    assert s == Zeros(off) + d + Zeros(|s| - off - |d|);
    ZerosAround(off, d, |s| - off - |d|);
  }

  /** The text in the last bytes of 32. */
  method HexToBuffer(t: CString) returns (ret: int, buf: array<byte>)
    requires 1 <= |t| <= 64
    ensures fresh(buf) && buf.Length == 32
    ensures ret >= 0 <==> Accepts2(t)
    ensures ret >= 0 ==> FromBE(buf[..]) == FromBE(Decode2(t)) * Pow(256, (|t| + 1) / 2 - |Decode2(t)|)
  {
    hide FromBE, Pow, Decode2, Accepts2, Terminates2, Zeros, Count2, Found2, Strip, AllHex;
    buf := new byte[32](_ => 0);
    var off := 32 - |t| / 2;
    if |t| % 2 != 0 {
      off := off - 1;
    }
    ShortTerminates(t);
    AllZeros(buf[..off]);
    ret := Hextobin2(t, buf, off, 32 - off);
    Found2All(t);
    if ret >= 0 {
      BufferValue(buf[..], off, Decode2(t));
    }
  }

  method FromString256(hex: CString, out: U256) returns (ret: int)
    requires out.Valid()
    modifies out.Repr()
    ensures ret == if Parses(hex) then 0 else -1
    ensures ret == 0 ==> out.Value() == ParsedValue(hex)
    ensures ret != 0 ==> out.Value() == if 1 <= |Strip(hex)| <= 64 then 0 else old(out.Value())
  {
    hide U128.Value, U256.Value, FromBE, Pow, Decode2, Accepts2;
    var t: CString := hex;
    if |t| > 2 && t[0] == '0' && t[1] == 'x' {
      t := t[2..];
    }
    assert t == Strip(hex);
    if |t| < 1 || |t| > 64 {
      return -1;
    }
    Clear256(out);
    var n, buf := HexToBuffer(t);
    if n < 0 {
      return -1;
    }
    ReadU256BE(buf, 0, out);
    assert buf[0..32] == buf[..];
    return 0;
  }

  // ---------------------------------------------------------------- what texts mean

  /** A 0x that hextobin_2 or hextobin would take off once more. */
  predicate InnerPrefix(t: seq<char>) {
    HasPrefix(t) || (|t| % 2 == 1 && HasPrefix(t[1..]))
  }

  lemma InnerPrefixNotHex(t: seq<char>)
    requires InnerPrefix(t)
    ensures !AllHex(t)
  {
    var i := if HasPrefix(t) then 1 else 2;
    assert t[i] == 'x' && MapHex('x') == -1;
  }

  lemma AllHexSplit(t: seq<char>)
    requires t != []
    ensures AllHex(t) <==> MapHex(t[0]) >= 0 && AllHex(t[1..])
  {
    hide MapHex;
    if MapHex(t[0]) >= 0 && AllHex(t[1..]) {
      forall i | 0 <= i < |t| ensures MapHex(t[i]) >= 0 {
        assert i > 0 ==> t[i] == t[1..][i - 1];
      }
    }
  }

  /** What is left of a text, already without one prefix, when every further prefix that is taken off is gone. */
  function Residue(t: seq<char>): seq<char> {
    var u := Strip(t);
    if |u| % 2 == 0 then Strip(u) else u[..1] + Strip(u[1..])
  }

  lemma AllHexCons(c: seq<char>, t: seq<char>)
    requires |c| == 1
    ensures AllHex(c + t) <==> MapHex(c[0]) >= 0 && AllHex(t)
  {
    hide MapHex, AllHex;
    assert (c + t)[1..] == t;
    AllHexSplit(c + t);
  }

  lemma AcceptsResidue(t: seq<char>)
    ensures Accepts2(t) <==> t != [] && AllHex(Residue(t))
  {
    hide MapHex, AllHex;
    var u := Strip(t);
    if |u| % 2 == 1 {
      AllHexCons(u[..1], Strip(u[1..]));
    }
  }

  lemma PlainResidue(t: seq<char>)
    requires !InnerPrefix(t)
    ensures Residue(t) == t
  {
    if |t| % 2 == 1 {
      assert t[..1] + t[1..] == t;
    }
  }

  /** What is accepted, and when that is right: hex digits, 1 to 64 of them, and nothing else, unless a further 0x is
      inside a text that would consist of hex digits without it. */
  lemma ParsesIff(hex: seq<char>)
    ensures var t := Strip(hex);
            && (Parses(hex) <==> 1 <= |t| <= 64 && AllHex(Residue(t)))
            && ((Parses(hex) <==> 1 <= |t| <= 64 && AllHex(t))
                <==> !(1 <= |t| <= 64 && InnerPrefix(t) && AllHex(Residue(t))))
  {
    hide AllHex, Accepts2, Residue;
    var t := Strip(hex);
    AcceptsResidue(t);
    if InnerPrefix(t) {
      InnerPrefixNotHex(t);
    } else {
      PlainResidue(t);
    }
  }

  /** Such a text is misread: the digits move to the place of the prefix. */
  lemma InnerPrefixMisread(hex: seq<char>)
    requires hex == "0x0x12"
    ensures Parses(hex) && ParsedValue(hex) == 0x1200
  {
    hide FromBE, Pow, PairBytes;
    var t, u := Strip(hex), "12";
    assert t == "0x12" && Strip(t) == u && Strip(u) == u;
    TwoDigits(u);
    OneByte(0x12);
    Pow256Words();
  }

  lemma TwoDigits(u: seq<char>)
    requires |u| == 2 && u[0] == '1' && u[1] == '2'
    ensures AllHex(u) && PairBytes(u) == [0x12]
  {
    hide PairBytes;
    PairBytesUnfold(u);
    EmptyRest(u[..0]);
  }

  /** An odd text: the first digit is a byte of its own. */
  lemma {:induction false} OddTextValue(t: seq<char>)
    requires AllHex(t) && |t| % 2 == 1
    ensures FromBE([MapHex(t[0])] + PairBytes(t[1..])) == HexValue(t)
    decreases |t|
  {
    hide MapHex, FromBE, PairBytes, HexValue;
    var n := |t| - 2;
    var d: byte := MapHex(t[0]);
    if |t| == 1 {
      NothingDenoted();
      assert t[1..] == [] && [d] + [] == [d];
      OneByte(d);
      OneDigit(t);
    } else {
      OddTextValue(t[..n]);
      var r := t[1..];
      assert r[..|r| - 2] == t[..n][1..];
      PairBytesUnfold(r);
      var b := PairBytes(r[..|r| - 2]);
      assert [d] + PairBytes(r) == ([d] + b) + [MapHex(t[n]) * 16 + MapHex(t[n + 1])];
      FromBEPush([d] + b, MapHex(t[n]) * 16 + MapHex(t[n + 1]));
      HexValuePair(t);
    }
  }

  lemma OneDigit(t: seq<char>)
    requires AllHex(t) && |t| == 1
    ensures HexValue(t) == MapHex(t[0])
  {
    hide MapHex;
    assert t[..0] == [];
  }

  lemma HexTextDecodes(t: seq<char>)
    requires AllHex(t) && t != []
    ensures Accepts2(t) && |Decode2(t)| == (|t| + 1) / 2 && FromBE(Decode2(t)) == HexValue(t)
  {
    hide MapHex, PairBytes, FromBE, HexValue;
    HexHasNoPrefix(t);
    if |t| % 2 == 0 {
      PairBytesValue(t);
    } else {
      AllHexSplit(t);
      HexHasNoPrefix(t[1..]);
      OddTextValue(t);
    }
  }

  lemma StripOne(t: seq<char>)
    requires AllHex(t) && t != []
    ensures Strip(t) == t && Strip("0x" + t) == t
  {
    HexHasNoPrefix(t);
    assert ("0x" + t)[2..] == t;
  }

  /** 1 to 64 hex digits are read as the number they denote, with or without 0x. */
  lemma HexTextParses(t: seq<char>)
    requires AllHex(t) && 1 <= |t| <= 64
    ensures Parses(t) && ParsedValue(t) == HexValue(t)
    ensures Parses("0x" + t) && ParsedValue("0x" + t) == HexValue(t)
  {
    hide MapHex, PairBytes, FromBE, HexValue, Accepts2, Decode2, AllHex;
    StripOne(t);
    HexTextDecodes(t);
    assert Pow(256, 0) == 1;
  }

  /** The number of hexadecimal digits, the most significant first. */
  function Hexadecimal(ds: seq<nat>): nat {
    if ds == [] then 0 else Hexadecimal(ds[..|ds| - 1]) * 16 + ds[|ds| - 1]
  }

  lemma {:induction false} HexValueOf(t: seq<char>, ds: seq<nat>)
    requires |t| == |ds| && forall i :: 0 <= i < |ds| ==> ds[i] < 16 && DigitOf(t[i], ds[i])
    ensures AllHex(t) && HexValue(t) == Hexadecimal(ds)
    decreases |t|
  {
    hide MapHex, DigitOf;
    forall i | 0 <= i < |t| ensures MapHex(t[i]) == ds[i] {
      DigitIsMapped(t[i], ds[i]);
    }
    if t != [] {
      HexValueOf(t[..|t| - 1], ds[..|ds| - 1]);
    }
  }

  lemma DigitIsMapped(c: char, v: nat)
    requires v < 16 && DigitOf(c, v)
    ensures MapHex(c) == v
  {
    hide MapHex;
    MapHexIff(c, v);
  }

  /** 1 to 64 hex digits, each written in either case, with or without 0x, are read as the number they make. */
  lemma HexDigitsParse(t: seq<char>, ds: seq<nat>)
    requires |t| == |ds| && 1 <= |ds| <= 64
    requires forall i :: 0 <= i < |ds| ==>
               ds[i] < 16 && (t[i] == "0123456789abcdef"[ds[i]] || t[i] == "0123456789ABCDEF"[ds[i]])
    ensures Parses(t) && ParsedValue(t) == Hexadecimal(ds)
    ensures Parses("0x" + t) && ParsedValue("0x" + t) == Hexadecimal(ds)
  {
    hide MapHex, Parses, ParsedValue, AllHex, HexValue, Hexadecimal;
    HexValueOf(t, ds);
    HexTextParses(t);
  }

  lemma {:induction false} Pow16Pairs(n: nat)
    ensures Pow(16, 2 * n) == Pow(256, n)
  {
    if n > 0 {
      Pow16Pairs(n - 1);
      assert Pow(16, 2 * n) == 16 * Pow(16, 2 * n - 1) == 16 * (16 * Pow(16, 2 * n - 2));
    }
  }

  /** fromstring256 inverts tostring256 in base 16, with or without 0x. */
  lemma FromStringInvertsToString(v: nat)
    requires v < B256
    ensures var t := Numeral(v, 16);
            Fits(v, 16, 65) &&
            Parses(t) && ParsedValue(t) == v && Parses("0x" + t) && ParsedValue("0x" + t) == v
  {
    hide MapHex, HexValue, ValueIn, Numeral, Pow, Parses, ParsedValue;
    Pow256Sixteen();
    Pow16Pairs(32);
    NumeralLengthIff(v, 16, 64);
    NumeralDenotes(v, 16);
    ValueInSixteen(Numeral(v, 16));
    HexTextParses(Numeral(v, 16));
  }
}
