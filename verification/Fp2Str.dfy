/** Binary fixed point to decimal text (helpers/fp2str.c). */
module Fp2Str {
  import opened Words
  import opened HexToBin
  import opened IntMath
  import opened Uint256Text

  // ---------------------------------------------------------------- powers of two in a number

  /** How often 2 divides n. */
  function Two(n: nat): (t: nat)
    requires n > 0
  {
    if n % 2 == 1 then 0 else 1 + Two(n / 2)
  }

  lemma {:induction false} TwoSplit(n: nat) returns (o: nat)
    requires n > 0
    ensures o % 2 == 1 && n == o * Pow2(Two(n))
  {
    if n % 2 == 1 {
      o := n;
      PowNone(2);
    } else {
      o := TwoSplit(n / 2);
      TimesTwo(o, Pow2(Two(n / 2)));
    }
  }

  lemma TimesTwo(a: nat, p: nat)
    ensures a * (2 * p) == 2 * (a * p)
  {
  }

  lemma {:induction false} TwoOf(o: nat, t: nat)
    requires o % 2 == 1
    ensures o * Pow2(t) > 0 && Two(o * Pow2(t)) == t
  {
    MulPositive(o, Pow2(t));
    if t == 0 {
      PowNone(2);
    } else {
      TwoOf(o, t - 1);
      TimesTwo(o, Pow2(t - 1));
    }
  }

  lemma TwoBelow(n: nat, d: nat)
    requires 0 < n < Pow2(d)
    ensures Two(n) < d
  {
    hide Pow2, Two;
    var o := TwoSplit(n);
    if Two(n) >= d {
      Pow2Monotonic(d, Two(n));
      MulMonotonic(1, o, Pow2(Two(n)));
    }
  }

  /** Ten times f carries one factor 2 more; what is left of it below 2^d too, until nothing is left. */
  lemma TwoGrows(f: nat, d: nat)
    requires 0 < f < Pow2(d)
    ensures var g := (10 * f) % Pow2(d);
            if Two(f) + 1 == d then g == 0 else g > 0 && Two(g) == Two(f) + 1
  {
    hide Pow2, Two;
    TwoBelow(f, d);
    var t := Two(f);
    var o := TwoSplit(f);
    PowStep(2, t + 1);
    FiveOddTimes(o, Pow2(t));
    TwoGrowsFrom(5 * o, t + 1, d);
  }

  lemma TwoGrowsFrom(a: nat, t: nat, d: nat)
    requires a % 2 == 1 && t <= d
    ensures var g := (a * Pow2(t)) % Pow2(d);
            if t == d then g == 0 else g > 0 && Two(g) == t
  {
    hide Pow2, Two;
    if t == d {
      ModDrop(0, a, Pow2(d));
    } else {
      Pow2Add(t, d - t);
      var r := a % Pow2(d - t);
      PowStep(2, d - t);
      OddRest(a, Pow2(d - t - 1));
      TwoOf(r, t);
      ProductRest(a, Pow2(t), Pow2(d - t), Pow2(d));
    }
  }

  lemma ProductRest(u: nat, P: nat, Q: nat, B: nat)
    requires P > 0 && Q > 0 && P * Q == B
    ensures (u * P) % B == (u % Q) * P
  {
    SplitProduct(u, P, Q, B);
  }

  lemma FiveOddTimes(o: nat, p: nat)
    ensures 10 * (o * p) == (5 * o) * (2 * p)
  {
  }

  lemma OddRest(a: nat, p: nat)
    requires a % 2 == 1 && p > 0
    ensures (a % (2 * p)) % 2 == 1
  {
    var q := a / (2 * p);
    assert a == q * (2 * p) + a % (2 * p);
    TimesTwo(q, p);
  }

  // ---------------------------------------------------------------- the decimals

  predicate Fractional(f: nat, d: nat) {
    f < Pow2(d)
  }

  /** The rounds of the loop that are left. */
  function Left(f: nat, d: nat): (n: nat)
    requires Fractional(f, d)
  {
    if f == 0 then 0 else
      TwoBelow(f, d);
      d - Two(f)
  }

  function Rest(f: nat, d: nat): (g: nat)
    requires Fractional(f, d)
    ensures Fractional(g, d) && (f > 0 ==> Left(g, d) == Left(f, d) - 1)
  {
    if f > 0 then
      TwoGrows(f, d);
      TwoBelow(f, d);
      (10 * f) % Pow2(d)
    else 0
  }

  lemma DigitBelowTen(f: nat, d: nat)
    requires Fractional(f, d)
    ensures (10 * f) / Pow2(d) < 10
  {
    hide Pow2;
    QuotientBelow(10 * f, Pow2(d), 10);
  }

  /** The next decimal of f / 2^d. */
  function TrueDigit(f: nat, d: nat): (c: nat)
    requires Fractional(f, d)
    ensures c < 10
  {
    hide Pow2;
    DigitBelowTen(f, d);
    (10 * f) / Pow2(d)
  }

  /** The decimal the code prints: 10 * f has been cut to 32 bits. */
  function PrintedDigit(f: nat, d: nat): (c: nat)
    requires Fractional(f, d) && d <= 30
    ensures c == TrueDigit(f, d) % Pow2(32 - d) && c <= TrueDigit(f, d)
  {
    hide Pow2;
    CutDigit(10 * f, d);
    ((10 * f) % 0x1_0000_0000) / Pow2(d)
  }

  lemma CutDigit(x: nat, d: nat)
    requires d <= 32
    ensures (x % 0x1_0000_0000) / Pow2(d) == (x / Pow2(d)) % Pow2(32 - d)
    ensures (x / Pow2(d)) % Pow2(32 - d) <= x / Pow2(d)
  {
    hide Pow2;
    Pow2Words();
    Pow2Add(32 - d, d);
    CutQuotient(x, Pow2(d), Pow2(32 - d));
  }

  lemma CutQuotient(x: nat, P: nat, Q: nat)
    requires P > 0 && Q > 0 && Q * P > 0
    ensures (x % (Q * P)) / P == (x / P) % Q
    ensures (x / P) % Q <= x / P
  {
    CutRest(x, P, Q);
    RestAtMost(x / P, Q);
    RestBelow(x, P);
    DivAddMultiple((x / P) % Q, x % P, P);
  }

  lemma RestBelow(x: nat, P: nat)
    requires P > 0
    ensures 0 <= x % P < P && (x % P) / P == 0
  {
    DivModUnique(x % P, P, 0, x % P);
  }

  lemma CutRest(x: nat, P: nat, Q: nat)
    requires P > 0 && Q > 0 && Q * P > 0
    ensures x % (Q * P) == ((x / P) % Q) * P + x % P
  {
    DivSplit(x, P);
    DivSplit(x / P, Q);
    CutRestFrom(x, x / P, x % P, (x / P) / Q, (x / P) % Q, P, Q);
  }

  lemma CutRestFrom(x: nat, y: nat, r: nat, q: nat, c: nat, P: nat, Q: nat)
    requires P > 0 && Q > 0 && Q * P > 0 && x == y * P + r && y == q * Q + c && r < P && c < Q
    ensures x % (Q * P) == c * P + r
  {
    Regroup(q, c, r, P, Q);
    TwoPlaces(c, r, P, Q);
    DivModUnique(x, Q * P, q, c * P + r);
  }

  lemma RestAtMost(y: nat, Q: nat)
    requires Q > 0
    ensures y % Q <= y
  {
  }

  lemma Regroup(q: nat, c: nat, r: nat, P: nat, Q: nat)
    ensures (q * Q + c) * P + r == q * (Q * P) + (c * P + r)
  {
    MulDistributes(q * Q, c, P);
    MulAssoc(q, Q, P);
  }

  lemma TwoPlaces(c: nat, r: nat, P: nat, Q: nat)
    requires r < P && c < Q
    ensures 0 <= c * P + r < Q * P
  {
    MulMonotonic(c + 1, Q, P);
    MulDistributes(c, 1, P);
    MulPositive(c, P);
  }

  function Digit(x: nat): (c: char)
    requires x < 10
    ensures MapHex(c) == x && c != '\0'
  {
    '0' + x as char
  }

  /** All decimals of f / 2^d. */
  function TrueText(f: nat, d: nat): (t: seq<char>)
    requires Fractional(f, d)
    ensures |t| == Left(f, d)
    decreases Left(f, d)
  {
    if f == 0 then [] else [Digit(TrueDigit(f, d))] + TrueText(Rest(f, d), d)
  }

  function FracText(f: nat, d: nat): (t: seq<char>)
    requires Fractional(f, d) && d <= 30
    ensures |t| == Left(f, d)
    decreases Left(f, d)
  {
    if f == 0 then [] else [Digit(PrintedDigit(f, d))] + FracText(Rest(f, d), d)
  }

  /** snprintf with %d of a uint32_t. */
  function IntegerText(x: uint32): seq<char> {
    if x < 0x8000_0000 then Numeral(x, 10) else ['-'] + Numeral(0x1_0000_0000 - x, 10)
  }

  /** What fp2str writes when there is room. */
  function Text(val: uint32, d: nat): seq<char>
    requires d <= 30
  {
    var f := val % Pow2(d);
    IntegerText(Integer(val, d)) + if f == 0 then [] else ['.'] + FracText(f, d)
  }

  function Integer(val: uint32, d: nat): (x: uint32)
    ensures x <= val
    ensures d > 0 ==> x < 0x8000_0000
  {
    hide Pow2;
    Shifted(val, d);
    val / Pow2(d)
  }

  lemma Shifted(val: uint32, d: nat)
    ensures val / Pow2(d) <= val && (d > 0 ==> val / Pow2(d) < 0x8000_0000)
  {
    hide Pow2;
    MulMonotonic(1, Pow2(d), val / Pow2(d));
    if d > 0 {
      PowStep(2, d);
      MulMonotonic(2, Pow2(d), val / Pow2(d));
    }
  }

  // ---------------------------------------------------------------- fp2str

  /** What snprintf leaves of a text in a buffer of which it may use n characters. */
  function Printed(was: seq<char>, t: seq<char>, n: nat): (now: seq<char>)
    requires n <= |was|
    ensures |now| == |was|
  {
    if n == 0 then was
    else if |t| < n then t + ['\0'] + was[|t| + 1..]
    else t[..n - 1] + ['\0'] + was[n..]
  }

  /** What the loop leaves: the text and a NUL, or as much of the text as there is room for, without a NUL. */
  function Image(was: seq<char>, t: seq<char>, n: nat): (now: seq<char>)
    requires 0 < n <= |was|
  {
    if |t| < n then t + ['\0'] + was[|t| + 1..] else t[..n - 1] + was[n - 1..]
  }

  /** snprintf, by its contract in the C standard: it returns the length of the whole text. */
  method Snprintf(buf: array<char>, bufLen: nat, t: seq<char>) returns (ret: nat)
    requires bufLen <= buf.Length
    modifies buf
    ensures ret == |t| && buf[..] == Printed(old(buf[..]), t, bufLen)
  {
    ret := |t|;
    if bufLen == 0 {
      return;
    }
    var n := if |t| < bufLen then |t| else bufLen - 1;
    forall k | 0 <= k < n {
      buf[k] := t[k];
    }
    buf[n] := '\0';
  }

  /** The text, written out: an integer of 32 bits with a sign, and behind a point the decimals. */
  lemma TextIs(val: uint32, d: nat, q: nat, f: nat)
    requires d <= 30 && q == val / Pow2(d) && f == val % Pow2(d) && Fractional(f, d)
    ensures var D := if d == 0 && val >= 0x8000_0000 then ['-'] + Numeral(0x1_0000_0000 - val, 10)
                     else Numeral(q, 10);
            IntegerText(Integer(val, d)) == D && Text(val, d) == if f == 0 then D else D + ['.'] + FracText(f, d)
  {
    hide Pow2, Numeral, FracText, Fractional, Integer;
    IntegerIs(val, d);
    PowNone(2);
    Shifted(val, d);
  }

  lemma PrintedIs(was: seq<char>, t: seq<char>, n: nat)
    requires n <= |was|
    ensures n == 0 ==> Printed(was, t, n) == was
    ensures |t| < n ==> Printed(was, t, n) == t + ['\0'] + was[|t| + 1..]
    ensures 0 < n <= |t| ==> Printed(was, t, n) == t[..n - 1] + ['\0'] + was[n..]
  {
  }

  lemma ImageIs(was: seq<char>, t: seq<char>, n: nat)
    requires n <= |was|
    ensures |t| < n ==> Image(was, t, n) == t + ['\0'] + was[|t| + 1..]
    ensures 0 < n <= |t| ==> Image(was, t, n) == t[..n - 1] + was[n - 1..]
  {
  }

  /** What fp2str returns and leaves: whether the text was cut, and the text or as much of it as there is room for. */
  predicate Leaves(val: uint32, digits: nat, was: seq<char>, n: nat, ret: int, now: seq<char>)
    requires digits <= 30 && n <= |was|
  {
    hide Pow2, IntegerText, Integer, Text;
    var f := val % Pow2(digits);
    var t := Text(val, digits);
    var D := IntegerText(Integer(val, digits));
    && ret == (if f == 0 || |t| < n then 0 else -1)
    && (f == 0 ==> now == Printed(was, t, n))
    && (f > 0 && |D| + 3 > n ==> now == Printed(was, D, n))
    && (f > 0 && |D| + 3 <= n ==> now == Image(was, t, n))
  }

  /** The code of fp2str. */
  method WriteFixed(val: uint32, digits: byte, buf: array<char>, bufLen: nat) returns (ret: int)
    requires digits <= 30 && bufLen <= buf.Length
    modifies buf
    ensures Leaves(val, digits, old(buf[..]), bufLen, ret, buf[..])
  {
    hide Pow2, IntegerText, FracText, Text, Printed, Fractional, Integer, Image;
    TextParts(val, digits);
    var D := IntegerText(Integer(val, digits));
    ret := Snprintf(buf, bufLen, D);
    if digits == 0 {
      return 0;
    }
    var f := val % Pow2(digits);
    if f == 0 {
      return 0;
    }
    if ret + 2 + 1 > bufLen {
      return -1;
    }
    PrintedFits(old(buf[..]), D, bufLen);
    ghost var mid, k := buf[..], |D| + 1;
    ret := WritePointed(f, digits, buf, bufLen, ret, D);
    ImageOfSame(old(buf[..]), mid, Text(val, digits), bufLen, k);
  }

  /** fp2str, for the at most 30 digits that its shifts allow. The text is cut off when it does not fit. */
  method FixedToText(val: uint32, digits: byte, buf: array<char>, bufLen: nat) returns (ret: int)
    requires digits <= 30 && bufLen <= buf.Length
    modifies buf
    ensures Leaves(val, digits, old(buf[..]), bufLen, ret, buf[..])
    ensures Fractional(val % Pow2(digits), digits)
    ensures var D := if digits == 0 && val >= 0x8000_0000 then ['-'] + Numeral(0x1_0000_0000 - val, 10)
                     else Numeral(val / Pow2(digits), 10);
            var t := if val % Pow2(digits) == 0 then D else D + ['.'] + FracText(val % Pow2(digits), digits);
            && (|t| < bufLen ==> ret == 0 && buf[..] == t + ['\0'] + old(buf[..])[|t| + 1..])
            && (bufLen == 0 ==> buf[..] == old(buf[..]))
            && (0 < bufLen <= |D| ==> buf[..] == D[..bufLen - 1] + ['\0'] + old(buf[..])[bufLen..])
            && (|D| < bufLen < |D| + 3 && |t| > |D| ==>
                  ret == -1 && buf[..] == D + ['\0'] + old(buf[..])[|D| + 1..])
            && (|D| + 3 <= bufLen <= |t| ==> ret == -1 && buf[..] == t[..bufLen - 1] + old(buf[..])[bufLen - 1..])
  {
    hide Pow2, IntegerText, FracText, Text, Printed, Fractional, Integer, Image, Numeral;
    ret := WriteFixed(val, digits, buf, bufLen);
    FractionalRest(val, digits);
    TextIs(val, digits, val / Pow2(digits), val % Pow2(digits));
    TextParts(val, digits);
    PrintedIs(old(buf[..]), IntegerText(Integer(val, digits)), bufLen);
    ImageIs(old(buf[..]), Text(val, digits), bufLen);
  }

  lemma {:induction false} TextParts(val: uint32, d: nat)
    requires d <= 30
    ensures var f := val % Pow2(d);
            var D := IntegerText(Integer(val, d));
            && f < 0x1_0000_0000 && Fractional(f, d) && (d == 0 ==> f == 0)
            && (if f == 0 then Text(val, d) == D
                else Text(val, d) == D + (['.'] + FracText(f, d)) && |Text(val, d)| >= |D| + 2)
  {
    hide Pow2, IntegerText, Integer;
    PowNone(2);
    MaskAfterCut(val, d);
    if val % Pow2(d) > 0 {
      FractionNotEmpty(val % Pow2(d), d);
    }
  }

  lemma PrintedFits(was: seq<char>, t: seq<char>, n: nat)
    requires |t| < n <= |was|
    ensures Printed(was, t, n)[..|t|] == t
    ensures forall k :: |t| < k <= |was| ==> Printed(was, t, n)[k..] == was[k..]
  {
    var now := Printed(was, t, n);
    forall k | |t| < k <= |was| ensures now[k..] == was[k..] {
      assert forall i :: k <= i < |was| ==> now[i] == was[i];
    }
  }

  lemma FractionNotEmpty(f: nat, d: nat)
    requires Fractional(f, d) && d <= 30 && f > 0
    ensures FracText(f, d) != []
  {
  }

  /** The point and the decimals, behind the integer D. */
  method WritePointed(f: uint32, digits: byte, buf: array<char>, bufLen: nat, start: nat, ghost D: seq<char>)
    returns (ret: int)
    requires 0 < digits <= 30 && start + 3 <= bufLen <= buf.Length && Fractional(f, digits) && f > 0
    requires buf[..start] == D
    modifies buf
    ensures var t := D + (['.'] + FracText(f, digits));
            ret == (if |t| < bufLen then 0 else -1) && buf[..] == Image(old(buf[..]), t, bufLen)
  {
    hide Pow2, FracText, Fractional, Left, Image;
    ghost var was, t := buf[..], FracText(f, digits);
    FractionNotEmpty(f, digits);
    var p := start;
    buf[p] := '.';
    p := p + 1;
    ghost var mid := buf[..];
    assert mid[..p] == D + ['.'];
    assert mid[p..] == was[p..];
    ret := WriteFraction(f, digits, buf, bufLen, p);
    Regrouped(D, '.', t);
    ImageOfSame(was, mid, D + ['.'] + t, bufLen, p);
  }

  /** The loop of fp2str, writing from start on. */
  method WriteFraction(f: uint32, digits: byte, buf: array<char>, bufLen: nat, start: nat) returns (ret: int)
    requires 0 < digits <= 30 && start + 2 <= bufLen <= buf.Length && Fractional(f, digits) && f > 0
    modifies buf
    ensures var t := old(buf[..start]) + FracText(f, digits);
            ret == (if |t| < bufLen then 0 else -1) && buf[..] == Image(old(buf[..]), t, bufLen)
  {
    hide Pow2, FracText, Fractional, Left, PrintedDigit, Digit, Rest, Image;
    ghost var was := buf[..];
    ghost var done := buf[..start];
    var v, p := f, start;
    while v > 0
      invariant start <= p <= bufLen - 1 && Fractional(v, digits)
      invariant |done| == p && buf[..] == done + was[p..]
      invariant done + FracText(v, digits) == was[..start] + FracText(f, digits)
      decreases Left(v, digits)
    {
      FracTextUnfold(v, digits);
      if p == bufLen - 1 {
        ImageCut(done, FracText(v, digits), was, bufLen);
        return -1;
      }
      var c;
      c, v := NextDecimal(v, digits);
      PutChar(buf, p, c, done, was);
      Regrouped(done, c, FracText(v, digits));
      done := done + [c];
      p := p + 1;
    }
    FracTextUnfold(v, digits);
    ImageFull(done, was, bufLen);
    PutChar(buf, p, '\0', done, was);
    return 0;
  }

  lemma ImageCut(done: seq<char>, rest: seq<char>, was: seq<char>, n: nat)
    requires 0 < n <= |was| && |done| == n - 1 && rest != []
    ensures Image(was, done + rest, n) == done + was[n - 1..]
  {
    assert (done + rest)[..|done|] == done;
  }

  lemma ImageFull(done: seq<char>, was: seq<char>, n: nat)
    requires 0 < n <= |was| && |done| < n
    ensures Image(was, done + [], n) == done + ['\0'] + was[|done| + 1..]
  {
    assert done + [] == done;
  }

  /** The image depends on no character before the text's end. */
  lemma ImageOfSame(was: seq<char>, was': seq<char>, t: seq<char>, n: nat, k: nat)
    requires 0 < n <= |was| == |was'| && k < |t| && k <= n - 1 && was[k..] == was'[k..]
    ensures Image(was, t, n) == Image(was', t, n)
  {
    assert forall i :: k <= i < |was| ==> was[i] == was[k..][i - k];
    assert forall i :: k <= i < |was| ==> was'[i] == was'[k..][i - k];
  }

  lemma FracTextUnfold(f: nat, d: nat)
    requires Fractional(f, d) && d <= 30
    ensures FracText(f, d) ==
            if f == 0 then [] else [Digit(PrintedDigit(f, d))] + FracText(Rest(f, d), d)
    ensures f > 0 ==> Left(Rest(f, d), d) < Left(f, d)
  {
  }

  /** One round: the product cut to 32 bits, the digit above the point, the rest below it. */
  method NextDecimal(val: uint32, digits: byte) returns (c: char, rest: uint32)
    requires 0 < digits <= 30 && Fractional(val, digits) && val > 0
    ensures c == Digit(PrintedDigit(val, digits)) && rest == Rest(val, digits)
  {
    hide Pow2;
    var v: uint32 := (val as nat * 10) % 0x1_0000_0000;
    assert v / Pow2(digits) == PrintedDigit(val, digits);
    c := '0' + (v / Pow2(digits)) as char;
    MaskAfterCut(val * 10, digits);
    rest := v % Pow2(digits);
  }

  lemma MaskAfterCut(x: nat, d: nat)
    requires d <= 32
    ensures (x % 0x1_0000_0000) % Pow2(d) == x % Pow2(d)
    ensures x % Pow2(d) < 0x1_0000_0000
  {
    hide Pow2;
    Pow2Words();
    Pow2Add(32 - d, d);
    Pow2Monotonic(d, 32);
    var q := x / 0x1_0000_0000;
    MulAssoc(q, Pow2(32 - d), Pow2(d));
    ModDrop(x % 0x1_0000_0000, q * Pow2(32 - d), Pow2(d));
  }

  // ---------------------------------------------------------------- what the text is worth

  lemma {:induction false} ValueInCons(c: char, t: seq<char>)
    requires MapHex(c) >= 0 && AllHex(t)
    ensures AllHex([c] + t) && ValueIn([c] + t, 10) == MapHex(c) * Pow(10, |t|) + ValueIn(t, 10)
    decreases |t|
  {
    hide MapHex;
    if t == [] {
      PowNone(10);
      assert [c] + t == [c];
      assert [c][..0] == [];
    } else {
      var n := |t| - 1;
      ValueInCons(c, t[..n]);
      var s := [c] + t;
      assert s[..|s| - 1] == [c] + t[..n];
      TimesTen(MapHex(c), Pow(10, n));
    }
  }

  /** One round keeps the value: with the digit c and the rest g, 10 * f = c * 2^d + g. */
  lemma RoundValue(f: nat, g: nat, c: nat, P: nat, v: nat, T: nat)
    requires 10 * f == c * P + g && v * P == g * T
    ensures (c * T + v) * P == f * (10 * T)
  {
    calc {
      (c * T + v) * P;
      { MulDistributes(c * T, v, P); MulAssoc(c, T, P); MulSwap(T, P); MulAssoc(c, P, T); }
      (c * P) * T + g * T;
      { MulDistributes(c * P, g, T); }
      (10 * f) * T;
      { TimesTen(f, T); MulAssoc(10, f, T); }
      f * (10 * T);
    }
  }

  /** The true decimals are those of f / 2^d: d minus as many as 2 divides f, the last of them a 5. */
  lemma {:induction false} TrueTextIsExact(f: nat, d: nat)
    requires Fractional(f, d)
    ensures DigitsBelow(TrueText(f, d), 10)
    ensures ValueIn(TrueText(f, d), 10) * Pow2(d) == f * Pow(10, |TrueText(f, d)|)
    ensures f > 0 ==> |TrueText(f, d)| == d - Two(f) > 0 && TrueText(f, d)[|TrueText(f, d)| - 1] == '5'
    decreases Left(f, d)
  {
    hide Pow2, Pow, MapHex, Two, ValueIn, TrueText, Rest, TrueDigit, Digit, Left;
    TrueRound(f, d);
    if f == 0 {
      ValueInNone(10);
      PowNone(10);
    } else {
      var g, c := Rest(f, d), TrueDigit(f, d);
      var t := TrueText(g, d);
      TrueTextIsExact(g, d);
      ValueInCons(Digit(c), t);
      PowStep(10, |t| + 1);
      RoundValue(f, g, c, Pow2(d), ValueIn(t, 10), Pow(10, |t|));
      assert g > 0 ==> TrueText(f, d)[|t|] == t[|t| - 1];
      if g == 0 {
        TrueRound(g, d);
        LastDigitIsFive(f, d);
      }
    }
  }

  lemma TrueRound(f: nat, d: nat)
    requires Fractional(f, d)
    ensures if f == 0 then TrueText(f, d) == [] && Left(f, d) == 0 else
              && TrueText(f, d) == [Digit(TrueDigit(f, d))] + TrueText(Rest(f, d), d)
              && Left(f, d) == d - Two(f) > 0 && Left(Rest(f, d), d) == Left(f, d) - 1
    ensures f > 0 ==> 10 * f == TrueDigit(f, d) * Pow2(d) + Rest(f, d)
  {
    hide Pow2, Two, Digit, Fractional;
    if f > 0 {
      assert Fractional(f, d) && f < Pow2(d) by {
        FractionalIs(f, d);
      }
      TwoBelow(f, d);
      RestSplit(f, d);
    }
  }

  lemma FractionalIs(f: nat, d: nat)
    ensures Fractional(f, d) <==> f < Pow2(d)
  {
  }

  lemma RestSplit(f: nat, d: nat)
    requires Fractional(f, d) && f > 0
    ensures 10 * f == TrueDigit(f, d) * Pow2(d) + Rest(f, d)
  {
    hide Pow2, Fractional, Left;
    DivSplit(10 * f, Pow2(d));
  }

  lemma DivSplit(n: nat, d: nat)
    requires d > 0
    ensures n == (n / d) * d + n % d
  {
  }

  /** What is left before the last round is one half. */
  lemma LastDigitIsFive(f: nat, d: nat)
    requires Fractional(f, d) && f > 0 && Rest(f, d) == 0
    ensures Digit(TrueDigit(f, d)) == '5'
  {
    hide Pow2, Two, MapHex;
    var c := TrueDigit(f, d);
    assert 10 * f == c * Pow2(d);
    TwoGrows(f, d);
    TwoBelow(f, d);
    var o := TwoSplit(f);
    PowStep(2, d);
    var h := Pow2(d - 1);
    assert f == o * h && Pow2(d) == 2 * h;
    OneHalf(o, h, c);
  }

  lemma OneHalf(o: nat, h: nat, c: nat)
    requires o % 2 == 1 && o * h < 2 * h && 10 * (o * h) == c * (2 * h)
    ensures c == 5
  {
    if o >= 2 {
      MulMonotonic(2, o, h);
    }
    TimesTwo(c, h);
    MulAssoc(2, c, h);
    CancelFactor(2 * c, 10, h);
  }

  /** Every printed decimal is the true one without its multiples of 2^(32-d). */
  lemma {:induction false} PrintedDecimals(f: nat, d: nat)
    requires Fractional(f, d) && d <= 30
    ensures DigitsBelow(FracText(f, d), 10) && DigitsBelow(TrueText(f, d), 10)
    ensures forall i :: 0 <= i < |TrueText(f, d)| ==>
              MapHex(FracText(f, d)[i]) == MapHex(TrueText(f, d)[i]) % Pow2(32 - d)
    decreases Left(f, d)
  {
    hide Pow2, Two, MapHex, Fractional, TrueDigit, PrintedDigit, Rest;
    if f > 0 {
      PrintedDecimals(Rest(f, d), d);
    }
  }

  predicate DigitwiseAtMost(a: seq<char>, b: seq<char>) {
    |a| == |b| && forall i :: 0 <= i < |a| ==> 0 <= MapHex(a[i]) <= MapHex(b[i])
  }

  predicate DigitwiseEqual(a: seq<char>, b: seq<char>) {
    |a| == |b| && forall i :: 0 <= i < |a| ==> MapHex(a[i]) == MapHex(b[i])
  }

  lemma {:induction false} DigitwiseValue(a: seq<char>, b: seq<char>)
    requires DigitwiseAtMost(a, b)
    ensures AllHex(a) && AllHex(b) && ValueIn(a, 10) <= ValueIn(b, 10)
    ensures ValueIn(a, 10) == ValueIn(b, 10) <==> DigitwiseEqual(a, b)
  {
    hide MapHex;
    assert AllHex(a) && AllHex(b);
    if a != [] {
      var n := |a| - 1;
      DigitwiseValue(a[..n], b[..n]);
      assert DigitwiseEqual(a, b) <==> DigitwiseEqual(a[..n], b[..n]) && MapHex(a[n]) == MapHex(b[n]) by {
        hide ValueIn;
        DigitwiseSplit(a, b);
      }
    }
  }

  lemma DigitwiseSplit(a: seq<char>, b: seq<char>)
    requires |a| == |b| > 0
    ensures var n := |a| - 1;
            DigitwiseEqual(a, b) <==> DigitwiseEqual(a[..n], b[..n]) && MapHex(a[n]) == MapHex(b[n])
  {
    hide MapHex;
    var n := |a| - 1;
    if DigitwiseEqual(a[..n], b[..n]) && MapHex(a[n]) == MapHex(b[n]) {
      forall i | 0 <= i < |a| ensures MapHex(a[i]) == MapHex(b[i]) {
        if i < n {
          assert a[i] == a[..n][i] && b[i] == b[..n][i];
        }
      }
    }
  }

  /** The text of val / 2^d, read as D or D.F, is that number. */
  predicate Exact(val: uint32, d: nat)
    requires d <= 30
  {
    var D := IntegerText(Integer(val, d));
    FractionalRest(val, d);
    var F := FracText(val % Pow2(d), d);
    DigitsBelow(D, 10) && DigitsBelow(F, 10) &&
    (ValueIn(D, 10) * Pow(10, |F|) + ValueIn(F, 10)) * Pow2(d) == val * Pow(10, |F|)
  }

  lemma FractionalRest(val: nat, d: nat)
    ensures Fractional(val % Pow2(d), d)
  {
  }

  /** The guard of a round, in every round that is left: the product by ten fits 32 bits. */
  predicate NeverWraps(f: nat, d: nat)
    requires Fractional(f, d)
    decreases Left(f, d)
  {
    f == 0 || (10 * f < 0x1_0000_0000 && NeverWraps(Rest(f, d), d))
  }

  /** The product of a round fits exactly when its decimal does. */
  lemma RoundFitsIff(f: nat, d: nat)
    requires Fractional(f, d) && d <= 30
    ensures TrueDigit(f, d) < Pow2(32 - d) <==> 10 * f < 0x1_0000_0000
  {
    hide Pow2;
    Pow2Words();
    Pow2Add(d, 32 - d);
    DivBelowIff(10 * f, Pow2(d), Pow2(32 - d));
  }

  predicate DigitsFit(t: seq<char>, M: nat) {
    forall i :: 0 <= i < |t| ==> MapHex(t[i]) < M
  }

  lemma DigitsFitCons(c: char, t: seq<char>, M: nat)
    ensures DigitsFit([c] + t, M) <==> MapHex(c) < M && DigitsFit(t, M)
  {
    hide MapHex;
    var s := [c] + t;
    if DigitsFit(s, M) {
      assert forall i :: 0 <= i < |t| ==> t[i] == s[i + 1];
      assert s[0] == c;
    }
  }

  lemma {:induction false} NeverWrapsIff(f: nat, d: nat)
    requires Fractional(f, d) && d <= 30
    ensures NeverWraps(f, d) <==> DigitsFit(TrueText(f, d), Pow2(32 - d))
    decreases Left(f, d)
  {
    hide Pow2, MapHex, DigitsFit, Rest, TrueDigit, Two, Fractional;
    TrueRound(f, d);
    if f == 0 {
      NoDigits(Pow2(32 - d));
    } else {
      RoundFitsIff(f, d);
      NeverWrapsIff(Rest(f, d), d);
      DigitsFitCons(Digit(TrueDigit(f, d)), TrueText(Rest(f, d), d), Pow2(32 - d));
    }
  }

  lemma NoDigits(M: nat)
    ensures DigitsFit([], M)
  {
  }

  /** What a caller can check. Up to 28 digits nothing wraps; with 30 the last round always does. */
  predicate FractionSafe(f: nat, d: nat)
    requires Fractional(f, d) && d <= 30
  {
    if d <= 28 then true else if d == 29 then NeverWraps(f, d) else f == 0
  }

  lemma FractionSafeIff(f: nat, d: nat)
    requires Fractional(f, d) && d <= 30
    ensures FractionSafe(f, d) <==> NeverWraps(f, d)
  {
    hide Pow2, MapHex, TrueText, NeverWraps, Two, Fractional;
    NeverWrapsIff(f, d);
    TrueTextIsExact(f, d);
    var t := TrueText(f, d);
    if d <= 28 {
      Pow2Four();
      Pow2Monotonic(4, 32 - d);
    } else if d == 30 {
      Pow2Four();
      if f == 0 {
        TrueRound(f, d);
      } else {
        FiveIsLarge(t[|t| - 1]);
      }
    }
  }

  lemma FiveIsLarge(c: char)
    requires c == '5'
    ensures MapHex(c) == 5
  {
  }

  lemma FractionRightIff(f: nat, d: nat)
    requires Fractional(f, d) && d <= 30
    ensures DigitsBelow(FracText(f, d), 10)
    ensures ValueIn(FracText(f, d), 10) * Pow2(d) == f * Pow(10, |FracText(f, d)|) <==> FractionSafe(f, d)
  {
    hide Pow2, Pow, MapHex, TrueText, FracText, ValueIn, Fractional, FractionSafe, NeverWraps;
    var a, b := FracText(f, d), TrueText(f, d);
    PrintedDecimals(f, d);
    TrueTextIsExact(f, d);
    forall i | 0 <= i < |a|
      ensures 0 <= MapHex(a[i]) <= MapHex(b[i]) && (MapHex(a[i]) == MapHex(b[i]) <==> MapHex(b[i]) < Pow2(32 - d))
    {
      RestIsWholeIff(MapHex(b[i]), Pow2(32 - d));
    }
    DigitwiseValue(a, b);
    SameProductIff(ValueIn(a, 10), ValueIn(b, 10), Pow2(d));
    NeverWrapsIff(f, d);
    FractionSafeIff(f, d);
  }

  lemma Pow2Four()
    ensures Pow2(4) == 16 && Pow2(3) == 8 && Pow2(2) == 4
  {
  }

  lemma RestIsWholeIff(x: nat, M: nat)
    requires M > 0
    ensures x % M <= x && (x % M == x <==> x < M)
  {
    if x < M {
      DivModUnique(x, M, 0, x);
    }
  }

  lemma SameProductIff(a: nat, b: nat, P: nat)
    requires P > 0
    ensures a * P == b * P <==> a == b
  {
    if a * P == b * P {
      CancelFactor(a, b, P);
    }
  }

  /** fp2str prints val / 2^d exactly when the integer part is not taken for a negative number and no product wraps:
      always for 1 to 28 digits, and for 30 only whole numbers. */
  lemma {:induction false} ExactIff(val: uint32, d: nat)
    requires d <= 30
    ensures Fractional(val % Pow2(d), d)
    ensures Exact(val, d) <==> (d == 0 ==> val < 0x8000_0000) && FractionSafe(val % Pow2(d), d)
  {
    hide Pow2, Pow, MapHex, FracText, ValueIn, Fractional, Numeral, FractionSafe, Integer;
    FractionalRest(val, d);
    var f, x := val % Pow2(d), Integer(val, d);
    var F := FracText(f, d);
    FractionRightIff(f, d);
    assert x == val / Pow2(d) by { IntegerIs(val, d); }
    DivSplit(val, Pow2(d));
    if x < 0x8000_0000 {
      NumeralDenotes(x, 10);
      WholeCancels(x, Pow(10, |F|), ValueIn(F, 10), Pow2(d), f, val);
    } else {
      PowNone(2);
      assert MapHex('-') == -1 by { MinusIsNoDigit(); }
      assert IntegerText(x)[0] == '-';
    }
    assert d == 0 ==> x == val by { PowNone(2); }
  }

  lemma IntegerIs(val: uint32, d: nat)
    ensures Integer(val, d) == val / Pow2(d)
  {
  }

  lemma MinusIsNoDigit()
    ensures MapHex('-') == -1
  {
  }

  lemma WholeCancels(x: nat, T: nat, g: nat, P: nat, f: nat, val: nat)
    requires val == x * P + f
    ensures (x * T + g) * P == val * T <==> g * P == f * T
  {
    MulDistributes(x * T, g, P);
    MulDistributes(x * P, f, T);
    MulAssoc(x, T, P);
    MulAssoc(x, P, T);
    MulSwap(T, P);
  }

  /** A first product that wraps is enough. */
  lemma FirstWraps(val: uint32, d: nat)
    requires 28 < d <= 30 && Fractional(val, d) && 10 * val >= 0x1_0000_0000
    ensures !Exact(val, d)
  {
    hide Pow2, Exact, Rest;
    FractionalIs(val, d);
    DivModUnique(val, Pow2(d), 0, val);
    ExactIff(val, d);
  }

  lemma TwentyNine()
    ensures Pow2(29) == 0x2000_0000 && Pow2(3) == 8
  {
    hide Pow2;
    Pow2Eight();
    Pow2Four();
    Pow2Add(8, 8);
    Pow2Add(16, 8);
    Pow2Add(24, 3);
    Pow2Add(27, 2);
  }

  /** With 29 digits 15/16 comes out as 0.1375. */
  lemma NineIsLost(val: uint32, d: nat)
    requires val == 0x1e00_0000 && d == 29
    ensures Fractional(val, d) && TrueDigit(val, d) == 9 && PrintedDigit(val, d) == 1 && !Exact(val, d)
  {
    hide Pow2, MapHex, Exact;
    TwentyNine();
    FractionalIs(val, d);
    FirstWraps(val, d);
  }

  /** Without fraction bits 2^31 is printed as a negative number. */
  lemma LargeIsNegative(val: uint32, d: nat)
    requires val == 0x8000_0000 && d == 0
    ensures Text(val, d)[0] == '-' && !Exact(val, d)
  {
    hide Pow2, Numeral, MapHex, Exact;
    PowNone(2);
    IntegerIs(val, d);
    ExactIff(val, d);
  }
}
