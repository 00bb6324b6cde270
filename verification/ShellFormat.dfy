/** Printing token amounts as decimal fractions (zephyr-wallet/utils.c). What is printed is returned. */
module ShellFormat {
  import opened Common
  import opened Words
  import opened Uint256
  import opened Division
  import opened HexToBin
  import opened Uint256Text
  import opened IntMath

  /** FMT_FIXED and FMT_NO_TRAIL_ZERO, bits 0 and 1 of the format. */
  predicate Fixed(fmt: byte) {
    fmt % 2 == 1
  }

  predicate NoTrailZero(fmt: byte) {
    (fmt / 2) % 2 == 1
  }

  const CONVERSION_ERROR: seq<char> := "<printk_uint256_int() conversion error>"

  function Noughts(n: nat): (z: seq<char>)
    ensures |z| == n && forall i :: 0 <= i < n ==> z[i] == '0'
  {
    if n == 0 then [] else Noughts(n - 1) + ['0']
  }

  /** Padded on the left to n digits. */
  function Pad(t: seq<char>, n: nat): (p: seq<char>)
    ensures |p| == if |t| < n then n else |t|
  {
    if |t| < n then Noughts(n - |t|) + t else t
  }

  /** Without trailing zeros, except that one character stays. */
  function Cut(t: seq<char>): (c: seq<char>)
    ensures c <= t && (t != [] ==> c != [])
  {
    if |t| > 1 && t[|t| - 1] == '0' then Cut(t[..|t| - 1]) else t
  }

  /** What printk_uint256_int prints for n. */
  function IntText(n: nat, decimals: byte, fmt: byte): seq<char> {
    if decimals > 64 then CONVERSION_ERROR else
      var t := Numeral(n, 10);
      var p := if Fixed(fmt) then Pad(t, decimals) else t;
      if NoTrailZero(fmt) then Cut(p) else p
  }

  lemma {:induction false} CutIs(t: seq<char>)
    requires t != []
    ensures Cut(t) != [] && Cut(t) <= t && forall k :: |Cut(t)| <= k < |t| ==> t[k] == '0'
    ensures |Cut(t)| > 1 ==> Cut(t)[|Cut(t)| - 1] != '0'
    decreases |t|
  {
    if |t| > 1 && t[|t| - 1] == '0' {
      CutIs(t[..|t| - 1]);
    }
  }

  /** Bit 0 of the format puts zeros in front, up to the number of decimals, bit 1 takes zeros off the end, but not the
      first character; above 64 decimals there is a message instead. */
  lemma IntTextForms(n: nat, decimals: byte, fmt: byte)
    ensures decimals > 64 ==> IntText(n, decimals, fmt) == "<printk_uint256_int() conversion error>"
    ensures decimals <= 64 && fmt % 4 == 0 ==> IntText(n, decimals, fmt) == Numeral(n, 10)
    ensures decimals <= 64 && fmt % 4 == 1 ==>
              var t, p := Numeral(n, 10), IntText(n, decimals, fmt);
              |p| == (if |t| < decimals then decimals else |t|) && p[|p| - |t|..] == t &&
              forall k :: 0 <= k < |p| - |t| ==> p[k] == '0'
    ensures decimals <= 64 && fmt % 4 >= 2 ==>
              var t, c := IntText(n, decimals, fmt % 2), IntText(n, decimals, fmt);
              c != [] && c <= t && (forall k :: |c| <= k < |t| ==> t[k] == '0') && (|c| > 1 ==> c[|c| - 1] != '0')
  {
    hide Numeral, Cut;
    var t := Numeral(n, 10);
    NumeralNonEmpty(n);
    CutIs(t);
    CutIs(Pad(t, decimals));
    FormatBits(fmt);
  }

  lemma FormatBits(fmt: byte)
    ensures Fixed(fmt) <==> fmt % 4 == 1 || fmt % 4 == 3
    ensures NoTrailZero(fmt) <==> fmt % 4 >= 2
    ensures Fixed(fmt % 2) == Fixed(fmt) && !NoTrailZero(fmt % 2)
  {
  }

  lemma NumeralNonEmpty(n: nat)
    ensures Numeral(n, 10) != []
  {
    hide Digits;
    NumeralUnfold(n, 10);
  }

  // ---------------------------------------------------------------- the buffer

  /** The buffer holds the text t, and NULs to its end. */
  predicate Holds(s: seq<char>, t: seq<char>) {
    |t| < |s| && s[..|t|] == t && '\0' !in t && forall k :: |t| <= k < |s| ==> s[k] == '\0'
  }

  method StrLen(buf: array<char>, ghost t: seq<char>) returns (n: nat)
    requires Holds(buf[..], t)
    ensures n == |t|
  {
    n := 0;
    while buf[n] != '\0'
      invariant n <= |t|
      decreases |t| - n
    {
      n := n + 1;
    }
  }

  /** The memmove and the loop that put zeros in front of the text. */
  method PadBuffer(buf: array<char>, bufLen: nat, decimals: nat, ghost t: seq<char>)
    requires Holds(buf[..], t) && bufLen == |t| < decimals < buf.Length
    modifies buf
    ensures Holds(buf[..], Pad(t, decimals))
  {
    ghost var gap := decimals - bufLen;
    ghost var behind := buf[decimals..];
    MoveRight(buf, bufLen, decimals - bufLen);
    var i := 0;
    while i < decimals - bufLen
      invariant 0 <= i <= gap
      invariant forall k :: 0 <= k < i ==> buf[k] == '0'
      invariant buf[gap..] == t + behind
    {
      buf[i] := '0';
      i := i + 1;
    }
    Padded(buf[..], gap, t, behind);
  }

  lemma Padded(s: seq<char>, gap: nat, t: seq<char>, behind: seq<char>)
    requires 0 < gap <= |s| && s[gap..] == t + behind && '\0' !in t && behind != []
    requires forall k :: 0 <= k < |behind| ==> behind[k] == '\0'
    requires forall k :: 0 <= k < gap ==> s[k] == '0'
    ensures Holds(s, Pad(t, |t| + gap))
  {
    assert s[..gap] == Noughts(gap);
    assert s == s[..gap] + s[gap..] == Pad(t, |t| + gap) + behind;
  }

  /** The loop that overwrites trailing zeros with NULs. */
  method CutBuffer(buf: array<char>, ghost t: seq<char>)
    requires Holds(buf[..], t) && t != []
    modifies buf
    ensures Holds(buf[..], Cut(t))
  {
    var n := StrLen(buf, t);
    var i := n - 1;
    ghost var rest := t;
    while i > 0
      invariant 0 <= i && |rest| == i + 1
      invariant Holds(buf[..], rest) && Cut(rest) == Cut(t)
    {
      assert buf[..][i] == rest[i];
      if buf[i] != '0' {
        break;
      }
      buf[i] := '\0';
      rest := rest[..i];
      i := i - 1;
    }
    assert Cut(rest) == rest;
  }

  lemma NumeralHasNoNul(n: nat)
    ensures '\0' !in Numeral(n, 10)
  {
    hide Numeral, ValueIn;
    NumeralDenotes(n, 10);
    assert MapHex('\0') == -1;
  }

  /** printk_uint256_int. Its buffer of 65 characters has room for 64 digits. */
  method PrintInt(v: U256, decimals: byte, fmt: byte) returns (printed: seq<char>)
    requires v.Valid() && v.Value() < Pow(10, 64)
    ensures printed == IntText(v.Value(), decimals, fmt)
  {
    hide U128.Value, U256.Value, Numeral, Digits, Pow, Cut, Pad;
    var buf := new char[65](_ => '\0');
    NumeralLengthIff(v.Value(), 10, 64);
    NumeralHasNoNul(v.Value());
    var ok := ToString256(v, 10, buf, 65);
    ghost var t := Numeral(v.Value(), 10);
    var bufLen := StrLen(buf, t);
    if decimals > 64 {
      return CONVERSION_ERROR;
    }
    if fmt % 2 == 1 && bufLen < decimals {
      PadBuffer(buf, bufLen, decimals, t);
      t := Pad(t, decimals);
    } else if fmt % 2 == 1 {
      LongEnough(t, decimals);
    }
    if (fmt / 2) % 2 == 1 {
      CutBuffer(buf, t);
      t := Cut(t);
    }
    var n := StrLen(buf, t);
    printed := buf[..n];
  }

  lemma LongEnough(t: seq<char>, n: nat)
    requires |t| >= n
    ensures Pad(t, n) == t
  {
  }

  // ---------------------------------------------------------------- the number printed

  /** What ipow makes of 10^decimals. */
  function Divisor(decimals: nat): (d: nat)
    requires decimals < 64
    ensures 0 < d <= Pow(10, decimals) && d < B64
    ensures d == Pow(10, decimals) <==> decimals <= 19
  {
    hide Pow;
    PowTenVanishesIff(decimals);
    PowTenFits(decimals);
    var d := Pow(10, decimals) % 0x1_0000_0000_0000_0000;
    assert d <= Pow(10, decimals);
    d
  }

  function Whole(v: nat, decimals: nat): seq<char>
    requires decimals < 64
  {
    hide Pow, Divisor, Numeral;
    Numeral(v / Divisor(decimals), 10)
  }

  function Fraction(v: nat, decimals: nat): seq<char>
    requires decimals < 64
  {
    hide Pow, Divisor, Numeral;
    Cut(Pad(Numeral(v % Divisor(decimals), 10), decimals))
  }

  /** 10^decimals in one word. */
  method Power256(decimals: byte) returns (power: U256)
    requires decimals < 64
    ensures power.Valid() && fresh(power.Repr()) && power.Value() == Divisor(decimals)
  {
    hide U128.Value, U256.Value, Pow;
    power := new U256();
    var p := IPow(10, decimals);
    SetUint64(power, p);
  }

  /** shell_print_decimal_u256, for a whole part that fits the buffer. From 64 decimals on the power of ten is 0 and
      the division never ends. */
  method PrintDecimal(val: U256, decimals: byte) returns (printed: seq<char>)
    requires val.Valid() && decimals < 64 && |Whole(val.Value(), decimals)| <= 64
    ensures printed == Whole(val.Value(), decimals) + "." + Fraction(val.Value(), decimals) + "\n"
  {
    hide U128.Value, U256.Value, Pow, Divisor, IntText, Whole, Fraction;
    var power := Power256(decimals);
    var quotient := new U256();
    var rest := new U256();
    RestShort(val.Value(), decimals);
    WholeShort(val.Value(), decimals, 64);
    TextsOfParts(val.Value(), decimals);
    Divmod256(val, power, quotient, rest);
    var whole := PrintInt(quotient, 0, 0);
    var fraction := PrintInt(rest, decimals, 3);
    printed := whole + "." + fraction + "\n";
  }

  /** What is printed before the point and behind it: quotient and remainder by 10^decimals modulo 2^64. */
  lemma PartsAre(v: nat, decimals: nat, q: nat, r: nat)
    requires decimals < 64 && q == v / Divisor(decimals) && r == v % Divisor(decimals)
    ensures Divisor(decimals) == Pow(10, decimals) % 0x1_0000_0000_0000_0000
    ensures Whole(v, decimals) == Numeral(q, 10) && Fraction(v, decimals) == Cut(Pad(Numeral(r, 10), decimals))
  {
    hide Pow, Numeral, Cut, Pad;
  }

  lemma WholeShort(v: nat, decimals: nat, k: nat)
    requires decimals < 64 && k > 0 && |Whole(v, decimals)| <= k
    ensures v / Divisor(decimals) < Pow(10, k)
  {
    hide Numeral, Pow, Divisor;
    NumeralLengthIff(v / Divisor(decimals), 10, k);
  }

  /** Plain integers, and padded ones without trailing zeros. */
  lemma PlainAndFixed(n: nat, decimals: byte)
    ensures IntText(n, 0, 0) == Numeral(n, 10)
    ensures decimals < 64 ==> IntText(n, decimals, 3) == Cut(Pad(Numeral(n, 10), decimals))
  {
    hide Numeral, Cut, Pad;
  }

  lemma TextsOfParts(v: nat, decimals: byte)
    requires decimals < 64
    ensures IntText(v / Divisor(decimals), 0, 0) == Whole(v, decimals)
    ensures IntText(v % Divisor(decimals), decimals, 3) == Fraction(v, decimals)
  {
    hide Numeral, Cut, Pad, Divisor, IntText;
    PlainAndFixed(v / Divisor(decimals), decimals);
    PlainAndFixed(v % Divisor(decimals), decimals);
  }

  lemma RestShort(v: nat, decimals: nat)
    requires decimals < 64
    ensures v % Divisor(decimals) < Pow(10, 64)
    ensures |Numeral(v % Divisor(decimals), 10)| <= if decimals == 0 then 1 else decimals
  {
    hide Pow, Numeral, Divisor;
    PowTenUpTo(decimals, 64);
    var m := v % Divisor(decimals);
    if decimals == 0 {
      PowNone(10);
      assert m == 0;
      Pow1(10, 1);
      NumeralLengthIff(m, 10, 1);
    } else {
      NumeralLengthIff(m, 10, decimals);
    }
  }

  // ---------------------------------------------------------------- its value

  lemma {:induction false} NoughtsValue(n: nat)
    ensures DigitsBelow(Noughts(n), 10) && ValueIn(Noughts(n), 10) == 0
  {
    hide MapHex, ValueIn;
    ValueInNone(10);
    if n > 0 {
      NoughtsValue(n - 1);
      ValueInSnoc(Noughts(n - 1), '0', 10);
    }
  }

  lemma {:induction false} PaddedValue(n: nat, t: seq<char>)
    requires DigitsBelow(t, 10)
    ensures DigitsBelow(Noughts(n) + t, 10) && ValueIn(Noughts(n) + t, 10) == ValueIn(t, 10)
    decreases |t|
  {
    hide MapHex;
    NoughtsValue(n);
    if t == [] {
      assert Noughts(n) + t == Noughts(n);
    } else {
      var k := |t| - 1;
      PaddedValue(n, t[..k]);
      ValueInSnoc(Noughts(n) + t[..k], t[k], 10);
      assert Noughts(n) + t == (Noughts(n) + t[..k]) + [t[k]];
    }
  }

  /** Every zero cut off divides the digits by ten. */
  lemma {:induction false} CutValue(t: seq<char>)
    requires DigitsBelow(t, 10)
    ensures DigitsBelow(Cut(t), 10)
    ensures ValueIn(Cut(t), 10) * Pow(10, |t| - |Cut(t)|) == ValueIn(t, 10)
    ensures |Cut(t)| > 1 ==> Cut(t)[|Cut(t)| - 1] != '0'
  {
    hide MapHex;
    if |t| > 1 && t[|t| - 1] == '0' {
      var r := t[..|t| - 1];
      CutValue(r);
      ValueInNone(10);
      var k := |r| - |Cut(r)|;
      assert Pow(10, k + 1) == 10 * Pow(10, k);
      TimesTen(ValueIn(Cut(r), 10), Pow(10, k));
    } else {
      PowNone(10);
    }
  }

  /** The digits behind the point, as an integer, over the power of ten they stand for. */
  lemma FractionValue(v: nat, decimals: nat)
    requires decimals < 64
    ensures var f := Fraction(v, decimals);
            var places := if decimals == 0 then 1 else decimals;
            DigitsBelow(f, 10) && 1 <= |f| <= places && (|f| > 1 ==> f[|f| - 1] != '0') &&
            ValueIn(f, 10) * Pow(10, places - |f|) == v % Divisor(decimals)
  {
    hide MapHex, Numeral, Cut, ValueIn, Divisor, Pow;
    var m := v % Divisor(decimals);
    RestShort(v, decimals);
    NumeralDenotes(m, 10);
    var t := Numeral(m, 10);
    if |t| < decimals {
      PaddedValue(decimals - |t|, t);
    }
    CutValue(Pad(t, decimals));
  }

  /** Comparing fractions: D.F over the places of F against n over 10^d. */
  predicate SameFraction(n: nat, d: nat, n': nat, d': nat) {
    n * d' == n' * d
  }

  lemma CompareDecimals(q: nat, g: nat, m: nat, T: nat, R: nat, P: nat, v: nat)
    requires P == T * R && g * R == m
    ensures SameFraction(q * T + g, T, v, P) <==> T * (q * P + m) == T * v
  {
    calc {
      (q * T + g) * P;
      { MulDistributes(q * T, g, P); }
      (q * T) * P + g * P;
      { MulSwap(q, T); MulAssoc(T, q, P); MulSwap(T, R); MulAssoc(g, R, T); MulSwap(m, T); }
      T * (q * P) + T * m;
      { MulSwap(T, q * P + m); MulDistributes(q * P, m, T); MulSwap(q * P, T); }
      T * (q * P + m);
    }
    MulSwap(v, T);
  }

  lemma SamePart(q: nat, m: nat, P: nat, D: nat)
    requires 0 < D <= P
    ensures q * P + m == q * D + m <==> q == 0 || P == D
  {
    if q > 0 && P > D {
      MulMonotonic(D + 1, P, q);
      MulDistributes(D, 1, q);
      MulSwap(P, q);
      MulSwap(D, q);
    }
  }

  /** The text D.F denotes the amount: D and F are decimal digits, and D.F = v / 10^decimals. */
  predicate Exact(v: nat, decimals: nat, whole: seq<char>, fraction: seq<char>) {
    DigitsBelow(whole, 10) && DigitsBelow(fraction, 10) &&
    SameFraction(ValueIn(whole, 10) * Pow(10, |fraction|) + ValueIn(fraction, 10), Pow(10, |fraction|),
                 v, Pow(10, decimals))
  }

  lemma {:induction false} PowTenAdd(m: nat, n: nat)
    ensures Pow(10, m + n) == Pow(10, m) * Pow(10, n)
    decreases m
  {
    if m > 0 {
      PowTenAdd(m - 1, n);
      assert m + n - 1 == (m - 1) + n;
      MulAssoc(10, Pow(10, m - 1), Pow(10, n));
    }
  }

  /** Digits q.g of scale T = P/R, for v = q * D + m, where D stands for P and g * R = m. */
  lemma ExactCore(q: nat, g: nat, m: nat, T: nat, R: nat, P: nat, D: nat, v: nat)
    requires P == T * R && g * R == m && v == q * D + m && 0 < D <= P && T > 0
    ensures SameFraction(q * T + g, T, v, P) <==> q == 0 || P == D
  {
    hide SameFraction;
    CompareDecimals(q, g, m, T, R, P, v);
    CancelLeft(q * P + m, v, T);
    SamePart(q, m, P, D);
  }

  lemma QuotientZeroIff(v: nat, D: nat)
    requires D > 0
    ensures v == (v / D) * D + v % D && (v / D == 0 <==> v < D)
  {
    if v < D {
      DivModUnique(v, D, 0, v);
    }
  }

  /** The text is exact for every amount with up to 19 decimals. With more the power of ten has wrapped, and
      just the amounts below the wrapped power are printed right. */
  lemma PrintedExactlyIff(v: nat, decimals: nat)
    requires decimals < 64
    ensures Exact(v, decimals, Whole(v, decimals), Fraction(v, decimals)) <==> decimals <= 19 || v < Divisor(decimals)
  {
    hide Pow, Numeral, Cut, Pad, ValueIn, Divisor, MapHex, SameFraction, Fraction;
    var D := Divisor(decimals);
    var q, m := v / D, v % D;
    NumeralDenotes(q, 10);
    FractionValue(v, decimals);
    var f := Fraction(v, decimals);
    var g := ValueIn(f, 10);
    QuotientZeroIff(v, D);
    if decimals == 0 {
      PowNone(10);
      WholeAmount(v, g, Pow(10, |f|));
    } else {
      PowTenAdd(|f|, decimals - |f|);
      ExactCore(q, g, m, Pow(10, |f|), Pow(10, decimals - |f|), Pow(10, decimals), D, v);
    }
  }

  /** One token with 20 decimals is printed as 12 tokens and a fraction. */
  lemma TwelveForOne(decimals: nat)
    requires decimals == 20
    ensures var v := Pow(10, decimals);
            Whole(v, decimals) == Numeral(12, 10) && !Exact(v, decimals, Whole(v, decimals), Fraction(v, decimals))
  {
    hide Pow, Numeral, ValueIn, Divisor, Exact, Fraction, MapHex;
    PowTenNineteen();
    PowTenTwentyWraps(decimals);
    PrintedExactlyIff(Pow(10, decimals), decimals);
  }

  lemma PowTenTwentyWraps(decimals: nat)
    requires decimals == 20
    ensures Divisor(decimals) == 7_766_279_631_452_241_920
    ensures Pow(10, decimals) / Divisor(decimals) == 12
  {
    hide Pow;
    PowTenNineteen();
    assert 100_000_000_000_000_000_000 % 0x1_0000_0000_0000_0000 == 7_766_279_631_452_241_920;
  }

  lemma WholeAmount(v: nat, g: nat, T: nat)
    requires g * 1 == v % 1
    ensures SameFraction((v / 1) * T + g, T, v, 1)
  {
  }

  lemma CancelLeft(a: nat, b: nat, t: nat)
    requires t > 0
    ensures t * a == t * b <==> a == b
  {
    if t * a == t * b {
      MulSwap(t, a);
      MulSwap(t, b);
      CancelFactor(a, b, t);
    }
  }
}
