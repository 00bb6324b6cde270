/** 128- and 256-bit unsigned integers kept as words (helpers/uint256.c). Results are written through
    a target, which may be one of the operands: every contract speaks of the operands' old values. */
module Uint256 {
  import opened Words

  /** uint128_t: two 64-bit words. */
  class U128 {
    var upper: uint64
    var lower: uint64

    constructor (u: uint64, l: uint64)
      ensures upper == u && lower == l
      ensures u == 0 ==> Value() == l
    {
      upper, lower := u, l;
    }

    ghost function Value(): (v: nat)
      reads this
      ensures v < B128
    {
      Join(B64, upper, lower)
    }
  }

  /** uint256_t: two uint128_t. */
  class U256 {
    const upper: U128
    const lower: U128

    constructor ()
      ensures Valid() && fresh(upper) && fresh(lower) && Value() == 0
      ensures upper.Value() == lower.Value() == 0
      ensures upper.upper == upper.lower == lower.upper == lower.lower == 0
    {
      var u := new U128(0, 0);
      var l := new U128(0, 0);
      upper, lower := u, l;
    }

    ghost predicate Valid() {
      upper != lower
    }

    ghost function Repr(): set<object> {
      {upper, lower}
    }

    ghost function Value(): (v: nat)
      reads upper, lower
      ensures v < B256
    {
      Join(B128, upper.Value(), lower.Value())
    }
  }

  /** Two structs are the same memory or do not overlap: the halves never cross. */
  ghost predicate Uncrossed(a: U256, b: U256) {
    a.upper != b.lower && a.lower != b.upper
  }

  /** What shifting left by n bits inside a word of the given modulus means. */
  function Shl(v: nat, n: nat, modulus: nat): (r: nat)
    requires modulus > 0
    ensures r < modulus
  {
    (v * Pow2(n)) % modulus
  }

  function Shr(v: nat, n: nat): (r: nat)
    ensures r <= v
  {
    DivAtMost(v, Pow2(n));
    v / Pow2(n)
  }

  lemma DivAtMost(v: nat, d: nat)
    requires d > 0
    ensures 0 <= v / d <= v
  {
    if v / d > v {
      MulMonotonic(1, d, v / d);
    }
  }

  lemma JoinSmall(B: nat, l: nat)
    requires IsWordBase(B)
    ensures Join(B, 0, l) == l
  {
  }

  /** B is the base of a word of w bits. */
  predicate Width(B: nat, w: nat) {
    (B == B64 && w == 64) || (B == B128 && w == 128)
  }

  lemma WidthBase(B: nat, w: nat)
    requires Width(B, w)
    ensures IsWordBase(B) && Pow2(w) == B && Pow2(2 * w) == Square(B)
  {
    hide Pow2;
    Pow2Words();
  }

  lemma ShiftByZero(B: nat, v: nat)
    requires v < B
    ensures Shl(v, 0, B) == v && Shr(v, 0) == v
  {
    DivModUnique(v, B, 0, v);
  }

  lemma ShlBeyond(B: nat, w: nat, v: nat, n: nat)
    requires Width(B, w) && 2 * w <= n
    ensures Shl(v, n, Square(B)) == 0
  {
    hide Pow2;
    WidthBase(B, w);
    Pow2Add(n - 2 * w, 2 * w);
    MulAssoc(v, Pow2(n - 2 * w), Pow2(2 * w));
    DivModUnique(v * Pow2(n), Pow2(2 * w), v * Pow2(n - 2 * w), 0);
  }

  lemma ShrBeyond(B: nat, w: nat, v: nat, n: nat)
    requires Width(B, w) && 2 * w <= n && v < Square(B)
    ensures Shr(v, n) == 0
  {
    hide Pow2;
    WidthBase(B, w);
    Pow2Monotonic(2 * w, n);
    DivModUnique(v, Pow2(n), 0, v);
  }

  /** Shifting by less than a word moves bits across the word boundary. */
  lemma {:induction false} ShlAcross(B: nat, w: nat, u: nat, l: nat, n: nat)
    requires Width(B, w) && 0 < n < w && l < B
    ensures Shl(u, n, B) + Shr(l, w - n) < B
    ensures Join(B, Shl(u, n, B) + Shr(l, w - n), Shl(l, n, B)) == Shl(Join(B, u, l), n, Square(B))
  {
    hide Pow2, Join, Square;
    WidthBase(B, w);
    Pow2Add(n, w - n);
    ShiftLeftWords(B, Pow2(n), Pow2(w - n), u, l);
  }

  lemma ShrAcross(B: nat, w: nat, u: nat, l: nat, n: nat)
    requires Width(B, w) && 0 < n < w && l < B
    ensures Shl(u, w - n, B) + Shr(l, n) < B
    ensures Join(B, Shr(u, n), Shl(u, w - n, B) + Shr(l, n)) == Shr(Join(B, u, l), n)
  {
    hide Pow2, Join, Square;
    WidthBase(B, w);
    Pow2Add(n, w - n);
    ShiftRightWords(B, Pow2(n), Pow2(w - n), u, l);
  }

  /** Shifting by a word or more: only one word is left to shift. */
  lemma ShlHigh(B: nat, w: nat, u: nat, l: nat, n: nat)
    requires Width(B, w) && l < B
    ensures Join(B, Shl(l, n, B), 0) == Shl(Join(B, u, l), w + n, Square(B))
  {
    hide Pow2, Square;
    WidthBase(B, w);
    var P := Pow2(n);
    Pow2Add(n, w);
    MulAssoc(Join(B, u, l), P, B);
    JoinTimes(B, P, u, l);
    JoinIs(B, u * P, l * P);
    MulDistributes(u * P, (l * P) / B, B);
    ShlHighJoin(B, u * P + (l * P) / B, (l * P) % B);
  }

  lemma ShlHighJoin(B: nat, x: nat, r: nat)
    requires IsWordBase(B) && r < B
    ensures ((x * B + r) * B) % Square(B) == Join(B, r, 0)
  {
    if B == B64 {
      assert (x * B64 + r) * B64 == x * 0x1_0000_0000_0000_0000_0000_0000_0000_0000 + r * 0x1_0000_0000_0000_0000;
    } else {
      assert (x * B128 + r) * B128 == x * B256 + r * B128;
    }
  }

  lemma ShrHigh(B: nat, w: nat, u: nat, l: nat, n: nat)
    requires Width(B, w) && l < B
    ensures Join(B, 0, Shr(u, n)) == Shr(Join(B, u, l), w + n)
  {
    hide Pow2, Square, Join;
    WidthBase(B, w);
    Pow2Add(n, w);
    JoinIs(B, u, l);
    JoinIs(B, 0, u / Pow2(n));
    DivideTwice(u, l, B, Pow2(n));
  }

  lemma DivideTwice(u: nat, l: nat, B: nat, P: nat)
    requires P > 0 && l < B && P * B > 0
    ensures (u * B + l) / (P * B) == u / P
  {
    var q, r := u / P, u % P;
    MulAssoc(q, P, B);
    MulDistributes(q * P, r, B);
    MulMonotonic(r + 1, P, B);
    MulDistributes(r, 1, B);
    MulPositive(r, B);
    DivModUnique(u * B + l, P * B, q, r * B + l);
  }

  // ---------------------------------------------------------------- reading

  predicate Zero128(number: U128)
    reads number
    ensures Zero128(number) <==> number.Value() == 0
  {
    CompareWords(B64, number.upper, number.lower, 0, 0);
    number.lower == 0 && number.upper == 0
  }

  predicate Zero256(number: U256)
    reads number.upper, number.lower
    ensures Zero256(number) <==> number.Value() == 0
  {
    CompareWords(B128, number.upper.Value(), number.lower.Value(), 0, 0);
    Zero128(number.lower) && Zero128(number.upper)
  }

  predicate Equal128(a: U128, b: U128)
    reads a, b
    ensures Equal128(a, b) <==> a.Value() == b.Value()
  {
    CompareWords(B64, a.upper, a.lower, b.upper, b.lower);
    a.upper == b.upper && a.lower == b.lower
  }

  predicate Equal256(a: U256, b: U256)
    reads a.upper, a.lower, b.upper, b.lower
    ensures Equal256(a, b) <==> a.Value() == b.Value()
  {
    CompareWords(B128, a.upper.Value(), a.lower.Value(), b.upper.Value(), b.lower.Value());
    Equal128(a.upper, b.upper) && Equal128(a.lower, b.lower)
  }

  predicate Gt128(a: U128, b: U128)
    reads a, b
    ensures Gt128(a, b) <==> a.Value() > b.Value()
  {
    CompareWords(B64, a.upper, a.lower, b.upper, b.lower);
    if a.upper == b.upper then a.lower > b.lower else a.upper > b.upper
  }

  predicate Gt256(a: U256, b: U256)
    reads a.upper, a.lower, b.upper, b.lower
    ensures Gt256(a, b) <==> a.Value() > b.Value()
  {
    CompareWords(B128, a.upper.Value(), a.lower.Value(), b.upper.Value(), b.lower.Value());
    if Equal128(a.upper, b.upper) then Gt128(a.lower, b.lower) else Gt128(a.upper, b.upper)
  }

  predicate Gte128(a: U128, b: U128)
    reads a, b
    ensures Gte128(a, b) <==> a.Value() >= b.Value()
  {
    Gt128(a, b) || Equal128(a, b)
  }

  predicate Gte256(a: U256, b: U256)
    reads a.upper, a.lower, b.upper, b.lower
    ensures Gte256(a, b) <==> a.Value() >= b.Value()
  {
    Gt256(a, b) || Equal256(a, b)
  }

  // ---------------------------------------------------------------- copying

  method Copy128(target: U128, number: U128)
    modifies target
    ensures target.upper == old(number.upper) && target.lower == old(number.lower)
    ensures target.Value() == old(number.Value())
  {
    target.upper := number.upper;
    target.lower := number.lower;
  }

  method Copy256(target: U256, number: U256)
    requires target.Valid() && Uncrossed(target, number)
    modifies target.Repr()
    ensures target.Value() == old(number.Value())
    ensures target.upper.upper == old(number.upper.upper) && target.upper.lower == old(number.upper.lower)
    ensures target.lower.upper == old(number.lower.upper) && target.lower.lower == old(number.lower.lower)
  {
    Copy128(target.upper, number.upper);
    Copy128(target.lower, number.lower);
  }

  method Clear128(target: U128)
    modifies target
    ensures target.upper == target.lower == 0
    ensures target.Value() == 0
  {
    target.upper := 0;
    target.lower := 0;
  }

  method Clear256(target: U256)
    requires target.Valid()
    modifies target.Repr()
    ensures target.upper.upper == target.upper.lower == target.lower.upper == target.lower.lower == 0
    ensures target.Value() == 0
  {
    Clear128(target.upper);
    Clear128(target.lower);
  }

  /** set256_uint64. */
  method SetUint64(target: U256, val: uint64)
    requires target.Valid()
    modifies target.Repr()
    ensures target.Value() == val
    ensures target.upper.upper == target.upper.lower == target.lower.upper == 0 && target.lower.lower == val
  {
    Clear256(target);
    target.lower.lower := val;
  }

  // ---------------------------------------------------------------- adding and subtracting

  method Add128(number1: U128, number2: U128, target: U128)
    modifies target
    ensures target.Value() == (old(number1.Value()) + old(number2.Value())) % B128
  {
    AddWords64(number1.upper, number1.lower, number2.upper, number2.lower);
    target.upper := (number1.upper + number2.upper
                     + if (number1.lower + number2.lower) % B64 < number1.lower then 1 else 0) % B64;
    target.lower := (number1.lower + number2.lower) % B64;
  }

  method Minus128(number1: U128, number2: U128, target: U128)
    modifies target
    ensures target.Value() == (old(number1.Value()) - old(number2.Value())) % B128
  {
    MinusWords64(number1.upper, number1.lower, number2.upper, number2.lower);
    target.upper := (number1.upper - number2.upper
                     - if (number1.lower - number2.lower) % B64 > number1.lower then 1 else 0) % B64;
    target.lower := (number1.lower - number2.lower) % B64;
  }

  /** Reducing before the carry or the borrow changes nothing. */
  lemma CarryLate(x: int, c: int)
    requires -1 <= c <= 1
    ensures (x % B128 + c) % B128 == (x + c) % B128
  {
    ModDrop(x % B128 + c, x / B128, B128);
  }

  method Add256(number1: U256, number2: U256, target: U256)
    requires number1.Valid() && number2.Valid() && target.Valid()
    requires Uncrossed(target, number1) && Uncrossed(target, number2)
    modifies target.Repr()
    ensures target.Value() == (old(number1.Value()) + old(number2.Value())) % B256
  {
    hide Join;
    ghost var u, l := number1.upper.Value(), number1.lower.Value();
    ghost var u', l' := number2.upper.Value(), number2.lower.Value();
    AddWords128(u, l, u', l');
    var tmp := new U128(0, 0);
    Add128(number1.upper, number2.upper, target.upper);
    Add128(number1.lower, number2.lower, tmp);
    if Gt128(number1.lower, tmp) {
      var one := new U128(0, 1);
      JoinSmall(B64, 1);
      Add128(target.upper, one, target.upper);
      CarryLate(u + u', 1);
    }
    assert target.upper.Value() == (u + u' + if (l + l') % B128 < l then 1 else 0) % B128;
    Add128(number1.lower, number2.lower, target.lower);
  }

  method Minus256(number1: U256, number2: U256, target: U256)
    requires number1.Valid() && number2.Valid() && target.Valid()
    requires Uncrossed(target, number1) && Uncrossed(target, number2)
    modifies target.Repr()
    ensures target.Value() == (old(number1.Value()) - old(number2.Value())) % B256
  {
    hide Join;
    ghost var u, l := number1.upper.Value(), number1.lower.Value();
    ghost var u', l' := number2.upper.Value(), number2.lower.Value();
    MinusWords128(u, l, u', l');
    var tmp := new U128(0, 0);
    Minus128(number1.upper, number2.upper, target.upper);
    Minus128(number1.lower, number2.lower, tmp);
    if Gt128(tmp, number1.lower) {
      var one := new U128(0, 1);
      JoinSmall(B64, 1);
      Minus128(target.upper, one, target.upper);
      CarryLate(u - u', -1);
    }
    assert target.upper.Value() == (u - u' - if (l - l') % B128 > l then 1 else 0) % B128;
    Minus128(number1.lower, number2.lower, target.lower);
  }

  // ---------------------------------------------------------------- or

  /** Or of two machine words. */
  function OrWord(a: uint64, b: uint64): (r: uint64)
    ensures r == Or(a, b)
  {
    OrWordBelow(a, b);
    Or(a, b)
  }

  lemma OrWordBelow(a: uint64, b: uint64)
    ensures Or(a, b) < B64
  {
    hide Pow2;
    Pow2Words();
    OrBelow(a, b, 64);
  }

  lemma OrJoin(B: nat, w: nat, u: nat, l: nat, u': nat, l': nat)
    requires Width(B, w) && l < B && l' < B
    ensures Or(Join(B, u, l), Join(B, u', l')) == Join(B, Or(u, u'), Or(l, l'))
  {
    hide Pow2;
    WidthBase(B, w);
    OrWords(w, u, l, u', l');
  }

  method Or128(number1: U128, number2: U128, target: U128)
    modifies target
    ensures target.Value() == Or(old(number1.Value()), old(number2.Value()))
  {
    hide Or;
    OrJoin(B64, 64, number1.upper, number1.lower, number2.upper, number2.lower);
    target.upper := OrWord(number1.upper, number2.upper);
    target.lower := OrWord(number1.lower, number2.lower);
  }

  method Or256(number1: U256, number2: U256, target: U256)
    requires number1.Valid() && number2.Valid() && target.Valid()
    requires Uncrossed(target, number1) && Uncrossed(target, number2)
    modifies target.Repr()
    ensures target.Value() == Or(old(number1.Value()), old(number2.Value()))
  {
    hide Or, Join;
    OrJoin(B128, 128, number1.upper.Value(), number1.lower.Value(), number2.upper.Value(), number2.lower.Value());
    Or128(number1.upper, number2.upper, target.upper);
    Or128(number1.lower, number2.lower, target.lower);
  }

  // ---------------------------------------------------------------- shifting

  method Shiftl128(number: U128, value: uint32, target: U128)
    modifies target
    ensures target.Value() == Shl(old(number.Value()), value, B128)
  {
    hide Shl, Shr, Pow2;
    ghost var u, l := number.upper, number.lower;
    if value >= 128 {
      ShlBeyond(B64, 64, number.Value(), value);
      Clear128(target);
    } else if value == 64 {
      ShlHigh(B64, 64, u, l, 0);
      ShiftByZero(B64, l);
      target.upper := number.lower;
      target.lower := 0;
    } else if value == 0 {
      ShiftByZero(B128, number.Value());
      Copy128(target, number);
    } else if value < 64 {
      ShlAcross(B64, 64, u, l, value);
      target.upper := (Shl(number.upper, value, B64) + Shr(number.lower, 64 - value)) % B64;
      target.lower := Shl(number.lower, value, B64);
    } else {
      ShlHigh(B64, 64, u, l, value - 64);
      target.upper := Shl(number.lower, value - 64, B64);
      target.lower := 0;
    }
  }

  /** Shifting right by exactly 64 writes the target's upper word before it reads the number's: in
      place, that loses the number. */
  method Shiftr128(number: U128, value: uint32, target: U128)
    modifies target
    ensures target.Value() == if value == 64 && target == number then 0 else Shr(old(number.Value()), value)
  {
    hide Shl, Shr, Pow2;
    ghost var u, l := number.upper, number.lower;
    if value >= 128 {
      ShrBeyond(B64, 64, number.Value(), value);
      Clear128(target);
    } else if value == 64 {
      ShrHigh(B64, 64, u, l, 0);
      ShiftByZero(B64, u);
      target.upper := 0;
      target.lower := number.upper;
    } else if value == 0 {
      ShiftByZero(B128, number.Value());
      Copy128(target, number);
    } else if value < 64 {
      ShrAcross(B64, 64, u, l, value);
      var result := new U128(0, 0);
      result.upper := Shr(number.upper, value);
      result.lower := (Shl(number.upper, 64 - value, B64) + Shr(number.lower, value)) % B64;
      Copy128(target, result);
    } else {
      ShrHigh(B64, 64, u, l, value - 64);
      target.lower := Shr(number.upper, value - 64);
      target.upper := 0;
    }
  }

  /** The 0 it leaves is the shift by 64 exactly of the numbers of one word. */
  lemma ShiftedInPlaceIff(v: nat)
    ensures 0 == Shr(v, 64) <==> v < B64
  {
    Pow2Words();
  }

  /** 2^64 shifted right by 64 in place is 0 instead of 1. */
  method ShiftedInPlace() returns (number: U128)
    ensures fresh(number) && number.Value() == 0 && Shr(Join(B64, 1, 0), 64) == 1
  {
    hide Shr;
    number := new U128(1, 0);
    Shiftr128(number, 64, number);
    ShrHigh(B64, 64, 1, 0, 0);
    ShiftByZero(B64, 1);
    JoinSmall(B64, 1);
  }

  method Shiftl256(number: U256, value: uint32, target: U256)
    requires number.Valid() && target.Valid() && Uncrossed(target, number)
    modifies target.Repr()
    ensures target.Value() == Shl(old(number.Value()), value, B256)
  {
    hide Join, Shl, Shr, Pow2;
    ghost var u, l := number.upper.Value(), number.lower.Value();
    if value >= 256 {
      ShlBeyond(B128, 128, number.Value(), value);
      Clear256(target);
    } else if value == 128 {
      ShlHigh(B128, 128, u, l, 0);
      ShiftByZero(B128, l);
      Copy128(target.upper, number.lower);
      Clear128(target.lower);
    } else if value == 0 {
      ShiftByZero(B256, number.Value());
      Copy256(target, number);
    } else if value < 128 {
      ShlAcross(B128, 128, u, l, value);
      Shiftl256Across(number, value, target);
    } else {
      ShlHigh(B128, 128, u, l, value - 128);
      Shiftl128(number.lower, value - 128, target.upper);
      Clear128(target.lower);
    }
  }

  /** The case of less than 128 bits: built in a local, then copied. */
  method Shiftl256Across(number: U256, value: uint32, target: U256)
    requires number.Valid() && target.Valid() && Uncrossed(target, number) && 0 < value < 128
    modifies target.Repr()
    ensures target.Value() ==
            Join(B128,
                 (Shl(old(number.upper.Value()), value, B128) + Shr(old(number.lower.Value()), 128 - value)) % B128,
                 Shl(old(number.lower.Value()), value, B128))
  {
    hide Shl, Shr, Pow2, Join;
    var tmp1 := new U128(0, 0);
    var tmp2 := new U128(0, 0);
    var result := new U256();
    Shiftl128(number.upper, value, tmp1);
    Shiftr128(number.lower, 128 - value, tmp2);
    Add128(tmp1, tmp2, result.upper);
    Shiftl128(number.lower, value, result.lower);
    Copy256(target, result);
  }

  method Shiftr256(number: U256, value: uint32, target: U256)
    requires number.Valid() && target.Valid() && Uncrossed(target, number)
    modifies target.Repr()
    ensures target.Value() == Shr(old(number.Value()), value)
  {
    hide Join, Shl, Shr, Pow2;
    ghost var u, l := number.upper.Value(), number.lower.Value();
    if value >= 256 {
      ShrBeyond(B128, 128, number.Value(), value);
      Clear256(target);
    } else if value == 128 {
      ShrHigh(B128, 128, u, l, 0);
      ShiftByZero(B128, u);
      Copy128(target.lower, number.upper);
      Clear128(target.upper);
    } else if value == 0 {
      ShiftByZero(B256, number.Value());
      Copy256(target, number);
    } else if value < 128 {
      ShrAcross(B128, 128, u, l, value);
      Shiftr256Across(number, value, target);
    } else {
      ShrHigh(B128, 128, u, l, value - 128);
      Shiftr128(number.upper, value - 128, target.lower);
      Clear128(target.upper);
    }
  }

  method Shiftr256Across(number: U256, value: uint32, target: U256)
    requires number.Valid() && target.Valid() && Uncrossed(target, number) && 0 < value < 128
    modifies target.Repr()
    ensures target.Value() ==
            Join(B128, Shr(old(number.upper.Value()), value),
                 (Shl(old(number.upper.Value()), 128 - value, B128) + Shr(old(number.lower.Value()), value)) % B128)
  {
    hide Shl, Shr, Pow2, Join;
    var tmp1 := new U128(0, 0);
    var tmp2 := new U128(0, 0);
    var result := new U256();
    Shiftr128(number.upper, value, result.upper);
    Shiftr128(number.lower, value, tmp1);
    Shiftl128(number.upper, 128 - value, tmp2);
    Add128(tmp1, tmp2, result.lower);
    Copy256(target, result);
  }

  // ---------------------------------------------------------------- bit length

  lemma BitLengthJoin(B: nat, w: nat, u: nat, l: nat)
    requires Width(B, w) && l < B
    ensures u > 0 ==> BitLength(Join(B, u, l)) == w + BitLength(u)
    ensures u == 0 ==> Join(B, u, l) == l
  {
    hide Pow2, BitLength;
    WidthBase(B, w);
    if u > 0 {
      BitLengthWords(w, u, l);
    }
  }

  lemma {:induction false} BitLengthBelow(n: nat, w: nat)
    requires n < Pow2(w)
    ensures BitLength(n) <= w
    decreases w
  {
    if w > 0 && n > 0 {
      BitLengthBelow(n / 2, w - 1);
    }
  }

  lemma BitLengthWord(B: nat, w: nat, n: nat)
    requires Width(B, w) && n < B
    ensures BitLength(n) <= w
  {
    hide Pow2, BitLength;
    WidthBase(B, w);
    BitLengthBelow(n, w);
  }

  lemma Halved(n: nat)
    ensures Shr(n, 1) == n / 2
    ensures n > 0 ==> BitLength(n) == 1 + BitLength(n / 2)
  {
    assert Pow2(1) == 2;
  }

  method Bits128(number: U128) returns (result: uint32)
    ensures result == BitLength(number.Value())
  {
    hide Pow2, BitLength;
    result := 0;
    assert BitLength(0) == 0 by { Halved(0); BitLengthZero(); }
    BitLengthJoin(B64, 64, number.upper, number.lower);
    if number.upper != 0 {
      result := 64;
      var up := number.upper;
      BitLengthWord(B64, 64, up);
      while up != 0
        invariant 64 <= result && result + BitLength(up) == 64 + BitLength(number.upper) <= 128
        decreases up
      {
        Halved(up);
        up := up / 2;
        result := result + 1;
      }
    } else {
      var low := number.lower;
      BitLengthWord(B64, 64, low);
      while low != 0
        invariant result + BitLength(low) == BitLength(number.lower) <= 64
        decreases low
      {
        Halved(low);
        low := low / 2;
        result := result + 1;
      }
    }
  }

  lemma BitLengthZero()
    ensures BitLength(0) == 0
  {
  }

  /** Counts the bits of a copy by shifting it to the right in place until nothing is left. */
  method CountDown(word: U128, start: uint32) returns (result: uint32)
    requires start <= 128
    modifies word
    ensures result == start + BitLength(old(word.Value()))
  {
    hide Join, Pow2, BitLength, Shr;
    BitLengthWord(B128, 128, word.Value());
    BitLengthZero();
    result := start;
    while !Zero128(word)
      invariant start <= result && result + BitLength(word.Value()) == start + BitLength(old(word.Value())) <= 256
      decreases word.Value()
    {
      Halved(word.Value());
      Shiftr128(word, 1, word);
      result := result + 1;
    }
  }

  method Bits256(number: U256) returns (result: uint32)
    requires number.Valid()
    ensures result == BitLength(number.Value())
  {
    hide Pow2, BitLength;
    BitLengthJoin(B128, 128, number.upper.Value(), number.lower.Value());
    if !Zero128(number.upper) {
      var up := new U128(0, 0);
      Copy128(up, number.upper);
      result := CountDown(up, 128);
    } else {
      var low := new U128(0, 0);
      Copy128(low, number.lower);
      result := CountDown(low, 0);
    }
  }
}
