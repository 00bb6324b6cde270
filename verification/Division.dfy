/** Shift-and-subtract division on 128 and 256 bits (helpers/uint256.c). */
module Division {
  import opened Words
  import opened Uint256

  /** What the division loop keeps. The shifted divisor is r * 2^k and the quotient bit is 2^k; the
      quotient so far has no bit below 2^(k+1), which is what makes the bitwise or an addition. When
      the shifts have run past the divisor itself, k is -1 and the remainder is final. */
  ghost predicate Dividing(l: nat, r: nat, k: int, copyd: nat, adder: nat, quot: nat, rest: nat) {
    && -1 <= k && r > 0
    && quot * r + rest == l
    && (k == -1 ==> rest < r)
    && (k >= 0 ==>
          && copyd == r * Pow2(k) && adder == Pow2(k)
          && rest < 2 * copyd
          && quot % (2 * adder) == 0)
  }

  lemma MultipleOfHalf(q: nat, a: nat)
    requires a > 0 && q % (2 * a) == 0
    ensures q % a == 0 && (q + a) % a == 0
  {
    var j := q / (2 * a);
    assert q == j * (2 * a) == (2 * j) * a;
    DivModUnique(q, a, 2 * j, 0);
    MulDistributes(2 * j, 1, a);
    DivModUnique(q + a, a, 2 * j + 1, 0);
  }

  lemma PowerHalved(r: nat, k: nat)
    requires k > 0
    ensures Shr(r * Pow2(k), 1) == r * Pow2(k - 1) && r * Pow2(k) == 2 * (r * Pow2(k - 1))
  {
    hide Shr, BitLength;
    var P := Pow2(k - 1);
    assert Pow2(k) == 2 * P;
    MulAssoc(r, 2, P);
    MulAssoc(2, r, P);
    Halved(r * Pow2(k));
  }

  /** One turn of the loop keeps it. */
  lemma DividingStep(l: nat, r: nat, k: int, copyd: nat, adder: nat, quot: nat, rest: nat)
    requires Dividing(l, r, k, copyd, adder, quot, rest) && k >= 0
    ensures rest >= copyd ==>
              Dividing(l, r, k - 1, Shr(copyd, 1), Shr(adder, 1), Or(quot, adder), rest - copyd)
    ensures rest < copyd ==> Dividing(l, r, k - 1, Shr(copyd, 1), Shr(adder, 1), quot, rest)
  {
    hide Or, Shr;
    var P := Pow2(k);
    MultipleOfHalf(quot, P);
    assert Or(quot, adder) == quot + adder by {
      assert Pow2(k + 1) == 2 * P;
      OrIsSum(quot, adder, k + 1) by { Pow2Monotonic(k, k + 1); }
    }
    assert (quot + adder) * r == quot * r + copyd by { MulDistributes(quot, adder, r); }
    if k > 0 {
      PowerHalved(r, k);
      PowerHalved(1, k);
      assert 2 * Pow2(k - 1) == P;
    } else {
      assert P == 1 && copyd == r;
    }
  }

  lemma NoOverflow(M: nat, w: nat, l: nat, r: nat)
    requires M == Pow2(w) && 0 < r <= l < M
    ensures BitLength(r) <= BitLength(l)
    ensures var n := BitLength(l) - BitLength(r);
            && Shl(r, n, M) == r * Pow2(n) && Shl(1, n, M) == Pow2(n)
            && l < 2 * (r * Pow2(n))
            && (r * Pow2(n) > l ==> n > 0)
  {
    hide Shl, BitLength;
    var bl, br := BitLength(l), BitLength(r);
    if bl < br {
      Pow2Monotonic(bl, br - 1);
    }
    var n := bl - br;
    ShiftedDivisor(r, br, n);
    BitLengthBelow(l, w);
    Pow2Monotonic(bl, w);
    ShlSmall(r, n, M);
    MulMonotonic(1, r, Pow2(n));
    ShlSmall(1, n, M);
    if n == 0 {
      assert r * Pow2(0) == r;
    }
  }

  /** A divisor of br bits, shifted by n, has br + n bits. */
  lemma ShiftedDivisor(r: nat, br: nat, n: nat)
    requires br > 0 && Pow2(br - 1) <= r < Pow2(br)
    ensures r * Pow2(n) < Pow2(br + n) <= 2 * (r * Pow2(n))
  {
    Pow2Add(br, n);
    MulMonotonic(r + 1, Pow2(br), Pow2(n));
    MulDistributes(r, 1, Pow2(n));
    Pow2Add(br - 1, n);
    MulMonotonic(Pow2(br - 1), r, Pow2(n));
    assert br - 1 + n == br + n - 1;
  }

  lemma {:induction false} ShlSmall(v: nat, n: nat, M: nat)
    requires M > 0 && v * Pow2(n) < M
    ensures Shl(v, n, M) == v * Pow2(n)
  {
    DivModUnique(v * Pow2(n), M, 0, v * Pow2(n));
  }

  /** Where the loop starts: the divisor shifted up to the length of the dividend, and one back if
      that is more than the dividend. */
  lemma DividingStart(M: nat, w: nat, l: nat, r: nat)
    requires M == Pow2(w) && 0 < r <= l < M
    ensures BitLength(r) <= BitLength(l)
    ensures var n := BitLength(l) - BitLength(r);
            var copyd, adder := Shl(r, n, M), Shl(1, n, M);
            if copyd > l then Dividing(l, r, n - 1, Shr(copyd, 1), Shr(adder, 1), 0, l)
            else Dividing(l, r, n, copyd, adder, 0, l)
  {
    hide Shl, Shr, BitLength;
    NoOverflow(M, w, l, r);
    var n := BitLength(l) - BitLength(r);
    if r * Pow2(n) > l {
      PowerHalved(r, n);
      PowerHalved(1, n);
    }
  }

  lemma SmallQuotient(l: nat, r: nat)
    requires l < r
    ensures l / r == 0 && l % r == l
  {
    DivModUnique(l, r, 0, l);
  }

  /** While the remainder is not below the divisor, there are shifts left. */
  lemma DividingGoesOn(l: nat, r: nat, k: int, copyd: nat, adder: nat, quot: nat, rest: nat)
    requires Dividing(l, r, k, copyd, adder, quot, rest) && rest >= r
    ensures k >= 0
  {
  }

  lemma Divided(l: nat, r: nat, k: int, copyd: nat, adder: nat, quot: nat, rest: nat)
    requires Dividing(l, r, k, copyd, adder, quot, rest) && rest < r
    ensures quot == l / r && rest == l % r
  {
    DivModUnique(l, r, quot, rest);
  }

  /** The divisor and the first quotient bit of divmod128, shifted up under the dividend. */
  method ShiftUp128(r: U128, one: U128, diffBits: uint32, copyd: U128, adder: U128, resMod: U128) returns (ghost k: int)
    requires copyd != adder && {r, one, resMod} !! {copyd, adder}
    requires one.Value() == 1 && 0 < r.Value() <= resMod.Value()
    requires diffBits == (BitLength(resMod.Value()) - BitLength(r.Value())) % 0x1_0000_0000
    modifies copyd, adder
    ensures Dividing(resMod.Value(), r.Value(), k, copyd.Value(), adder.Value(), 0, resMod.Value())
  {
    hide Pow2, BitLength, Shl, Shr, Join, Dividing, U128.Value, U256.Value;
    ghost var l := resMod.Value();
    DividingStart(B128, 128, l, r.Value()) by { Pow2Words(); }
    BitLengthBelow(l, 128) by { Pow2Words(); }
    Shiftl128(r, diffBits, copyd);
    Shiftl128(one, diffBits, adder);
    k := diffBits;
    if Gt128(copyd, resMod) {
      Shiftr128(copyd, 1, copyd);
      Shiftr128(adder, 1, adder);
      k := k - 1;
    }
  }

  /** The loop of divmod128, on its locals. */
  method DivideLoop128(r: U128, copyd: U128, adder: U128, resDiv: U128, resMod: U128, ghost l: nat, ghost start: int)
    requires copyd != adder && copyd != resDiv && copyd != resMod
    requires adder != resDiv && adder != resMod && resDiv != resMod
    requires r !in {copyd, adder, resDiv, resMod}
    requires Dividing(l, r.Value(), start, copyd.Value(), adder.Value(), resDiv.Value(), resMod.Value())
    modifies copyd, adder, resDiv, resMod
    ensures resDiv.Value() == l / r.Value() && resMod.Value() == l % r.Value()
  {
    hide Pow2, Or, Shr, Join, Dividing, U128.Value, U256.Value;
    ghost var k := start;
    while Gte128(resMod, r)
      invariant Dividing(l, r.Value(), k, copyd.Value(), adder.Value(), resDiv.Value(), resMod.Value())
      invariant r.Value() == old(r.Value())
      decreases k
    {
      DividingGoesOn(l, r.Value(), k, copyd.Value(), adder.Value(), resDiv.Value(), resMod.Value());
      DividingStep(l, r.Value(), k, copyd.Value(), adder.Value(), resDiv.Value(), resMod.Value());
      if Gte128(resMod, copyd) {
        MinusExact(resMod.Value(), copyd.Value(), B128);
        Minus128(resMod, copyd, resMod);
        Or128(resDiv, adder, resDiv);
      }
      Shiftr128(copyd, 1, copyd);
      Shiftr128(adder, 1, adder);
      k := k - 1;
    }
    Divided(l, r.Value(), k, copyd.Value(), adder.Value(), resDiv.Value(), resMod.Value());
  }

  /** divmod128. The quotient may be written over the dividend or the divisor, and so may the
      remainder; only the two results must be different places. Without a nonzero divisor the loop
      would not end. */
  method Divmod128(l: U128, r: U128, retDiv: U128, retMod: U128)
    requires r.Value() > 0 && retDiv != retMod
    modifies retDiv, retMod
    ensures retDiv.Value() == old(l.Value()) / old(r.Value())
    ensures retMod.Value() == old(l.Value()) % old(r.Value())
  {
    hide Pow2, Or, BitLength, Shl, Shr, Join, Dividing, U128.Value, U256.Value;
    ghost var L, R := l.Value(), r.Value();
    var copyd := new U128(0, 0);
    var adder := new U128(0, 0);
    var resDiv := new U128(0, 0);
    var resMod := new U128(0, 0);
    var one := new U128(0, 1);
    var lBits := Bits128(l);
    var rBits := Bits128(r);
    var diffBits: uint32 := (lBits as int - rBits as int) % 0x1_0000_0000;
    Clear128(resDiv);
    Copy128(resMod, l);
    if Gt128(r, l) {
      SmallQuotient(L, R);
      Copy128(retMod, l);
      Clear128(retDiv);
    } else {
      ghost var k := ShiftUp128(r, one, diffBits, copyd, adder, resMod);
      DivideLoop128(r, copyd, adder, resDiv, resMod, L, k);
      Copy128(retDiv, resDiv);
      Copy128(retMod, resMod);
    }
  }

  /** Five structs that do not overlap. */
  ghost predicate Apart4(a: U256, b: U256, c: U256, d: U256, r: U256) {
    && a.Repr() !! b.Repr() !! c.Repr() !! d.Repr() !! r.Repr()
  }

  /** The divisor and the first quotient bit of divmod256, shifted up under the dividend. */
  method ShiftUp256(r: U256, one: U256, diffBits: uint32, copyd: U256, adder: U256, resMod: U256) returns (ghost k: int)
    requires copyd.Valid() && adder.Valid() && one.Valid() && resMod.Valid() && r.Valid()
    requires copyd.Repr() !! adder.Repr() && (one.Repr() + resMod.Repr() + r.Repr()) !! (copyd.Repr() + adder.Repr())
    requires one.Value() == 1 && 0 < r.Value() <= resMod.Value()
    requires diffBits == (BitLength(resMod.Value()) - BitLength(r.Value())) % 0x1_0000_0000
    modifies copyd.Repr(), adder.Repr()
    ensures Dividing(resMod.Value(), r.Value(), k, copyd.Value(), adder.Value(), 0, resMod.Value())
  {
    hide Pow2, BitLength, Shl, Shr, Join, Dividing, U128.Value, U256.Value;
    ghost var l := resMod.Value();
    DividingStart(B256, 256, l, r.Value()) by { Pow2Words(); }
    BitLengthBelow(l, 256) by { Pow2Words(); }
    Shiftl256(r, diffBits, copyd);
    Shiftl256(one, diffBits, adder);
    k := diffBits;
    if Gt256(copyd, resMod) {
      Shiftr256(copyd, 1, copyd);
      Shiftr256(adder, 1, adder);
      k := k - 1;
    }
  }

  /** The loop of divmod256, on its locals. */
  method DivideLoop256(r: U256, copyd: U256, adder: U256, resDiv: U256, resMod: U256, ghost l: nat, ghost start: int)
    requires copyd.Valid() && adder.Valid() && resDiv.Valid() && resMod.Valid() && r.Valid()
    requires Apart4(copyd, adder, resDiv, resMod, r)
    requires Dividing(l, r.Value(), start, copyd.Value(), adder.Value(), resDiv.Value(), resMod.Value())
    modifies copyd.Repr() + adder.Repr() + resDiv.Repr() + resMod.Repr()
    ensures resDiv.Value() == l / r.Value() && resMod.Value() == l % r.Value()
  {
    hide Pow2, Or, Shr, Join, Dividing, U128.Value, U256.Value;
    ghost var k := start;
    while Gte256(resMod, r)
      invariant Dividing(l, r.Value(), k, copyd.Value(), adder.Value(), resDiv.Value(), resMod.Value())
      invariant r.Value() == old(r.Value())
      decreases k
    {
      DividingGoesOn(l, r.Value(), k, copyd.Value(), adder.Value(), resDiv.Value(), resMod.Value());
      DividingStep(l, r.Value(), k, copyd.Value(), adder.Value(), resDiv.Value(), resMod.Value());
      if Gte256(resMod, copyd) {
        MinusExact(resMod.Value(), copyd.Value(), B256);
        Minus256(resMod, copyd, resMod);
        Or256(resDiv, adder, resDiv);
      }
      Shiftr256(copyd, 1, copyd);
      Shiftr256(adder, 1, adder);
      k := k - 1;
    }
    Divided(l, r.Value(), k, copyd.Value(), adder.Value(), resDiv.Value(), resMod.Value());
  }

  method One256() returns (one: U256)
    ensures one.Valid() && fresh(one.Repr()) && one.Value() == 1
  {
    one := new U256();
    SetUint64(one, 1);
  }

  /** From the difference of the bit lengths on; the dividend is already in the remainder. */
  method DivideFrom256(r: U256, diffBits: uint32, resDiv: U256, resMod: U256)
    requires resDiv.Valid() && resMod.Valid() && r.Valid() && resDiv.Repr() !! resMod.Repr() !! r.Repr()
    requires resDiv.Value() == 0 && 0 < r.Value() <= resMod.Value()
    requires diffBits == (BitLength(resMod.Value()) - BitLength(r.Value())) % 0x1_0000_0000
    modifies resDiv.Repr() + resMod.Repr()
    ensures resDiv.Value() == old(resMod.Value()) / r.Value() && resMod.Value() == old(resMod.Value()) % r.Value()
  {
    hide Pow2, BitLength, Join, Dividing, U128.Value, U256.Value;
    ghost var l := resMod.Value();
    var copyd := new U256();
    var adder := new U256();
    var one := One256();
    ghost var k := ShiftUp256(r, one, diffBits, copyd, adder, resMod);
    DivideLoop256(r, copyd, adder, resDiv, resMod, l, k);
  }

  /** The difference of the bit lengths, as a uint32_t. */
  method DiffBits256(l: U256, r: U256) returns (diffBits: uint32)
    requires l.Valid() && r.Valid()
    ensures diffBits == (BitLength(l.Value()) - BitLength(r.Value())) % 0x1_0000_0000
  {
    var lBits := Bits256(l);
    var rBits := Bits256(r);
    diffBits := (lBits as int - rBits as int) % 0x1_0000_0000;
  }

  /** The division proper, into two local results. */
  method DivideInto256(l: U256, r: U256, resDiv: U256, resMod: U256)
    requires l.Valid() && r.Valid() && resDiv.Valid() && resMod.Valid()
    requires resDiv.Repr() !! resMod.Repr() !! l.Repr() && r.Repr() !! resDiv.Repr() !! resMod.Repr()
    requires 0 < r.Value() <= l.Value()
    modifies resDiv.Repr(), resMod.Repr()
    ensures resDiv.Value() == l.Value() / r.Value() && resMod.Value() == l.Value() % r.Value()
  {
    hide Pow2, Or, BitLength, Shl, Shr, Join, Dividing, U128.Value, U256.Value;
    var diffBits := DiffBits256(l, r);
    Clear256(resDiv);
    Copy256(resMod, l);
    DivideFrom256(r, diffBits, resDiv, resMod);
  }

  /** divmod256: as divmod128, and the structs may be the same but may not partly overlap. */
  method Divmod256(l: U256, r: U256, retDiv: U256, retMod: U256)
    requires l.Valid() && r.Valid() && retDiv.Valid() && retMod.Valid()
    requires Uncrossed(retDiv, l) && Uncrossed(retMod, l) && retDiv.Repr() !! retMod.Repr()
    requires r.Value() > 0
    modifies retDiv.Repr(), retMod.Repr()
    ensures retDiv.Value() == old(l.Value()) / old(r.Value())
    ensures retMod.Value() == old(l.Value()) % old(r.Value())
  {
    hide Join, U128.Value, U256.Value;
    if Gt256(r, l) {
      SmallQuotient(l.Value(), r.Value());
      Copy256(retMod, l);
      Clear256(retDiv);
    } else {
      var resDiv := new U256();
      var resMod := new U256();
      DivideInto256(l, r, resDiv, resMod);
      Copy256(retDiv, resDiv);
      Copy256(retMod, resMod);
    }
  }

  lemma MinusExact(a: nat, b: nat, M: nat)
    requires b <= a < M
    ensures (a - b) % M == a - b
  {
    DivModUnique(a - b, M, 0, a - b);
  }
}
