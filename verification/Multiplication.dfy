/** Schoolbook multiplication on 128 and 256 bits (helpers/uint256.c). */
module Multiplication {
  import opened Words
  import opened Uint256

  // ---------------------------------------------------------------- columns of products

  /** Low and high half of a product of two 32-bit numbers, and of two 64-bit numbers. */
  function Lo32(x: nat): (r: uint32) { x % 0x1_0000_0000 }

  function Hi32(x: nat): (r: nat) { x / 0x1_0000_0000 }

  function Lo64(x: nat): (r: uint64) { x % 0x1_0000_0000_0000_0000 }

  function Hi64(x: nat): (r: nat) { x / 0x1_0000_0000_0000_0000 }

  lemma ProductBelow(a: nat, b: nat, W: nat)
    requires a < W && b < W
    ensures 0 <= a * b <= (W - 1) * (W - 1)
  {
    MulMonotonic(a, W - 1, b);
    MulMonotonic(b, W - 1, W - 1);
  }

  lemma HalvesBelow(a: nat, b: nat)
    ensures a < 0x1_0000_0000 && b < 0x1_0000_0000 ==> Hi32(a * b) < 0x1_0000_0000 && a * b < 0x1_0000_0000_0000_0000
    ensures a < 0x1_0000_0000_0000_0000 && b < 0x1_0000_0000_0000_0000 ==> Hi64(a * b) < 0x1_0000_0000_0000_0000
  {
    if a < 0x1_0000_0000 && b < 0x1_0000_0000 { ProductBelow(a, b, 0x1_0000_0000); }
    if a < 0x1_0000_0000_0000_0000 && b < 0x1_0000_0000_0000_0000 { ProductBelow(a, b, 0x1_0000_0000_0000_0000); }
  }

  /** Four limbs as a number, least significant limb first. */
  datatype Limbs = Limbs(l0: nat, l1: nat, l2: nat, l3: nat) {
    function Value32(): nat {
      l0 + l1 * 0x1_0000_0000 + l2 * 0x1_0000_0000_0000_0000 + l3 * 0x1_0000_0000_0000_0000_0000_0000
    }

    function Value64(): nat {
      l0 + l1 * 0x1_0000_0000_0000_0000 + l2 * 0x1_0000_0000_0000_0000_0000_0000_0000_0000
      + l3 * 0x1_0000_0000_0000_0000_0000_0000_0000_0000_0000_0000_0000_0000
    }

    ghost predicate Below(W: nat) {
      l0 < W && l1 < W && l2 < W && l3 < W
    }

    function Times(f: nat): Limbs {
      Limbs(l0 * f, l1 * f, l2 * f, l3 * f)
    }
  }

  // Column k of a product has weight W^k; only the columns below W^4 are kept.

  /** The kept columns of a product, from the products of the limbs: pij is limb i times limb j. */
  function Columns32Of(p00: nat, p01: nat, p02: nat, p03: nat, p10: nat, p11: nat, p12: nat, p20: nat, p21: nat,
                       p30: nat): Limbs
  {
    Limbs(Lo32(p00),
          Lo32(p01) + Hi32(p00) + Lo32(p10),
          Lo32(p02) + Hi32(p01) + Lo32(p11) + Hi32(p10) + Lo32(p20),
          Lo32(p03) + Hi32(p02) + Lo32(p12) + Hi32(p11) + Lo32(p21) + Hi32(p20) + Lo32(p30))
  }

  function Columns32(a: Limbs, b: Limbs): Limbs {
    Columns32Of(a.l0 * b.l0, a.l0 * b.l1, a.l0 * b.l2, a.l0 * b.l3, a.l1 * b.l0, a.l1 * b.l1, a.l1 * b.l2,
                a.l2 * b.l0, a.l2 * b.l1, a.l3 * b.l0)
  }

  /** The kept columns of a product, from the products of the limbs: pij is limb i times limb j. */
  function Columns64Of(p00: nat, p01: nat, p02: nat, p03: nat, p10: nat, p11: nat, p12: nat, p20: nat, p21: nat,
                       p30: nat): Limbs
  {
    Limbs(Lo64(p00),
          Lo64(p01) + Hi64(p00) + Lo64(p10),
          Lo64(p02) + Hi64(p01) + Lo64(p11) + Hi64(p10) + Lo64(p20),
          Lo64(p03) + Hi64(p02) + Lo64(p12) + Hi64(p11) + Lo64(p21) + Hi64(p20) + Lo64(p30))
  }

  function Columns64(a: Limbs, b: Limbs): Limbs {
    Columns64Of(a.l0 * b.l0, a.l0 * b.l1, a.l0 * b.l2, a.l0 * b.l3, a.l1 * b.l0, a.l1 * b.l1, a.l1 * b.l2,
                a.l2 * b.l0, a.l2 * b.l1, a.l3 * b.l0)
  }

  lemma Row32(a: Limbs, f: nat)
    ensures a.Value32() * f == a.Times(f).Value32()
  {
    MulDistributes(a.l0 + a.l1 * 0x1_0000_0000 + a.l2 * 0x1_0000_0000_0000_0000,
                   a.l3 * 0x1_0000_0000_0000_0000_0000_0000, f);
    MulDistributes(a.l0 + a.l1 * 0x1_0000_0000, a.l2 * 0x1_0000_0000_0000_0000, f);
    MulDistributes(a.l0, a.l1 * 0x1_0000_0000, f);
  }

  lemma Row64(a: Limbs, f: nat)
    ensures a.Value64() * f == a.Times(f).Value64()
  {
    MulDistributes(a.l0 + a.l1 * 0x1_0000_0000_0000_0000 + a.l2 * 0x1_0000_0000_0000_0000_0000_0000_0000_0000,
                   a.l3 * 0x1_0000_0000_0000_0000_0000_0000_0000_0000_0000_0000_0000_0000, f);
    MulDistributes(a.l0 + a.l1 * 0x1_0000_0000_0000_0000, a.l2 * 0x1_0000_0000_0000_0000_0000_0000_0000_0000, f);
    MulDistributes(a.l0, a.l1 * 0x1_0000_0000_0000_0000, f);
  }

  /** The part of the product that lies above the kept columns. */
  function Dropped32(a: Limbs, b: Limbs): nat {
    Hi32(a.l0 * b.l3) + Hi32(a.l1 * b.l2) + Hi32(a.l2 * b.l1) + Hi32(a.l3 * b.l0)
    + a.l1 * b.l3 + a.l2 * b.l2 + a.l3 * b.l1
    + (a.l2 * b.l3 + a.l3 * b.l2) * 0x1_0000_0000
    + a.l3 * b.l3 * 0x1_0000_0000_0000_0000
  }

  function Dropped64(a: Limbs, b: Limbs): nat {
    Hi64(a.l0 * b.l3) + Hi64(a.l1 * b.l2) + Hi64(a.l2 * b.l1) + Hi64(a.l3 * b.l0)
    + a.l1 * b.l3 + a.l2 * b.l2 + a.l3 * b.l1
    + (a.l2 * b.l3 + a.l3 * b.l2) * 0x1_0000_0000_0000_0000
    + a.l3 * b.l3 * 0x1_0000_0000_0000_0000_0000_0000_0000_0000
  }

  /** The kept columns are the product, up to a multiple of 2^128. */
  lemma Schoolbook32(a: Limbs, b: Limbs)
    ensures a.Value32() * b.Value32() == Columns32(a, b).Value32() + Dropped32(a, b) * B128
  {
    var v := a.Value32();
    assert v * b.Value32() == v * b.l0 + v * b.l1 * 0x1_0000_0000 + v * b.l2 * 0x1_0000_0000_0000_0000
                              + v * b.l3 * 0x1_0000_0000_0000_0000_0000_0000 by {
      Row32(b, v);
    }
    Row32(a, b.l0);
    Row32(a, b.l1);
    Row32(a, b.l2);
    Row32(a, b.l3);
  }

  lemma Schoolbook64(a: Limbs, b: Limbs)
    ensures a.Value64() * b.Value64() == Columns64(a, b).Value64() + Dropped64(a, b) * B256
  {
    var v := a.Value64();
    assert v * b.Value64() == v * b.l0 + v * b.l1 * 0x1_0000_0000_0000_0000
                              + v * b.l2 * 0x1_0000_0000_0000_0000_0000_0000_0000_0000
                              + v * b.l3 * 0x1_0000_0000_0000_0000_0000_0000_0000_0000_0000_0000_0000_0000 by {
      Row64(b, v);
    }
    Row64(a, b.l0);
    Row64(a, b.l1);
    Row64(a, b.l2);
    Row64(a, b.l3);
  }

  // ---------------------------------------------------------------- 128 bits

  /** The 32-bit limbs of a two-word number. */
  function Limbs32(upper: uint64, lower: uint64): (a: Limbs)
    ensures a.Below(0x1_0000_0000) && a.Value32() == Join(B64, upper, lower)
  {
    Limbs(Lo32(lower), Hi32(lower), Lo32(upper), Hi32(upper))
  }

  /** The arrays of mul128, most significant limb first. */
  ghost predicate HoldsLimbs(t: array<uint64>, a: Limbs)
    reads t
  {
    t.Length == 4 && t[0] == a.l3 && t[1] == a.l2 && t[2] == a.l1 && t[3] == a.l0
  }

  function Limb(a: Limbs, i: nat): nat {
    if i == 0 then a.l0 else if i == 1 then a.l1 else if i == 2 then a.l2 else a.l3
  }

  function Product(a: Limbs, i: nat, b: Limbs, j: nat): nat {
    Limb(a, i) * Limb(b, j)
  }

  lemma ProductFits(a: Limbs, i: nat, b: Limbs, j: nat)
    requires a.Below(0x1_0000_0000) && b.Below(0x1_0000_0000)
    ensures Product(a, i, b, j) < 0x1_0000_0000_0000_0000
  {
    HalvesBelow(Limb(a, i), Limb(b, j));
  }

  /** The two nested loops that fill the table of products. */
  method FillProducts(top: array<uint64>, bottom: array<uint64>, ghost a: Limbs, ghost b: Limbs)
    returns (products: array2<uint64>)
    requires HoldsLimbs(top, a) && HoldsLimbs(bottom, b) && a.Below(0x1_0000_0000) && b.Below(0x1_0000_0000)
    ensures fresh(products) && products.Length0 == 4 && products.Length1 == 4
    ensures forall i, y :: 0 <= i < 4 && 0 <= y < 4 ==> products[i, y] == Product(a, i, b, 3 - y)
  {
    products := new uint64[4, 4]((_, _) => 0);
    var y: int := 3;
    while y > -1
      invariant -1 <= y <= 3
      invariant forall i, z :: 0 <= i < 4 && y < z < 4 ==> products[i, z] == Product(a, i, b, 3 - z)
    {
      var x: int := 3;
      while x > -1
        invariant -1 <= x <= 3
        invariant forall i, z :: 0 <= i < 4 && y < z < 4 ==> products[i, z] == Product(a, i, b, 3 - z)
        invariant forall i :: 0 <= i < 3 - x ==> products[i, y] == Product(a, i, b, 3 - y)
      {
        ProductFits(a, 3 - x, b, 3 - y);
        hide Product;
        products[3 - x, y] := MulWord(top[x], bottom[y], a, 3 - x, b, 3 - y);
        x := x - 1;
      }
      y := y - 1;
    }
  }

  /** One product of two limbs, named. */
  function MulWord(s: uint64, t: uint64, ghost a: Limbs, ghost i: nat, ghost b: Limbs, ghost j: nat): (r: uint64)
    requires s == Limb(a, i) && t == Limb(b, j) && Product(a, i, b, j) < 0x1_0000_0000_0000_0000
    ensures r == Product(a, i, b, j)
  {
    s * t
  }

  lemma ThirdColumn(c: nat)
    requires c < 0x1_0000_0000_0000_0000
    ensures Join(B64, Hi32(c), (c * 0x1_0000_0000) % 0x1_0000_0000_0000_0000) == c * 0x1_0000_0000
  {
  }

  lemma FirstColumn(c: nat)
    ensures (c * 0x1_0000_0000_0000_0000_0000_0000) % B128 ==
            Join(B64, (c * 0x1_0000_0000) % 0x1_0000_0000_0000_0000, 0) % B128
  {
    var q := (c * 0x1_0000_0000) / 0x1_0000_0000_0000_0000;
    var t := Join(B64, (c * 0x1_0000_0000) % 0x1_0000_0000_0000_0000, 0);
    assert c * 0x1_0000_0000_0000_0000_0000_0000 == t + q * 0x1_0000_0000_0000_0000_0000_0000_0000_0000;
    ModDrop(t, q, B128);
  }

  /** What mul128 puts together from its columns. */
  lemma Assemble128(c: Limbs, tmp: nat, tmp2: nat, sum: nat, sum2: nat)
    requires c.l0 < B64 && c.l1 < B64 && c.l2 < B64
    requires tmp == Join(B64, (c.l3 * 0x1_0000_0000) % 0x1_0000_0000_0000_0000, 0)
    requires tmp2 == Join(B64, Hi32(c.l1), (c.l1 * 0x1_0000_0000) % 0x1_0000_0000_0000_0000)
    requires sum == (tmp + tmp2) % B128
    requires sum2 == (Join(B64, c.l2, 0) + sum) % B128
    ensures (c.l0 + sum2) % B128 == c.Value32() % B128
  {
    hide Hi32, Join;
    ThirdColumn(c.l1);
    FirstColumn(c.l3);
    JoinIs(B64, c.l2, 0);
    AssembleMod(c.l0, c.l1 * 0x1_0000_0000, c.l2 * 0x1_0000_0000_0000_0000,
                c.l3 * 0x1_0000_0000_0000_0000_0000_0000, tmp);
  }

  lemma AssembleMod(x0: nat, x1: nat, x2: nat, x3: nat, tmp: nat)
    requires x3 % B128 == tmp % B128
    ensures (x0 + (x2 + (tmp + x1) % B128) % B128) % B128 == (x0 + x1 + x2 + x3) % B128
  {
    ModAdd(x2, tmp + x1);
    ModAdd(x0, x2 + (tmp + x1));
    ModAdd(x0 + x1 + x2, x3);
    ModAdd(x0 + x1 + x2, tmp);
  }

  lemma ModAdd(n: nat, x: nat)
    ensures (n + x % B128) % B128 == (n + x) % B128
  {
    assert x == x % B128 + (x / B128) * B128;
    ModDrop(n + x % B128, x / B128, B128);
  }

  lemma Mul128Columns(a: Limbs, b: Limbs)
    ensures Columns32(a, b).Value32() % B128 == (a.Value32() * b.Value32()) % B128
  {
    hide Columns32, Dropped32;
    Schoolbook32(a, b);
    ModDrop(Columns32(a, b).Value32(), Dropped32(a, b), B128);
  }

  /** The accumulators of mul128; none of them overflows its 64 bits. */
  method Accumulate(products: array2<uint64>)
    returns (fourth32: uint64, third32: uint64, second32: uint64, first32: uint64)
    requires products.Length0 == 4 && products.Length1 == 4
    ensures Limbs(fourth32, third32, second32, first32) ==
            Columns32Of(products[0, 3], products[0, 2], products[0, 1], products[0, 0],
                        products[1, 3], products[1, 2], products[1, 1], products[2, 3], products[2, 2], products[3, 3])
  {
    fourth32 := Lo32(products[0, 3]);
    third32 := Lo32(products[0, 2]) + Hi32(products[0, 3]);
    second32 := Lo32(products[0, 1]) + Hi32(products[0, 2]);
    first32 := Lo32(products[0, 0]) + Hi32(products[0, 1]);

    third32 := third32 + Lo32(products[1, 3]);
    second32 := second32 + Lo32(products[1, 2]) + Hi32(products[1, 3]);
    first32 := first32 + Lo32(products[1, 1]) + Hi32(products[1, 2]);

    second32 := second32 + Lo32(products[2, 3]);
    first32 := first32 + Lo32(products[2, 2]) + Hi32(products[2, 3]);

    first32 := first32 + Lo32(products[3, 3]);
  }

  /** mul128: the product modulo 2^128, for all operands and any target. */
  method Mul128(number1: U128, number2: U128, target: U128)
    modifies target
    ensures target.Value() == (old(number1.Value()) * old(number2.Value())) % B128
  {
    ghost var a, b := Limbs32(number1.upper, number1.lower), Limbs32(number2.upper, number2.lower);
    ghost var A, B := number1.Value(), number2.Value();
    var top := new uint64[4] [Hi32(number1.upper), Lo32(number1.upper), Hi32(number1.lower), Lo32(number1.lower)];
    var bottom := new uint64[4] [Hi32(number2.upper), Lo32(number2.upper), Hi32(number2.lower), Lo32(number2.lower)];
    var products := FillProducts(top, bottom, a, b);
    var fourth32, third32, second32, first32 := Accumulate(products);
    assert products[0, 3] == Product(a, 0, b, 0) && products[0, 2] == Product(a, 0, b, 1);
    assert products[0, 1] == Product(a, 0, b, 2) && products[0, 0] == Product(a, 0, b, 3);
    assert products[1, 3] == Product(a, 1, b, 0) && products[1, 2] == Product(a, 1, b, 1);
    assert products[1, 1] == Product(a, 1, b, 2) && products[2, 3] == Product(a, 2, b, 0);
    assert products[2, 2] == Product(a, 2, b, 1) && products[3, 3] == Product(a, 3, b, 0);
    assert Limbs(fourth32, third32, second32, first32) == Columns32(a, b) by { hide Columns32Of; }
    Mul128Columns(a, b);
    Join128(fourth32, third32, second32, first32, target);
  }

  /** The columns of mul128, added up in 128 bits. */
  method Join128(fourth32: uint64, third32: uint64, second32: uint64, first32: uint64, target: U128)
    modifies target
    ensures target.Value() == Limbs(fourth32, third32, second32, first32).Value32() % B128
  {
    hide Hi32, Join, U128.Value;
    var tmp := new U128(0, 0);
    var tmp2 := new U128(0, 0);
    Set128(tmp, (first32 * 0x1_0000_0000) % 0x1_0000_0000_0000_0000, 0);
    Set128(tmp2, HalfWord(third32), (third32 * 0x1_0000_0000) % 0x1_0000_0000_0000_0000);
    ghost var t, t2 := tmp.Value(), tmp2.Value();
    Add128(tmp, tmp2, target);
    ghost var sum := target.Value();
    Set128(tmp, second32, 0);
    Add128(tmp, target, tmp2);
    ghost var sum2 := tmp2.Value();
    Set128(tmp, 0, fourth32);
    JoinSmall(B64, fourth32);
    Add128(tmp, tmp2, target);
    Assemble128(Limbs(fourth32, third32, second32, first32), t, t2, sum, sum2);
  }

  /** Sets both words of a local. */
  method Set128(target: U128, u: uint64, l: uint64)
    modifies target
    ensures target.Value() == Join(B64, u, l)
  {
    target.upper := u;
    target.lower := l;
  }

  function HalfWord(x: uint64): (r: uint64)
    ensures r == Hi32(x)
  {
    x / 0x1_0000_0000
  }

  // ---------------------------------------------------------------- 256 bits

  datatype Words2 = Words2(upper: uint64, lower: uint64)

  /** mul128 of two words: the whole product, in two words. */
  method MulWords(x: uint64, y: uint64) returns (p: Words2)
    ensures p.lower == Lo64(x * y) && p.upper == Hi64(x * y)
  {
    var top := new U128(0, x);
    var bottom := new U128(0, y);
    var product := new U128(0, 0);
    Mul128(top, bottom, product);
    p := Words2(product.upper, product.lower);
    ProductWords(x, y, p.upper, p.lower);
  }

  lemma ProductWords(x: uint64, y: uint64, u: uint64, l: uint64)
    requires Join(B64, u, l) == (x * y) % B128
    ensures l == Lo64(x * y) && u == Hi64(x * y)
  {
    hide Join;
    ProductBelow(x, y, 0x1_0000_0000_0000_0000);
    DivModUnique(x * y, B128, 0, x * y);
    JoinParts(u, l, x * y);
  }

  lemma JoinParts(u: uint64, l: uint64, p: nat)
    requires Join(B64, u, l) == p
    ensures l == Lo64(p) && u == Hi64(p)
  {
  }

  ghost predicate IsProduct(p: Words2, a: Limbs, i: nat, b: Limbs, j: nat) {
    p.lower == Lo64(Product(a, i, b, j)) && p.upper == Hi64(Product(a, i, b, j))
  }

  /** The table of products of mul256, filled by the same two loops. */
  method FillProducts256(top: array<uint64>, bottom: array<uint64>, ghost a: Limbs, ghost b: Limbs)
    returns (products: array2<Words2>)
    requires HoldsLimbs(top, a) && HoldsLimbs(bottom, b)
    ensures fresh(products) && products.Length0 == 4 && products.Length1 == 4
    ensures forall i, y :: 0 <= i < 4 && 0 <= y < 4 ==> IsProduct(products[i, y], a, i, b, 3 - y)
  {
    products := new Words2[4, 4]((_, _) => Words2(0, 0));
    var y: int := 3;
    while y > -1
      invariant -1 <= y <= 3
      invariant forall i, z :: 0 <= i < 4 && y < z < 4 ==> IsProduct(products[i, z], a, i, b, 3 - z)
    {
      var x: int := 3;
      while x > -1
        invariant -1 <= x <= 3
        invariant forall i, z :: 0 <= i < 4 && y < z < 4 ==> IsProduct(products[i, z], a, i, b, 3 - z)
        invariant forall i :: 0 <= i < 3 - x ==> IsProduct(products[i, y], a, i, b, 3 - y)
      {
        var p := MulWords(top[x], bottom[y]);
        assert IsProduct(p, a, 3 - x, b, 3 - y);
        hide IsProduct;
        products[3 - x, y] := p;
        x := x - 1;
      }
      y := y - 1;
    }
  }

  /** Adds one word to a 128-bit column. */
  method AddWord(w: uint64, column: U128)
    modifies column
    ensures column.Value() == (w + old(column.Value())) % B128
  {
    var tmp := new U128(0, w);
    var tmp2 := new U128(0, 0);
    Add128(tmp, column, tmp2);
    Copy128(column, tmp2);
  }

  /** AddWord on a column with room left. */
  method AddWordExact(w: uint64, column: U128)
    requires column.Value() + w < B128
    modifies column
    ensures column.Value() == old(column.Value()) + w
  {
    ghost var sum := w + column.Value();
    assert sum % B128 == sum;
    AddWord(w, column);
  }

  /** The four columns of mul256. Each adds up at most seven words in 128 bits. */
  method Accumulate256(products: array2<Words2>) returns (fourth64: U128, third64: U128, second64: U128, first64: U128)
    requires products.Length0 == 4 && products.Length1 == 4
    ensures fresh(fourth64) && fresh(third64) && fresh(second64) && fresh(first64)
    ensures fourth64.Value() == products[0, 3].lower
    ensures third64.Value() == products[0, 2].lower + products[0, 3].upper + products[1, 3].lower
    ensures second64.Value() ==
            products[0, 1].lower + products[0, 2].upper + products[1, 2].lower + products[1, 3].upper
            + products[2, 3].lower
    ensures first64.Value() ==
            products[0, 0].lower + products[0, 1].upper + products[1, 1].lower + products[1, 2].upper
            + products[2, 2].lower + products[2, 3].upper + products[3, 3].lower
  {
    hide Join, U128.Value;
    fourth64 := new U128(0, products[0, 3].lower);
    third64 := new U128(0, products[0, 2].lower);
    second64 := new U128(0, products[0, 1].lower);
    first64 := new U128(0, products[0, 0].lower);
    AddWordExact(products[0, 3].upper, third64);
    AddWordExact(products[0, 2].upper, second64);
    AddWordExact(products[0, 1].upper, first64);

    AddWordExact(products[1, 3].lower, third64);
    AddWordExact(products[1, 2].lower, second64);
    AddWordExact(products[1, 3].upper, second64);
    AddWordExact(products[1, 1].lower, first64);
    AddWordExact(products[1, 2].upper, first64);

    AddWordExact(products[2, 3].lower, second64);
    AddWordExact(products[2, 2].lower, first64);
    AddWordExact(products[2, 3].upper, first64);

    AddWordExact(products[3, 3].lower, first64);
  }

  /** The value mul256 makes of its columns: the carry of the third column goes to 2^192, not to 2^128. */
  function Misplaced(c: Limbs): nat {
    var carry := c.l1 / 0x1_0000_0000_0000_0000;
    c.Value64() + carry * (0x1_0000_0000_0000_0000_0000_0000_0000_0000_0000_0000_0000_0000
                           - 0x1_0000_0000_0000_0000_0000_0000_0000_0000)
  }

  lemma ModAdd256(n: nat, x: nat)
    ensures (n + x % B256) % B256 == (n + x) % B256
  {
    assert x == x % B256 + (x / B256) * B256;
    ModDrop(n + x % B256, x / B256, B256);
  }

  lemma ShlWord(c: nat)
    ensures Shl(c, 64, B128) == (c * 0x1_0000_0000_0000_0000) % B128
  {
    hide Pow2;
    Pow2Words();
  }

  lemma TopColumn(c: nat)
    requires c < B128
    ensures Join(B128, Shl(c, 64, B128), 0) % B256 ==
            (c * 0x1_0000_0000_0000_0000_0000_0000_0000_0000_0000_0000_0000_0000) % B256
  {
    ShlWord(c);
    var q := (c * 0x1_0000_0000_0000_0000) / 0x1_0000_0000_0000_0000_0000_0000_0000_0000;
    hide Shl;
    var t := Join(B128, Shl(c, 64, B128), 0);
    assert c * 0x1_0000_0000_0000_0000_0000_0000_0000_0000_0000_0000_0000_0000 ==
           t + q * 0x1_0000_0000_0000_0000_0000_0000_0000_0000_0000_0000_0000_0000_0000_0000_0000_0000;
    ModDrop(t, q, B256);
  }

  lemma CarryColumn(upper: uint64, lower: uint64)
    ensures Shl(Join(B64, upper, lower), 64, B128) == lower * 0x1_0000_0000_0000_0000
    ensures Join(B64, upper, lower) / 0x1_0000_0000_0000_0000 == upper
  {
    hide Shl;
    var c := Join(B64, upper, lower);
    ShlWord(c);
    DivModUnique(c * 0x1_0000_0000_0000_0000, 0x1_0000_0000_0000_0000_0000_0000_0000_0000, upper,
                 lower * 0x1_0000_0000_0000_0000);
  }

  lemma CarryPlaced(upper: uint64, low: nat)
    ensures Join(B128, Join(B64, upper, 0), low) ==
            upper * 0x1_0000_0000_0000_0000_0000_0000_0000_0000_0000_0000_0000_0000 + low
  {
  }

  lemma MisplacedIs(c: Limbs, upper: uint64, lower: uint64)
    requires c.l1 == Join(B64, upper, lower)
    ensures Misplaced(c) ==
            c.l0 + lower * 0x1_0000_0000_0000_0000 + c.l2 * 0x1_0000_0000_0000_0000_0000_0000_0000_0000
            + upper * 0x1_0000_0000_0000_0000_0000_0000_0000_0000_0000_0000_0000_0000
            + c.l3 * 0x1_0000_0000_0000_0000_0000_0000_0000_0000_0000_0000_0000_0000
  {
    CarryColumn(upper, lower);
  }

  lemma Assemble256(c: Limbs, upper: uint64, lower: uint64, t1: nat, t2: nat)
    requires c.l1 == Join(B64, upper, lower) && c.l3 < B128
    requires t1 == Join(B128, Shl(c.l3, 64, B128), 0)
    requires t2 == Join(B128, Join(B64, upper, 0), Shl(c.l1, 64, B128))
    ensures (c.l0 + (Join(B128, c.l2, 0) + (t1 + t2) % B256) % B256) % B256 == Misplaced(c) % B256
  {
    hide Shl, Join, Misplaced;
    TopColumn(c.l3);
    CarryColumn(upper, lower);
    CarryPlaced(upper, Shl(c.l1, 64, B128));
    JoinIs(B128, c.l2, 0);
    MisplacedIs(c, upper, lower);
    var x2 := c.l2 * 0x1_0000_0000_0000_0000_0000_0000_0000_0000;
    var x3 := c.l3 * 0x1_0000_0000_0000_0000_0000_0000_0000_0000_0000_0000_0000_0000;
    AssembleMod256(c.l0, x2, t2, t1, x3);
  }

  lemma AssembleMod256(x0: nat, x2: nat, t2: nat, t1: nat, x3: nat)
    requires t1 % B256 == x3 % B256
    ensures (x0 + (x2 + (t1 + t2) % B256) % B256) % B256 == (x0 + t2 + x2 + x3) % B256
  {
    ModAdd256(x2, t1 + t2);
    ModAdd256(x0, x2 + (t1 + t2));
    ModAdd256(x0 + t2 + x2, t1);
    ModAdd256(x0 + t2 + x2, x3);
  }

  /** The first and the third column go to their places and are added. The carry of the third column
      goes to the topmost word. */
  method PlaceOuter(third64: U128, first64: U128, target: U256)
    requires target.Valid() && {third64, first64} !! target.Repr()
    modifies target.Repr()
    ensures target.Value() ==
            (Join(B128, Shl(first64.Value(), 64, B128), 0)
             + Join(B128, Join(B64, third64.upper, 0), Shl(third64.Value(), 64, B128))) % B256
  {
    hide Join, Shl, U128.Value, U256.Value;
    var target1 := new U256();
    var target2 := new U256();
    ShiftToUpper(first64, target1);
    SpreadThird(third64, target2);
    Add256(target1, target2, target);
  }

  /** A column at 2^192. */
  method ShiftToUpper(column: U128, target: U256)
    requires target.Valid() && column !in target.Repr()
    modifies target.Repr()
    ensures target.Value() == Join(B128, Shl(column.Value(), 64, B128), 0)
  {
    hide Join, Shl;
    Clear256(target);
    ClearIsZero();
    Shiftl128(column, 64, target.upper);
  }

  lemma ClearIsZero()
    ensures Join(B64, 0, 0) == 0
  {
  }

  /** The third column: its upper word at 2^192, its lower word at 2^64. */
  method SpreadThird(third64: U128, target: U256)
    requires target.Valid() && third64 !in target.Repr()
    modifies target.Repr()
    ensures target.Value() == Join(B128, Join(B64, third64.upper, 0), Shl(third64.Value(), 64, B128))
  {
    hide Join, Shl;
    Clear256(target);
    target.upper.upper := third64.upper;
    Shiftl128(third64, 64, target.lower);
  }

  method ClearToUpper(target: U256, half: U128)
    requires target.Valid() && half !in target.Repr()
    modifies target.Repr()
    ensures target.Value() == Join(B128, half.Value(), 0)
  {
    Clear256(target);
    Copy128(target.upper, half);
  }

  method ClearToLower(target: U256, half: U128)
    requires target.Valid() && half !in target.Repr()
    modifies target.Repr()
    ensures target.Value() == half.Value()
  {
    Clear256(target);
    Copy128(target.lower, half);
    JoinSmall(B128, half.Value());
  }

  /** Then the second and the fourth. */
  method PlaceInner(fourth64: U128, second64: U128, target: U256)
    requires target.Valid() && {fourth64, second64} !! target.Repr()
    modifies target.Repr()
    ensures target.Value() ==
            (fourth64.Value() + (Join(B128, second64.Value(), 0) + old(target.Value())) % B256) % B256
  {
    hide Join, U128.Value, U256.Value;
    var target1 := new U256();
    var target2 := new U256();
    ClearToUpper(target1, second64);
    Add256(target1, target, target2);
    ClearToLower(target1, fourth64);
    Add256(target1, target2, target);
  }

  /** The columns of mul256, added up in 256 bits. */
  method Join256(fourth64: U128, third64: U128, second64: U128, first64: U128, target: U256)
    requires target.Valid() && {fourth64, third64, second64, first64} !! target.Repr()
    modifies target.Repr()
    ensures target.Value() ==
            Misplaced(Limbs(fourth64.Value(), third64.Value(), second64.Value(), first64.Value())) % B256
  {
    hide Join, Shl, Misplaced, U256.Value;
    PlaceOuter(third64, first64, target);
    PlaceInner(fourth64, second64, target);
    Assemble256(Limbs(fourth64.Value(), third64.Value(), second64.Value(), first64.Value()),
                third64.upper, third64.lower,
                Join(B128, Shl(first64.Value(), 64, B128), 0),
                Join(B128, Join(B64, third64.upper, 0), Shl(third64.Value(), 64, B128)));
  }

  /** The 64-bit limbs of a number. */
  ghost function Limbs64(number: U256): (a: Limbs)
    reads number.upper, number.lower
    ensures a.Value64() == number.Value() && a.Below(0x1_0000_0000_0000_0000)
  {
    Limbs(number.lower.lower, number.lower.upper, number.upper.lower, number.upper.upper)
  }

  /** The carry out of the third column: whether lo(a0*b1) + hi(a0*b0) + lo(a1*b0) fits a word. */
  function ThirdCarry(a: Limbs, b: Limbs): (c: nat)
    ensures a.Below(0x1_0000_0000_0000_0000) && b.Below(0x1_0000_0000_0000_0000) ==> c <= 2
  {
    HalvesBelow(a.l0, b.l0);
    (Lo64(a.l0 * b.l1) + Hi64(a.l0 * b.l0) + Lo64(a.l1 * b.l0)) / 0x1_0000_0000_0000_0000
  }

  const MISPLACED: nat := 0x1_0000_0000_0000_0000_0000_0000_0000_0000_0000_0000_0000_0000
                          - 0x1_0000_0000_0000_0000_0000_0000_0000_0000

  /** The third column carries as ThirdCarry says. */
  lemma ThirdColumnCarries(a: Limbs, b: Limbs)
    ensures Misplaced(Columns64(a, b)) == Columns64(a, b).Value64() + ThirdCarry(a, b) * MISPLACED
  {
    assert Columns64(a, b).l1 / 0x1_0000_0000_0000_0000 == ThirdCarry(a, b);
  }

  /** What was dropped at 2^256 does not matter. */
  lemma MisplacedProduct(misplaced: nat, columns: nat, carry: nat, product: nat, dropped: nat)
    requires misplaced == columns + carry * MISPLACED && product == columns + dropped * B256
    ensures misplaced % B256 == (product + carry * MISPLACED) % B256
  {
    ModDrop(misplaced, dropped, B256);
  }

  /** mul256, with its misplaced carry: the product modulo 2^256, off by c * (2^192 - 2^128). */
  method Mul256(number1: U256, number2: U256, target: U256)
    requires number1.Valid() && number2.Valid() && target.Valid()
    modifies target.Repr()
    ensures target.Value() ==
            (old(number1.Value()) * old(number2.Value())
             + ThirdCarry(old(Limbs64(number1)), old(Limbs64(number2))) * (
                 0x1_0000_0000_0000_0000_0000_0000_0000_0000_0000_0000_0000_0000
                 - 0x1_0000_0000_0000_0000_0000_0000_0000_0000)) % B256
  {
    hide Columns64, Dropped64, Misplaced, ThirdCarry, Limbs.Value64, U256.Value, U128.Value;
    ghost var a, b := Limbs64(number1), Limbs64(number2);
    var top := new uint64[4] [number1.upper.upper, number1.upper.lower, number1.lower.upper, number1.lower.lower];
    var bottom := new uint64[4] [number2.upper.upper, number2.upper.lower, number2.lower.upper, number2.lower.lower];
    MulInto(top, bottom, target, a, b);
    ThirdColumnCarries(a, b);
    Schoolbook64(a, b);
    MisplacedProduct(Misplaced(Columns64(a, b)), Columns64(a, b).Value64(), ThirdCarry(a, b),
                     a.Value64() * b.Value64(), Dropped64(a, b));
  }

  method MulInto(top: array<uint64>, bottom: array<uint64>, target: U256, ghost a: Limbs, ghost b: Limbs)
    requires target.Valid() && HoldsLimbs(top, a) && HoldsLimbs(bottom, b)
    modifies target.Repr()
    ensures target.Value() == Misplaced(Columns64(a, b)) % B256
  {
    hide Join, Misplaced, U128.Value, U256.Value;
    var products := FillProducts256(top, bottom, a, b);
    var fourth64, third64, second64, first64 := Accumulate256(products);
    assert IsProduct(products[0, 3], a, 0, b, 0) && IsProduct(products[0, 2], a, 0, b, 1);
    assert IsProduct(products[0, 1], a, 0, b, 2) && IsProduct(products[0, 0], a, 0, b, 3);
    assert IsProduct(products[1, 3], a, 1, b, 0) && IsProduct(products[1, 2], a, 1, b, 1);
    assert IsProduct(products[1, 1], a, 1, b, 2) && IsProduct(products[2, 3], a, 2, b, 0);
    assert IsProduct(products[2, 2], a, 2, b, 1) && IsProduct(products[3, 3], a, 3, b, 0);
    assert Limbs(fourth64.Value(), third64.Value(), second64.Value(), first64.Value()) == Columns64(a, b) by {
      hide Lo64, Hi64;
    }
    Join256(fourth64, third64, second64, first64, target);
  }

  // ---------------------------------------------------------------- when the product is right

  /** mul256 gives the product of its operands modulo 2^256 exactly when the third column does not carry. */
  lemma MulExactIff(a: Limbs, b: Limbs)
    requires a.Below(0x1_0000_0000_0000_0000) && b.Below(0x1_0000_0000_0000_0000)
    ensures (a.Value64() * b.Value64() + ThirdCarry(a, b) * MISPLACED) % B256 == (a.Value64() * b.Value64()) % B256
       <==> ThirdCarry(a, b) == 0
  {
    hide ThirdCarry, Limbs.Value64, Limbs.Below;
    CarryMatters(a.Value64() * b.Value64(), ThirdCarry(a, b));
  }

  lemma CarryMatters(n: nat, c: nat)
    requires c <= 2
    ensures (n + c * MISPLACED) % B256 == n % B256 <==> c == 0
  {
    var d := c * MISPLACED;
    var r := n % B256;
    assert n == r + (n / B256) * B256;
    ModDrop(r + d, n / B256, B256);
    assert d < 0x1_0000_0000_0000_0000_0000_0000_0000_0000_0000_0000_0000_0000_0000_0000_0000_0000;
  }

  /** Numbers of one word, as the wallet multiplies, never carry there: the product is exact. */
  lemma OneWordFactorsExact(a: Limbs, b: Limbs)
    requires a.Below(0x1_0000_0000_0000_0000) && b.Below(0x1_0000_0000_0000_0000)
    requires a.l1 == a.l2 == a.l3 == 0 && b.l1 == b.l2 == b.l3 == 0
    ensures ThirdCarry(a, b) == 0
    ensures (a.Value64() * b.Value64() + ThirdCarry(a, b) * MISPLACED) % B256 == a.l0 * b.l0
  {
    HalvesBelow(a.l0, b.l0);
    ProductBelow(a.l0, b.l0, 0x1_0000_0000_0000_0000);
    assert a.l0 * b.l1 == 0 && a.l1 * b.l0 == 0;
    assert a.l0 * b.l0 < 0x1_0000_0000_0000_0000_0000_0000_0000_0000;
  }

  /** The misplaced carry is real: (2^64 + 1) * (2^128 - 1) loses its bit 128 and gains bit 192. */
  lemma MulGoesWrong()
    ensures var a := Limbs(1, 1, 0, 0);
            var b := Limbs(0xffff_ffff_ffff_ffff, 0xffff_ffff_ffff_ffff, 0, 0);
            ThirdCarry(a, b) == 1 &&
            (a.Value64() * b.Value64() + ThirdCarry(a, b) * MISPLACED) % B256 != (a.Value64() * b.Value64()) % B256
  {
    var a := Limbs(1, 1, 0, 0);
    var b := Limbs(0xffff_ffff_ffff_ffff, 0xffff_ffff_ffff_ffff, 0, 0);
    MulExactIff(a, b);
  }
}
