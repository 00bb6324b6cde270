/** Powers of 64-bit integers (helpers/math.c). */
module IntMath {
  import opened Words

  lemma ModMul(x: nat, y: nat, M: nat)
    requires M > 0
    ensures ((x % M) * (y % M)) % M == (x * y) % M
  {
    ModMulLeft(x, y % M, M);
    MulSwap(x, y % M);
    ModMulLeft(y, x, M);
    MulSwap(y, x);
  }

  lemma ModMulLeft(x: nat, y: nat, M: nat)
    requires M > 0
    ensures ((x % M) * y) % M == (x * y) % M
  {
    var p, a := x / M, x % M;
    assert x == a + p * M;
    MulDistributes(a, p * M, y);
    MulAssoc(p, M, y);
    MulSwap(M, y);
    MulAssoc(p, y, M);
    ModDrop(a * y, p * y, M);
  }

  lemma {:induction false} PowOfSquare(b: nat, k: nat)
    ensures Pow(b * b, k) == Pow(b, 2 * k)
  {
    hide Pow;
    if k == 0 {
      PowNone(b * b);
      PowNone(b);
    } else {
      PowOfSquare(b, k - 1);
      PowStep(b * b, k);
      PowStep(b, 2 * k);
      PowStep(b, 2 * k - 1);
      assert 2 * k - 1 - 1 == 2 * (k - 1);
      MulAssoc(b, b, Pow(b, 2 * (k - 1)));
    }
  }

  /** One round of square and multiply: r * b^e with the lowest bit of e moved into r. */
  lemma {:induction false} PowHalved(r: nat, b: nat, e: nat)
    ensures r * Pow(b, e) == (if e % 2 == 1 then r * b else r) * Pow(b * b, e / 2)
  {
    hide Pow;
    PowOfSquare(b, e / 2);
    if e % 2 == 1 {
      assert e - 1 == 2 * (e / 2);
      PowStep(b, e);
      MulAssoc(r, b, Pow(b, e - 1));
    }
  }

  /** A product of uint64_t. */
  function Times64(x: uint64, y: uint64): uint64 {
    (x as nat * y as nat) % 0x1_0000_0000_0000_0000
  }

  lemma Times64OfRests(X: nat, Y: nat)
    ensures Times64(X % 0x1_0000_0000_0000_0000, Y % 0x1_0000_0000_0000_0000) == (X * Y) % 0x1_0000_0000_0000_0000
  {
    ModMul(X, Y, 0x1_0000_0000_0000_0000);
  }

  /** ipow: square and multiply, every product cut to 64 bits. The ghosts keep the products uncut. */
  method IPow(base: uint64, exp: byte) returns (result: uint64)
    ensures result == Pow(base, exp) % 0x1_0000_0000_0000_0000
  {
    hide Pow, Times64;
    var b: uint64, e: byte := base, exp;
    ghost var B: nat, R: nat := base, 1;
    result := 1;
    while true
      invariant result == R % 0x1_0000_0000_0000_0000 && b == B % 0x1_0000_0000_0000_0000
      invariant R * Pow(B, e) == Pow(base, exp)
      decreases e
    {
      PowHalved(R, B, e);
      if e % 2 == 1 {
        Times64OfRests(R, B);
        R := R * B;
        result := Times64(result, b);
      }
      e := e / 2;
      if e == 0 {
        break;
      }
      Times64OfRests(B, B);
      B := B * B;
      b := Times64(b, b);
    }
    PowNone(B * B);
  }

  /** The powers of ten that fit 64 bits are the first twenty. */
  lemma {:induction false} PowTenFits(d: nat)
    ensures Pow(10, d) < 0x1_0000_0000_0000_0000 <==> d <= 19
  {
    if d <= 19 {
      PowTenUpTo(d, 19);
      PowTenNineteen();
    } else {
      PowTenUpTo(20, d);
      PowTenNineteen();
    }
  }

  lemma {:induction false} PowTenUpTo(m: nat, n: nat)
    requires m <= n
    ensures Pow(10, m) <= Pow(10, n)
    decreases n
  {
    if m < n {
      PowTenUpTo(m, n - 1);
    }
  }

  lemma PowTenNineteen()
    ensures Pow(10, 19) == 10_000_000_000_000_000_000 && Pow(10, 20) == 100_000_000_000_000_000_000
  {
    assert Pow(10, 4) == 10_000;
    assert Pow(10, 8) == 100_000_000;
    assert Pow(10, 12) == 1_000_000_000_000;
    assert Pow(10, 16) == 10_000_000_000_000_000;
    assert Pow(10, 19) == 10_000_000_000_000_000_000;
  }

  lemma {:induction false} TenIsTwoFives(d: nat)
    ensures Pow(10, d) == Pow(5, d) * Pow2(d) && Pow(5, d) % 2 == 1
  {
    hide Pow, Pow2;
    if d == 0 {
      PowNone(10);
      PowNone(5);
    } else {
      TenIsTwoFives(d - 1);
      PowStep(10, d);
      PowStep(5, d);
      FiveTimesTwo(Pow(5, d - 1), Pow2(d - 1), Pow(5, d), Pow2(d), Pow(10, d));
    }
  }

  lemma FiveTimesTwo(f: nat, t: nat, F: nat, T: nat, N: nat)
    requires F == 5 * f && T == 2 * t && N == 10 * (f * t) && f % 2 == 1
    ensures N == F * T && F % 2 == 1
  {
  }

  lemma CancelFactor(a: nat, b: nat, t: nat)
    requires t > 0 && a * t == b * t
    ensures a == b
  {
    if a < b {
      MulMonotonic(a + 1, b, t);
      MulDistributes(a, 1, t);
    } else if b < a {
      MulMonotonic(b + 1, a, t);
      MulDistributes(b, 1, t);
    }
  }

  lemma EvenMultiple(k: nat, n: nat)
    requires n > 0
    ensures (k * Pow2(n)) % 2 == 0
  {
    MulSwap(k, 2 * Pow2(n - 1));
    MulAssoc(2, Pow2(n - 1), k);
  }

  /** In 64 bits a power of ten vanishes exactly from 10^64 on. */
  lemma PowTenVanishesIff(d: nat)
    ensures Pow(10, d) % 0x1_0000_0000_0000_0000 == 0 <==> d >= 64
  {
    hide Pow, Pow2;
    Pow2Words();
    TenIsTwoFives(d);
    var f := Pow(5, d);
    if d >= 64 {
      Pow2Add(d - 64, 64);
      MulAssoc(f, Pow2(d - 64), Pow2(64));
      ModDrop(0, f * Pow2(d - 64), Pow2(64));
    } else if Pow(10, d) % 0x1_0000_0000_0000_0000 == 0 {
      var k := Pow(10, d) / 0x1_0000_0000_0000_0000;
      Pow2Add(64 - d, d);
      MulAssoc(k, Pow2(64 - d), Pow2(d));
      CancelFactor(f, k * Pow2(64 - d), Pow2(d));
      EvenMultiple(k, 64 - d);
    }
  }
}
