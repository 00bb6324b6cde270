/** Facts about natural numbers cut into machine words. */
module Words {

  const B32: nat := 0x1_0000_0000
  const B64: nat := 0x1_0000_0000_0000_0000
  const B128: nat := 0x1_0000_0000_0000_0000_0000_0000_0000_0000
  const B256: nat := 0x1_0000_0000_0000_0000_0000_0000_0000_0000_0000_0000_0000_0000_0000_0000_0000_0000

  /** uint8_t, uint32_t and uint64_t. */
  type byte = x: nat | x < 0x100
  type uint32 = x: nat | x < 0x1_0000_0000
  type uint64 = x: nat | x < 0x1_0000_0000_0000_0000

  function Pow(b: nat, n: nat): (p: nat)
    ensures b > 0 ==> p > 0
  {
    if n == 0 then 1 else
      MulPositive(b, Pow(b, n - 1));
      b * Pow(b, n - 1)
  }

  function Pow2(n: nat): (p: nat)
    ensures p > 0
  {
    if n == 0 then 1 else 2 * Pow2(n - 1)
  }

  lemma MulPositive(a: nat, b: nat)
    ensures a > 0 && b > 0 ==> a * b > 0
    ensures a * b >= 0
  {
  }

  lemma PowStep(b: nat, n: nat)
    requires n > 0
    ensures Pow(b, n) == b * Pow(b, n - 1) && Pow2(n) == 2 * Pow2(n - 1)
  {
  }

  lemma PowNone(b: nat)
    ensures Pow(b, 0) == 1 && Pow2(0) == 1
  {
  }

  lemma {:induction false} Pow2Add(m: nat, n: nat)
    ensures Pow2(m + n) == Pow2(m) * Pow2(n)
    decreases m
  {
    if m > 0 {
      Pow2Add(m - 1, n);
      assert m + n - 1 == (m - 1) + n;
    }
  }

  lemma Pow2Eight()
    ensures Pow2(8) == 0x100
  {
  }

  lemma Pow2Words()
    ensures Pow2(16) == 0x1_0000 && Pow2(32) == B32 && Pow2(64) == B64 && Pow2(128) == B128 && Pow2(256) == B256
  {
    hide Pow2;
    Pow2Eight();
    Pow2Add(8, 8);
    Pow2Add(16, 16);
    Pow2Add(32, 32);
    Pow2Add(64, 64);
    Pow2Add(128, 128);
  }

  lemma {:induction false} Pow2Monotonic(m: nat, n: nat)
    requires m <= n
    ensures Pow2(m) <= Pow2(n)
    decreases n - m
  {
    if m < n {
      Pow2Monotonic(m, n - 1);
    }
  }

  /** Quotient and remainder are the only numbers of their kind. */
  lemma DivModUnique(n: int, d: int, q: int, r: int)
    requires d > 0 && 0 <= r < d && n == q * d + r
    ensures n / d == q && n % d == r
  {
    var q', r' := n / d, n % d;
    assert n == q' * d + r';
    if q' < q {
      assert (q - q') * d == r' - r;
      MulAtLeast(q - q', d);
    } else if q < q' {
      assert (q' - q) * d == r - r';
      MulAtLeast(q' - q, d);
    }
  }

  lemma MulAtLeast(a: int, d: int)
    requires a >= 1 && d >= 0
    ensures a * d >= d
  {
  }

  lemma MulMonotonic(a: int, b: int, c: int)
    requires a <= b && 0 <= c
    ensures a * c <= b * c
  {
  }

  /** Leaving out multiples of the modulus. */
  lemma ModDrop(n: int, k: int, d: int)
    requires d > 0
    ensures (n + k * d) % d == n % d
  {
    var q, r := n / d, n % d;
    assert n + k * d == (q + k) * d + r;
    DivModUnique(n + k * d, d, q + k, r);
  }

  lemma MulSwap(x: int, y: int)
    ensures x * y == y * x
  {
  }

  lemma TimesTen(a: nat, p: nat)
    ensures a * (10 * p) == (a * p) * 10
  {
  }

  lemma MulAssoc(a: int, b: int, c: int)
    ensures (a * b) * c == a * (b * c)
  {
  }

  lemma MulDistributes(a: int, b: int, c: int)
    ensures (a + b) * c == a * c + b * c
  {
  }

  /** Multiplying by P, where P * Q = B: the part that leaves the word and the part that stays. */
  lemma SplitProduct(u: nat, P: nat, Q: nat, B: nat)
    requires P > 0 && Q > 0 && P * Q == B
    ensures (u * P) / B == u / Q && u * P == (u / Q) * B + (u * P) % B
    ensures (u * P) % B == (u % Q) * P && (u * P) % B + P <= B
  {
    var q, r := u / Q, u % Q;
    MulDistributes(q * Q, r, P);
    MulAssoc(q, Q, P);
    MulMonotonic(r + 1, Q, P);
    MulDistributes(r, 1, P);
    MulPositive(r, P);
    DivModUnique(u * P, B, q, r * P);
  }

  lemma ProductLeaves(u: nat, P: nat, Q: nat, B: nat)
    requires P > 0 && Q > 0 && P * Q == B
    ensures (u * P) / B == u / Q
  {
    SplitProduct(u, P, Q, B);
  }

  lemma ProductStays(u: nat, P: nat, Q: nat, B: nat)
    requires P > 0 && Q > 0 && P * Q == B
    ensures (u * P) % B + P <= B
  {
    SplitProduct(u, P, Q, B);
  }

  lemma QuotientBelow(l: nat, P: nat, Q: nat)
    requires P > 0 && l < P * Q
    ensures l / P < Q
  {
    if l / P >= Q {
      MulMonotonic(Q, l / P, P);
    }
  }

  lemma DivAddMultiple(z: nat, l: nat, P: nat)
    requires P > 0
    ensures (z * P + l) / P == z + l / P
  {
    MulDistributes(z, l / P, P);
    DivModUnique(z * P + l, P, z + l / P, l % P);
  }

  predicate IsWordBase(B: nat) {
    B == B64 || B == B128
  }

  function Square(B: nat): (r: nat)
    requires IsWordBase(B)
    ensures r > 0
  {
    if B == B64 then B128 else B256
  }

  /** The value of two words; B is the base of one. The bases are written out to keep this linear. */
  function Join(B: nat, u: nat, l: nat): (v: nat)
    requires IsWordBase(B)
  {
    if B == B64 then u * 0x1_0000_0000_0000_0000 + l
    else u * 0x1_0000_0000_0000_0000_0000_0000_0000_0000 + l
  }

  lemma JoinIs(B: nat, u: nat, l: nat)
    requires IsWordBase(B)
    ensures Join(B, u, l) == u * B + l
  {
  }

  lemma JoinProducts(B: nat, x: nat, y: nat)
    requires IsWordBase(B) && x % B + y / B < B
    ensures Join(B, x % B + y / B, y % B) == Join(B, x, y) % Square(B)
  {
    if B == B64 {
      JoinProducts64(x, y);
    } else {
      JoinProducts128(x, y);
    }
  }

  lemma JoinProducts64(x: nat, y: nat)
    requires x % B64 + y / B64 < B64
    ensures Join(B64, x % B64 + y / B64, y % B64) == Join(B64, x, y) % B128
  {
    var q := x / 0x1_0000_0000_0000_0000;
    assert Join(B64, x, y) == Join(B64, x % B64 + y / B64, y % B64) + q * 0x1_0000_0000_0000_0000_0000_0000_0000_0000;
    ModDrop(Join(B64, x % B64 + y / B64, y % B64), q, B128);
  }

  lemma JoinProducts128(x: nat, y: nat)
    requires x % B128 + y / B128 < B128
    ensures Join(B128, x % B128 + y / B128, y % B128) == Join(B128, x, y) % B256
  {
    var q := x / 0x1_0000_0000_0000_0000_0000_0000_0000_0000;
    assert Join(B128, x, y) == Join(B128, x % B128 + y / B128, y % B128)
           + q * 0x1_0000_0000_0000_0000_0000_0000_0000_0000_0000_0000_0000_0000_0000_0000_0000_0000;
    ModDrop(Join(B128, x % B128 + y / B128, y % B128), q, B256);
  }

  lemma JoinTimes(B: nat, P: nat, u: nat, l: nat)
    requires IsWordBase(B)
    ensures Join(B, u, l) * P == Join(B, u * P, l * P)
  {
    hide Join;
    JoinIs(B, u, l);
    JoinIs(B, u * P, l * P);
    MulDistributes(u * B, l, P);
    MulAssoc(u, B, P);
    MulAssoc(u, P, B);
  }

  /** Shifting two words to the left: P = 2^p and Q = 2^(w-p). */
  lemma ShiftLeftWords(B: nat, P: nat, Q: nat, u: nat, l: nat)
    requires IsWordBase(B) && P > 0 && Q > 0 && P * Q == B && l < B
    ensures (u * P) % B + l / Q < B
    ensures Join(B, (u * P) % B + l / Q, (l * P) % B) == (Join(B, u, l) * P) % Square(B)
  {
    hide Join, Square;
    ProductStays(u, P, Q, B);
    ProductLeaves(l, P, Q, B);
    QuotientBelow(l, Q, P);
    JoinProducts(B, u * P, l * P);
    JoinTimes(B, P, u, l);
  }

  lemma JoinDiv(B: nat, P: nat, u: nat, l: nat, z: nat)
    requires IsWordBase(B) && P > 0 && z * P == u * B
    ensures Join(B, u, l) / P == z + l / P
  {
    JoinIs(B, u, l);
    DivAddMultiple(z, l, P);
  }

  /** Shifting two words to the right. */
  lemma ShiftRightWords(B: nat, P: nat, Q: nat, u: nat, l: nat)
    requires IsWordBase(B) && P > 0 && Q > 0 && P * Q == B && l < B
    ensures (u * Q) % B + l / P < B
    ensures Join(B, u / P, (u * Q) % B + l / P) == Join(B, u, l) / P
  {
    hide Join;
    assert Q * P == B;
    var z := u * Q;
    assert z * P == u * B by { MulAssoc(u, Q, P); }
    SplitProduct(u, Q, P, B);
    QuotientBelow(l, P, Q);
    JoinDiv(B, P, u, l, z);
    JoinIs(B, u / P, z % B + l / P);
  }

  /** Adding two words to two words with a carry that is found by comparing. */
  lemma AddWords64(u: nat, l: nat, u': nat, l': nat)
    requires u < B64 && l < B64 && u' < B64 && l' < B64
    ensures var low := (l + l') % B64;
            Join(B64, (u + u' + if low < l then 1 else 0) % B64, low) == (Join(B64, u, l) + Join(B64, u', l')) % B128
  {
    var c := if l + l' < B64 then 0 else 1;
    assert (l + l') % B64 == l + l' - c * B64;
    var h := u + u' + c;
    var q := if h < B64 then 0 else 1;
    assert h % B64 == h - q * B64;
  }

  lemma AddWords128(u: nat, l: nat, u': nat, l': nat)
    requires u < B128 && l < B128 && u' < B128 && l' < B128
    ensures var low := (l + l') % B128;
            Join(B128, (u + u' + if low < l then 1 else 0) % B128, low) ==
            (Join(B128, u, l) + Join(B128, u', l')) % B256
  {
    var c := if l + l' < B128 then 0 else 1;
    assert (l + l') % B128 == l + l' - c * B128;
    var h := u + u' + c;
    var q := if h < B128 then 0 else 1;
    assert h % B128 == h - q * B128;
  }

  /** Subtracting with a borrow that is found by comparing. */
  lemma MinusWords64(u: nat, l: nat, u': nat, l': nat)
    requires u < B64 && l < B64 && u' < B64 && l' < B64
    ensures var low := (l - l') % B64;
            Join(B64, (u - u' - if low > l then 1 else 0) % B64, low) == (Join(B64, u, l) - Join(B64, u', l')) % B128
  {
    var c := if l >= l' then 0 else 1;
    assert (l - l') % B64 == l - l' + c * B64;
    var h := u - u' - c;
    var q := if h >= 0 then 0 else 1;
    assert h % B64 == h + q * B64;
  }

  lemma MinusWords128(u: nat, l: nat, u': nat, l': nat)
    requires u < B128 && l < B128 && u' < B128 && l' < B128
    ensures var low := (l - l') % B128;
            Join(B128, (u - u' - if low > l then 1 else 0) % B128, low) ==
            (Join(B128, u, l) - Join(B128, u', l')) % B256
  {
    var c := if l >= l' then 0 else 1;
    assert (l - l') % B128 == l - l' + c * B128;
    var h := u - u' - c;
    var q := if h >= 0 then 0 else 1;
    assert h % B128 == h + q * B128;
  }

  /** Comparing word by word is comparing. */
  lemma CompareWords(B: nat, u: nat, l: nat, u': nat, l': nat)
    requires IsWordBase(B) && l < B && l' < B
    ensures Join(B, u, l) > Join(B, u', l') <==> u > u' || (u == u' && l > l')
    ensures Join(B, u, l) == Join(B, u', l') <==> u == u' && l == l'
  {
  }

  // ---------------------------------------------------------------- bitwise or

  /** The bitwise or of two numbers of any width. */
  function Or(a: nat, b: nat): (r: nat)
    decreases a + b
  {
    if a == 0 && b == 0 then 0
    else 2 * Or(a / 2, b / 2) + if a % 2 == 1 || b % 2 == 1 then 1 else 0
  }

  lemma {:induction false} OrZero(a: nat)
    ensures Or(a, 0) == a == Or(0, a)
    decreases a
  {
    if a > 0 {
      OrZero(a / 2);
    }
  }

  lemma {:induction false} OrBelow(a: nat, b: nat, n: nat)
    requires a < Pow2(n) && b < Pow2(n)
    ensures Or(a, b) < Pow2(n)
    decreases n
  {
    if n > 0 {
      OrBelow(a / 2, b / 2, n - 1);
    }
  }

  /** Or of numbers without a common bit is their sum: a is a multiple of 2^n and b is below it. */
  lemma {:induction false} OrIsSum(a: nat, b: nat, n: nat)
    requires b < Pow2(n) && a % Pow2(n) == 0
    ensures Or(a, b) == a + b
    decreases n
  {
    if n == 0 {
      OrZero(a);
    } else {
      var q := a / Pow2(n);
      assert a == q * Pow2(n) == 2 * (q * Pow2(n - 1));
      DivModUnique(a / 2, Pow2(n - 1), q, 0);
      OrIsSum(a / 2, b / 2, n - 1);
    }
  }

  lemma HalfOfJoin(P: nat, u: nat, l: nat)
    requires P > 0
    ensures (u * (2 * P) + l) / 2 == u * P + l / 2
    ensures (u * (2 * P) + l) % 2 == l % 2
  {
    assert u * (2 * P) == 2 * (u * P);
  }

  /** Word by word, or works on each word alone: w is the width of a word. */
  lemma {:induction false} OrWords(w: nat, u: nat, l: nat, u': nat, l': nat)
    requires l < Pow2(w) && l' < Pow2(w)
    ensures Or(u * Pow2(w) + l, u' * Pow2(w) + l') == Or(u, u') * Pow2(w) + Or(l, l')
    decreases w
  {
    if w == 0 {
    } else {
      var P := Pow2(w - 1);
      OrWords(w - 1, u, l / 2, u', l' / 2);
      OrWordsStep(P, u, l, u', l');
    }
  }

  lemma OrWordsStep(P: nat, u: nat, l: nat, u': nat, l': nat)
    requires P > 0 && Or(u * P + l / 2, u' * P + l' / 2) == Or(u, u') * P + Or(l / 2, l' / 2)
    ensures Or(u * (2 * P) + l, u' * (2 * P) + l') == Or(u, u') * (2 * P) + Or(l, l')
  {
    hide Or;
    HalfOfJoin(P, u, l);
    HalfOfJoin(P, u', l');
    HalfOfJoin(P, Or(u, u'), Or(l, l'));
    OrHalf(u * (2 * P) + l, u' * (2 * P) + l');
    OrHalf(l, l');
  }

  lemma OrHalf(a: nat, b: nat)
    ensures Or(a, b) / 2 == Or(a / 2, b / 2)
    ensures Or(a, b) % 2 == if a % 2 == 1 || b % 2 == 1 then 1 else 0
  {
  }

  // ---------------------------------------------------------------- bit length

  /** The number of binary digits. */
  function BitLength(n: nat): (b: nat)
    ensures n < Pow2(b) && if n == 0 then b == 0 else b > 0 && Pow2(b - 1) <= n
  {
    if n == 0 then 0 else 1 + BitLength(n / 2)
  }

  lemma {:induction false} BitLengthShift(n: nat, k: nat)
    requires n > 0
    ensures BitLength(n * Pow2(k)) == BitLength(n) + k
    decreases k
  {
    hide Pow2, BitLength;
    if k == 0 {
      PowNone(2);
    } else {
      var P := Pow2(k - 1);
      PowStep(2, k);
      MulPositive(n, 2 * P);
      HalfOfJoin(P, n, 0);
      BitLengthShift(n, k - 1);
      BitLengthStep(n * (2 * P));
    }
  }

  /** The bit length of a two-word number with a nonzero upper word. */
  lemma {:induction false} BitLengthWords(w: nat, u: nat, l: nat)
    requires u > 0 && l < Pow2(w)
    ensures BitLength(u * Pow2(w) + l) == w + BitLength(u)
    decreases w
  {
    hide Pow2, BitLength;
    if w == 0 {
      PowNone(2);
    } else {
      var P := Pow2(w - 1);
      PowStep(2, w);
      MulPositive(u, 2 * P);
      HalfOfJoin(P, u, l);
      BitLengthWords(w - 1, u, l / 2);
      BitLengthStep(u * (2 * P) + l);
    }
  }

  lemma BitLengthStep(n: nat)
    requires n > 0
    ensures BitLength(n) == 1 + BitLength(n / 2)
  {
  }
}
