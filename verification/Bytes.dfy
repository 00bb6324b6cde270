/** Byte strings as numbers, in both byte orders. */
module Bytes {
  import opened Words

  // ---------------------------------------------------------------- minimal big-endian form

  function BE(n: nat): (s: seq<byte>) {
    if n == 0 then [] else BE(n / 256) + [n % 256]
  }

  function FromBE(s: seq<byte>): nat {
    if s == [] then 0 else FromBE(s[..|s| - 1]) * 256 + s[|s| - 1]
  }

  lemma {:induction false} FromBEOfBE(n: nat)
    ensures FromBE(BE(n)) == n
  {
    if n > 0 {
      FromBEOfBE(n / 256);
      assert BE(n)[..|BE(n)| - 1] == BE(n / 256);
    }
  }

  predicate Minimal(s: seq<byte>) {
    s == [] || s[0] != 0
  }

  lemma {:induction false} BEIsMinimal(n: nat)
    ensures Minimal(BE(n)) && (n > 0 ==> BE(n) != [])
  {
    if n >= 256 {
      BEIsMinimal(n / 256);
    }
  }

  lemma {:induction false} MinimalIsPositive(s: seq<byte>)
    requires Minimal(s) && s != []
    ensures FromBE(s) > 0
  {
    if |s| > 1 {
      MinimalIsPositive(s[..|s| - 1]);
    }
  }

  /** The minimal form is the only one. */
  lemma {:induction false} BEOfFromBE(s: seq<byte>)
    requires Minimal(s)
    ensures BE(FromBE(s)) == s
  {
    if s != [] {
      var front := s[..|s| - 1];
      BEOfFromBE(front);
      MinimalIsPositive(s);
    }
  }

  lemma {:induction false} BELength(n: nat, k: nat)
    requires n < Pow(256, k)
    ensures |BE(n)| <= k
  {
    if k > 0 && n > 0 {
      assert Pow(256, k) == 256 * Pow(256, k - 1);
      BELength(n / 256, k - 1);
    }
  }

  lemma {:induction false} BELengthAtLeast(n: nat, k: nat)
    requires n >= Pow(256, k)
    ensures |BE(n)| > k
  {
    if k > 0 {
      assert Pow(256, k) == 256 * Pow(256, k - 1);
      BELengthAtLeast(n / 256, k - 1);
    }
  }

  // ---------------------------------------------------------------- fixed width

  /** The n low bytes of x, least significant first: how a little-endian host keeps x in memory. */
  function LE(x: nat, n: nat): (s: seq<byte>)
    ensures |s| == n
  {
    if n == 0 then [] else [x % 256] + LE(x / 256, n - 1)
  }

  function FromLE(s: seq<byte>): nat {
    if s == [] then 0 else s[0] + 256 * FromLE(s[1..])
  }

  /** The same bytes, most significant first. */
  function BEFixed(x: nat, n: nat): (s: seq<byte>)
    ensures |s| == n
  {
    if n == 0 then [] else BEFixed(x / 256, n - 1) + [x % 256]
  }

  lemma {:induction false} LEOfFromLE(s: seq<byte>)
    ensures LE(FromLE(s), |s|) == s
    ensures FromLE(s) < Pow(256, |s|)
  {
    if s != [] {
      LEOfFromLE(s[1..]);
      var r := FromLE(s[1..]);
      assert (s[0] + 256 * r) / 256 == r && (s[0] + 256 * r) % 256 == s[0];
      assert Pow(256, |s|) == 256 * Pow(256, |s| - 1);
    }
  }

  lemma {:induction false} FromLEOfLE(x: nat, n: nat)
    requires x < Pow(256, n)
    ensures FromLE(LE(x, n)) == x
  {
    if n > 0 {
      assert Pow(256, n) == 256 * Pow(256, n - 1);
      FromLEOfLE(x / 256, n - 1);
      assert LE(x, n)[1..] == LE(x / 256, n - 1);
    }
  }

  lemma {:induction false} FromBEOfBEFixed(x: nat, n: nat)
    requires x < Pow(256, n)
    ensures FromBE(BEFixed(x, n)) == x
  {
    if n > 0 {
      assert Pow(256, n) == 256 * Pow(256, n - 1);
      FromBEOfBEFixed(x / 256, n - 1);
      assert BEFixed(x, n)[..n - 1] == BEFixed(x / 256, n - 1);
    }
  }

  /** The value of an 8-byte word read in the other byte order: htobe64 on a little-endian host. */
  function ByteSwap64(x: uint64): (r: uint64)
    ensures LE(r, 8) == BEFixed(x, 8)
  {
    LEOfFromLE(BEFixed(x, 8));
    Pow256Words();
    FromLE(BEFixed(x, 8))
  }

  lemma Pow256Words()
    ensures Pow(256, 1) == 0x100 && Pow(256, 4) == 0x1_0000_0000 && Pow(256, 8) == 0x1_0000_0000_0000_0000
  {
    assert Pow(256, 2) == 0x1_0000;
    assert Pow(256, 3) == 0x100_0000;
    assert Pow(256, 4) == 0x1_0000_0000;
    assert Pow(256, 5) == 0x100_0000_0000;
    assert Pow(256, 6) == 0x1_0000_0000_0000;
    assert Pow(256, 7) == 0x100_0000_0000_0000;
  }

  /** Leading zero bytes. */
  function Zeros(n: nat): (s: seq<byte>)
    ensures |s| == n && forall i :: 0 <= i < n ==> s[i] == 0
  {
    if n == 0 then [] else Zeros(n - 1) + [0]
  }

  /** The fixed form is the minimal form behind zeros. */
  lemma {:induction false} BEFixedIsPadded(x: nat, n: nat)
    requires x < Pow(256, n)
    ensures |BE(x)| <= n && BEFixed(x, n) == Zeros(n - |BE(x)|) + BE(x)
  {
    BELength(x, n);
    if n > 0 {
      assert Pow(256, n) == 256 * Pow(256, n - 1);
      BEFixedIsPadded(x / 256, n - 1);
      if x == 0 {
        assert BEFixed(0, n) == Zeros(n - 1) + [0];
      } else {
        assert n - |BE(x)| == n - 1 - |BE(x / 256)|;
        assert BEFixed(x, n) == (Zeros(n - |BE(x)|) + BE(x / 256)) + [x % 256];
      }
    }
  }

  /** Dropping the low byte of a number drops the first byte of its memory. */
  lemma LETail(x: nat, n: nat)
    requires n > 0
    ensures LE(x, n)[0] == x % 256 && LE(x, n)[1..] == LE(x / 256, n - 1)
  {
  }

  lemma {:induction false} LEPrefix(x: nat, m: nat, n: nat)
    requires m <= n
    ensures LE(x, n)[..m] == LE(x, m)
  {
    if m > 0 {
      LEPrefix(x / 256, m - 1, n - 1);
      assert LE(x, n)[..m] == [x % 256] + LE(x / 256, n - 1)[..m - 1];
    }
  }

  // ---------------------------------------------------------------- concatenation

  lemma {:induction false} FromBEAppend(a: seq<byte>, b: seq<byte>)
    ensures FromBE(a + b) == FromBE(a) * Pow(256, |b|) + FromBE(b)
    decreases |b|
  {
    if b == [] {
      assert a + b == a;
    } else {
      var n := |b| - 1;
      assert (a + b)[..|a + b| - 1] == a + b[..n];
      FromBEAppend(a, b[..n]);
      MulAssoc(FromBE(a), Pow(256, n), 256);
    }
  }

  lemma FromBEPush(s: seq<byte>, b: byte)
    ensures FromBE(s + [b]) == FromBE(s) * 256 + b
  {
    assert (s + [b])[..|s|] == s;
  }

  lemma {:induction false} FromBEBelow(s: seq<byte>)
    ensures FromBE(s) < Pow(256, |s|)
  {
    if s != [] {
      FromBEBelow(s[..|s| - 1]);
    }
  }

  lemma {:induction false} FromBEZeros(n: nat)
    ensures FromBE(Zeros(n)) == 0
  {
    if n > 0 {
      FromBEZeros(n - 1);
      assert Zeros(n)[..n - 1] == Zeros(n - 1);
    }
  }

  lemma Pow256Sixteen()
    ensures Pow(256, 16) == B128 && Pow(256, 32) == B256
  {
    Pow256Words();
    hide Pow;
    Pow256Add(8, 8);
    Pow256Add(16, 16);
  }

  lemma {:induction false} Pow256Add(m: nat, n: nat)
    ensures Pow(256, m + n) == Pow(256, m) * Pow(256, n)
    decreases m
  {
    if m > 0 {
      Pow256Add(m - 1, n);
      assert m + n - 1 == (m - 1) + n;
      MulAssoc(256, Pow(256, m - 1), Pow(256, n));
    }
  }

  lemma {:induction false} BEFixedAppend(u: nat, m: nat, l: nat, n: nat)
    requires l < Pow(256, n)
    ensures BEFixed(u * Pow(256, n) + l, m + n) == BEFixed(u, m) + BEFixed(l, n)
    decreases n
  {
    if n > 0 {
      var P := Pow(256, n - 1);
      assert Pow(256, n) == 256 * P;
      MulAssoc(u, 256, P);
      MulAssoc(256, u, P);
      var x := u * Pow(256, n) + l;
      assert x == 256 * (u * P) + l;
      assert x / 256 == u * P + l / 256 && x % 256 == l % 256;
      BEFixedAppend(u, m, l / 256, n - 1);
      assert BEFixed(x, m + n) == (BEFixed(u, m) + BEFixed(l / 256, n - 1)) + [l % 256];
    }
  }

  lemma {:induction false} BEFixedOfFromBE(s: seq<byte>)
    ensures BEFixed(FromBE(s), |s|) == s
  {
    if s != [] {
      var front := s[..|s| - 1];
      BEFixedOfFromBE(front);
      assert FromBE(s) / 256 == FromBE(front) && FromBE(s) % 256 == s[|s| - 1];
    }
  }

  lemma {:induction false} FromLESnoc(s: seq<byte>, b: byte)
    ensures FromLE(s + [b]) == FromLE(s) + Pow(256, |s|) * b
  {
    if s == [] {
      assert s + [b] == [b];
    } else {
      assert (s + [b])[1..] == s[1..] + [b];
      FromLESnoc(s[1..], b);
      MulAssoc(256, Pow(256, |s| - 1), b);
    }
  }

  /** Reversing the bytes reverses what they mean. */
  lemma {:induction false} OtherOrder(x: nat, n: nat)
    ensures FromLE(BEFixed(x, n)) == FromBE(LE(x, n))
  {
    hide Pow;
    if n > 0 {
      OtherOrder(x / 256, n - 1);
      FromLESnoc(BEFixed(x / 256, n - 1), x % 256);
      FromBEAppend([x % 256], LE(x / 256, n - 1));
      OneByte(x % 256);
      MulSwap(x % 256, Pow(256, n - 1));
    }
  }

  lemma OneByte(b: byte)
    ensures FromBE([b]) == b
  {
    assert [b][..0] == [];
  }

  lemma ZerosSplit(m: nat, n: nat)
    ensures Zeros(m + n) == Zeros(m) + Zeros(n)
  {
  }

  lemma SmallWord(x: uint64)
    ensures BEFixed(x, 32) == Zeros(24) + BEFixed(x, 8)
  {
    hide BEFixed, Pow, Zeros;
    Pow256Words();
    BEFixedAppend(0, 24, x, 8);
    assert 0 * Pow(256, 8) + x == x by { MulSwap(0, Pow(256, 8)); }
    FixedZero(24);
  }

  lemma {:induction false} FixedZero(n: nat)
    ensures BEFixed(0, n) == Zeros(n)
  {
    if n > 0 {
      FixedZero(n - 1);
    }
  }

  lemma SmallBytes(x: byte, n: nat)
    requires n > 0
    ensures BEFixed(x, n) == Zeros(n - 1) + [x]
  {
    FixedZero(n - 1);
  }

  lemma {:induction false} SwappedWord(m: seq<byte>)
    requires |m| == 8
    ensures FromLE(m) < 0x1_0000_0000_0000_0000 && ByteSwap64(FromLE(m)) == FromBE(m)
  {
    hide FromLE, FromBE, LE, BEFixed, Pow;
    Pow256Words();
    LEOfFromLE(m);
    var x := FromLE(m);
    OtherOrder(x, 8);
    LEOfFromLE(BEFixed(x, 8));
    FromLEOfLE(ByteSwap64(x), 8);
  }

  // ---------------------------------------------------------------- writing

  /** s with t written over it at off. */
  function Overwrite(s: seq<byte>, off: nat, t: seq<byte>): (r: seq<byte>)
    requires off + |t| <= |s|
    ensures |r| == |s|
  {
    s[..off] + t + s[off + |t|..]
  }

  lemma OverwriteIs(s: seq<byte>, off: nat, t: seq<byte>)
    requires off + |t| <= |s|
    ensures Overwrite(s, off, t) == s[..off] + t + s[off + |t|..]
  {
  }

  lemma OverwriteNothing(s: seq<byte>, off: nat)
    requires off <= |s|
    ensures Overwrite(s, off, []) == s
  {
  }

  lemma OverwriteAgain(s: seq<byte>, off: nat, a: seq<byte>, b: seq<byte>)
    requires off + |a| <= |s| && |a| == |b|
    ensures Overwrite(Overwrite(s, off, a), off, b) == Overwrite(s, off, b)
  {
  }

  lemma OverwriteTwice(s: seq<byte>, off: nat, a: seq<byte>, b: seq<byte>)
    requires off + |a| + |b| <= |s|
    ensures Overwrite(Overwrite(s, off, a), off + |a|, b) == Overwrite(s, off, a + b)
  {
  }

  /** memcpy, memset, or an assignment through a pointer. */
  method CopyBytes(output: array<byte>, off: nat, input: seq<byte>)
    requires off + |input| <= output.Length
    modifies output
    ensures output[..] == Overwrite(old(output[..]), off, input)
  {
    var i := 0;
    while i < |input|
      invariant 0 <= i <= |input|
      invariant output[..off] == old(output[..off])
      invariant output[off..off + i] == input[..i]
      invariant output[off + i..] == old(output[off + i..])
    {
      output[off + i] := input[i];
      assert output[off..off + i + 1] == output[off..off + i] + [input[i]];
      i := i + 1;
    }
    assert output[..] == output[..off] + output[off..off + i] + output[off + i..];
  }
}
