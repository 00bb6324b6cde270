/** Recursive length prefix encoding: Appendix B of the Ethereum Yellow Paper as the specification,
    and the encoder of helpers/rlp_encoder.c. */
module Rlp {
  import opened Common
  import opened Words
  import opened Bytes
  import opened Uint256

  // ---------------------------------------------------------------- specification

  /** A length prefix: base + length for up to 55 bytes, else base + 55 + the length of the length. */
  function Prefix(base: byte, len: nat): seq<byte>
    requires base == 0x80 || base == 0xc0
    requires |BE(len)| <= 8
  {
    if len <= 55 then [base + len] else [base + 55 + |BE(len)|] + BE(len)
  }

  /** Lengths the format can express at all. */
  predicate Fits(len: nat) {
    |BE(len)| <= 8
  }

  /** The encoding of a byte string. */
  function Item(x: seq<byte>): seq<byte>
    requires Fits(|x|)
  {
    if |x| == 1 && x[0] < 0x80 then x else Prefix(0x80, |x|) + x
  }

  /** The encoding of a list, from the encodings of its items one after the other. */
  function List(payload: seq<byte>): seq<byte>
    requires Fits(|payload|)
  {
    Prefix(0xc0, |payload|) + payload
  }

  // ---------------------------------------------------------------- decoding

  datatype Split = Split(head: seq<byte>, rest: seq<byte>)

  /** Reads a length prefix; only the shortest prefix of a length is accepted. */
  function ReadPrefix(base: byte, bs: seq<byte>): (r: Option<(nat, seq<byte>)>)
    requires base == 0x80 || base == 0xc0
  {
    if bs == [] || bs[0] < base || bs[0] > base + 63 then None
    else if bs[0] <= base + 55 then Some((bs[0] - base, bs[1..]))
    else
      var k := bs[0] - base - 55;
      if |bs| < 1 + k || !Minimal(bs[1..1 + k]) || FromBE(bs[1..1 + k]) <= 55 then None
      else Some((FromBE(bs[1..1 + k]), bs[1 + k..]))
  }

  /** Reads one byte string off the front. */
  function ReadItem(bs: seq<byte>): (r: Option<Split>) {
    if bs == [] then None
    else if bs[0] < 0x80 then Some(Split(bs[..1], bs[1..]))
    else
      match ReadPrefix(0x80, bs)
      case None => None
      case Some((len, body)) =>
        if len > |body| || (len == 1 && body[0] < 0x80) then None
        else Some(Split(body[..len], body[len..]))
  }

  function ReadItems(bs: seq<byte>): (r: Option<seq<seq<byte>>>)
    decreases |bs|
  {
    if bs == [] then Some([])
    else
      match ReadItem(bs)
      case None => None
      case Some(Split(x, rest)) =>
        if |rest| >= |bs| then None
        else
          match ReadItems(rest)
          case None => None
          case Some(xs) => Some([x] + xs)
  }

  /** A list of byte strings that fills bs to its end. */
  function ReadList(bs: seq<byte>): (r: Option<seq<seq<byte>>>) {
    match ReadPrefix(0xc0, bs)
    case None => None
    case Some((len, body)) => if len != |body| then None else ReadItems(body)
  }

  lemma {:induction false} ReadPrefixInverts(base: byte, len: nat, rest: seq<byte>)
    requires (base == 0x80 || base == 0xc0) && Fits(len)
    ensures ReadPrefix(base, Prefix(base, len) + rest) == Some((len, rest))
  {
    hide BE, FromBE, Minimal;
    var bs := Prefix(base, len) + rest;
    if len <= 55 {
      assert bs[1..] == rest;
    } else {
      var k := |BE(len)|;
      BEIsMinimal(len);
      FromBEOfBE(len);
      assert bs[0] == base + 55 + k;
      assert bs[1..1 + k] == BE(len);
      assert bs[1 + k..] == rest;
    }
  }

  lemma {:induction false} ReadPrefixExact(base: byte, bs: seq<byte>)
    requires (base == 0x80 || base == 0xc0) && ReadPrefix(base, bs).Some?
    ensures var (len, body) := ReadPrefix(base, bs).value;
            Fits(len) && bs == Prefix(base, len) + body
  {
    hide BE, FromBE, Minimal;
    if bs[0] > base + 55 {
      LongPrefixExact(base, bs, bs[0] - base - 55);
    } else {
      SmallLength(bs[0] - base);
      assert bs == [bs[0]] + bs[1..];
    }
  }

  lemma LongPrefixExact(base: byte, bs: seq<byte>, k: nat)
    requires (base == 0x80 || base == 0xc0) && ReadPrefix(base, bs).Some? && bs[0] == base + 55 + k && k > 0
    ensures var (len, body) := ReadPrefix(base, bs).value;
            Fits(len) && bs == Prefix(base, len) + body
  {
    hide BE, FromBE, Minimal;
    BEOfFromBE(bs[1..1 + k]);
    assert bs == [bs[0]] + bs[1..1 + k] + bs[1 + k..];
  }

  lemma SmallLength(n: nat)
    requires n < 256
    ensures |BE(n)| <= 1 && (n > 0 ==> BE(n) == [n])
  {
    if n > 0 {
      assert BE(n / 256) == [];
    }
  }

  /** Appendix B, case by case: a byte below 128 stands for itself, up to 55 bytes follow 128 and their number, more
      follow 183 and the bytes of their number; lists likewise from 192 and 247. */
  lemma Forms(x: seq<byte>)
    requires Fits(|x|)
    ensures |x| == 1 && x[0] < 128 ==> Item(x) == x
    ensures |x| <= 55 && (|x| == 1 ==> x[0] >= 128) ==> Item(x) == [128 + |x|] + x
    ensures |x| > 55 ==> Item(x) == [183 + |BE(|x|)|] + BE(|x|) + x
    ensures List(x) == if |x| <= 55 then [192 + |x|] + x else [247 + |BE(|x|)|] + BE(|x|) + x
  {
    hide BE;
  }

  /** Items form a prefix code: reading an item off the front of any bytes gives the item back. */
  lemma ReadItemInverts(x: seq<byte>, rest: seq<byte>)
    requires Fits(|x|)
    ensures ReadItem(Item(x) + rest) == Some(Split(x, rest))
  {
    hide BE, FromBE, ReadPrefix;
    var bs := Item(x) + rest;
    if |x| == 1 && x[0] < 0x80 {
      assert bs[..1] == x && bs[1..] == rest;
    } else {
      assert bs == Prefix(0x80, |x|) + (x + rest);
      ReadPrefixInverts(0x80, |x|, x + rest);
      assert (x + rest)[..|x|] == x && (x + rest)[|x|..] == rest;
    }
  }

  /** And nothing but an item is read: the decoder accepts no second form of any string. */
  lemma ReadItemExact(bs: seq<byte>)
    requires ReadItem(bs).Some?
    ensures var Split(x, rest) := ReadItem(bs).value;
            Fits(|x|) && bs == Item(x) + rest
  {
    hide BE, FromBE, ReadPrefix, Prefix;
    if bs[0] < 0x80 {
      SmallLength(1);
      assert bs == bs[..1] + bs[1..];
    } else {
      ReadPrefixExact(0x80, bs);
      var (len, body) := ReadPrefix(0x80, bs).value;
      assert body == body[..len] + body[len..];
      assert Prefix(0x80, len) + body == (Prefix(0x80, len) + body[..len]) + body[len..];
    }
  }

  ghost predicate AllFit(xs: seq<seq<byte>>) {
    forall i :: 0 <= i < |xs| ==> Fits(|xs[i]|)
  }

  function Items(xs: seq<seq<byte>>): seq<byte>
    requires AllFit(xs)
  {
    if xs == [] then [] else Item(xs[0]) + Items(xs[1..])
  }

  lemma ItemNonEmpty(x: seq<byte>)
    requires Fits(|x|)
    ensures |Item(x)| > 0
  {
  }

  lemma {:induction false} ReadItemsInverts(xs: seq<seq<byte>>)
    requires AllFit(xs)
    ensures ReadItems(Items(xs)) == Some(xs)
  {
    hide BE, Item, ReadItem;
    if xs != [] {
      var rest := Items(xs[1..]);
      ReadItemInverts(xs[0], rest);
      ItemNonEmpty(xs[0]);
      ReadItemsInverts(xs[1..]);
      assert [xs[0]] + xs[1..] == xs;
    }
  }

  /** Decoding a list gives its items back. */
  lemma ReadListInverts(xs: seq<seq<byte>>)
    requires AllFit(xs) && Fits(|Items(xs)|)
    ensures ReadList(List(Items(xs))) == Some(xs)
  {
    ReadPrefixInverts(0xc0, |Items(xs)|, Items(xs));
    ReadItemsInverts(xs);
  }

  lemma {:induction false} ReadItemsExact(bs: seq<byte>)
    requires ReadItems(bs).Some?
    ensures var xs := ReadItems(bs).value;
            AllFit(xs) && Items(xs) == bs
    decreases |bs|
  {
    hide BE, Item, ReadItem;
    if bs != [] {
      var Split(x, rest) := ReadItem(bs).value;
      ReadItemExact(bs);
      ReadItemsExact(rest);
    }
  }

  /** A list is decoded only if it is the encoding of what is decoded. */
  lemma ReadListExact(bs: seq<byte>)
    requires ReadList(bs).Some?
    ensures var xs := ReadList(bs).value;
            AllFit(xs) && Fits(|Items(xs)|) && bs == List(Items(xs))
  {
    hide BE, ReadPrefix, Prefix;
    ReadPrefixExact(0xc0, bs);
    ReadItemsExact(ReadPrefix(0xc0, bs).value.1);
  }

  lemma {:induction false} ItemsAppend(xs: seq<seq<byte>>, ys: seq<seq<byte>>)
    requires AllFit(xs) && AllFit(ys)
    ensures AllFit(xs + ys) && Items(xs + ys) == Items(xs) + Items(ys)
  {
    hide BE, Item;
    if xs == [] {
      assert xs + ys == ys;
    } else {
      assert (xs + ys)[1..] == xs[1..] + ys;
      ItemsAppend(xs[1..], ys);
      assert Items(xs + ys) == Item(xs[0]) + (Items(xs[1..]) + Items(ys));
    }
  }

  // ---------------------------------------------------------------- lengths

  /** rlp_header_len counts the bytes of a length. */
  method HeaderLen(inputLen: nat) returns (n: nat)
    requires inputLen < 0x1_0000_0000_0000_0000
    ensures n == if inputLen <= 55 then 1 else 1 + |BE(inputLen)|
  {
    if inputLen <= 55 {
      return 1;
    }
    var len, bytes := inputLen, 0;
    while len > 0
      invariant bytes + |BE(len)| == |BE(inputLen)|
      decreases len
    {
      len := len / 256;
      bytes := bytes + 1;
    }
    return bytes + 1;
  }

  method ValSizeBytes(val: uint32) returns (shifts: nat)
    ensures shifts == |BE(val)|
  {
    var v: nat := val;
    shifts := 0;
    while v > 0
      invariant shifts + |BE(v)| == |BE(val)|
      decreases v
    {
      v := v / 256;
      shifts := shifts + 1;
    }
  }

  lemma BELengthWord(val: uint32)
    ensures |BE(val)| <= 4
  {
    Pow256Words();
    BELength(val, 4);
  }

  lemma BEUnfold(n: nat)
    ensures BE(n) == if n == 0 then [] else BE(n / 256) + [n % 256]
  {
  }

  /** encode_int_to_bytes: the minimal big-endian form, written from its last byte on. */
  method EncodeIntToBytes(val: uint32, output: array<byte>, off: nat) returns (size: nat)
    requires off + |BE(val)| <= output.Length
    modifies output
    ensures size == |BE(val)| <= 4
    ensures output[..] == Overwrite(old(output[..]), off, BE(val))
  {
    hide BE;
    BELengthWord(val);
    size := ValSizeBytes(val);
    var sizeTmp := size;
    var v: nat := val;
    while v > 0
      invariant sizeTmp == |BE(v)| && sizeTmp <= size
      invariant BE(v) + output[off + sizeTmp..off + size] == BE(val)
      invariant output[..off] == old(output[..off]) && output[off + size..] == old(output[off + size..])
      decreases v
    {
      BEUnfold(v);
      sizeTmp := sizeTmp - 1;
      output[off + sizeTmp] := v % 256;
      assert output[off + sizeTmp..off + size] == [v % 256] + output[off + sizeTmp + 1..off + size];
      v := v / 256;
    }
    BEUnfold(v);
    assert output[..] == output[..off] + output[off..off + size] + output[off + size..];
  }

  /** The long form of a length prefix: the bytes of the length, then the byte in front of them. */
  method EncodeLength(output: array<byte>, off: nat, base: byte, len: uint32) returns (lenBytes: nat)
    requires base == 0xb7 || base == 0xf7
    requires off + 1 + |BE(len)| <= output.Length
    modifies output
    ensures lenBytes == |BE(len)| <= 4
    ensures output[..] == Overwrite(old(output[..]), off, [base + lenBytes] + BE(len))
  {
    hide BE;
    lenBytes := EncodeIntToBytes(len, output, off + 1);
    ghost var mid := output[..];
    var first: byte := base + lenBytes;
    output[off] := first;
    assert output[..] == mid[off := first];
    OverwriteFront(old(output[..]), off, first, BE(len));
  }

  lemma OverwriteFront(s: seq<byte>, off: nat, b: byte, t: seq<byte>)
    requires off + 1 + |t| <= |s|
    ensures Overwrite(s, off + 1, t)[off := b] == Overwrite(s, off, [b] + t)
  {
  }

  // ---------------------------------------------------------------- items

  /** The single byte 0 is encoded as the empty string. */
  function Normalise(x: seq<byte>): seq<byte> {
    if x == [0] then [] else x
  }

  lemma NormaliseIs(x: seq<byte>)
    ensures Normalise(x) == if |x| == 1 && x[0] == 0 then [] else x
  {
  }

  lemma FitsWord(len: nat)
    requires len < 0x1_0000_0000
    ensures Fits(len) && |BE(len)| <= 4
  {
    BELengthWord(len);
  }

  /** rlp_encode_item: the encoding of the normalised input at off, and nothing else changed. */
  method EncodeItem(output: array<byte>, off: nat, input: seq<byte>) returns (n: uint32)
    requires |input| + 5 < 0x1_0000_0000 && Fits(|Normalise(input)|)
    requires off + |Item(Normalise(input))| <= output.Length
    modifies output
    ensures n == |Item(Normalise(input))|
    ensures output[..] == Overwrite(old(output[..]), off, Item(Normalise(input)))
  {
    hide BE;
    SmallLength(0);
    if |input| == 1 && input[0] == 0 {
      output[off] := 0x80;
      return 1;
    }
    if |input| == 1 && input[0] < 128 {
      CopyBytes(output, off, input);
      return 1;
    }
    FitsWord(|input|);
    if |input| <= 55 {
      n := EncodeShortItem(output, off, input);
      return n;
    }
    n := EncodeLongItem(output, off, input);
  }

  /** The case of up to 55 bytes that do not stand for themselves. */
  method EncodeShortItem(output: array<byte>, off: nat, input: seq<byte>) returns (n: uint32)
    requires |input| <= 55 && (|input| == 1 ==> input[0] >= 0x80) && Fits(|input|)
    requires off + |Item(input)| <= output.Length
    modifies output
    ensures n == |Item(input)|
    ensures output[..] == Overwrite(old(output[..]), off, Item(input))
  {
    hide BE, Overwrite;
    var header: byte := 0x80 + |input|;
    assert Item(input) == [header] + input;
    CopyBytes(output, off, [header]);
    CopyBytes(output, off + 1, input);
    OverwriteTwice(old(output[..]), off, [header], input);
    return |input| + 1;
  }

  /** The case of more than 55 bytes. */
  method EncodeLongItem(output: array<byte>, off: nat, input: seq<byte>) returns (n: uint32)
    requires 55 < |input| && |input| + 5 < 0x1_0000_0000 && Fits(|input|)
    requires off + |Item(input)| <= output.Length
    modifies output
    ensures n == |Item(input)|
    ensures output[..] == Overwrite(old(output[..]), off, Item(input))
  {
    hide BE, Item, Overwrite;
    ghost var header := LongPrefix(input);
    var lenBytes := EncodeLength(output, off, 0xb7, |input|);
    CopyBytes(output, off + lenBytes + 1, input);
    OverwriteTwice(old(output[..]), off, header, input);
    return |input| + lenBytes + 1;
  }

  lemma LongPrefix(input: seq<byte>) returns (header: seq<byte>)
    requires |input| > 55 && Fits(|input|)
    ensures header == [0xb7 + |BE(|input|)|] + BE(|input|) && |header| == 1 + |BE(|input|)|
    ensures Item(input) == header + input
  {
    header := [0xb7 + |BE(|input|)|] + BE(|input|);
  }

  // ---------------------------------------------------------------- list headers

  /** What rlp_encode_array_header writes: it takes the long form from 55 bytes on. */
  function ArrayHeader(len: nat): seq<byte>
    requires |BE(len)| <= 8
  {
    if len < 55 then [0xc0 + len] else [0xf7 + |BE(len)|] + BE(len)
  }

  method EncodeArrayHeader(output: array<byte>, off: nat, totalLen: uint32) returns (n: nat)
    requires totalLen <= 0x8000_0000 && Fits(totalLen)
    requires off + |ArrayHeader(totalLen)| <= output.Length
    modifies output
    ensures n == |ArrayHeader(totalLen)|
    ensures output[..] == Overwrite(old(output[..]), off, ArrayHeader(totalLen))
  {
    hide BE;
    if totalLen < 55 {
      output[off] := 0xc0 + totalLen;
      return 1;
    }
    var lenBytes := EncodeLength(output, off, 0xf7, totalLen);
    return lenBytes + 1;
  }

  function HeaderLength(len: nat): nat {
    if len <= 55 then 1 else 1 + |BE(len)|
  }

  /** The header written, the header length reserved for it and the Yellow Paper agree for every
      length but 55. */
  lemma HeaderAgreesIff(len: nat)
    requires Fits(len)
    ensures ArrayHeader(len) == Prefix(0xc0, len) <==> len != 55
    ensures |ArrayHeader(len)| == HeaderLength(len) <==> len != 55
  {
    SmallLength(55);
  }

  // ---------------------------------------------------------------- integers

  /** How many leading bytes of a 64-bit word are zero. */
  function LeadingZeros(val: uint64): (z: nat)
    ensures z + |BE(val)| == 8
  {
    Pow256Words();
    BELength(val, 8);
    8 - |BE(val)|
  }

  lemma PaddedWord(val: uint64)
    ensures BEFixed(val, 8) == Zeros(LeadingZeros(val)) + BE(val) && Minimal(BE(val))
  {
    Pow256Words();
    BEFixedIsPadded(val, 8);
    BEIsMinimal(val);
  }

  /** One turn of the loop that shifts zero bytes out: i bytes are gone. */
  lemma StripStep(val: uint64, i: nat, out: nat)
    requires i < 8 && i <= LeadingZeros(val) && LE(out, 8 - i) == BEFixed(val, 8)[i..]
    ensures out % 256 == 0 <==> i < LeadingZeros(val)
    ensures LE(out / 256, 7 - i) == BEFixed(val, 8)[i + 1..]
  {
    PaddedWord(val);
    LETail(out, 8 - i);
    hide BE, LE, BEFixed;
    assert BEFixed(val, 8)[i..][1..] == BEFixed(val, 8)[i + 1..];
    assert out % 256 == BEFixed(val, 8)[i];
  }

  /** _prepare_integer: the bytes of the integer in memory, most significant first, and how many are
      left when the leading zeros are shifted out. */
  method PrepareInteger(val: uint64) returns (size: nat, out: uint64)
    ensures size == |BE(val)| <= 8
    ensures LE(out, 8)[..size] == BE(val)
  {
    hide BE, LE, BEFixed;
    out := ByteSwap64(val);
    var i := 0;
    while i < 8
      invariant 0 <= i <= LeadingZeros(val)
      invariant LE(out, 8 - i) == BEFixed(val, 8)[i..]
      invariant i == 8 ==> LeadingZeros(val) == 8
      decreases 8 - i
    {
      StripStep(val, i, out);
      if out % 256 != 0 {
        break;
      }
      out := out / 256;
      i := i + 1;
    }
    size := 8 - i;
    LEPrefix(out, size, 8);
    PaddedWord(val);
    assert BEFixed(val, 8)[LeadingZeros(val)..] == BE(val);
  }

  /** rlp_encode_integer: the item of the minimal big-endian form. */
  method EncodeInteger(output: array<byte>, off: nat, val: uint64) returns (n: uint32)
    requires Fits(|BE(val)|) && off + |Item(BE(val))| <= output.Length
    modifies output
    ensures n == |Item(BE(val))|
    ensures output[..] == Overwrite(old(output[..]), off, Item(BE(val)))
  {
    var size, x := PrepareInteger(val);
    BEIsMinimal(val);
    n := EncodeItem(output, off, LE(x, 8)[..size]);
  }

  // ---------------------------------------------------------------- 256-bit integers

  /** The 32 bytes a uint256_t occupies in the memory of a little-endian host. */
  function MemoryOf(uu: uint64, ul: uint64, lu: uint64, ll: uint64): (s: seq<byte>)
    ensures |s| == 32
  {
    LE(uu, 8) + LE(ul, 8) + LE(lu, 8) + LE(ll, 8)
  }

  function Memory(v: U256): (s: seq<byte>)
    reads v.upper, v.lower
    ensures |s| == 32
  {
    MemoryOf(v.upper.upper, v.upper.lower, v.lower.upper, v.lower.lower)
  }

  /** The bytes rlp_encode_uint256 encodes. Between 2^64 and 2^128 it reads 28 bytes that lie 128
      bytes behind the struct; they are the parameter beyond. */
  function Encoded256(uu: uint64, ul: uint64, lu: uint64, ll: uint64, beyond: seq<byte>): seq<byte> {
    if uu == 0 && ul == 0 then if lu == 0 then BE(ll) else beyond
    else MemoryOf(uu, ul, lu, ll)
  }

  method EncodeUint256(output: array<byte>, off: nat, val: U256, beyond: seq<byte>) returns (n: uint32)
    requires |beyond| == 28
    requires {output} !! val.Repr()
    requires var x := Encoded256(val.upper.upper, val.upper.lower, val.lower.upper, val.lower.lower, beyond);
             Fits(|x|) && off + |Item(x)| <= output.Length
    modifies output
    ensures var x := Encoded256(val.upper.upper, val.upper.lower, val.lower.upper, val.lower.lower, beyond);
            n == |Item(x)| && output[..] == Overwrite(old(output[..]), off, Item(x))
  {
    if Zero128(val.upper) {
      CompareWords(B64, val.upper.upper, val.upper.lower, 0, 0);
      if val.lower.upper == 0 {
        n := EncodeInteger(output, off, val.lower.lower);
      } else {
        n := EncodeItem(output, off, beyond);
      }
    } else {
      CompareWords(B64, val.upper.upper, val.upper.lower, 0, 0);
      n := EncodeItem(output, off, Memory(val));
    }
  }
}
