/** Encoding of transactions (eth/transaction.c): nine items written one after the other into the
    output buffer, which is then moved up to make room for the list header. */
module Transactions {
  import opened Common
  import opened Words
  import opened Bytes
  import opened Uint256
  import opened Rlp

  // ---------------------------------------------------------------- values

  /** The words of a uint256_t, most significant first. */
  datatype Word4 = Word4(uu: uint64, ul: uint64, lu: uint64, ll: uint64)

  function WordsOf(v: U256): Word4
    reads v.upper, v.lower
  {
    Word4(v.upper.upper, v.upper.lower, v.lower.upper, v.lower.lower)
  }

  /** A transaction to be encoded. No data, by a null pointer or by length 0, is the empty string;
      pointerByte is the lowest byte of the data pointer itself. */
  datatype Tx = Tx(nonce: uint32, gasPrice: uint32, gasLimit: uint32, to: seq<byte>, value: Word4, data: seq<byte>,
                   pointerByte: byte)

  datatype Sig = Sig(v: byte, r: Word4, s: Word4)

  /** The memory that lies behind the structs, where rlp_encode_uint256 reads it. */
  datatype Beyond = Beyond(value: seq<byte>, r: seq<byte>, s: seq<byte>)

  predicate Sized(tx: Tx, b: Beyond) {
    && |tx.to| == 20 && |tx.data| + 5 < 0x1_0000_0000
    && |b.value| == |b.r| == |b.s| == 28
  }

  function Content256(w: Word4, beyond: seq<byte>): seq<byte> {
    Encoded256(w.uu, w.ul, w.lu, w.ll, beyond)
  }

  /** What tx_encode hands to the item encoder, after its treatment of the single byte 0. */
  function Contents(tx: Tx, sig: Option<Sig>, b: Beyond): seq<seq<byte>> {
    [BE(tx.nonce), BE(tx.gasPrice), BE(tx.gasLimit), tx.to, Content256(tx.value, b.value),
     Normalise(if tx.data == [] then [tx.pointerByte] else tx.data)]
    + (if sig == None then []
       else [BE(sig.value.v), Content256(sig.value.r, b.r), Content256(sig.value.s, b.s)])
  }

  /** The number a uint256_t holds. */
  function Number(w: Word4): (n: nat)
    ensures n < B256
  {
    w.uu * 0x1_0000_0000_0000_0000_0000_0000_0000_0000_0000_0000_0000_0000
    + w.ul * 0x1_0000_0000_0000_0000_0000_0000_0000_0000
    + w.lu * 0x1_0000_0000_0000_0000
    + w.ll
  }

  lemma NumberIsValue(v: U256)
    ensures Number(WordsOf(v)) == v.Value()
  {
  }

  function MemoryOfWords(w: Word4): (m: seq<byte>)
    ensures |m| == 32
  {
    MemoryOf(w.uu, w.ul, w.lu, w.ll)
  }

  /** The number in the r or s of a signature, whose memory is big-endian, as the signer returned it. */
  function Scalar(w: Word4): nat {
    FromBE(MemoryOfWords(w))
  }

  /** The fields of a transaction: six, and nine when it is signed. Numbers are in minimal big-endian form. */
  function Fields(tx: Tx, sig: Option<Sig>): seq<seq<byte>> {
    [BE(tx.nonce), BE(tx.gasPrice), BE(tx.gasLimit), tx.to, BE(Number(tx.value)), tx.data]
    + (if sig == None then [] else [BE(sig.value.v), BE(Scalar(sig.value.r)), BE(Scalar(sig.value.s))])
  }

  // ---------------------------------------------------------------- the image in the buffer

  /** The buffer, the write pointer and total_data_len. Lengths are kept in uint16_t. */
  datatype Cursor = Cursor(buf: seq<byte>, p: nat, total: nat)

  function Put(c: Cursor, x: seq<byte>): (r: Cursor)
    requires Fits(|x|) && c.p + |Item(x)| <= |c.buf|
    ensures |r.buf| == |c.buf| && c.p <= r.p <= c.p + |Item(x)|
  {
    var n := |Item(x)| % 0x1_0000;
    Cursor(Overwrite(c.buf, c.p, Item(x)), c.p + n, (c.total + n) % 0x1_0000)
  }

  function PutAll(c: Cursor, xs: seq<seq<byte>>): (r: Cursor)
    requires AllFit(xs) && c.p + |Items(xs)| <= |c.buf|
    ensures |r.buf| == |c.buf| && r.p <= c.p + |Items(xs)|
    decreases |xs|
  {
    if xs == [] then c else PutAll(Put(c, xs[0]), xs[1..])
  }

  lemma ShortFits(n: nat)
    requires n < 0x1_0000
    ensures Fits(n) && |BE(n)| <= 2
  {
    assert Pow(256, 2) == 0x1_0000;
    BELength(n, 2);
  }

  /** The payload moved up and the header written in front of it. */
  function Finish(c: Cursor): (r: (seq<byte>, nat))
    requires c.total < 0x1_0000
    requires c.total + HeaderLength(c.total) <= |c.buf| && Fits(c.total)
  {
    var hl := HeaderLength(c.total);
    var moved := Overwrite(c.buf, hl, c.buf[..c.total]);
    HeaderFits(c.total);
    (Overwrite(moved, 0, ArrayHeader(c.total)), (c.total + hl) % 0x1_0000)
  }

  lemma FinishWithin(c: Cursor)
    requires c.total < 0x1_0000
    requires c.total + HeaderLength(c.total) <= |c.buf| && Fits(c.total)
    ensures |Finish(c).0| == |c.buf| && Finish(c).1 <= |c.buf|
  {
    hide BE, HeaderLength, ArrayHeader, Overwrite;
  }

  lemma HeaderFits(n: nat)
    requires Fits(n)
    ensures |ArrayHeader(n)| <= n + HeaderLength(n)
  {
    SmallLength(55);
  }

  /** The room tx_encode needs for n bytes of payload. */
  predicate Room(n: nat, size: nat) {
    n + (if n < 0x1_0000 then HeaderLength(n) else 0) <= size
  }

  lemma {:induction false} PutAllTotal(c: Cursor, xs: seq<seq<byte>>)
    requires AllFit(xs) && c.p + |Items(xs)| <= |c.buf| && c.total < 0x1_0000
    ensures PutAll(c, xs).total == (c.total + |Items(xs)|) % 0x1_0000
    decreases |xs|
  {
    hide Item, Overwrite;
    if xs != [] {
      PutAllTotal(Put(c, xs[0]), xs[1..]);
      TruncatedSum(c.total, |Item(xs[0])|, |Items(xs[1..])|);
    }
  }

  lemma TruncatedSum(a: nat, b: nat, c: nat)
    ensures ((a + b % 0x1_0000) % 0x1_0000 + c) % 0x1_0000 == (a + (b + c)) % 0x1_0000
  {
  }

  lemma RoomToFinish(n: nat, size: nat)
    requires Room(n, size)
    ensures Fits(n % 0x1_0000) && n % 0x1_0000 + HeaderLength(n % 0x1_0000) <= size
  {
    hide BE;
    ShortFits(n % 0x1_0000);
  }

  /** What tx_encode leaves in the buffer and returns. */
  function Image(buf: seq<byte>, xs: seq<seq<byte>>): (r: (seq<byte>, nat))
    requires AllFit(xs) && Room(|Items(xs)|, |buf|)
    ensures |r.0| == |buf| && r.1 <= |buf|
  {
    hide BE, Item, Items, HeaderLength, PutAll, Finish;
    PutAllTotal(Cursor(buf, 0, 0), xs);
    RoomToFinish(|Items(xs)|, |buf|);
    FinishWithin(PutAll(Cursor(buf, 0, 0), xs));
    Finish(PutAll(Cursor(buf, 0, 0), xs))
  }

  /** Without truncation, the items stand one after the other. */
  lemma {:induction false} PutAllShort(c: Cursor, xs: seq<seq<byte>>)
    requires AllFit(xs) && c.p + |Items(xs)| <= |c.buf| && c.total == c.p
    requires c.p + |Items(xs)| < 0x1_0000
    ensures PutAll(c, xs) == Cursor(Overwrite(c.buf, c.p, Items(xs)), c.p + |Items(xs)|, c.p + |Items(xs)|)
    decreases |xs|
  {
    hide Item, Overwrite, Fits;
    if xs == [] {
      OverwriteNothing(c.buf, c.p);
    } else {
      PutAllShort(Put(c, xs[0]), xs[1..]);
      OverwriteTwice(c.buf, c.p, Item(xs[0]), Items(xs[1..]));
    }
  }

  /** The good case: the encoding of the list. */
  lemma ImageIsList(buf: seq<byte>, xs: seq<seq<byte>>)
    requires AllFit(xs) && Room(|Items(xs)|, |buf|)
    requires var n := |Items(xs)|;
             n != 55 && n + HeaderLength(n) < 0x1_0000
    ensures var (out, ret) := Image(buf, xs);
            Fits(|Items(xs)|) && ret <= |out| && out[..ret] == List(Items(xs))
  {
    hide BE, Items, ArrayHeader, Prefix, PutAll, Finish;
    var payload := Items(xs);
    var n := |payload|;
    ShortFits(n);
    PutAllShort(Cursor(buf, 0, 0), xs);
    FinishIsList(Cursor(Overwrite(buf, 0, payload), n, n), payload);
  }

  lemma FinishIsList(c: Cursor, payload: seq<byte>)
    requires c.total == |payload| != 55 && c.total + HeaderLength(c.total) < 0x1_0000
    requires c.total + HeaderLength(c.total) <= |c.buf| && Fits(c.total) && c.buf[..c.total] == payload
    ensures var (out, ret) := Finish(c);
            ret <= |out| && out[..ret] == List(payload)
  {
    hide BE, ArrayHeader, Prefix, Overwrite;
    HeaderAgreesIff(c.total);
    FinishPlain(c, ArrayHeader(c.total), payload);
  }

  lemma FinishPlain(c: Cursor, header: seq<byte>, payload: seq<byte>)
    requires |header| + |payload| <= |c.buf|
    ensures Overwrite(Overwrite(c.buf, |header|, payload), 0, header)[..|header| + |payload|] == header + payload
  {
  }

  /** Payloads of exactly 55 bytes get a header that is one byte longer than the room for it, and
      no list encodes to what comes out. */
  lemma ImageAt55(buf: seq<byte>, xs: seq<seq<byte>>, payload: seq<byte>)
    requires AllFit(xs) && |Items(xs)| == 55 && 56 <= |buf| && Fits(|payload|)
    ensures var (out, ret) := Image(buf, xs);
            ret == 56 && out[..ret] != List(payload)
  {
    hide Items;
    PutAllShort(Cursor(buf, 0, 0), xs);
    SmallLength(55);
    var (out, ret) := Image(buf, xs);
    assert out[0] == 0xf8 && out[1] == 55;
    hide BE;
    LongFormIsLong(payload);
  }

  lemma LongFormIsLong(payload: seq<byte>)
    requires Fits(|payload|)
    ensures var l := List(payload);
            l != [] && (l[0] == 0xf8 ==> |l| >= 2 && l[1] > 55)
  {
    hide BE, FromBE;
    var n := |payload|;
    if n > 55 {
      FromBEOfBE(n);
      BEIsMinimal(n);
      if |BE(n)| == 1 {
        OneByte(BE(n)[0]);
        assert BE(n) == [BE(n)[0]];
      }
    }
  }

  /** Items whose length does not fit 16 bits with the header: far too few bytes are returned. */
  lemma {:induction false} ImageTooLong(buf: seq<byte>, xs: seq<seq<byte>>)
    requires AllFit(xs) && Room(|Items(xs)|, |buf|)
    requires |Items(xs)| + HeaderLength(|Items(xs)|) >= 0x1_0000
    ensures Image(buf, xs).1 + 300 < |Items(xs)|
  {
    hide BE, Items, Item, Put, PutAll, Overwrite, ArrayHeader;
    var n := |Items(xs)|;
    PutAllTotal(Cursor(buf, 0, 0), xs);
    ShortFits(n % 0x1_0000);
    if n < 0x1_0000 {
      ShortFits(n);
    }
  }

  // ---------------------------------------------------------------- when the encoding is right

  predicate OneWord(w: Word4) {
    w.uu == 0 && w.ul == 0 && w.lu == 0
  }

  /** Numbers from 2^64 to 2^128 are not read at all. */
  predicate InBand(w: Word4) {
    w.uu == 0 && w.ul == 0 && w.lu != 0
  }

  /** The bytes of the word are the same in both orders. */
  predicate Mirrored(x: uint64) {
    ByteSwap64(x) == x
  }

  /** A value is encoded right when it is one word, or when all its 32 bytes are needed and the order of bytes in a
      word does not matter. */
  predicate ValueRight(w: Word4) {
    OneWord(w) ||
    (w.uu % 256 != 0 && Mirrored(w.uu) && Mirrored(w.ul) && Mirrored(w.lu) && Mirrored(w.ll))
  }

  /** The number of a signature is encoded right when its first byte in memory is not 0, or when it is one word and
      the order of the bytes in it does not matter. */
  predicate ScalarRight(w: Word4) {
    w.uu % 256 != 0 || (OneWord(w) && Mirrored(w.ll))
  }

  /** Every field is encoded as it should be. */
  predicate Faithful(tx: Tx, sig: Option<Sig>) {
    && ValueRight(tx.value)
    && (sig.Some? ==> ScalarRight(sig.value.r) && ScalarRight(sig.value.s))
    && (tx.data == [] ==> tx.pointerByte == 0)
    && tx.data != [0]
  }

  lemma MirroredIff(x: uint64)
    ensures Mirrored(x) <==> LE(x, 8) == BEFixed(x, 8)
  {
    hide LE, BEFixed, Pow, ByteSwap64;
    Pow256Words();
    FromLEOfLE(x, 8);
    FromLEOfLE(ByteSwap64(x), 8);
  }

  /** The big-endian bytes of a number, word by word. */
  lemma NumberBytes(w: Word4)
    ensures BEFixed(Number(w), 32) == BEFixed(w.uu, 8) + BEFixed(w.ul, 8) + BEFixed(w.lu, 8) + BEFixed(w.ll, 8)
  {
    hide BEFixed, Pow;
    Pow256Words();
    BEFixedAppend(w.uu, 8, w.ul, 8);
    var n2 := w.uu * 0x1_0000_0000_0000_0000 + w.ul;
    BEFixedAppend(n2, 16, w.lu, 8);
    var n3 := n2 * 0x1_0000_0000_0000_0000 + w.lu;
    BEFixedAppend(n3, 24, w.ll, 8);
    assert n3 * 0x1_0000_0000_0000_0000 + w.ll == Number(w);
  }

  lemma EightEach(a: seq<byte>, b: seq<byte>, c: seq<byte>, d: seq<byte>,
                  a': seq<byte>, b': seq<byte>, c': seq<byte>, d': seq<byte>)
    requires |a| == |b| == |c| == |d| == |a'| == |b'| == |c'| == |d'| == 8
    ensures a + b + c + d == a' + b' + c' + d' <==> a == a' && b == b' && c == c' && d == d'
  {
    var x, y := a + b + c + d, a' + b' + c' + d';
    assert x[..8] == a && x[8..16] == b && x[16..24] == c && x[24..] == d;
    assert y[..8] == a' && y[8..16] == b' && y[16..24] == c' && y[24..] == d';
  }

  /** Memory is the fixed big-endian form exactly when every word is mirrored. */
  lemma MemoryIsNumberIff(w: Word4)
    ensures MemoryOfWords(w) == BEFixed(Number(w), 32)
       <==> Mirrored(w.uu) && Mirrored(w.ul) && Mirrored(w.lu) && Mirrored(w.ll)
  {
    hide LE, BEFixed, Number, Mirrored;
    NumberBytes(w);
    MirroredIff(w.uu);
    MirroredIff(w.ul);
    MirroredIff(w.lu);
    MirroredIff(w.ll);
    EightEach(LE(w.uu, 8), LE(w.ul, 8), LE(w.lu, 8), LE(w.ll, 8),
              BEFixed(w.uu, 8), BEFixed(w.ul, 8), BEFixed(w.lu, 8), BEFixed(w.ll, 8));
  }

  lemma FirstByte(w: Word4)
    ensures MemoryOfWords(w)[0] == w.uu % 256
  {
    LETail(w.uu, 8);
  }

  /** 32 bytes are the minimal form of n exactly when they are its fixed form and do not start with 0. */
  lemma FullWidthIff(n: nat, m: seq<byte>)
    requires n < B256 && |m| == 32
    ensures m == BE(n) <==> m == BEFixed(n, 32) && m[0] != 0
  {
    hide BE, BEFixed, Pow, Zeros;
    Pow256Sixteen();
    BEFixedIsPadded(n, 32);
    BEIsMinimal(n);
    assert Zeros(0) == [] && (|BE(n)| < 32 ==> Zeros(32 - |BE(n)|)[0] == 0);
  }

  lemma HalfWidth(n: nat)
    requires n < B128
    ensures |BE(n)| <= 16
  {
    hide Pow;
    Pow256Sixteen();
    BELength(n, 16);
  }

  /** The value field: what is encoded is the number exactly when the value is right. */
  lemma ValueRightIff(w: Word4, beyond: seq<byte>)
    requires |beyond| == 28
    ensures Content256(w, beyond) == BE(Number(w)) <==> ValueRight(w)
  {
    hide BE, LE, BEFixed, Mirrored;
    if OneWord(w) {
    } else if InBand(w) {
      HalfWidth(Number(w));
    } else {
      MemoryIsNumberIff(w);
      FirstByte(w);
      FullWidthIff(Number(w), MemoryOfWords(w));
    }
  }

  lemma {:induction false} LEZero(n: nat)
    ensures LE(0, n) == Zeros(n)
  {
    if n > 0 {
      LEZero(n - 1);
      ZerosSplit(1, n - 1);
      assert Zeros(1) == Zeros(0) + [0] == [0];
    }
  }

  /** Zero bytes in front do not count. */
  lemma ZerosInFront(n: nat, d: seq<byte>)
    ensures FromBE(Zeros(n) + d) == FromBE(d)
  {
    hide FromBE, Pow, Zeros;
    FromBEAppend(Zeros(n), d);
    FromBEZeros(n);
    MulSwap(0, Pow(256, |d|));
  }

  /** A signature's number of one word: its eight bytes read in the other order. */
  lemma OneWordScalar(w: Word4)
    requires OneWord(w)
    ensures Scalar(w) == ByteSwap64(w.ll)
  {
    hide LE, BEFixed, Pow, FromBE, FromLE, Zeros, ByteSwap64;
    LEZero(8);
    ZerosSplit(8, 8);
    ZerosSplit(16, 8);
    assert MemoryOfWords(w) == Zeros(24) + LE(w.ll, 8);
    ZerosInFront(24, LE(w.ll, 8));
    Pow256Words();
    FromLEOfLE(w.ll, 8);
    SwappedWord(LE(w.ll, 8));
  }

  lemma BandScalar(w: Word4)
    requires InBand(w)
    ensures Scalar(w) < B128
  {
    hide LE, Pow, FromBE, Zeros;
    LEZero(8);
    ZerosSplit(8, 8);
    var d := LE(w.lu, 8) + LE(w.ll, 8);
    assert MemoryOfWords(w) == Zeros(16) + d;
    ZerosInFront(16, d);
    FromBEBelow(d);
    Pow256Sixteen();
  }

  lemma SameNumber(m: nat, n: nat)
    ensures BE(m) == BE(n) <==> m == n
  {
    FromBEOfBE(m);
    FromBEOfBE(n);
  }

  /** The r and s fields. */
  lemma ScalarRightIff(w: Word4, beyond: seq<byte>)
    requires |beyond| == 28
    ensures Content256(w, beyond) == BE(Scalar(w)) <==> ScalarRight(w)
  {
    hide BE, LE, BEFixed, FromBE, ByteSwap64;
    if OneWord(w) {
      OneWordScalar(w);
      SameNumber(w.ll, ByteSwap64(w.ll));
    } else if InBand(w) {
      BandScalar(w);
      HalfWidth(Scalar(w));
    } else {
      FirstByte(w);
      var m := MemoryOfWords(w);
      BEIsMinimal(FromBE(m));
      if m[0] != 0 {
        BEOfFromBE(m);
      }
    }
  }

  lemma ContentsAreFieldsIff(tx: Tx, sig: Option<Sig>, b: Beyond)
    requires Sized(tx, b)
    ensures Contents(tx, sig, b) == Fields(tx, sig) <==> Faithful(tx, sig)
  {
    hide BE, Content256, Number, Scalar, ValueRight, ScalarRight;
    var xs, ys := Contents(tx, sig, b), Fields(tx, sig);
    ValueRightIff(tx.value, b.value);
    if sig.Some? {
      ScalarRightIff(sig.value.r, b.r);
      ScalarRightIff(sig.value.s, b.s);
      assert xs[7] == Content256(sig.value.r, b.r) && ys[7] == BE(Scalar(sig.value.r));
      assert xs[8] == Content256(sig.value.s, b.s) && ys[8] == BE(Scalar(sig.value.s));
    }
    assert xs[4] == Content256(tx.value, b.value) && ys[4] == BE(Number(tx.value));
    assert xs[5] == Normalise(if tx.data == [] then [tx.pointerByte] else tx.data) && ys[5] == tx.data;
  }

  lemma WordFits(n: uint64)
    ensures |BE(n)| <= 8 && Fits(|BE(n)|)
  {
    Pow256Words();
    BELength(n, 8);
    ShortFits(|BE(n)|);
  }

  lemma WideFits(n: nat)
    requires n < B256
    ensures Fits(|BE(n)|) && |BE(n)| <= 32
  {
    hide BE, Pow;
    Pow256Sixteen();
    BELength(n, 32);
    ShortFits(|BE(n)|);
  }

  lemma ScalarFits(w: Word4)
    ensures Fits(|BE(Scalar(w))|) && |BE(Scalar(w))| <= 32
  {
    hide BE, Pow, FromBE, LE;
    Pow256Sixteen();
    FromBEBelow(MemoryOfWords(w));
    WideFits(Scalar(w));
  }

  lemma Content256Small(w: Word4, beyond: seq<byte>)
    requires |beyond| == 28
    ensures Fits(|Content256(w, beyond)|) && |Content256(w, beyond)| <= 32
  {
    WordFits(w.ll);
    ShortFits(28);
    ShortFits(32);
    hide BE, LE;
  }

  lemma AllFitFields(tx: Tx, sig: Option<Sig>)
    requires |tx.to| == 20 && |tx.data| + 5 < 0x1_0000_0000
    ensures AllFit(Fields(tx, sig))
  {
    WordFits(tx.nonce);
    WordFits(tx.gasPrice);
    WordFits(tx.gasLimit);
    ShortFits(20);
    WideFits(Number(tx.value));
    FitsWord(|tx.data|);
    if sig.Some? {
      WordFits(sig.value.v);
      ScalarFits(sig.value.r);
      ScalarFits(sig.value.s);
    }
    hide BE, Number, Scalar, Fits;
  }

  lemma AllFitContents(tx: Tx, sig: Option<Sig>, b: Beyond)
    requires Sized(tx, b)
    ensures AllFit(Contents(tx, sig, b))
  {
    WordFits(tx.nonce);
    WordFits(tx.gasPrice);
    WordFits(tx.gasLimit);
    ShortFits(20);
    Content256Small(tx.value, b.value);
    FitsWord(|tx.data|);
    ShortFits(1);
    ShortFits(0);
    if sig.Some? {
      WordFits(sig.value.v);
      Content256Small(sig.value.r, b.r);
      Content256Small(sig.value.s, b.s);
    }
    hide BE, Content256, Fits;
  }

  // ---------------------------------------------------------------- lengths of payloads

  /** Items that are each at most d longer. */
  lemma {:induction false} ItemsNoLonger(xs: seq<seq<byte>>, ys: seq<seq<byte>>, d: nat)
    requires AllFit(xs) && AllFit(ys) && |xs| == |ys|
    requires forall i :: 0 <= i < |xs| ==> |Item(xs[i])| <= |Item(ys[i])| + d
    ensures |Items(xs)| <= |Items(ys)| + |xs| * d
  {
    hide Item;
    if xs != [] {
      ItemsNoLonger(xs[1..], ys[1..], d);
      MulDistributes(|xs| - 1, 1, d);
    }
  }

  lemma {:induction false} ItemsBounded(xs: seq<seq<byte>>, bound: nat)
    requires AllFit(xs) && forall i :: 0 <= i < |xs| ==> |Item(xs[i])| <= bound
    ensures |Items(xs)| <= |xs| * bound
  {
    hide Item;
    if xs != [] {
      ItemsBounded(xs[1..], bound);
      MulDistributes(|xs| - 1, 1, bound);
    }
  }

  lemma ItemLength(x: seq<byte>)
    requires Fits(|x|)
    ensures |Item(x)| <= |x| + 9 && (|x| <= 55 ==> |Item(x)| <= |x| + 1)
    ensures |x| > 1 ==> |Item(x)| > |x|
  {
    hide BE;
  }

  lemma Content256Item(w: Word4, beyond: seq<byte>)
    requires |beyond| == 28
    ensures Fits(|Content256(w, beyond)|) && 1 <= |Item(Content256(w, beyond))| <= 33
  {
    hide Content256;
    Content256Small(w, beyond);
    ItemLength(Content256(w, beyond));
    ItemNonEmpty(Content256(w, beyond));
  }

  lemma {:induction false} WordItem(n: uint64)
    ensures Fits(|BE(n)|) && |Item(BE(n))| <= 9
  {
    WordFits(n);
    ItemLength(BE(n));
  }

  /** Piece by piece, wrong contents are little longer than the field, and no field but the data is long. */
  lemma PieceLength(tx: Tx, sig: Option<Sig>, b: Beyond, i: nat)
    requires Sized(tx, b) && AllFit(Contents(tx, sig, b)) && AllFit(Fields(tx, sig)) && i < |Fields(tx, sig)|
    ensures |Item(Fields(tx, sig)[i])| <= |tx.data| + 33
    ensures |Item(Contents(tx, sig, b)[i])| <= |Item(Fields(tx, sig)[i])| + 32
  {
    hide Content256, Number, Scalar;
    ItemNonEmpty(Fields(tx, sig)[i]);
    if i < 3 {
      WordItem(if i == 0 then tx.nonce else if i == 1 then tx.gasPrice else tx.gasLimit);
    } else if i == 3 {
      ItemLength(tx.to);
    } else if i == 4 {
      Content256Item(tx.value, b.value);
      WideFits(Number(tx.value));
      ItemLength(BE(Number(tx.value)));
    } else if i == 5 {
      ItemLength(tx.data);
      ItemLength(Normalise([tx.pointerByte]));
    } else if i == 6 {
      WordItem(sig.value.v);
    } else {
      var w := if i == 7 then sig.value.r else sig.value.s;
      Content256Item(w, if i == 7 then b.r else b.s);
      ScalarFits(w);
      ItemLength(BE(Scalar(w)));
    }
    hide BE, Item;
  }

  lemma LengthFits(n: nat)
    requires n < 0x1_0000_0000_0000_0000
    ensures Fits(n)
  {
    Pow256Words();
    BELength(n, 8);
  }

  /** Where encoding goes wrong, it does not lengthen the payload by much. */
  lemma ContentsLength(tx: Tx, sig: Option<Sig>, b: Beyond)
    requires Sized(tx, b) && AllFit(Contents(tx, sig, b)) && AllFit(Fields(tx, sig))
    ensures Fits(|Items(Fields(tx, sig))|)
    ensures |Items(Contents(tx, sig, b))| <= |Items(Fields(tx, sig))| + 288
  {
    var xs, ys := Contents(tx, sig, b), Fields(tx, sig);
    assert |xs| == |ys| <= 9;
    forall i | 0 <= i < |ys|
      ensures |Item(ys[i])| <= |tx.data| + 33 && |Item(xs[i])| <= |Item(ys[i])| + 32
    {
      PieceLength(tx, sig, b, i);
    }
    hide Contents, Fields, Item, BE;
    ItemsNoLonger(xs, ys, 32);
    ItemsBounded(ys, |tx.data| + 33);
    MulMonotonic(|ys|, 9, |tx.data| + 33);
    LengthFits(|Items(ys)|);
  }

  // ---------------------------------------------------------------- main results

  /** The payload of a transaction: its fields as items, one after the other. */
  function Payload(tx: Tx, sig: Option<Sig>): seq<byte>
    requires |tx.to| == 20 && |tx.data| + 5 < 0x1_0000_0000
  {
    AllFitFields(tx, sig);
    Items(Fields(tx, sig))
  }

  /** What a caller can check before the call: every field is of a kind that is encoded faithfully,
      the payload is not 55 bytes long, and its length with the header fits uint16_t. */
  predicate Encodable(tx: Tx, sig: Option<Sig>)
    requires |tx.to| == 20 && |tx.data| + 5 < 0x1_0000_0000
  {
    var n := |Payload(tx, sig)|;
    Faithful(tx, sig) && n != 55 && n + HeaderLength(n) < 0x1_0000
  }

  /** Different items, different lists. */
  lemma {:induction false} ListInjective(xs: seq<seq<byte>>, ys: seq<seq<byte>>)
    requires AllFit(xs) && AllFit(ys) && Fits(|Items(xs)|) && Fits(|Items(ys)|)
    requires List(Items(xs)) == List(Items(ys))
    ensures xs == ys
  {
    ReadListInverts(xs);
    ReadListInverts(ys);
  }

  /** tx_encode puts out the Yellow Paper's encoding of the transaction exactly when the transaction
      is encodable. */
  lemma EncodingIff(buf: seq<byte>, tx: Tx, sig: Option<Sig>, b: Beyond)
    requires Sized(tx, b) && AllFit(Contents(tx, sig, b)) && Room(|Items(Contents(tx, sig, b))|, |buf|)
    ensures Fits(|Payload(tx, sig)|)
    ensures var (out, ret) := Image(buf, Contents(tx, sig, b));
            ret <= |out| && (out[..ret] == List(Payload(tx, sig)) <==> Encodable(tx, sig))
  {
    AllFitFields(tx, sig);
    ContentsLength(tx, sig, b);
    ContentsAreFieldsIff(tx, sig, b);
    hide Contents, Fields, Image, Items, List, BE, Faithful, Room, HeaderLength;
    var xs, ys := Contents(tx, sig, b), Fields(tx, sig);
    var n := |Items(xs)|;
    if n == 55 {
      ImageAt55(buf, xs, Items(ys));
    } else if n + HeaderLength(n) < 0x1_0000 {
      ImageIsList(buf, xs);
      if xs != ys && List(Items(xs)) == List(Items(ys)) {
        ListInjective(xs, ys);
      }
    } else {
      ImageTooLong(buf, xs);
      ListNotShorter(Items(ys));
    }
  }

  lemma ListNotShorter(payload: seq<byte>)
    requires Fits(|payload|)
    ensures |List(payload)| > |payload|
  {
    hide BE;
  }

  /** The round trip: a decoder of the Yellow Paper's lists gets exactly the six or nine fields back. */
  lemma RoundTrip(buf: seq<byte>, tx: Tx, sig: Option<Sig>, b: Beyond)
    requires Sized(tx, b) && AllFit(Contents(tx, sig, b)) && Room(|Items(Contents(tx, sig, b))|, |buf|)
    requires Encodable(tx, sig)
    ensures var (out, ret) := Image(buf, Contents(tx, sig, b));
            ret <= |out| && ReadList(out[..ret]) == Some(Fields(tx, sig))
  {
    EncodingIff(buf, tx, sig, b);
    AllFitFields(tx, sig);
    hide Fields, Image, Contents, BE;
    ReadListInverts(Fields(tx, sig));
  }

  lemma WordOfLE(x: uint64)
    ensures Word(LE(x, 8)) == x
  {
    Pow256Words();
    FromLEOfLE(x, 8);
  }

  lemma WordMemory(w: Word4)
    ensures var m := MemoryOf(w.uu, w.ul, w.lu, w.ll);
            w == Word4(Word(m[0..8]), Word(m[8..16]), Word(m[16..24]), Word(m[24..32]))
  {
    hide LE, Word;
    WordOfLE(w.uu);
    WordOfLE(w.ul);
    WordOfLE(w.lu);
    WordOfLE(w.ll);
    var m := MemoryOf(w.uu, w.ul, w.lu, w.ll);
    assert m[0..8] == LE(w.uu, 8);
    assert m[8..16] == LE(w.ul, 8);
    assert m[16..24] == LE(w.lu, 8);
    assert m[24..32] == LE(w.ll, 8);
  }

  /** The 64-bit word in eight bytes of memory. */
  function Word(m: seq<byte>): (r: uint64)
    requires |m| == 8
    ensures LE(r, 8) == m
  {
    Pow256Words();
    LEOfFromLE(m);
    FromLE(m)
  }

  lemma NumberInjective(w: Word4, w': Word4)
    requires Number(w) == Number(w')
    ensures w == w'
  {
    hide Number;
    NumberOfHalves(w);
    NumberOfHalves(w');
    HalvesUnique(Half(w.uu, w.ul), Half(w.lu, w.ll), Half(w'.uu, w'.ul), Half(w'.lu, w'.ll));
    HalfInjective(w.uu, w.ul, w'.uu, w'.ul);
    HalfInjective(w.lu, w.ll, w'.lu, w'.ll);
  }

  function Half(u: uint64, l: uint64): (h: nat)
    ensures h < B128
  {
    u * 0x1_0000_0000_0000_0000 + l
  }

  lemma NumberOfHalves(w: Word4)
    ensures Number(w) == Half(w.uu, w.ul) * B128 + Half(w.lu, w.ll)
  {
  }

  lemma HalvesUnique(u: nat, l: nat, u': nat, l': nat)
    requires l < B128 && l' < B128 && u * B128 + l == u' * B128 + l'
    ensures u == u' && l == l'
  {
  }

  lemma HalfInjective(u: uint64, l: uint64, u': uint64, l': uint64)
    requires Half(u, l) == Half(u', l')
    ensures u == u' && l == l'
  {
  }

  /** 32 bytes are determined by their number. */
  lemma ScalarInjective(w: Word4, w': Word4)
    requires Scalar(w) == Scalar(w')
    ensures w == w'
  {
    hide LE, FromBE, Word, Pow;
    BEFixedOfFromBE(MemoryOfWords(w));
    BEFixedOfFromBE(MemoryOfWords(w'));
    WordMemory(w);
    WordMemory(w');
  }

  lemma FieldsInjective(tx: Tx, sig: Option<Sig>, tx': Tx, sig': Option<Sig>)
    requires Fields(tx, sig) == Fields(tx', sig')
    ensures tx.(pointerByte := 0) == tx'.(pointerByte := 0) && sig == sig'
  {
    var ys, ys' := Fields(tx, sig), Fields(tx', sig');
    hide BE, Number, Scalar, FromBE;
    SameNumber(tx.nonce, tx'.nonce);
    SameNumber(tx.gasPrice, tx'.gasPrice);
    SameNumber(tx.gasLimit, tx'.gasLimit);
    SameNumber(Number(tx.value), Number(tx'.value));
    assert ys[0] == ys'[0] && ys[1] == ys'[1] && ys[2] == ys'[2];
    assert ys[3] == ys'[3] && ys[4] == ys'[4] && ys[5] == ys'[5];
    NumberInjective(tx.value, tx'.value);
    assert |ys| == |ys'|;
    if sig.Some? {
      assert ys[6] == ys'[6] && ys[7] == ys'[7] && ys[8] == ys'[8];
      SameNumber(sig.value.v, sig'.value.v);
      SameNumber(Scalar(sig.value.r), Scalar(sig'.value.r));
      SameNumber(Scalar(sig.value.s), Scalar(sig'.value.s));
      ScalarInjective(sig.value.r, sig'.value.r);
      ScalarInjective(sig.value.s, sig'.value.s);
    }
  }

  /** Equal encodings come from equal transactions with equal signatures. */
  lemma EncodingInjective(buf: seq<byte>, tx: Tx, sig: Option<Sig>, b: Beyond,
                          buf': seq<byte>, tx': Tx, sig': Option<Sig>, b': Beyond)
    requires Sized(tx, b) && AllFit(Contents(tx, sig, b)) && Room(|Items(Contents(tx, sig, b))|, |buf|)
    requires Sized(tx', b') && AllFit(Contents(tx', sig', b')) && Room(|Items(Contents(tx', sig', b'))|, |buf'|)
    requires Encodable(tx, sig) && Encodable(tx', sig')
    ensures var (out, ret) := Image(buf, Contents(tx, sig, b));
            var (out', ret') := Image(buf', Contents(tx', sig', b'));
            out[..ret] == out'[..ret'] ==> tx.(pointerByte := 0) == tx'.(pointerByte := 0) && sig == sig'
  {
    RoundTrip(buf, tx, sig, b);
    RoundTrip(buf', tx', sig', b');
    if Fields(tx, sig) == Fields(tx', sig') {
      FieldsInjective(tx, sig, tx', sig');
    }
  }

  /** What a signature adds. */
  function Tail(sig: Sig): seq<byte> {
    WordFits(sig.v);
    ScalarFits(sig.r);
    ScalarFits(sig.s);
    Item(BE(sig.v)) + (Item(BE(Scalar(sig.r))) + Item(BE(Scalar(sig.s))))
  }

  /** The signed payload is the unsigned one followed by the items v, r and s. */
  lemma SignedPayload(tx: Tx, sig: Sig)
    requires |tx.to| == 20 && |tx.data| + 5 < 0x1_0000_0000
    ensures Payload(tx, Some(sig)) == Payload(tx, None) + Tail(sig)
  {
    AllFitFields(tx, None);
    AllFitFields(tx, Some(sig));
    WordFits(sig.v);
    ScalarFits(sig.r);
    ScalarFits(sig.s);
    var tail := [BE(sig.v), BE(Scalar(sig.r)), BE(Scalar(sig.s))];
    var head := Fields(tx, None);
    assert Fields(tx, Some(sig)) == head + tail;
    ItemsAppend(head, tail);
    ItemsOfThree(BE(sig.v), BE(Scalar(sig.r)), BE(Scalar(sig.s)));
  }

  lemma ItemsOfThree(x: seq<byte>, y: seq<byte>, z: seq<byte>)
    requires AllFit([x, y, z])
    ensures Fits(|x|) && Fits(|y|) && Fits(|z|)
    ensures Items([x, y, z]) == Item(x) + (Item(y) + Item(z))
  {
    assert [x, y, z][0] == x && [x, y, z][1] == y && [x, y, z][2] == z;
    hide Item;
    assert [x, y, z][1..] == [y, z] && [y, z][1..] == [z] && [z][1..] == [];
    assert Items([z]) == Item(z) + Items([]);
    assert Items([y, z]) == Item(y) + Items([z]);
  }

  lemma ItemsOfSix(a: seq<byte>, b: seq<byte>, c: seq<byte>, d: seq<byte>, e: seq<byte>, f: seq<byte>)
    requires AllFit([a, b, c, d, e, f])
    ensures Fits(|a|) && Fits(|b|) && Fits(|c|) && Fits(|d|) && Fits(|e|) && Fits(|f|)
    ensures |Items([a, b, c, d, e, f])| ==
            |Item(a)| + |Item(b)| + |Item(c)| + |Item(d)| + |Item(e)| + |Item(f)|
  {
    hide Item;
    var all := [a, b, c, d, e, f];
    assert all[..3] == [a, b, c] && all[3..] == [d, e, f] && all == all[..3] + all[3..];
    ItemsAppend(all[..3], all[3..]);
    ItemsOfThree(a, b, c);
    ItemsOfThree(d, e, f);
  }

  lemma UnsignedLength(tx: Tx)
    requires |tx.to| == 20 && |tx.data| + 5 < 0x1_0000_0000
    ensures Fits(|BE(tx.nonce)|) && Fits(|BE(tx.gasPrice)|) && Fits(|BE(tx.gasLimit)|)
    ensures Fits(|BE(Number(tx.value))|) && Fits(|tx.data|)
    ensures |Payload(tx, None)| == |Item(BE(tx.nonce))| + |Item(BE(tx.gasPrice))| + |Item(BE(tx.gasLimit))| + 21
                                   + |Item(BE(Number(tx.value)))| + |Item(tx.data)|
  {
    hide BE, Number, Items;
    AllFitFields(tx, None);
    assert Fields(tx, None) == [BE(tx.nonce), BE(tx.gasPrice), BE(tx.gasLimit), tx.to, BE(Number(tx.value)), tx.data];
    ShortFits(20);
    ItemLength(tx.to);
    ItemsOfSix(BE(tx.nonce), BE(tx.gasPrice), BE(tx.gasLimit), tx.to, BE(Number(tx.value)), tx.data);
  }

  /** A transaction of which everything is zero but the parts given. */
  function Plain(value: Word4, data: seq<byte>, pointerByte: byte): (tx: Tx)
    ensures |tx.to| == 20
  {
    Tx(0, 0, 0, Zeros(20), value, data, pointerByte)
  }

  const NOTHING: Word4 := Word4(0, 0, 0, 0)

  lemma NumberOfNothing()
    ensures Number(NOTHING) == 0
  {
  }

  lemma ZeroItem()
    ensures BE(0) == [] && |BE(0)| == 0
  {
  }

  lemma EmptyItem(x: seq<byte>)
    requires x == []
    ensures Fits(|x|) && |Item(x)| == 1
  {
    ShortFits(|x|);
  }

  lemma PlainLength(data: seq<byte>, pointerByte: byte)
    requires |data| + 5 < 0x1_0000_0000
    ensures Fits(|data|) && |Payload(Plain(NOTHING, data, pointerByte), None)| == 25 + |Item(data)|
  {
    hide Item, BE, Number, Payload, Fits;
    UnsignedLength(Plain(NOTHING, data, pointerByte));
    NumberOfNothing();
    ZeroItem();
    EmptyItem(BE(0));
  }

  lemma AtLeastPlain(tx: Tx)
    requires |tx.to| == 20 && |tx.data| + 5 < 0x1_0000_0000
    ensures |Payload(tx, None)| >= 26
  {
    UnsignedLength(tx);
    ItemNonEmpty(BE(tx.nonce));
    ItemNonEmpty(BE(tx.gasPrice));
    ItemNonEmpty(BE(tx.gasLimit));
    ItemNonEmpty(BE(Number(tx.value)));
    ItemNonEmpty(tx.data);
  }

  /** A signature makes every transaction longer than 55 bytes, so that header and gap agree, exactly when its three
      items have 30 bytes. */
  lemma SignedIsLongIff(sig: Sig)
    ensures (forall tx: Tx :: |tx.to| == 20 && |tx.data| + 5 < 0x1_0000_0000 ==> |Payload(tx, Some(sig))| > 55)
       <==> |Tail(sig)| >= 30
  {
    hide Payload, Tail, Item, Plain;
    forall tx: Tx | |tx.to| == 20 && |tx.data| + 5 < 0x1_0000_0000
      ensures |Payload(tx, Some(sig))| >= 26 + |Tail(sig)|
    {
      SignedPayload(tx, sig);
      AtLeastPlain(tx);
    }
    var plain := PlainSigned(sig);
    assert |Payload(plain, Some(sig))| == 26 + |Tail(sig)|;
  }

  lemma PlainSigned(sig: Sig) returns (plain: Tx)
    ensures |plain.to| == 20 && plain.data == [] && |Payload(plain, Some(sig))| == 26 + |Tail(sig)|
  {
    hide Payload, Tail, Item;
    plain := Plain(NOTHING, [], 0);
    PlainLength([], 0);
    EmptyItem([]);
    SignedPayload(plain, sig);
  }

  /** As it has for numbers r and s of more than 16 bytes. */
  lemma LargeScalars(sig: Sig)
    requires Scalar(sig.r) >= B128 && Scalar(sig.s) >= B128
    ensures |Tail(sig)| >= 37
  {
    hide BE, Scalar, Item, Pow;
    Pow256Sixteen();
    BELengthAtLeast(Scalar(sig.r), 16);
    BELengthAtLeast(Scalar(sig.s), 16);
    WordFits(sig.v);
    ScalarFits(sig.r);
    ScalarFits(sig.s);
    ItemNonEmpty(BE(sig.v));
    ItemLength(BE(Scalar(sig.r)));
    ItemLength(BE(Scalar(sig.s)));
  }

  // ---------------------------------------------------------------- where the encoding is wrong

  /** Whatever the buffer holds and whatever lies behind the structs, the encoding is not the transaction's. */
  ghost predicate NeverRight(tx: Tx, sig: Option<Sig>)
    requires |tx.to| == 20 && |tx.data| + 5 < 0x1_0000_0000
  {
    forall buf, b ::
      Sized(tx, b) && AllFit(Contents(tx, sig, b)) && Room(|Items(Contents(tx, sig, b))|, |buf|) ==>
        var (out, ret) := Image(buf, Contents(tx, sig, b));
        Fits(|Payload(tx, sig)|) && ret <= |out| && out[..ret] != List(Payload(tx, sig))
  }

  lemma NotEncodable(tx: Tx, sig: Option<Sig>)
    requires |tx.to| == 20 && |tx.data| + 5 < 0x1_0000_0000 && !Encodable(tx, sig)
    ensures NeverRight(tx, sig)
  {
    hide Contents, Image, Items, Encodable, Payload, List, Room, AllFit;
    forall buf, b | Sized(tx, b) && AllFit(Contents(tx, sig, b)) && Room(|Items(Contents(tx, sig, b))|, |buf|)
      ensures var (out, ret) := Image(buf, Contents(tx, sig, b));
              Fits(|Payload(tx, sig)|) && ret <= |out| && out[..ret] != List(Payload(tx, sig))
    {
      EncodingIff(buf, tx, sig, b);
    }
  }

  /** 29 bytes of data and nothing else: a payload of 55 bytes. */
  lemma FiftyFiveBytes()
    ensures |Payload(Plain(NOTHING, Zeros(29), 0), None)| == 55 && NeverRight(Plain(NOTHING, Zeros(29), 0), None)
  {
    hide Payload, NeverRight, Image;
    PlainLength(Zeros(29), 0);
    ShortFits(29);
    assert |Item(Zeros(29))| == 30 by { hide Zeros; }
    NotEncodable(Plain(NOTHING, Zeros(29), 0), None);
  }

  /** 2^16 bytes of data. */
  lemma TooManyBytes(data: seq<byte>)
    requires data == Zeros(0x1_0000)
    ensures NeverRight(Plain(NOTHING, data, 0), None)
  {
    hide Payload, NeverRight, Image, Zeros, Item;
    PlainLength(data, 0);
    ItemLength(data);
    NotEncodable(Plain(NOTHING, data, 0), None);
  }

  /** The values 2^64 and 2^128: the first is not read, of the second the leading zeros are kept. */
  lemma ValuesMisread()
    ensures Number(Word4(0, 0, 1, 0)) == 0x1_0000_0000_0000_0000 && NeverRight(Plain(Word4(0, 0, 1, 0), [], 0), None)
    ensures Number(Word4(0, 1, 0, 0)) == B128 && NeverRight(Plain(Word4(0, 1, 0, 0), [], 0), None)
  {
    hide Payload, NeverRight, Image;
    NotEncodable(Plain(Word4(0, 0, 1, 0), [], 0), None);
    NotEncodable(Plain(Word4(0, 1, 0, 0), [], 0), None);
  }

  /** Data of one zero byte, and empty data behind a pointer whose lowest byte is 4. */
  lemma DataMisread()
    ensures NeverRight(Plain(NOTHING, [0], 0), None) && NeverRight(Plain(NOTHING, [], 4), None)
  {
    hide Payload, NeverRight, Image;
    NotEncodable(Plain(NOTHING, [0], 0), None);
    NotEncodable(Plain(NOTHING, [], 4), None);
  }

  lemma OneIsNotMirrored(x: uint64)
    requires x == 1
    ensures !Mirrored(x)
  {
    hide LE, BEFixed, Mirrored, Zeros;
    MirroredIff(x);
    LETail(x, 8);
    SmallBytes(x, 8);
    assert BEFixed(x, 8)[0] == Zeros(7)[0] == 0;
  }

  /** A signature whose r starts with a zero byte, and one whose r is a single word. */
  lemma ScalarsMisread(sig: Sig)
    requires sig.r == Word4(0x100, 0, 0, 0) || sig.r == Word4(0, 0, 0, 1)
    ensures NeverRight(Plain(NOTHING, [], 0), Some(sig))
  {
    hide Payload, NeverRight, Image, Mirrored, ValueRight, Zeros;
    OneIsNotMirrored(1);
    NotEncodable(Plain(NOTHING, [], 0), Some(sig));
  }

  // ---------------------------------------------------------------- the code

  class Transaction {
    var nonce: uint32
    var gasPrice: uint32
    var gasLimit: uint32
    const to: array<byte>
    const value: U256
    var data: array?<byte>
    var dataLen: nat
    var pointerByte: byte    // the lowest byte of the data pointer

    /** A transaction set to zero. */
    constructor ()
      ensures Valid() && fresh(to) && fresh(value) && fresh(value.Repr()) && data == null
    {
      nonce, gasPrice, gasLimit := 0, 0, 0;
      to := new byte[20];
      value := new U256();
      data, dataLen, pointerByte := null, 0, 0;
    }

    ghost predicate Valid()
      reads this
    {
      && to.Length == 20 && value.Valid()
      && (data != null ==> dataLen <= data.Length)
      && dataLen + 5 < 0x1_0000_0000
      && (data == null ==> pointerByte == 0)
    }

    ghost function Get(): (tx: Tx)
      requires Valid()
      reads this, to, value.upper, value.lower, data
      ensures |tx.to| == 20 && |tx.data| + 5 < 0x1_0000_0000
    {
      Tx(nonce, gasPrice, gasLimit, to[..], WordsOf(value),
         if data == null || dataLen == 0 then [] else data[..dataLen], pointerByte)
    }

    /** tx_set_value_u64: the value becomes a number of one word, which is encoded faithfully. */
    method SetValueU64(val: uint64)
      requires Valid()
      modifies value.Repr()
      ensures Number(WordsOf(value)) == val && ValueRight(WordsOf(value))
    {
      SetUint64(value, val);
    }
  }

  class Signature {
    const r: U256
    const s: U256
    var v: byte

    constructor ()
      ensures Valid() && fresh(r) && fresh(s) && fresh(r.Repr()) && fresh(s.Repr())
    {
      r := new U256();
      s := new U256();
      v := 0;
    }

    ghost predicate Valid() {
      r.Valid() && s.Valid() && r.Repr() !! s.Repr()
    }

    ghost function Get(): Sig
      reads this, r.upper, r.lower, s.upper, s.lower
    {
      Sig(v, WordsOf(r), WordsOf(s))
    }
  }

  /** The bookkeeping after each item: a uint16_t length, pointer and total. */
  function Advance(p: nat, total: nat, n: nat): (nat, nat) {
    (p + n % 0x1_0000, (total + n % 0x1_0000) % 0x1_0000)
  }

  method PutInteger(buf: array<byte>, p: nat, total: nat, val: uint64) returns (p': nat, total': nat)
    requires Fits(|BE(val)|) && p + |Item(BE(val))| <= buf.Length
    modifies buf
    ensures Cursor(buf[..], p', total') == Put(Cursor(old(buf[..]), p, total), BE(val))
  {
    var n := EncodeInteger(buf, p, val);
    var r := Advance(p, total, n);
    p', total' := r.0, r.1;
  }

  method PutItem(buf: array<byte>, p: nat, total: nat, x: seq<byte>) returns (p': nat, total': nat)
    requires |x| + 5 < 0x1_0000_0000 && Fits(|Normalise(x)|) && p + |Item(Normalise(x))| <= buf.Length
    modifies buf
    ensures Cursor(buf[..], p', total') == Put(Cursor(old(buf[..]), p, total), Normalise(x))
  {
    var n := EncodeItem(buf, p, x);
    var r := Advance(p, total, n);
    p', total' := r.0, r.1;
  }

  method PutUint256(buf: array<byte>, p: nat, total: nat, val: U256, beyond: seq<byte>) returns (p': nat, total': nat)
    requires |beyond| == 28
    requires var x := Content256(WordsOf(val), beyond);
             Fits(|x|) && p + |Item(x)| <= buf.Length
    modifies buf
    ensures Cursor(buf[..], p', total') == Put(Cursor(old(buf[..]), p, total), Content256(WordsOf(val), beyond))
  {
    var n := EncodeUint256(buf, p, val, beyond);
    var r := Advance(p, total, n);
    p', total' := r.0, r.1;
  }

  /** The room that is left after the first k items. */
  lemma {:induction false} PutNext(c: Cursor, xs: seq<seq<byte>>, k: nat)
    requires AllFit(xs) && c.p + |Items(xs)| <= |c.buf| && k < |xs|
    ensures AllFit(xs[..k]) && AllFit(xs[..k + 1])
    ensures c.p + |Items(xs[..k])| <= |c.buf| && c.p + |Items(xs[..k + 1])| <= |c.buf|
    ensures Fits(|xs[k]|) && PutAll(c, xs[..k]).p + |Item(xs[k])| <= |c.buf|
    ensures PutAll(c, xs[..k + 1]) == Put(PutAll(c, xs[..k]), xs[k])
    decreases k
  {
    hide Item, Overwrite;
    ItemsPrefix(xs, k);
    ItemsPrefix(xs, k + 1);
    if k > 0 {
      PutNext(Put(c, xs[0]), xs[1..], k - 1);
      assert xs[..k][1..] == xs[1..][..k - 1] && xs[..k + 1][1..] == xs[1..][..k];
    }
  }

  lemma ItemsPrefix(xs: seq<seq<byte>>, k: nat)
    requires AllFit(xs) && k <= |xs|
    ensures AllFit(xs[..k]) && |Items(xs[..k])| <= |Items(xs)|
    ensures k < |xs| ==> |Items(xs[..k])| + |Item(xs[k])| <= |Items(xs)|
  {
    hide Item;
    assert xs[..k] + xs[k..] == xs;
    ItemsAppend(xs[..k], xs[k..]);
  }

  ghost function SigOf(sig: Signature?): Option<Sig>
    reads sig, if sig == null then {} else sig.r.Repr() + sig.s.Repr()
  {
    if sig == null then None else Some(sig.Get())
  }

  /** The first six items. */
  method EncodeFields(tx: Transaction, buf: array<byte>, b: Beyond, ghost xs: seq<seq<byte>>)
    returns (p: nat, total: nat)
    requires tx.Valid() && buf != tx.to && buf != tx.data && Sized(tx.Get(), b)
    requires AllFit(xs) && |Items(xs)| <= buf.Length && |xs| >= 6 && xs[..6] == Contents(tx.Get(), None, b)
    modifies buf
    ensures AllFit(xs[..6]) && |Items(xs[..6])| <= buf.Length
    ensures Cursor(buf[..], p, total) == PutAll(Cursor(old(buf[..]), 0, 0), xs[..6])
  {
    hide BE, Item, Items, Content256, Put, PutAll, Overwrite;
    ghost var c := Cursor(buf[..], 0, 0);
    assert forall k :: 0 <= k < 6 ==> xs[k] == xs[..6][k];
    PutAllNone(c, xs);
    PutNext(c, xs, 0);
    p, total := PutInteger(buf, 0, 0, tx.nonce);
    PutNext(c, xs, 1);
    p, total := PutInteger(buf, p, total, tx.gasPrice);
    PutNext(c, xs, 2);
    p, total := PutInteger(buf, p, total, tx.gasLimit);
    PutNext(c, xs, 3);
    p, total := PutItem(buf, p, total, tx.to[..]);
    PutNext(c, xs, 4);
    p, total := PutUint256(buf, p, total, tx.value, b.value);
    PutNext(c, xs, 5);
    if tx.data == null || tx.dataLen == 0 {
      p, total := PutItem(buf, p, total, [tx.pointerByte]);
    } else {
      p, total := PutItem(buf, p, total, tx.data[..tx.dataLen]);
    }
  }

  lemma PutAllNone(c: Cursor, xs: seq<seq<byte>>)
    requires c.p <= |c.buf|
    ensures AllFit(xs[..0]) && |Items(xs[..0])| == 0 && PutAll(c, xs[..0]) == c
  {
  }

  /** The three items of a signature. */
  method EncodeSignature(sig: Signature, buf: array<byte>, p0: nat, total0: nat, b: Beyond,
                         ghost c: Cursor, ghost xs: seq<seq<byte>>) returns (p: nat, total: nat)
    requires sig.Valid() && |b.r| == |b.s| == 28 && |xs| == 9
    requires AllFit(xs) && c.p + |Items(xs)| <= |c.buf| == buf.Length
    requires xs[6..] == [BE(sig.v), Content256(WordsOf(sig.r), b.r), Content256(WordsOf(sig.s), b.s)]
    requires AllFit(xs[..6]) && c.p + |Items(xs[..6])| <= |c.buf| && Cursor(buf[..], p0, total0) == PutAll(c, xs[..6])
    modifies buf
    ensures Cursor(buf[..], p, total) == PutAll(c, xs)
  {
    hide BE, Item, Items, Content256, Put, PutAll, Overwrite;
    assert xs[6] == xs[6..][0] && xs[7] == xs[6..][1] && xs[8] == xs[6..][2];
    PutNext(c, xs, 6);
    p, total := PutInteger(buf, p0, total0, sig.v);
    PutNext(c, xs, 7);
    p, total := PutUint256(buf, p, total, sig.r, b.r);
    PutNext(c, xs, 8);
    p, total := PutUint256(buf, p, total, sig.s, b.s);
    assert xs[..9] == xs;
  }

  /** The payload moved up behind the header. */
  method Prepend(buf: array<byte>, p: nat, total: nat) returns (ret: nat)
    requires total < 0x1_0000 && Fits(total) && total + HeaderLength(total) <= buf.Length
    modifies buf
    ensures (buf[..], ret) == Finish(Cursor(old(buf[..]), p, total))
  {
    hide BE, ArrayHeader, Overwrite;
    var headerLen := HeaderLen(total);
    OverwriteIs(buf[..], headerLen, buf[..total]);
    MoveRight(buf, total, headerLen);
    HeaderFits(total);
    var n := EncodeArrayHeader(buf, 0, total);
    ret := (total + headerLen) % 0x1_0000;
  }

  /** tx_encode: the buffer and the returned length are the image of the transaction's contents. */
  method Encode(tx: Transaction, sig: Signature?, buf: array<byte>, b: Beyond) returns (ret: nat)
    requires tx.Valid() && (sig != null ==> sig.Valid())
    requires buf != tx.to && buf != tx.data && Sized(tx.Get(), b)
    requires AllFit(Contents(tx.Get(), SigOf(sig), b))
    requires Room(|Items(Contents(tx.Get(), SigOf(sig), b))|, buf.Length)
    modifies buf
    ensures (buf[..], ret) == Image(old(buf[..]), Contents(tx.Get(), SigOf(sig), b))
  {
    ghost var xs := Contents(tx.Get(), SigOf(sig), b);
    ghost var c := Cursor(buf[..], 0, 0);
    assert xs[..6] == Contents(tx.Get(), None, b);
    hide Items, PutAll, Finish, Room, HeaderLength, Content256, Fits;
    PutAllTotal(c, xs);
    RoomToFinish(|Items(xs)|, buf.Length);
    var p, total := EncodeFields(tx, buf, b, xs);
    if sig != null {
      p, total := EncodeSignature(sig, buf, p, total, b, c, xs);
    } else {
      assert xs[..6] == xs;
    }
    ret := Prepend(buf, p, total);
  }

  // ---------------------------------------------------------------- signing

  /** The 65 bytes a signer returns: r and s as big-endian numbers, then v. */
  type RawSignature = m: seq<byte> | |m| == 65 witness Zeros(65)

  /** 32 bytes of memory as the words of a uint256_t. */
  function WordsIn(m: seq<byte>): (w: Word4)
    requires |m| == 32
  {
    Word4(Word(m[0..8]), Word(m[8..16]), Word(m[16..24]), Word(m[24..32]))
  }

  lemma MemoryOfWordsIn(m: seq<byte>)
    requires |m| == 32
    ensures var w := WordsIn(m);
            MemoryOf(w.uu, w.ul, w.lu, w.ll) == m
  {
    hide LE, Word;
    assert m == m[0..8] + m[8..16] + m[16..24] + m[24..32];
  }

  function SigIn(m: RawSignature): Sig {
    Sig(m[64], WordsIn(m[..32]), WordsIn(m[32..64]))
  }

  /** The v of a signed transaction is the last byte the signer returned, its r and s are the numbers of the first 32
      and the next 32, big-endian. Each of these is encoded right exactly when its first byte is not 0, or when it is
      eight bytes that read the same backwards. */
  lemma SignersNumbers(m: RawSignature)
    ensures SigIn(m).v == m[64]
    ensures Scalar(SigIn(m).r) == FromBE(m[..32]) && Scalar(SigIn(m).s) == FromBE(m[32..64])
    ensures ScalarRight(SigIn(m).r) <==>
            m[0] != 0 || (m[..24] == Zeros(24) && Mirrored(Word(m[24..32])))
    ensures ScalarRight(SigIn(m).s) <==>
            m[32] != 0 || (m[32..56] == Zeros(24) && Mirrored(Word(m[56..64])))
  {
    hide BE, LE, Word, MemoryOf, Mirrored, FromBE;
    ScalarOfBytes(m[..32]);
    ScalarOfBytes(m[32..64]);
    assert m[..32][..24] == m[..24] && m[..32][24..] == m[24..32];
    assert m[32..64][..24] == m[32..56] && m[32..64][24..] == m[56..64];
  }

  /** The fields, written out. */
  lemma FieldsOf(t: Tx, m: RawSignature)
    ensures Fields(t, None) == [BE(t.nonce), BE(t.gasPrice), BE(t.gasLimit), t.to, BE(Number(t.value)), t.data]
    ensures Fields(t, Some(SigIn(m))) ==
            [BE(t.nonce), BE(t.gasPrice), BE(t.gasLimit), t.to, BE(Number(t.value)), t.data,
             BE(m[64]), BE(FromBE(m[..32])), BE(FromBE(m[32..64]))]
  {
    hide BE, FromBE, Scalar, ScalarRight;
    SignersNumbers(m);
  }

  lemma WordZeroIff(m: seq<byte>)
    requires |m| == 8
    ensures Word(m) == 0 <==> m == Zeros(8)
  {
    hide LE, Word;
    LEZero(8);
    WordOfLE(0);
  }

  lemma {:induction false} ScalarOfBytes(m: seq<byte>)
    requires |m| == 32
    ensures Scalar(WordsIn(m)) == FromBE(m)
    ensures ScalarRight(WordsIn(m)) <==> m[0] != 0 || (m[..24] == Zeros(24) && Mirrored(Word(m[24..])))
  {
    hide LE, Word, FromBE, Mirrored, Zeros;
    MemoryOfWordsIn(m);
    FirstByte(WordsIn(m));
    WordZeroIff(m[0..8]);
    WordZeroIff(m[8..16]);
    WordZeroIff(m[16..24]);
    assert m[24..] == m[24..32];
    ThreeZeroWords(m[..24], m[0..8], m[8..16], m[16..24]);
  }

  lemma ThreeZeroWords(m: seq<byte>, a: seq<byte>, b: seq<byte>, c: seq<byte>)
    requires |a| == |b| == |c| == 8 && m == a + b + c
    ensures m == Zeros(24) <==> a == Zeros(8) && b == Zeros(8) && c == Zeros(8)
  {
    ZerosSplit(8, 8);
    ZerosSplit(16, 8);
    hide Zeros;
    var z := Zeros(8);
    assert Zeros(24) == z + z + z;
    assert (a + b + c)[..8] == a && (a + b + c)[8..16] == b && (a + b + c)[16..] == c;
    assert (z + z + z)[..8] == z && (z + z + z)[8..16] == z && (z + z + z)[16..] == z;
  }

  /** memcpy of 32 bytes onto a uint256_t. */
  method LoadMemory(target: U256, m: seq<byte>)
    requires target.Valid() && |m| == 32
    modifies target.Repr()
    ensures WordsOf(target) == WordsIn(m)
  {
    target.upper.upper := Word(m[0..8]);
    target.upper.lower := Word(m[8..16]);
    target.lower.upper := Word(m[16..24]);
    target.lower.lower := Word(m[24..32]);
  }

  /** eth_sign_data as far as it is not cryptography: the signer's 65 bytes, taken apart. */
  method Unpack(m: RawSignature) returns (sig: Signature)
    ensures fresh(sig) && sig.Valid() && fresh(sig.r.Repr()) && fresh(sig.s.Repr())
    ensures sig.Get() == SigIn(m)
  {
    sig := new Signature();
    sig.v := m[64];
    LoadMemory(sig.r, m[..32]);
    LoadMemory(sig.s, m[32..64]);
  }

  /** Whatever lies behind the structs, the payload is as long. */
  lemma BeyondSameLength(tx: Tx, b0: Beyond, b: Beyond)
    requires Sized(tx, b0) && Sized(tx, b) && AllFit(Contents(tx, None, b0)) && AllFit(Contents(tx, None, b))
    ensures |Items(Contents(tx, None, b))| <= |Items(Contents(tx, None, b0))|
  {
    var xs, ys := Contents(tx, None, b), Contents(tx, None, b0);
    assert forall i :: 0 <= i < 6 && i != 4 ==> xs[i] == ys[i];
    assert |Item(xs[4])| <= |Item(ys[4])| by { hide BE, LE; }
    hide Contents, Item;
    ItemsNoLonger(xs, ys, 0);
  }

  lemma ContentsWithSignature(tx: Tx, sig: Sig, b0: Beyond, b: Beyond)
    requires Sized(tx, b0) && Sized(tx, b) && AllFit(Contents(tx, None, b0))
    ensures AllFit(Contents(tx, Some(sig), b))
    ensures |Items(Contents(tx, Some(sig), b))| <= |Items(Contents(tx, None, b0))| + 68
  {
    AllFitContents(tx, Some(sig), b);
    var tail := [BE(sig.v), Content256(sig.r, b.r), Content256(sig.s, b.s)];
    AllFitContents(tx, None, b);
    BeyondSameLength(tx, b0, b);
    assert Contents(tx, Some(sig), b) == Contents(tx, None, b) + tail;
    assert AllFit(tail) by {
      WordFits(sig.v);
      Content256Small(sig.r, b.r);
      Content256Small(sig.s, b.s);
    }
    hide Contents, Content256, Item;
    ItemsAppend(Contents(tx, None, b), tail);
    ItemsOfThree(BE(sig.v), Content256(sig.r, b.r), Content256(sig.s, b.s));
    ByteItem(sig.v);
    Content256Item(sig.r, b.r);
    Content256Item(sig.s, b.s);
  }

  lemma ByteItem(v: byte)
    ensures Fits(|BE(v)|) && |Item(BE(v))| <= 2
  {
    SmallLength(v);
    ShortFits(1);
    ShortFits(0);
  }

  lemma RoomForAny(n: nat, size: nat)
    requires n + 3 <= size
    ensures Room(n, size)
  {
    if n < 0x1_0000 {
      ShortFits(n);
    }
  }

  /** The first pass: what the signer is shown. */
  method EncodeUnsigned(tx: Transaction, buf: array<byte>, b0: Beyond) returns (n: nat)
    requires tx.Valid() && buf != tx.to && buf != tx.data
    requires Sized(tx.Get(), b0) && AllFit(Contents(tx.Get(), None, b0))
    requires |Items(Contents(tx.Get(), None, b0))| + 3 <= buf.Length
    modifies buf
    ensures n <= buf.Length && Fits(|Payload(tx.Get(), None)|)
    ensures buf[..n] == List(Payload(tx.Get(), None)) <==> Encodable(tx.Get(), None)
    ensures Encodable(tx.Get(), None) ==> ReadList(buf[..n]) == Some(Fields(tx.Get(), None))
  {
    ghost var t := tx.Get();
    hide Contents, Fields, Items, Image, Room, Encodable, List, Item, ReadList, Payload;
    RoomForAny(|Items(Contents(t, None, b0))|, buf.Length);
    EncodingIff(buf[..], t, None, b0);
    if Encodable(t, None) {
      RoundTrip(buf[..], t, None, b0);
    }
    n := Encode(tx, null, buf, b0);
  }

  lemma SignedOutcome(buf: seq<byte>, t: Tx, g: Sig, b0: Beyond, b: Beyond)
    requires Sized(t, b0) && Sized(t, b) && AllFit(Contents(t, None, b0))
    requires |Items(Contents(t, None, b0))| + 68 + 3 <= |buf|
    ensures AllFit(Contents(t, Some(g), b)) && Room(|Items(Contents(t, Some(g), b))|, |buf|)
    ensures Fits(|Payload(t, Some(g))|)
    ensures var (out, ret) := Image(buf, Contents(t, Some(g), b));
            && ret <= |out| && (out[..ret] == List(Payload(t, Some(g))) <==> Encodable(t, Some(g)))
            && (Encodable(t, Some(g)) ==> ReadList(out[..ret]) == Some(Fields(t, Some(g))))
  {
    hide Contents, Fields, Items, Image, Room, Encodable, List, Item;
    ContentsWithSignature(t, g, b0, b);
    RoomForAny(|Items(Contents(t, Some(g), b))|, |buf|);
    EncodingIff(buf, t, Some(g), b);
    if Encodable(t, Some(g)) {
      RoundTrip(buf, t, Some(g), b);
    }
  }

  /** The second pass, with the signature. */
  method EncodeSigned(tx: Transaction, m: RawSignature, buf: array<byte>, ghost b0: Beyond, b: Beyond) returns (n: nat)
    requires tx.Valid() && buf != tx.to && buf != tx.data
    requires Sized(tx.Get(), b0) && Sized(tx.Get(), b) && AllFit(Contents(tx.Get(), None, b0))
    requires |Items(Contents(tx.Get(), None, b0))| + 68 + 3 <= buf.Length
    modifies buf
    ensures n <= buf.Length && Fits(|Payload(tx.Get(), Some(SigIn(m)))|)
    ensures buf[..n] == List(Payload(tx.Get(), Some(SigIn(m)))) <==> Encodable(tx.Get(), Some(SigIn(m)))
    ensures Encodable(tx.Get(), Some(SigIn(m))) ==> ReadList(buf[..n]) == Some(Fields(tx.Get(), Some(SigIn(m))))
  {
    ghost var t, g := tx.Get(), SigIn(m);
    hide Contents, Fields, Items, Image, Room, Encodable, List, Item, Payload, SigIn, ReadList, AllFit;
    SignedOutcome(buf[..], t, g, b0, b);
    var sig := Unpack(m);
    n := Encode(tx, sig, buf, b);
  }

  /** tx_encode_sign: the signer is shown the unsigned encoding, and its answer goes into the signed
      one. When both are encodable, these are the Yellow Paper's encodings of the six and the nine
      fields: nonce, gas price, gas limit, recipient, value and data, and the signer's v, r and s. The buffer must have
      room for any signature and header. */
  method EncodeSign(tx: Transaction, signer: seq<byte> -> RawSignature, buf: array<byte>, b0: Beyond, b: Beyond)
    returns (ret: nat, ghost shown: seq<byte>)
    requires tx.Valid() && buf != tx.to && buf != tx.data
    requires Sized(tx.Get(), b0) && Sized(tx.Get(), b)
    requires AllFit(Contents(tx.Get(), None, b0))
    requires |Items(Contents(tx.Get(), None, b0))| + 68 + 3 <= buf.Length
    modifies buf
    ensures var sig := Some(SigIn(signer(shown)));
            && ret <= buf.Length && Fits(|Payload(tx.Get(), None)|) && Fits(|Payload(tx.Get(), sig)|)
            && (shown == List(Payload(tx.Get(), None)) <==> Encodable(tx.Get(), None))
            && (buf[..ret] == List(Payload(tx.Get(), sig)) <==> Encodable(tx.Get(), sig))
    ensures Encodable(tx.Get(), None) ==>
              ReadList(shown) == Some([BE(tx.nonce), BE(tx.gasPrice), BE(tx.gasLimit), tx.to[..],
                                       BE(tx.value.Value()),
                                       if tx.data == null || tx.dataLen == 0 then [] else tx.data[..tx.dataLen]])
    ensures var m := signer(shown);
            Encodable(tx.Get(), Some(SigIn(m))) ==>
              ReadList(buf[..ret]) == Some([BE(tx.nonce), BE(tx.gasPrice), BE(tx.gasLimit), tx.to[..],
                                            BE(tx.value.Value()),
                                            if tx.data == null || tx.dataLen == 0 then [] else tx.data[..tx.dataLen],
                                            BE(m[64]), BE(FromBE(m[..32])), BE(FromBE(m[32..64]))])
  {
    hide BE, FromBE, Contents, Fields, Items, Encodable, List, Item, Payload, ReadList, SigIn, AllFit, Sized, Number,
      U256.Value;
    NumberIsValue(tx.value);
    var unsignedLen := EncodeUnsigned(tx, buf, b0);
    shown := buf[..unsignedLen];
    var m := signer(buf[..unsignedLen]);
    ret := EncodeSigned(tx, m, buf, b0, b);
    FieldsOf(tx.Get(), m);
  }
}
