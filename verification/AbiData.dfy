/** The data block of a contract call (eth/data.c), and the amount of an ERC-20 transfer in it
    (zephyr-wallet/erc20_shell.c). */
module AbiData {
  import opened Words
  import opened Bytes
  import opened Uint256
  import opened Multiplication
  import opened Uint256Text
  import opened IntMath

  /** compute_item_index: items of 32 bytes behind a selector of 4. */
  function ItemIndex(index: nat): nat {
    index * 32 + 4
  }

  /** The 32 bytes of an item. */
  function Item(data: seq<byte>, index: nat): (s: seq<byte>)
    requires ItemIndex(index) + 32 <= |data|
    ensures |s| == 32
  {
    data[ItemIndex(index)..ItemIndex(index) + 32]
  }

  /** The block with one item replaced. */
  function WithItem(data: seq<byte>, index: nat, content: seq<byte>): (d: seq<byte>)
    requires ItemIndex(index) + 32 <= |data| && |content| == 32
    ensures |d| == |data|
  {
    Overwrite(data, ItemIndex(index), content)
  }

  /** Item i of a block is its bytes from 4 + 32 * i on, behind the selector and the items before it. */
  lemma ItemPlace(data: seq<byte>, i: nat, content: seq<byte>)
    requires 36 + 32 * i <= |data| && |content| == 32
    ensures ItemIndex(i) + 32 <= |data| && Item(data, i) == data[4 + 32 * i..36 + 32 * i]
    ensures WithItem(data, i, content) == data[..4 + 32 * i] + content + data[36 + 32 * i..]
  {
  }

  /** Items do not overlap each other or the selector. */
  lemma ItemsApart(data: seq<byte>, i: nat, content: seq<byte>, j: nat)
    requires ItemIndex(i) + 32 <= |data| && |content| == 32 && ItemIndex(j) + 32 <= |data|
    ensures Item(WithItem(data, i, content), j) == if i == j then content else Item(data, j)
    ensures WithItem(data, i, content)[..4] == data[..4]
  {
    var d := WithItem(data, i, content);
    if i == j {
      assert d[ItemIndex(i)..ItemIndex(i) + 32] == content;
    } else if i < j {
      assert ItemIndex(i) + 32 <= ItemIndex(j);
    } else {
      assert ItemIndex(j) + 32 <= ItemIndex(i);
    }
  }

  /** data_block_t. */
  class DataBlock {
    const data: array<byte>
    const dataLen: nat

    constructor (data: array<byte>, dataLen: nat)
      requires dataLen <= data.Length
      ensures this.data == data && this.dataLen == dataLen
    {
      this.data, this.dataLen := data, dataLen;
    }

    /** The block is long enough for the item. */
    ghost predicate Has(idx: nat) {
      36 + 32 * idx <= dataLen <= data.Length
    }

    /** item_clear. */
    method ItemClear(idx: nat)
      requires Has(idx)
      modifies data
      ensures data[..] == WithItem(old(data[..]), idx, Zeros(32))
      ensures data[..] == old(data[..])[..4 + 32 * idx] + Zeros(32) + old(data[..])[36 + 32 * idx..]
    {
      ItemPlace(data[..], idx, Zeros(32));
      var itemIdx := ItemIndex(idx);
      CopyBytes(data, itemIdx, Zeros(32));
    }

    /** encode_uint: the last eight bytes of a cleared item. */
    method EncodeUint(idx: nat, val: uint64)
      requires Has(idx)
      modifies data
      ensures data[..] == WithItem(old(data[..]), idx, BEFixed(val, 32))
      ensures data[..] == old(data[..])[..4 + 32 * idx] + BEFixed(val, 32) + old(data[..])[36 + 32 * idx..]
    {
      hide BEFixed, Zeros, WithItem, Overwrite;
      ghost var was := data[..];
      ItemPlace(was, idx, BEFixed(val, 32));
      ItemClear(idx);
      FillWord(idx, val, was);
    }

    method FillWord(idx: nat, val: uint64, ghost was: seq<byte>)
      requires Has(idx) && |was| == data.Length && data[..] == WithItem(was, idx, Zeros(32))
      modifies data
      ensures data[..] == WithItem(was, idx, BEFixed(val, 32))
    {
      hide BEFixed, Pow, Zeros, WithItem;
      var itemIdx := ItemIndex(idx);
      StoreSwapped(data, itemIdx + 24, val);
      SmallWord(val);
      ZerosSplit(24, 8);
      LastBytes(was, idx, Zeros(24), Zeros(8), BEFixed(val, 8));
    }

    /** encode_uint256, which copies the 32 bytes of the struct as they are in memory. */
    method EncodeUint256(idx: nat, val: array<byte>)
      requires Has(idx) && val != data && val.Length == 32
      modifies data
      ensures data[..] == WithItem(old(data[..]), idx, val[..])
      ensures data[..] == old(data[..])[..4 + 32 * idx] + val[..] + old(data[..])[36 + 32 * idx..]
    {
      hide Zeros, Overwrite;
      ItemPlace(data[..], idx, val[..]);
      ItemClear(idx);
      CopyBytes(data, ItemIndex(idx), val[..]);
      OverwriteAgain(old(data[..]), ItemIndex(idx), Zeros(32), val[..]);
    }

    /** decode_uint: the low word of the item. */
    method DecodeUint(idx: nat) returns (val: uint64)
      requires Has(idx)
      ensures val == FromBE(Item(data[..], idx)[24..])
      ensures val == FromBE(data[28 + 32 * idx..36 + 32 * idx])
    {
      ItemPlace(data[..], idx, Zeros(32));
      var itemIdx := ItemIndex(idx);
      ghost var m := Item(data[..], idx)[24..];
      var word := LoadWord(data, itemIdx + 24);
      assert data[itemIdx + 24..itemIdx + 32] == m;
      SwappedWord(m);
      val := ByteSwap64(word);
    }
  }

  /** Overwriting the last bytes of an item just written. */
  lemma LastBytes(was: seq<byte>, idx: nat, a: seq<byte>, b: seq<byte>, c: seq<byte>)
    requires ItemIndex(idx) + 32 <= |was| && |a| + |b| == 32 && |b| == |c|
    ensures var d := WithItem(was, idx, a + b);
            d[..ItemIndex(idx) + |a|] + c + d[ItemIndex(idx) + 32..] == WithItem(was, idx, a + c)
  {
  }

  /** Reading a uint64_t through a pointer, on a little-endian host. */
  method LoadWord(data: array<byte>, off: nat) returns (word: uint64)
    requires off + 8 <= data.Length
    ensures word == FromLE(data[off..off + 8])
  {
    hide FromLE, LE, Pow;
    LEOfFromLE(data[off..off + 8]);
    Pow256Words();
    word := FromLE(data[off..off + 8]);
  }

  /** decode_uint inverts encode_uint. */
  lemma DecodeInvertsEncode(data: seq<byte>, idx: nat, val: uint64)
    requires ItemIndex(idx) + 32 <= |data|
    ensures FromBE(Item(WithItem(data, idx, BEFixed(val, 32)), idx)[24..]) == val
  {
    hide FromBE, BEFixed, Pow, Item, WithItem, Zeros;
    ItemsApart(data, idx, BEFixed(val, 32), idx);
    SmallWord(val);
    Pow256Words();
    FromBEOfBEFixed(val, 8);
    assert BEFixed(val, 32)[24..] == BEFixed(val, 8);
  }

  // ---------------------------------------------------------------- the amount of an ERC-20 transfer

  method Word256(x: uint64) returns (n: U256)
    ensures n.Valid() && fresh(n.Repr()) && n.Value() == x && Limbs64(n) == Limbs(x, 0, 0, 0)
  {
    hide U128.Value, U256.Value;
    n := new U256();
    SetUint64(n, x);
  }

  /** amount * 10^decimals, with the power as ipow gives it. */
  function ScaledAmount(amount: uint64, decimals: byte): nat {
    amount * (Pow(10, decimals) % 0x1_0000_0000_0000_0000)
  }

  method Scale(amount: uint64, decimals: byte) returns (product: U256)
    ensures product.Valid() && fresh(product.Repr()) && product.Value() == ScaledAmount(amount, decimals)
  {
    hide U128.Value, U256.Value, Pow;
    var p := IPow(10, decimals);
    var decimals256 := Word256(p);
    var value256 := Word256(amount);
    product := MulOfWords(value256, decimals256, amount, p);
  }

  method MulOfWords(a: U256, b: U256, ghost x: uint64, ghost y: uint64) returns (product: U256)
    requires a.Valid() && b.Valid() && Limbs64(a) == Limbs(x, 0, 0, 0) && Limbs64(b) == Limbs(y, 0, 0, 0)
    requires a.Value() == x && b.Value() == y
    ensures product.Valid() && fresh(product.Repr()) && product.Value() == x * y
  {
    hide U128.Value, U256.Value, ThirdCarry, Limbs64;
    product := new U256();
    WordsExact(Limbs(x, 0, 0, 0), Limbs(y, 0, 0, 0), x, y);
    Mul256(a, b, product);
  }

  lemma WordsExact(a: Limbs, b: Limbs, x: uint64, y: uint64)
    requires a == Limbs(x, 0, 0, 0) && b == Limbs(y, 0, 0, 0)
    ensures (x * y + ThirdCarry(a, b) * MISPLACED) % B256 == x * y
  {
    hide ThirdCarry;
    OneWordFactorsExact(a, b);
  }

  /** The token amount of erc20 transfer, written big-endian over a uint256_t and copied into item idx. */
  method EncodeAmount(amount: uint64, decimals: byte, blk: DataBlock, idx: nat)
    requires blk.Has(idx)
    modifies blk.data
    ensures blk.data[..] == WithItem(old(blk.data[..]), idx, BEFixed(ScaledAmount(amount, decimals), 32))
    ensures blk.data[..] == old(blk.data[..])[..4 + 32 * idx]
                            + BEFixed(amount * (Pow(10, decimals) % 0x1_0000_0000_0000_0000), 32)
                            + old(blk.data[..])[36 + 32 * idx..]
  {
    hide U128.Value, U256.Value, Pow, BEFixed, ScaledAmount, Overwrite, WithItem;
    var value := AmountBytes(amount, decimals);
    blk.EncodeUint256(idx, value);
    ScaledIs(amount, decimals);
  }

  /** What is written over the uint256_t. */
  method AmountBytes(amount: uint64, decimals: byte) returns (value: array<byte>)
    ensures fresh(value) && value[..] == BEFixed(ScaledAmount(amount, decimals), 32)
  {
    hide U128.Value, U256.Value, Pow, BEFixed, ScaledAmount, Overwrite;
    var product := Scale(amount, decimals);
    value := new byte[32](_ => 0);
    OverwriteWhole(value[..], BEFixed(product.Value(), 32));
    WriteU256BE(product, value, 0);
  }

  lemma OverwriteWhole(s: seq<byte>, t: seq<byte>)
    requires |s| == |t|
    ensures Overwrite(s, 0, t) == t
  {
  }

  lemma ScaledIs(amount: uint64, decimals: byte)
    ensures ScaledAmount(amount, decimals) == amount * (Pow(10, decimals) % 0x1_0000_0000_0000_0000)
  {
    hide Pow;
  }

  /** The item read as a number is amount * 10^decimals exactly with up to 19 decimals: beyond, 10^decimals has
      wrapped, and only the amount 0 is right. */
  lemma AmountExactIff(amount: uint64, decimals: byte)
    ensures FromBE(BEFixed(ScaledAmount(amount, decimals), 32)) == amount * Pow(10, decimals)
            <==> decimals <= 19 || amount == 0
  {
    hide Pow, BEFixed, FromBE;
    var P, D := Pow(10, decimals), Pow(10, decimals) % 0x1_0000_0000_0000_0000;
    PowTenFits(decimals);
    MulMonotonic(amount, 0x1_0000_0000_0000_0000, D);
    Pow256Sixteen();
    FromBEOfBEFixed(ScaledAmount(amount, decimals), 32);
    if amount > 0 {
      MulSwap(amount, D);
      MulSwap(amount, P);
      if D * amount == P * amount {
        CancelFactor(D, P, amount);
      }
    }
  }

  /** One token with 20 decimals does not become 10^20. */
  lemma OneTokenWrong(decimals: byte)
    requires decimals == 20
    ensures FromBE(BEFixed(ScaledAmount(1, decimals), 32)) != Pow(10, decimals)
  {
    hide Pow, BEFixed, FromBE, ScaledAmount;
    AmountExactIff(1, decimals);
  }
}
