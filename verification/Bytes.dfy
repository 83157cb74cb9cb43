/** Byte memory and the packing of integers into it. */
module Bytes {
  import opened Results
  import Bits

  type byte = x: int | 0 <= x < 256

  /** Contents of memory; what an unmapped address holds is of no interest. */
  type Mem = int -> byte

  function Store(m: Mem, addr: int, data: seq<byte>): Mem {
    (a: int) => if addr <= a < addr + |data| then data[a - addr] else m(a)
  }

  function Load(m: Mem, addr: int, size: nat): (data: seq<byte>)
    ensures |data| == size
  {
    seq(size, i requires 0 <= i < size => m(addr + i))
  }

  lemma LoadStoreSame(m: Mem, addr: int, data: seq<byte>)
    ensures Load(Store(m, addr, data), addr, |data|) == data
  {
  }

  lemma LoadStoreApart(m: Mem, addr: int, data: seq<byte>, at: int, size: nat)
    requires at + size <= addr || addr + |data| <= at
    ensures Load(Store(m, addr, data), at, size) == Load(m, at, size)
  {
  }

  // ----- packing -----

  function Pow256(n: nat): (p: int)
    ensures p > 0
  {
    if n == 0 then 1 else 256 * Pow256(n - 1)
  }

  function PackLittle(v: int, width: nat): (bs: seq<byte>)
    ensures |bs| == width
    decreases width
  {
    if width == 0 then [] else [v % 256] + PackLittle(v / 256, width - 1)
  }

  function UnpackLittle(bs: seq<byte>): int {
    if bs == [] then 0 else bs[0] + 256 * UnpackLittle(bs[1..])
  }

  function Reverse(bs: seq<byte>): (r: seq<byte>)
    ensures |r| == |bs|
    ensures forall i :: 0 <= i < |bs| ==> r[i] == bs[|bs| - 1 - i]
  {
    seq(|bs|, i requires 0 <= i < |bs| => bs[|bs| - 1 - i])
  }

  /** struct.pack of an unsigned integer; a value out of range is an error. */
  function Pack(v: int, width: nat, big: bool): Result<seq<byte>> {
    if 0 <= v < Pow256(width) then Ok(PackWord(v, width, big)) else Err(StructError)
  }

  function PackWord(v: int, width: nat, big: bool): (bs: seq<byte>)
    ensures |bs| == width
  {
    if big then Reverse(PackLittle(v, width)) else PackLittle(v, width)
  }

  function Unpack(bs: seq<byte>, big: bool): int {
    if big then UnpackLittle(Reverse(bs)) else UnpackLittle(bs)
  }

  lemma {:induction false} UnpackPackLittle(v: int, width: nat)
    requires 0 <= v < Pow256(width)
    ensures UnpackLittle(PackLittle(v, width)) == v
    decreases width
  {
    if width > 0 {
      assert v / 256 < Pow256(width - 1);
      UnpackPackLittle(v / 256, width - 1);
    }
  }

  /** A value in range survives packing in either byte order. */
  lemma UnpackPack(v: int, width: nat, big: bool)
    requires 0 <= v < Pow256(width)
    ensures Unpack(PackWord(v, width, big), big) == v
  {
    UnpackPackLittle(v, width);
    assert Reverse(Reverse(PackLittle(v, width))) == PackLittle(v, width);
  }

  lemma {:induction false} PackedByte(v: int, width: nat, i: nat)
    requires i < width
    ensures PackLittle(v, width)[i] == v / Pow256(i) % 256
    decreases width
  {
    if i > 0 {
      PackedByte(v / 256, width - 1, i - 1);
      DivDiv(v, Pow256(i - 1));
    }
  }

  lemma DivDiv(v: int, d: int)
    requires d > 0
    ensures v / 256 / d == v / (256 * d)
  {
    var x := v / 256;
    var q, r := x / d, x % d;
    assert x == d * q + r;
    Bits.DivModUnique(v, 256 * d, q, 256 * r + v % 256) by {
      assert v == 256 * (d * q + r) + v % 256;
      assert 256 * (d * q) == (256 * d) * q;
      assert 0 <= 256 * r + v % 256 < 256 * d;
    }
  }

  /** Byte i of a packed word is the one of weight 256 to the power of i, from the low end or from the high one. */
  lemma PackWordByte(v: int, width: nat, i: nat)
    requires i < width
    ensures PackWord(v, width, false)[i] == v / Pow256(i) % 256
    ensures PackWord(v, width, true)[width - 1 - i] == v / Pow256(i) % 256
  {
    PackedByte(v, width, i);
  }

  function LoadWord(m: Mem, addr: int, width: nat, big: bool): int {
    Unpack(Load(m, addr, width), big)
  }

  function StoreWord(m: Mem, addr: int, v: int, width: nat, big: bool): Mem {
    Store(m, addr, PackWord(v, width, big))
  }

  lemma LoadStoreWord(m: Mem, addr: int, v: int, width: nat, big: bool)
    requires 0 <= v < Pow256(width)
    ensures LoadWord(StoreWord(m, addr, v, width, big), addr, width, big) == v
  {
    LoadStoreSame(m, addr, PackWord(v, width, big));
    UnpackPack(v, width, big);
  }

  lemma {:induction false} UnpackLittleRange(bs: seq<byte>)
    ensures 0 <= UnpackLittle(bs) < Pow256(|bs|)
  {
    if bs != [] {
      UnpackLittleRange(bs[1..]);
    }
  }

  /** What is read from a word fits a word. */
  lemma LoadWordRange(m: Mem, addr: int, width: nat, big: bool)
    ensures 0 <= LoadWord(m, addr, width, big) < Pow256(width)
  {
    var bs := Load(m, addr, width);
    UnpackLittleRange(bs);
    UnpackLittleRange(Reverse(bs));
  }
}
