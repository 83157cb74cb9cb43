/** The x86 global descriptor table: descriptor packing and the table in memory. */
module Gdt {
  import opened Bits
  import opened Bytes
  import opened Results

  const ENTRY_SIZE := 8
  const OPSIZE_32 := 4
  const GRANULARITY := 8

  // ----- bit operations -----

  /** Bitwise disjunction. */
  function Or(x: int, y: int): int {
    x + y - And(x, y)
  }

  lemma {:induction false} AndLow(x: int, y: int, k: nat)
    requires 0 <= y < Pow2(k)
    ensures And(x * Pow2(k), y) == 0
    decreases k
  {
    if k > 0 && x != 0 && y != 0 {
      var z := x * Pow2(k - 1);
      assert x * Pow2(k) == 2 * z;
      AndLow(x, y / 2, k - 1);
      assert y == -1 || And(2 * z, y) == 2 * And(z, y / 2);
    }
  }

  /** Fields that do not overlap are joined by adding them. */
  lemma OrIsSum(x: int, y: int, k: nat)
    requires 0 <= y < Pow2(k)
    ensures Or(x * Pow2(k), y) == x * Pow2(k) + y
  {
    AndLow(x, y, k);
  }

  predicate MaxBits(v: int, n: nat) {
    And(v, Not(Pow2(n) - 1)) == 0
  }

  lemma MaxBitsMeaning(v: int, n: nat)
    ensures MaxBits(v, n) <==> 0 <= v < Pow2(n)
  {
    AndClear(v, n);
    if 0 <= v < Pow2(n) {
      DivModUnique(v, Pow2(n), 0, v);
    }
  }

  lemma Powers()
    ensures Pow2(4) == 0x10 && Pow2(8) == 0x100 && Pow2(12) == 0x1000 && Pow2(16) == 0x1_0000
    ensures Pow2(20) == 0x10_0000 && Pow2(24) == 0x100_0000 && Pow2(32) == 0x1_0000_0000
    ensures Pow2(40) == 0x100_0000_0000 && Pow2(48) == 0x1_0000_0000_0000
    ensures Pow2(52) == 0x10_0000_0000_0000 && Pow2(56) == 0x100_0000_0000_0000
    ensures Pow2(64) == 0x1_0000_0000_0000_0000
  {
    Pow2Plus4(0);
    Pow2Plus4(4);
    Pow2Plus4(8);
    Pow2Plus4(12);
    Pow2Plus4(16);
    Pow2Plus4(20);
    Pow2Plus4(24);
    Pow2Plus4(28);
    Pow2Plus4(32);
    Pow2Plus4(36);
    Pow2Plus4(40);
    Pow2Plus4(44);
    Pow2Plus4(48);
    Pow2Plus4(52);
    Pow2Plus4(56);
    Pow2Plus4(60);
  }

  lemma Pow2Plus4(n: nat)
    ensures Pow2(n + 4) == 16 * Pow2(n)
  {
    assert Pow2(n + 4) == 2 * Pow2(n + 3) && Pow2(n + 3) == 2 * Pow2(n + 2);
    assert Pow2(n + 2) == 2 * Pow2(n + 1) && Pow2(n + 1) == 2 * Pow2(n);
  }

  // ----- descriptors -----

  datatype Fields = Fields(base: int, limit: int, access: int, flags: int) {
    predicate InRange() {
      MaxBits(base, 32) && MaxBits(limit, 20) && MaxBits(access, 8) && MaxBits(flags, 4)
    }
  }

  /** Base 31:24, flags, limit 19:16, access, base 23:0 and limit 15:0 at their places in a 64-bit number. */
  function Joined(baseHi: int, flags: int, limitHi: int, access: int, baseLo: int, limitLo: int): int {
    Or(Or(Or(Or(Or(baseHi * 0x100_0000_0000_0000, flags * 0x10_0000_0000_0000), limitHi * 0x1_0000_0000_0000),
             access * 0x100_0000_0000), baseLo * 0x1_0000), limitLo)
  }

  /** The descriptor as a 64-bit number. */
  function Packed(f: Fields): int {
    Joined(And(f.base / 0x100_0000, 0xff), f.flags, And(f.limit / 0x1_0000, 0xf), f.access,
           And(f.base, 0xff_ffff), And(f.limit, 0xffff))
  }

  function MakeEntry(f: Fields): Result<seq<byte>> {
    if f.InRange() then Pack(Packed(f), ENTRY_SIZE, false) else Err(AssertionError)
  }

  /**
    The layout of a segment descriptor (Intel SDM volume 3A, section 3.4.5): in the low
    doubleword limit 15:0 and base 15:0; in the high one base 23:16, the access byte,
    limit 19:16, the flags and base 31:24.
  */
  function Decoded(e: int): Fields {
    var lo, hi := e % 0x1_0000_0000, e / 0x1_0000_0000;
    Fields(lo / 0x1_0000 + hi % 0x100 * 0x1_0000 + hi / 0x100_0000 * 0x100_0000,
           lo % 0x1_0000 + hi / 0x1_0000 % 0x10 * 0x1_0000,
           hi / 0x100 % 0x100,
           hi / 0x10_0000 % 0x10)
  }

  /** The packed number as a sum of its fields. */
  function Summed(f: Fields): int {
    f.base / 0x100_0000 * 0x100_0000_0000_0000 + f.flags * 0x10_0000_0000_0000 +
    f.limit / 0x1_0000 * 0x1_0000_0000_0000 + f.access * 0x100_0000_0000 +
    f.base % 0x100_0000 * 0x1_0000 + f.limit % 0x1_0000
  }

  predicate Fits(f: Fields) {
    0 <= f.base < 0x1_0000_0000 && 0 <= f.limit < 0x10_0000 && 0 <= f.access < 0x100 && 0 <= f.flags < 0x10
  }

  lemma InRangeFits(f: Fields)
    ensures f.InRange() <==> Fits(f)
  {
    Powers();
    MaxBitsMeaning(f.base, 32);
    MaxBitsMeaning(f.limit, 20);
    MaxBitsMeaning(f.access, 8);
    MaxBitsMeaning(f.flags, 4);
  }

  lemma OrAt(x: int, y: int, k: nat, d: int)
    requires d == Pow2(k) && 0 <= y < d
    ensures Or(x * d, y) == x * d + y
  {
    OrIsSum(x, y, k);
  }

  lemma OrNext(acc: int, x: int, k: nat, d: int, y: int)
    requires d == Pow2(k) && acc == x * d && 0 <= y < d
    ensures Or(acc, y) == acc + y
  {
    OrAt(x, y, k, d);
  }

  lemma BigPowers()
    ensures Pow2(16) == 0x1_0000 && Pow2(40) == 0x100_0000_0000 && Pow2(48) == 0x1_0000_0000_0000
    ensures Pow2(52) == 0x10_0000_0000_0000 && Pow2(56) == 0x100_0000_0000_0000
  {
    Powers();
  }

  lemma JoinFields(b: int, g: int, l: int, a: int, bl: int, ll: int)
    requires 0 <= g < 0x10 && 0 <= l < 0x10 && 0 <= a < 0x100 && 0 <= bl < 0x100_0000 && 0 <= ll < 0x1_0000
    ensures Joined(b, g, l, a, bl, ll) ==
            b * 0x100_0000_0000_0000 + g * 0x10_0000_0000_0000 + l * 0x1_0000_0000_0000 + a * 0x100_0000_0000 +
            bl * 0x1_0000 + ll
  {
    BigPowers();
    var x1 := b * 0x10 + g;
    var x2 := x1 * 0x10 + l;
    var x3 := x2 * 0x100 + a;
    var x4 := x3 * 0x100_0000 + bl;
    var y1 := b * 0x100_0000_0000_0000 + g * 0x10_0000_0000_0000;
    var y2 := y1 + l * 0x1_0000_0000_0000;
    var y3 := y2 + a * 0x100_0000_0000;
    OrNext(b * 0x100_0000_0000_0000, b, 56, 0x100_0000_0000_0000, g * 0x10_0000_0000_0000);
    OrNext(y1, x1, 52, 0x10_0000_0000_0000, l * 0x1_0000_0000_0000);
    OrNext(y2, x2, 48, 0x1_0000_0000_0000, a * 0x100_0000_0000);
    OrNext(y3, x3, 40, 0x100_0000_0000, bl * 0x1_0000);
    OrNext(y3 + bl * 0x1_0000, x4, 16, 0x1_0000, ll);
  }

  lemma MaskLow(x: int, n: nat, d: int)
    requires d == Pow2(n)
    ensures And(x, d - 1) == x % d
  {
    AndMask(x, n);
  }

  lemma FieldFits(x: int, n: nat, d: int)
    requires d == Pow2(n) && 0 <= x < d
    ensures And(x, d - 1) == x
  {
    MaskLow(x, n, d);
    DivModUnique(x, d, 0, x);
  }

  lemma BaseFields(base: int)
    requires 0 <= base < 0x1_0000_0000
    ensures And(base / 0x100_0000, 0xff) == base / 0x100_0000
    ensures And(base, 0xff_ffff) == base % 0x100_0000
  {
    assert Pow2(8) == 0x100 && Pow2(24) == 0x100_0000 by { Powers(); }
    FieldFits(base / 0x100_0000, 8, 0x100);
    MaskLow(base, 24, 0x100_0000);
  }

  lemma LimitFields(limit: int)
    requires 0 <= limit < 0x10_0000
    ensures And(limit / 0x1_0000, 0xf) == limit / 0x1_0000
    ensures And(limit, 0xffff) == limit % 0x1_0000
  {
    assert Pow2(4) == 0x10 && Pow2(16) == 0x1_0000 by { Powers(); }
    FieldFits(limit / 0x1_0000, 4, 0x10);
    MaskLow(limit, 16, 0x1_0000);
  }

  lemma PackedIsSum(f: Fields)
    requires Fits(f)
    ensures Packed(f) == Summed(f)
  {
    BaseFields(f.base);
    LimitFields(f.limit);
    JoinFields(f.base / 0x100_0000, f.flags, f.limit / 0x1_0000, f.access, f.base % 0x100_0000, f.limit % 0x1_0000);
  }

  lemma DecodeSum(b: int, g: int, l: int, a: int, bm: int, bl: int, ll: int)
    requires 0 <= b < 0x100 && 0 <= g < 0x10 && 0 <= l < 0x10 && 0 <= a < 0x100
    requires 0 <= bm < 0x100 && 0 <= bl < 0x1_0000 && 0 <= ll < 0x1_0000
    ensures var e := b * 0x100_0000_0000_0000 + g * 0x10_0000_0000_0000 + l * 0x1_0000_0000_0000 +
                     a * 0x100_0000_0000 + (bm * 0x1_0000 + bl) * 0x1_0000 + ll;
            Decoded(e) == Fields(bl + bm * 0x1_0000 + b * 0x100_0000, ll + l * 0x1_0000, a, g)
            && 0 <= e < 0x1_0000_0000_0000_0000
  {
    var hi := b * 0x100_0000 + g * 0x10_0000 + l * 0x1_0000 + a * 0x100 + bm;
    var lo := bl * 0x1_0000 + ll;
    var e := b * 0x100_0000_0000_0000 + g * 0x10_0000_0000_0000 + l * 0x1_0000_0000_0000 +
             a * 0x100_0000_0000 + (bm * 0x1_0000 + bl) * 0x1_0000 + ll;
    assert e == hi * 0x1_0000_0000 + lo;
    DivModUnique(e, 0x1_0000_0000, hi, lo);
    HighDoubleword(b, g, l, a, bm);
  }

  lemma HighDoubleword(b: int, g: int, l: int, a: int, bm: int)
    requires 0 <= b < 0x100 && 0 <= g < 0x10 && 0 <= l < 0x10 && 0 <= a < 0x100 && 0 <= bm < 0x100
    ensures var hi := b * 0x100_0000 + g * 0x10_0000 + l * 0x1_0000 + a * 0x100 + bm;
            && hi % 0x100 == bm && hi / 0x100 % 0x100 == a && hi / 0x1_0000 % 0x10 == l
            && hi / 0x10_0000 % 0x10 == g && hi / 0x100_0000 == b
  {
    var hi := b * 0x100_0000 + g * 0x10_0000 + l * 0x1_0000 + a * 0x100 + bm;
    var x1 := b * 0x10 + g;
    var x2 := x1 * 0x10 + l;
    var x3 := x2 * 0x100 + a;
    DivModUnique(hi, 0x100, x3, bm);
    DivModUnique(x3, 0x100, x2, a);
    DivModUnique(hi, 0x1_0000, x2, a * 0x100 + bm);
    DivModUnique(x2, 0x10, x1, l);
    DivModUnique(hi, 0x10_0000, x1, l * 0x1_0000 + a * 0x100 + bm);
    DivModUnique(x1, 0x10, b, g);
    DivModUnique(hi, 0x100_0000, b, g * 0x10_0000 + l * 0x1_0000 + a * 0x100 + bm);
  }

  lemma DecodeSummed(f: Fields, e: int, b: int, low: int, l: int, ll: int, bm: int, bl: int)
    requires Fits(f) && b == f.base / 0x100_0000 && low == f.base % 0x100_0000
    requires l == f.limit / 0x1_0000 && ll == f.limit % 0x1_0000 && bm == low / 0x1_0000 && bl == low % 0x1_0000
    requires e == b * 0x100_0000_0000_0000 + f.flags * 0x10_0000_0000_0000 + l * 0x1_0000_0000_0000 +
                  f.access * 0x100_0000_0000 + low * 0x1_0000 + ll
    ensures Decoded(e) == f && 0 <= e < 0x1_0000_0000_0000_0000
  {
    DecodeSum(b, f.flags, l, f.access, bm, bl, ll);
  }

  /** Packing and decoding by the layout gives every field back. */
  lemma DecodePacked(f: Fields)
    requires Fits(f)
    ensures Decoded(Packed(f)) == f && 0 <= Packed(f) < 0x1_0000_0000_0000_0000
  {
    var low := f.base % 0x100_0000;
    DecodeSummed(f, Summed(f), f.base / 0x100_0000, low, f.limit / 0x1_0000, f.limit % 0x1_0000,
                 low / 0x1_0000, low % 0x1_0000);
    PackedIsSum(f);
  }

  /** The eight bytes written decode to the fields they were made from. */
  lemma EntryDecodes(f: Fields)
    ensures MakeEntry(f).Ok? <==> Fits(f)
    ensures MakeEntry(f).Ok? ==> |MakeEntry(f).value| == ENTRY_SIZE && Decoded(Unpack(MakeEntry(f).value, false)) == f
  {
    InRangeFits(f);
    if Fits(f) {
      DecodePacked(f);
      Pow256Of8();
      UnpackPack(Packed(f), 8, false);
    }
  }

  lemma Pow256Of8()
    ensures Pow256(8) == 0x1_0000_0000_0000_0000
  {
    assert Pow256(4) == 0x1_0000_0000;
  }

  // ----- segments -----

  /** Highest offset of a segment: with granularity set the limit counts 4096-byte units. */
  function EffectiveLimit(f: Fields): int {
    if f.flags / 8 % 2 == 1 then f.limit * 0x1000 + 0xfff else f.limit
  }

  /** The descriptor fields for a segment; a huge one is counted in 4096-byte units, if it can be. */
  function SegmentFields(base: int, limit: int, access: int): Result<Fields> {
    if limit <= 0x1_0000 then Ok(Fields(base, limit, access, OPSIZE_32))
    else if And(limit, 0xfff) != 0xfff then Err(AssertionError)
    else Ok(Fields(base, limit / 0x1000, access, Or(OPSIZE_32, GRANULARITY)))
  }

  /** The bytes to put in the table for a segment. */
  function SegmentEntry(base: int, limit: int, access: int): Result<seq<byte>> {
    match SegmentFields(base, limit, access)
    case Err(e) => Err(e)
    case Ok(f) => MakeEntry(f)
  }

  /** A segment is accepted exactly if its fields can express it. */
  predicate Expressible(base: int, limit: int, access: int) {
    && 0 <= base < 0x1_0000_0000 && 0 <= access < 0x100 && 0 <= limit < 0x1_0000_0000
    && (limit > 0x1_0000 ==> limit % 0x1000 == 0xfff)
  }

  lemma SegmentFieldsMeaning(base: int, limit: int, access: int)
    ensures var r := SegmentFields(base, limit, access);
            && (r.Ok? && Fits(r.value) <==> Expressible(base, limit, access))
            && (r.Ok? && Fits(r.value) ==>
                r.value.base == base && r.value.access == access && EffectiveLimit(r.value) == limit &&
                r.value.flags == if limit > 0x1_0000 then 12 else 4)
  {
    Powers();
    MaskLow(limit, 12, 0x1000);
    if limit > 0x1_0000 && limit % 0x1000 == 0xfff {
    }
  }

  lemma SegmentDecodes(base: int, limit: int, access: int)
    requires SegmentFields(base, limit, access).Ok?
    ensures var f, r := SegmentFields(base, limit, access).value, SegmentEntry(base, limit, access);
            && (r.Ok? <==> Fits(f)) && (r.Err? ==> r.error == AssertionError)
            && (r.Ok? ==> |r.value| == ENTRY_SIZE && Decoded(Unpack(r.value, false)) == f)
  {
    var f := SegmentFields(base, limit, access).value;
    EntryDecodes(f);
    EntryError(f);
  }

  lemma EntryError(f: Fields)
    ensures MakeEntry(f).Err? ==> MakeEntry(f).error == AssertionError
  {
    InRangeFits(f);
    if Fits(f) {
      DecodePacked(f);
      Pow256Of8();
    }
  }

  /** The bytes of an accepted segment decode to its base, access byte and effective limit, and flags for 32 bits. */
  lemma SegmentLossless(base: int, limit: int, access: int) returns (f: Fields)
    ensures SegmentEntry(base, limit, access).Ok? <==> Expressible(base, limit, access)
    ensures SegmentEntry(base, limit, access).Err? ==> SegmentEntry(base, limit, access).error == AssertionError
    ensures SegmentEntry(base, limit, access).Ok? ==>
              && |SegmentEntry(base, limit, access).value| == ENTRY_SIZE
              && f == Decoded(Unpack(SegmentEntry(base, limit, access).value, false))
              && f.base == base && f.access == access && EffectiveLimit(f) == limit
              && f.flags == if limit > 0x1_0000 then 12 else 4
  {
    SegmentFieldsMeaning(base, limit, access);
    var r := SegmentFields(base, limit, access);
    f := Fields(0, 0, 0, 0);
    if r.Ok? {
      SegmentDecodes(base, limit, access);
      f := r.value;
    }
  }

  // ----- selectors -----

  function MakeSelector(index: int, rpl: int): Result<int> {
    if And(rpl, Not(3)) == 0 then Ok(Or(Or(index * 8, 0), rpl)) else Err(AssertionError)
  }

  lemma SelectorOf(index: int, rpl: int)
    requires 0 <= rpl < 4
    ensures MakeSelector(index, rpl) == Ok(index * 8 + rpl)
  {
    assert Pow2(2) == 4 && Pow2(3) == 8;
    MaxBitsMeaning(rpl, 2);
    OrAt(index, 0, 3, 8);
    OrAt(index, rpl, 3, 8);
  }

  lemma PrivilegeOf(access: int)
    ensures And(access / 32, 3) == access / 32 % 4
  {
    assert Pow2(2) == 4;
    MaskLow(access / 32, 2, 4);
  }

  lemma SelectorParts(index: int, rpl: int)
    requires 0 <= rpl < 4
    ensures var sel := index * 8 + rpl; sel / 8 == index && sel % 8 / 4 == 0 && sel % 4 == rpl
  {
    DivModUnique(index * 8 + rpl, 8, index, rpl);
    DivModUnique(index * 8 + rpl, 4, index * 2, rpl);
  }

  /** A selector names its index, the GDT (bit 2 clear) and the privilege level. */
  lemma SelectorMeaning(index: int, access: int)
    ensures var r := MakeSelector(index, And(access / 32, 3));
            r.Ok? && r.value / 8 == index && r.value % 8 / 4 == 0 && r.value % 4 == access / 32 % 4
  {
    PrivilegeOf(access);
    SelectorOf(index, access / 32 % 4);
    SelectorParts(index, access / 32 % 4);
  }

  // ----- the table -----

  const NULL_ENTRY: seq<byte> := [0, 0, 0, 0, 0, 0, 0, 0]

  function Slot(table: seq<byte>, i: nat): (r: seq<byte>)
    requires ENTRY_SIZE * i + ENTRY_SIZE <= |table|
    ensures |r| == 8 && forall j :: 0 <= j < 8 ==> r[j] == table[8 * i + j]
  {
    table[ENTRY_SIZE * i..ENTRY_SIZE * i + ENTRY_SIZE]
  }

  function WithSlot(table: seq<byte>, i: nat, data: seq<byte>): (r: seq<byte>)
    requires ENTRY_SIZE * i + ENTRY_SIZE <= |table| && |data| == ENTRY_SIZE
    ensures |r| == |table|
    ensures forall j :: 0 <= j < |r| ==> r[j] == if 8 * i <= j < 8 * i + 8 then data[j - 8 * i] else table[j]
  {
    table[..ENTRY_SIZE * i] + data + table[ENTRY_SIZE * i + ENTRY_SIZE..]
  }

  /** Writing a slot changes that slot and no other byte. */
  lemma WithSlotMeaning(table: seq<byte>, i: nat, data: seq<byte>, j: nat)
    requires ENTRY_SIZE * i + ENTRY_SIZE <= |table| && ENTRY_SIZE * j + ENTRY_SIZE <= |table| && |data| == ENTRY_SIZE
    ensures Slot(WithSlot(table, i, data), j) == if j == i then data else Slot(table, j)
  {
  }

  lemma {:induction false} UnpackZeros(bs: seq<byte>)
    requires forall i :: 0 <= i < |bs| ==> bs[i] == 0
    ensures UnpackLittle(bs) == 0
  {
    if bs != [] {
      UnpackZeros(bs[1..]);
    }
  }

  lemma NullDecodes()
    ensures Decoded(Unpack(NULL_ENTRY, false)) == Fields(0, 0, 0, 0)
  {
    UnpackZeros(NULL_ENTRY);
  }

  lemma EntryIsNotNull(f: Fields)
    requires Fits(f) && f.flags != 0
    ensures MakeEntry(f).Ok? && |MakeEntry(f).value| == ENTRY_SIZE && MakeEntry(f).value != NULL_ENTRY
  {
    EntryDecodes(f);
    NullDecodes();
  }

  /** An accepted segment's entry never looks like a free slot. */
  lemma SegmentIsAccepted(base: int, limit: int, access: int)
    requires Expressible(base, limit, access)
    ensures var r := SegmentEntry(base, limit, access); r.Ok? && |r.value| == ENTRY_SIZE && r.value != NULL_ENTRY
  {
    SegmentFieldsMeaning(base, limit, access);
    EntryIsNotNull(SegmentFields(base, limit, access).value);
  }

  class GDTArray {
    const mem: array<byte>
    const numEntries: nat

    ghost predicate Valid()
    {
      ENTRY_SIZE * numEntries <= mem.Length
    }

    constructor (mem: array<byte>, numEntries: nat)
      requires ENTRY_SIZE * numEntries <= mem.Length
      ensures Valid() && this.mem == mem && this.numEntries == numEntries
    {
      this.mem, this.numEntries := mem, numEntries;
    }

    predicate InBounds(index: int) {
      0 < index < numEntries
    }

    method GetItem(index: int) returns (r: Result<seq<byte>>)
      requires Valid()
      ensures r == if 0 < index < numEntries then Ok(Slot(mem[..], index)) else Err(GdtError)
    {
      if !InBounds(index) {
        return Err(GdtError);
      }
      return Ok(mem[ENTRY_SIZE * index..ENTRY_SIZE * index + ENTRY_SIZE]);
    }

    method SetItem(index: int, data: seq<byte>) returns (err: Option<Error>)
      requires Valid()
      modifies mem
      ensures err == if |data| != ENTRY_SIZE then Some(AssertionError)
                     else if !(0 < index < numEntries) then Some(GdtError) else None
      ensures mem[..] == if err.None? then WithSlot(old(mem[..]), index, data) else old(mem[..])
    {
      if |data| != ENTRY_SIZE {
        return Some(AssertionError);
      }
      if !InBounds(index) {
        return Some(GdtError);
      }
      var at := ENTRY_SIZE * index;
      for k := 0 to ENTRY_SIZE
        invariant forall j :: 0 <= j < mem.Length ==>
                    mem[j] == if at <= j < at + k then data[j - at] else old(mem[j])
      {
        mem[at + k] := data[k];
      }
      return None;
    }

    /** The lowest all-zero slot from start up to end, -1 if there is none; slots out of bounds are an error. */
    method GetNextFree(start: Option<int>, end: Option<int>) returns (r: Result<int>)
      requires Valid()
      ensures var lo := if start.Some? then start.value else 1;
              var hi := if end.Some? then end.value else numEntries;
              match r
              case Err(e) =>
                e == GdtError &&
                exists i {:trigger InBounds(i)} ::
                  lo <= i < hi && !(0 < i < numEntries) && forall j :: lo <= j < i ==> Used(mem[..], numEntries, j)
              case Ok(i) =>
                if i == -1 then forall j :: lo <= j < hi ==> Used(mem[..], numEntries, j)
                else lo <= i < hi && 0 < i < numEntries && Slot(mem[..], i) == NULL_ENTRY &&
                     forall j :: lo <= j < i ==> Used(mem[..], numEntries, j)
    {
      var i := if start.Some? then start.value else 1;
      var hi := if end.Some? then end.value else numEntries;
      ghost var lo := i;
      while i < hi
        invariant lo <= i && forall j :: lo <= j < i ==> Used(mem[..], numEntries, j)
      {
        var item := GetItem(i);
        if item.Err? {
          assert !InBounds(i);
          return Err(item.error);
        }
        if item.value == NULL_ENTRY {
          return Ok(i);
        }
        i := i + 1;
      }
      return Ok(-1);
    }
  }

  /** Slot j is in bounds and not free. */
  predicate Used(table: seq<byte>, numEntries: nat, j: int) {
    0 < j < numEntries && ENTRY_SIZE * j + ENTRY_SIZE <= |table| && Slot(table, j) != NULL_ENTRY
  }

  class GDTManager {
    const table: GDTArray

    constructor (table: GDTArray)
      ensures this.table == table
    {
      this.table := table;
    }

    /** Puts a segment's entry in a slot and returns its selector; a refused call changes nothing. */
    method RegisterGdtSegment(index: int, base: int, limit: int, access: int) returns (r: Result<int>)
      requires table.Valid()
      modifies table.mem
      ensures r.Ok? <==> Expressible(base, limit, access) && 0 < index < table.numEntries
      ensures r.Err? ==> table.mem[..] == old(table.mem[..])
      ensures r.Err? ==> r.error == if Expressible(base, limit, access) then GdtError else AssertionError
      ensures r.Ok? ==> SegmentEntry(base, limit, access).Ok?
                        && table.mem[..] == WithSlot(old(table.mem[..]), index, SegmentEntry(base, limit, access).value)
      ensures r.Ok? ==> r.value / 8 == index && r.value % 8 / 4 == 0 && r.value % 4 == access / 32 % 4
    {
      ghost var f := SegmentLossless(base, limit, access);
      SelectorMeaning(index, access);
      var entry := SegmentEntry(base, limit, access);
      if entry.Err? {
        return Err(entry.error);
      }
      var err := table.SetItem(index, entry.value);
      if err.Some? {
        return Err(err.value);
      }
      r := MakeSelector(index, And(access / 32, 3));
    }
  }

  // ----- runs -----

  /** The arguments of a registration. */
  datatype Segment = Segment(index: nat, base: int, limit: int, access: int) {
    predicate Accepted(numEntries: nat) {
      0 < index < numEntries && Expressible(base, limit, access)
    }
    function Entry(): (r: seq<byte>)
      requires Expressible(base, limit, access)
      ensures |r| == ENTRY_SIZE && r != NULL_ENTRY
    {
      SegmentIsAccepted(base, limit, access);
      SegmentEntry(base, limit, access).value
    }
  }

  /** A refused registration changes nothing. */
  function RegisterStep(table: seq<byte>, numEntries: nat, seg: Segment): (r: seq<byte>)
    requires ENTRY_SIZE * numEntries <= |table|
    ensures |r| == |table|
  {
    if seg.Accepted(numEntries) then WithSlot(table, seg.index, seg.Entry()) else table
  }

  /** The table after the first n registrations. */
  function TableAfter(table: seq<byte>, numEntries: nat, segs: seq<Segment>, n: nat): (r: seq<byte>)
    requires ENTRY_SIZE * numEntries <= |table| && n <= |segs|
    ensures |r| == |table|
  {
    if n == 0 then table else RegisterStep(TableAfter(table, numEntries, segs, n - 1), numEntries, segs[n - 1])
  }

  /** The last of the first n registrations that is accepted for a slot, or none. */
  function LastFor(segs: seq<Segment>, numEntries: nat, j: nat, n: nat): (r: Option<Segment>)
    requires n <= |segs|
    ensures r.Some? ==> r.value.Accepted(numEntries) && r.value.index == j
  {
    if n == 0 then None
    else if segs[n - 1].index == j && segs[n - 1].Accepted(numEntries) then Some(segs[n - 1])
    else LastFor(segs, numEntries, j, n - 1)
  }

  /** In every run each slot holds the last segment registered for it, untouched by the others. */
  lemma {:induction false} RegisteredSlots(table: seq<byte>, numEntries: nat, segs: seq<Segment>, n: nat, j: nat)
    requires ENTRY_SIZE * numEntries <= |table| && n <= |segs| && j < numEntries
    ensures Slot(TableAfter(table, numEntries, segs, n), j) ==
            var last := LastFor(segs, numEntries, j, n);
            if last.Some? then last.value.Entry() else Slot(table, j)
  {
    if n > 0 {
      RegisteredSlots(table, numEntries, segs, n - 1, j);
      var seg := segs[n - 1];
      if seg.Accepted(numEntries) {
        WithSlotMeaning(TableAfter(table, numEntries, segs, n - 1), seg.index, seg.Entry(), j);
      }
    }
  }

  /** No slot that was registered is ever taken for free. */
  lemma {:induction false} RegisteredNeverFree(table: seq<byte>, numEntries: nat, segs: seq<Segment>, n: nat, i: nat)
    requires ENTRY_SIZE * numEntries <= |table| && i < n <= |segs| && segs[i].Accepted(numEntries)
    ensures Slot(TableAfter(table, numEntries, segs, n), segs[i].index) != NULL_ENTRY
  {
    LastForSome(segs, numEntries, segs[i].index, n, i);
    RegisteredSlots(table, numEntries, segs, n, segs[i].index);
  }

  lemma {:induction false} LastForSome(segs: seq<Segment>, numEntries: nat, j: nat, n: nat, i: nat)
    requires i < n <= |segs| && segs[i].index == j && segs[i].Accepted(numEntries)
    ensures LastFor(segs, numEntries, j, n).Some?
  {
    if i < n - 1 {
      LastForSome(segs, numEntries, j, n - 1, i);
    }
  }
}
