/** Calling conventions: where a call's arguments and return address are put and found. */
module CallFrames {
  import opened Bits
  import opened Bytes
  import opened Results

  datatype Reg = RCX | RDX | RDI | RSI | R8 | R9 | R10

  /**
    A convention: a register or a stack slot (None) for each argument, the number of stack
    slots left free below the arguments, and the native word size in bytes.
  */
  datatype CallingConvention = CallingConvention(
    argRegs: seq<Option<Reg>>, shadow: nat, retOnStack: bool, word: nat, calleePops: bool)

  function Nones(n: nat): (s: seq<Option<Reg>>)
    ensures |s| == n && forall i :: 0 <= i < n ==> s[i] == None
  {
    seq(n, i => None)
  }

  const CDECL := CallingConvention(Nones(16), 0, true, 4, false)
  const STDCALL := CallingConvention(Nones(16), 0, true, 4, true)
  const AMD64 := CallingConvention(
    [Some(RDI), Some(RSI), Some(RDX), Some(R10), Some(R8), Some(R9)] + Nones(10), 0, true, 8, false)
  const MACOSX64 := CallingConvention(
    [Some(RDI), Some(RSI), Some(RDX), Some(RCX), Some(R8), Some(R9)] + Nones(10), 0, true, 8, false)
  const MS64 := CallingConvention([Some(RCX), Some(RDX), Some(R8), Some(R9)] + Nones(12), 4, true, 8, false)

  /** Registers hold values of the native width; memory of the emulated machine is little-endian. */
  datatype Cpu = Cpu(regs: Reg -> int, sp: int, pc: int, mem: Mem)

  type Outcome = (Cpu, Option<Error>)

  /** Width in bits of an argument, 0 for native, and its value. */
  datatype Arg = Arg(bits: nat, value: int)

  // ----- locations -----

  datatype Location = Register(id: Reg) | Stack(offset: int)

  /** Position of the first stack slot, or the number of slots. */
  function FirstOnStack(slots: seq<Option<Reg>>): (n: nat)
    ensures n <= |slots| && (n < |slots| ==> slots[n].None?)
    ensures forall i :: 0 <= i < n ==> slots[i].Some?
  {
    if slots == [] || slots[0].None? then 0 else 1 + FirstOnStack(slots[1..])
  }

  function AccessParam(cc: CallingConvention, index: nat): Result<Location> {
    if index >= |cc.argRegs| then Err(IndexError)
    else match cc.argRegs[index]
      case Some(reg) => Ok(Register(reg))
      case None =>
        var si := index - FirstOnStack(cc.argRegs);
        Ok(Stack(((if cc.retOnStack then 1 else 0) + cc.shadow + si) * cc.word))
  }

  /** The source's `value & mask`, where a width of 0 leaves the value alone. */
  function Masked(v: int, bits: nat): int {
    And(v, (if bits == 0 then 0 else Pow2(bits)) - 1)
  }

  function ReadAt(cpu: Cpu, cc: CallingConvention, at: Location): int {
    match at
    case Register(id) => cpu.regs(id)
    case Stack(offset) => LoadWord(cpu.mem, cpu.sp + offset, cc.word, false)
  }

  /** A register takes the low bits of a value; a word of memory refuses one that does not fit. */
  function WriteAt(cpu: Cpu, cc: CallingConvention, at: Location, v: int): Outcome {
    match at
    case Register(id) => (cpu.(regs := (r: Reg) => if r == id then v % Pow256(cc.word) else cpu.regs(r)), None)
    case Stack(offset) => PutWord(cpu, cc, cpu.sp + offset, v)
  }

  function PutWord(cpu: Cpu, cc: CallingConvention, addr: int, v: int): Outcome {
    if 0 <= v < Pow256(cc.word)
    then (cpu.(mem := StoreWord(cpu.mem, addr, v, cc.word, false)), None)
    else (cpu, Some(StructError))
  }

  function GetRawParam(cpu: Cpu, cc: CallingConvention, index: nat, bits: nat): Result<int> {
    match AccessParam(cc, index)
    case Err(e) => Err(e)
    case Ok(at) => Ok(Masked(ReadAt(cpu, cc, at), bits))
  }

  function SetRawParam(cpu: Cpu, cc: CallingConvention, index: nat, v: int, bits: nat): Outcome {
    match AccessParam(cc, index)
    case Err(e) => (cpu, Some(e))
    case Ok(at) => WriteAt(cpu, cc, at, Masked(v, bits))
  }

  function NumSlots(cc: CallingConvention, bits: nat): (n: nat)
    requires cc.word > 0
  {
    Max(bits, 8 * cc.word) / (8 * cc.word)
  }

  /** On 32-bit machines a 64-bit argument is read from two slots, though it is written to one. */
  function ReadParam(cpu: Cpu, cc: CallingConvention, index: nat, bits: nat): Result<int> {
    if cc.word == 4 && bits == 64 then
      match GetRawParam(cpu, cc, index, 0)
      case Err(e) => Err(e)
      case Ok(lo) =>
        match GetRawParam(cpu, cc, index + 1, 0)
        case Err(e) => Err(e)
        case Ok(hi) => Ok(hi * 0x1_0000_0000 + lo)
    else GetRawParam(cpu, cc, index, bits)
  }

  // ----- whole argument lists -----

  function SlotsUpTo(cc: CallingConvention, args: seq<Arg>, n: nat): nat
    requires cc.word > 0 && n <= |args|
  {
    if n == 0 then 0 else SlotsUpTo(cc, args, n - 1) + NumSlots(cc, args[n - 1].bits)
  }

  function ParamsWritten(cpu: Cpu, cc: CallingConvention, args: seq<Arg>, n: nat): Outcome
    requires cc.word > 0 && n <= |args|
  {
    if n == 0 then (cpu, None)
    else
      var (cpu', err) := ParamsWritten(cpu, cc, args, n - 1);
      if err.Some? then (cpu', err)
      else SetRawParam(cpu', cc, SlotsUpTo(cc, args, n - 1), args[n - 1].value, args[n - 1].bits)
  }

  function ParamsRead(cpu: Cpu, cc: CallingConvention, args: seq<Arg>, n: nat): Result<seq<int>>
    requires cc.word > 0 && n <= |args|
  {
    if n == 0 then Ok([])
    else match ParamsRead(cpu, cc, args, n - 1)
      case Err(e) => Err(e)
      case Ok(vs) =>
        match ReadParam(cpu, cc, SlotsUpTo(cc, args, n - 1), args[n - 1].bits)
        case Err(e) => Err(e)
        case Ok(v) => Ok(vs + [v])
  }

  /** Stack slots among the first n slots. */
  function StackSlots(slots: seq<Option<Reg>>, n: nat): nat
    requires n <= |slots|
  {
    if n == 0 then 0 else StackSlots(slots, n - 1) + if slots[n - 1].None? then 1 else 0
  }

  function Reserve(cpu: Cpu, cc: CallingConvention, nslots: nat): Outcome {
    if nslots >= |cc.argRegs| then (cpu, Some(AssertionError))
    else (cpu.(sp := cpu.sp - (cc.shadow + StackSlots(cc.argRegs, nslots)) * cc.word), None)
  }

  function Push(cpu: Cpu, cc: CallingConvention, v: int): Outcome {
    var sp := cpu.sp - cc.word;
    PutWord(cpu.(sp := sp), cc, sp, v)
  }

  /** The popped return address. */
  function Unwind(cpu: Cpu, cc: CallingConvention, nslots: nat): (Cpu, int) {
    (cpu.(sp := cpu.sp + cc.word + if cc.calleePops then nslots * cc.word else 0),
     LoadWord(cpu.mem, cpu.sp, cc.word, false))
  }

  function Staged(cpu: Cpu, cc: CallingConvention, nslots: nat, ret: Option<int>): Outcome {
    var (cpu1, err) := Reserve(cpu, cc, nslots);
    if err.Some? || ret.None? then (cpu1, err) else Push(cpu1, cc, ret.value)
  }

  function NativeCalled(cpu: Cpu, cc: CallingConvention, addr: int, args: seq<Arg>, ret: Option<int>): Outcome
    requires cc.word > 0
  {
    var (cpu1, err1) := Staged(cpu, cc, SlotsUpTo(cc, args, |args|), ret);
    if err1.Some? then (cpu1, err1)
    else
      var (cpu2, err2) := ParamsWritten(cpu1, cc, args, |args|);
      if err2.Some? then (cpu2, err2) else (cpu2.(pc := addr), None)
  }

  // ----- what is delivered -----

  /** Registers first and each once, then stack slots; the return address lies below the arguments. */
  ghost predicate Shaped(cc: CallingConvention) {
    && cc.word in {4, 8} && cc.retOnStack
    && (forall i :: FirstOnStack(cc.argRegs) <= i < |cc.argRegs| ==> cc.argRegs[i].None?)
    && (forall i, j :: 0 <= i < j < FirstOnStack(cc.argRegs) ==> cc.argRegs[i] != cc.argRegs[j])
  }

  lemma FirstOnStackAt(slots: seq<Option<Reg>>, n: nat)
    requires n < |slots| && slots[n].None? && forall i :: 0 <= i < n ==> slots[i].Some?
    ensures FirstOnStack(slots) == n
  {
  }

  /** Registers, then stack slots only. */
  lemma ShapedWith(cc: CallingConvention, regs: seq<Option<Reg>>, n: nat)
    requires cc.word in {4, 8} && cc.retOnStack && cc.argRegs == regs + Nones(n) && n > 0
    requires forall i :: 0 <= i < |regs| ==> regs[i].Some?
    requires forall i, j :: 0 <= i < j < |regs| ==> regs[i] != regs[j]
    ensures Shaped(cc) && FirstOnStack(cc.argRegs) == |regs|
  {
    FirstOnStackAt(cc.argRegs, |regs|);
    forall i | |regs| <= i < |cc.argRegs| ensures cc.argRegs[i].None? {
      assert cc.argRegs[i] == Nones(n)[i - |regs|];
    }
  }

  lemma IntelShaped32()
    ensures Shaped(CDECL) && Shaped(STDCALL)
  {
    assert CDECL.argRegs == [] + Nones(16) && STDCALL.argRegs == [] + Nones(16);
    ShapedWith(CDECL, [], 16);
    ShapedWith(STDCALL, [], 16);
  }

  lemma IntelShaped64()
    ensures Shaped(AMD64) && Shaped(MACOSX64) && Shaped(MS64)
  {
    ShapedWith(AMD64, [Some(RDI), Some(RSI), Some(RDX), Some(R10), Some(R8), Some(R9)], 10);
    ShapedWith(MACOSX64, [Some(RDI), Some(RSI), Some(RDX), Some(RCX), Some(R8), Some(R9)], 10);
    ShapedWith(MS64, [Some(RCX), Some(RDX), Some(R8), Some(R9)], 12);
  }

  /** All results below hold for the five Intel conventions. */
  lemma ConventionsShaped()
    ensures Shaped(CDECL) && Shaped(STDCALL) && Shaped(AMD64) && Shaped(MACOSX64) && Shaped(MS64)
  {
    IntelShaped32();
    IntelShaped64();
  }

  /** The registers, in order, and the offsets of the stack slots, counted from the return address. */
  lemma ConventionSlots(i: nat)
    ensures i < 16 ==> AccessParam(CDECL, i) == Ok(Stack(4 + 4 * i)) == AccessParam(STDCALL, i)
    ensures AccessParam(AMD64, 0) == Ok(Register(RDI)) && AccessParam(AMD64, 1) == Ok(Register(RSI))
    ensures AccessParam(AMD64, 2) == Ok(Register(RDX)) && AccessParam(AMD64, 3) == Ok(Register(R10))
    ensures AccessParam(AMD64, 4) == Ok(Register(R8)) && AccessParam(AMD64, 5) == Ok(Register(R9))
    ensures i < 10 ==> AccessParam(AMD64, 6 + i) == Ok(Stack(8 + 8 * i)) == AccessParam(MACOSX64, 6 + i)
    ensures AccessParam(MACOSX64, 0) == Ok(Register(RDI)) && AccessParam(MACOSX64, 1) == Ok(Register(RSI))
    ensures AccessParam(MACOSX64, 2) == Ok(Register(RDX)) && AccessParam(MACOSX64, 3) == Ok(Register(RCX))
    ensures AccessParam(MACOSX64, 4) == Ok(Register(R8)) && AccessParam(MACOSX64, 5) == Ok(Register(R9))
    ensures AccessParam(MS64, 0) == Ok(Register(RCX)) && AccessParam(MS64, 1) == Ok(Register(RDX))
    ensures AccessParam(MS64, 2) == Ok(Register(R8)) && AccessParam(MS64, 3) == Ok(Register(R9))
    ensures i < 12 ==> AccessParam(MS64, 4 + i) == Ok(Stack(40 + 8 * i))
    ensures i >= 16 ==>
              AccessParam(CDECL, i) == AccessParam(STDCALL, i) == AccessParam(AMD64, i) ==
              AccessParam(MACOSX64, i) == AccessParam(MS64, i) == Err(IndexError)
    ensures STDCALL.calleePops && !CDECL.calleePops && !AMD64.calleePops && !MACOSX64.calleePops && !MS64.calleePops
  {
    FirstOnStackAt(CDECL.argRegs, 0);
    FirstOnStackAt(STDCALL.argRegs, 0);
    FirstOnStackAt(AMD64.argRegs, 6);
    FirstOnStackAt(MACOSX64.argRegs, 6);
    FirstOnStackAt(MS64.argRegs, 4);
  }

  lemma {:induction false} Pow256IsPow2(n: nat)
    ensures Pow256(n) == Pow2(8 * n)
  {
    if n > 0 {
      Pow256IsPow2(n - 1);
      var k := 8 * (n - 1);
      assert Pow2(k + 2) == 2 * Pow2(k + 1) && Pow2(k + 4) == 2 * Pow2(k + 3);
      assert Pow2(k + 6) == 2 * Pow2(k + 5) && Pow2(k + 8) == 2 * Pow2(k + 7);
    }
  }

  lemma {:induction false} Pow2Monotone(m: nat, n: nat)
    requires m <= n
    ensures Pow2(m) <= Pow2(n)
    decreases n - m
  {
    if m < n {
      Pow2Monotone(m + 1, n);
    }
  }

  /** An argument cut to its width. */
  function Delivered(v: int, bits: nat, word: nat): int {
    v % Pow2(if bits == 0 then 8 * word else bits)
  }

  lemma MaskedMeaning(v: int, bits: nat)
    ensures Masked(v, bits) == if bits == 0 then v else v % Pow2(bits)
  {
    if bits == 0 {
      AndAllOnes(v);
    } else {
      AndMask(v, bits);
    }
  }

  lemma AndAllOnes(v: int)
    ensures And(v, -1) == v
  {
  }

  lemma ModSmall(x: int, d: int)
    requires 0 <= x < d
    ensures x % d == x
  {
  }

  /** Masking on the way in, storing, and masking on the way out. */
  lemma MaskTwice(v: int, bits: nat, word: nat)
    requires bits <= 8 * word
    ensures bits > 0 ==> 0 <= Masked(v, bits) < Pow256(word)
    ensures Masked(Masked(v, bits) % Pow256(word), bits) == Delivered(v, bits, word)
    ensures 0 <= Masked(v, bits) < Pow256(word) ==> Masked(Masked(v, bits), bits) == Delivered(v, bits, word)
  {
    MaskedMeaning(v, bits);
    Pow256IsPow2(word);
    if bits == 0 {
      MaskedMeaning(v % Pow256(word), 0);
      if 0 <= v < Pow256(word) {
        ModSmall(v, Pow256(word));
      }
    } else {
      Pow2Monotone(bits, 8 * word);
      var x := v % Pow2(bits);
      ModSmall(x, Pow256(word));
      MaskedMeaning(x, bits);
      ModSmall(x, Pow2(bits));
    }
  }

  // ----- distinct slots are distinct places -----

  predicate LocationsApart(a: Location, b: Location, word: nat) {
    match (a, b)
    case (Register(r), Register(q)) => r != q
    case (Stack(x), Stack(y)) => x + word <= y || y + word <= x
    case _ => true
  }

  lemma DistinctSlots(cc: CallingConvention, i: nat, j: nat)
    requires Shaped(cc) && i < |cc.argRegs| && j < |cc.argRegs| && i != j
    ensures LocationsApart(AccessParam(cc, i).value, AccessParam(cc, j).value, cc.word)
  {
  }

  lemma WriteThenRead(cpu: Cpu, cc: CallingConvention, at: Location, v: int)
    requires WriteAt(cpu, cc, at, v).1.None?
    ensures ReadAt(WriteAt(cpu, cc, at, v).0, cc, at) == if at.Register? then v % Pow256(cc.word) else v
  {
    if at.Stack? {
      LoadStoreWord(cpu.mem, cpu.sp + at.offset, v, cc.word, false);
    }
  }

  lemma WriteElsewhere(cpu: Cpu, cc: CallingConvention, at: Location, v: int, b: Location)
    requires LocationsApart(at, b, cc.word)
    ensures ReadAt(WriteAt(cpu, cc, at, v).0, cc, b) == ReadAt(cpu, cc, b)
  {
    if at.Stack? && b.Stack? && 0 <= v < Pow256(cc.word) {
      LoadStoreApart(cpu.mem, cpu.sp + at.offset, PackWord(v, cc.word, false), cpu.sp + b.offset, cc.word);
    }
  }

  // ----- staging a call -----

  /** A 64-bit argument on a 32-bit machine. */
  predicate Wide(cc: CallingConvention, arg: Arg) {
    cc.word == 4 && arg.bits == 64
  }

  predicate KnownArg(cc: CallingConvention, arg: Arg) {
    arg.bits <= 8 * cc.word || Wide(cc, arg)
  }

  /** Arguments are no wider than native, or 64 bits wide on a 32-bit machine. */
  ghost predicate Known(cc: CallingConvention, args: seq<Arg>) {
    forall i :: 0 <= i < |args| ==> KnownArg(cc, args[i])
  }

  /** The slot argument n starts at: a wide argument takes two, every other one. */
  function SlotOf(cc: CallingConvention, args: seq<Arg>, n: nat): (i: nat)
    requires n <= |args|
  {
    if n == 0 then 0 else SlotOf(cc, args, n - 1) + if Wide(cc, args[n - 1]) then 2 else 1
  }

  lemma NumSlotsMeaning(cc: CallingConvention, arg: Arg)
    requires cc.word in {4, 8} && KnownArg(cc, arg)
    ensures NumSlots(cc, arg.bits) == if Wide(cc, arg) then 2 else 1
  {
  }

  lemma {:induction false} SlotsMeaning(cc: CallingConvention, args: seq<Arg>, n: nat)
    requires Shaped(cc) && Known(cc, args) && n <= |args|
    ensures SlotsUpTo(cc, args, n) == SlotOf(cc, args, n)
  {
    if n > 0 {
      SlotsMeaning(cc, args, n - 1);
      NumSlotsMeaning(cc, args[n - 1]);
    }
  }

  lemma {:induction false} SlotsGrow(cc: CallingConvention, args: seq<Arg>, i: nat, n: nat)
    requires i < n <= |args|
    ensures SlotOf(cc, args, i + 1) <= SlotOf(cc, args, n)
    ensures SlotOf(cc, args, i + 1) == SlotOf(cc, args, i) + if Wide(cc, args[i]) then 2 else 1
  {
    if i + 1 < n {
      SlotsGrow(cc, args, i, n - 1);
    }
  }

  /** What is written for an argument: of a wide one, a native word. */
  function Low(cc: CallingConvention, arg: Arg): Arg {
    if Wide(cc, arg) then Arg(0, arg.value % Pow2(arg.bits)) else arg
  }

  lemma LowIsSet(cpu: Cpu, cc: CallingConvention, arg: Arg, i: nat)
    requires Shaped(cc) && KnownArg(cc, arg)
    ensures Low(cc, arg).bits <= 8 * cc.word
    ensures SetRawParam(cpu, cc, i, arg.value, arg.bits) ==
            SetRawParam(cpu, cc, i, Low(cc, arg).value, Low(cc, arg).bits)
  {
    if Wide(cc, arg) {
      MaskedMeaning(arg.value, arg.bits);
      MaskedMeaning(arg.value % Pow2(arg.bits), 0);
    }
  }

  /** The value that a caller staged for slot i is what is found there. */
  predicate PlacedAt(cpu: Cpu, cc: CallingConvention, arg: Arg, i: nat) {
    GetRawParam(cpu, cc, i, arg.bits) == Ok(Delivered(arg.value, arg.bits, cc.word))
  }

  lemma SetPlaces(cpu: Cpu, cpu': Cpu, cc: CallingConvention, arg: Arg, i: nat)
    requires Shaped(cc) && i < |cc.argRegs| && arg.bits <= 8 * cc.word
    requires SetRawParam(cpu, cc, i, arg.value, arg.bits) == (cpu', None)
    ensures PlacedAt(cpu', cc, arg, i)
  {
    WriteThenRead(cpu, cc, AccessParam(cc, i).value, Masked(arg.value, arg.bits));
    MaskTwice(arg.value, arg.bits, cc.word);
  }

  /** Slot j is read the same in both states. */
  predicate SameSlot(cpu: Cpu, cpu': Cpu, cc: CallingConvention, j: nat) {
    AccessParam(cc, j).Ok? && ReadAt(cpu', cc, AccessParam(cc, j).value) == ReadAt(cpu, cc, AccessParam(cc, j).value)
  }

  lemma SetKeeps(cpu: Cpu, cpu': Cpu, cc: CallingConvention, arg: Arg, i: nat, j: nat)
    requires Shaped(cc) && i < |cc.argRegs| && j < |cc.argRegs| && i != j
    requires SetRawParam(cpu, cc, i, arg.value, arg.bits) == (cpu', None)
    ensures SameSlot(cpu, cpu', cc, j)
  {
    DistinctSlots(cc, i, j);
    WriteElsewhere(cpu, cc, AccessParam(cc, i).value, Masked(arg.value, arg.bits), AccessParam(cc, j).value);
  }

  lemma SetKeepsPlaced(cpu: Cpu, cpu': Cpu, cc: CallingConvention, arg: Arg, i: nat, other: Arg, j: nat)
    requires Shaped(cc) && i < |cc.argRegs| && j < |cc.argRegs| && i != j && PlacedAt(cpu, cc, other, j)
    requires SetRawParam(cpu, cc, i, arg.value, arg.bits) == (cpu', None)
    ensures PlacedAt(cpu', cc, other, j)
  {
    SetKeeps(cpu, cpu', cc, arg, i, j);
  }

  /** A native-width argument for a stack slot must fit a word; all others always do. */
  predicate Fits(cc: CallingConvention, arg: Arg, i: nat) {
    i >= FirstOnStack(cc.argRegs) && arg.bits == 0 ==> 0 <= arg.value < Pow256(cc.word)
  }

  /** ... and of a wide argument for a stack slot the upper half must be zero. */
  predicate ArgFits(cc: CallingConvention, args: seq<Arg>, i: nat)
    requires i < |args|
  {
    Fits(cc, Low(cc, args[i]), SlotOf(cc, args, i))
  }

  lemma SetSucceedsIff(cpu: Cpu, cc: CallingConvention, arg: Arg, i: nat)
    requires Shaped(cc) && i < |cc.argRegs| && arg.bits <= 8 * cc.word
    ensures var (cpu', err) := SetRawParam(cpu, cc, i, arg.value, arg.bits);
            && (err.None? <==> Fits(cc, arg, i)) && cpu'.sp == cpu.sp
            && (i < FirstOnStack(cc.argRegs) ==> cpu'.mem == cpu.mem)
  {
    MaskTwice(arg.value, arg.bits, cc.word);
    MaskedMeaning(arg.value, arg.bits);
  }

  /** All arguments have slots. */
  ghost predicate Room(cc: CallingConvention, args: seq<Arg>) {
    Known(cc, args) && SlotOf(cc, args, |args|) <= |cc.argRegs|
  }

  lemma {:induction false} WrittenNext(cpu: Cpu, cc: CallingConvention, args: seq<Arg>, n: nat)
    returns (cpu1: Cpu, i: nat, low: Arg)
    requires Shaped(cc) && Room(cc, args) && 0 < n <= |args|
    requires ParamsWritten(cpu, cc, args, n - 1).1.None?
    ensures ParamsWritten(cpu, cc, args, n - 1) == (cpu1, None)
    ensures i == SlotOf(cc, args, n - 1) < |cc.argRegs| && low == Low(cc, args[n - 1]) && low.bits <= 8 * cc.word
    ensures ParamsWritten(cpu, cc, args, n) == SetRawParam(cpu1, cc, i, low.value, low.bits)
  {
    SlotsMeaning(cc, args, n - 1);
    SlotsGrow(cc, args, n - 1, |args|);
    cpu1, i, low := ParamsWritten(cpu, cc, args, n - 1).0, SlotOf(cc, args, n - 1), Low(cc, args[n - 1]);
    LowIsSet(cpu1, cc, args[n - 1], i);
  }

  ghost predicate AllFit(cc: CallingConvention, args: seq<Arg>, n: nat)
    requires n <= |args|
  {
    forall i {:trigger ArgFits(cc, args, i)} :: 0 <= i < n ==> ArgFits(cc, args, i)
  }

  /** Arguments are all written exactly when all fit. */
  lemma {:induction false} WriteSucceedsIff(cpu: Cpu, cc: CallingConvention, args: seq<Arg>, n: nat)
    requires Shaped(cc) && Room(cc, args) && n <= |args|
    ensures ParamsWritten(cpu, cc, args, n).1.None? <==> AllFit(cc, args, n)
    ensures ParamsWritten(cpu, cc, args, n).0.sp == cpu.sp
  {
    if n > 0 {
      WriteSucceedsIff(cpu, cc, args, n - 1);
      assert AllFit(cc, args, n) <==> AllFit(cc, args, n - 1) && ArgFits(cc, args, n - 1);
      if ParamsWritten(cpu, cc, args, n - 1).1.None? {
        var cpu1, i, low := WrittenNext(cpu, cc, args, n);
        SetSucceedsIff(cpu1, cc, low, i);
      }
    }
  }

  lemma {:induction false} WritePlaces(
    cpu: Cpu, cc: CallingConvention, args: seq<Arg>, n: nat, j: nat, cpu': Cpu, low: Arg, at: nat)
    requires Shaped(cc) && Room(cc, args) && j < n <= |args| && low == Low(cc, args[j]) && at == SlotOf(cc, args, j)
    requires ParamsWritten(cpu, cc, args, n) == (cpu', None)
    ensures PlacedAt(cpu', cc, low, at)
  {
    if j == n - 1 {
      LastIsPlaced(cpu, cc, args, n, cpu', low, at);
    } else {
      WritePlaces(cpu, cc, args, n - 1, j, ParamsWritten(cpu, cc, args, n - 1).0, low, at);
      var _ := EarlierSlot(cc, args, j, n - 1);
      StaysPlaced(cpu, cc, args, n, cpu', low, at);
    }
  }

  lemma {:induction false} LastIsPlaced(
    cpu: Cpu, cc: CallingConvention, args: seq<Arg>, n: nat, cpu': Cpu, low: Arg, at: nat)
    requires Shaped(cc) && Room(cc, args) && 0 < n <= |args|
    requires low == Low(cc, args[n - 1]) && at == SlotOf(cc, args, n - 1)
    requires ParamsWritten(cpu, cc, args, n) == (cpu', None)
    ensures PlacedAt(cpu', cc, low, at)
  {
    var cpu1, _, _ := WrittenNext(cpu, cc, args, n);
    SetPlaces(cpu1, cpu', cc, low, at);
  }

  lemma {:induction false} StaysPlaced(
    cpu: Cpu, cc: CallingConvention, args: seq<Arg>, n: nat, cpu': Cpu, low: Arg, at: nat)
    requires Shaped(cc) && Room(cc, args) && 0 < n <= |args| && SlotOf(cc, args, n - 1) != at < |cc.argRegs|
    requires ParamsWritten(cpu, cc, args, n) == (cpu', None)
    requires PlacedAt(ParamsWritten(cpu, cc, args, n - 1).0, cc, low, at)
    ensures PlacedAt(cpu', cc, low, at)
  {
    var cpu1, i, last := WrittenNext(cpu, cc, args, n);
    SetKeepsPlaced(cpu1, cpu', cc, last, i, low, at);
  }

  lemma {:induction false} EarlierSlot(cc: CallingConvention, args: seq<Arg>, j: nat, k: nat) returns (at: nat)
    requires Room(cc, args) && j < k < |args|
    ensures at == SlotOf(cc, args, j) < |cc.argRegs| && at != SlotOf(cc, args, k)
  {
    at := SlotOf(cc, args, j);
    SlotsGrow(cc, args, j, |args|);
    SlotsGrow(cc, args, j, k);
  }

  /** No argument starts at slot h. */
  ghost predicate Unused(cc: CallingConvention, args: seq<Arg>, n: nat, h: nat)
    requires n <= |args|
  {
    forall k {:trigger SlotOf(cc, args, k)} :: 0 <= k < n ==> SlotOf(cc, args, k) != h
  }

  /** The upper slot of a wide argument. */
  lemma {:induction false} UpperSlotUnused(cc: CallingConvention, args: seq<Arg>, j: nat)
    requires j < |args| && Wide(cc, args[j])
    ensures Unused(cc, args, |args|, SlotOf(cc, args, j) + 1)
  {
    forall k | 0 <= k < |args| ensures SlotOf(cc, args, k) != SlotOf(cc, args, j) + 1 {
      if k < j {
        SlotsGrow(cc, args, k, j);
      } else if k > j {
        SlotsGrow(cc, args, j, k);
      }
    }
  }

  lemma {:induction false} WriteKeepsUnused(cpu: Cpu, cc: CallingConvention, args: seq<Arg>, n: nat, h: nat, cpu': Cpu)
    requires Shaped(cc) && Room(cc, args) && n <= |args| && h < |cc.argRegs| && Unused(cc, args, |args|, h)
    requires ParamsWritten(cpu, cc, args, n) == (cpu', None)
    ensures SameSlot(cpu, cpu', cc, h)
  {
    if n > 0 {
      var cpu1, i, low := WrittenNext(cpu, cc, args, n);
      WriteKeepsUnused(cpu, cc, args, n - 1, h, cpu1);
      SetKeeps(cpu1, cpu', cc, low, i, h);
    }
  }

  // ----- which memory a staged call touches -----

  /** Stack slots among the first n. */
  function OnStack(cc: CallingConvention, n: nat): nat {
    if n <= FirstOnStack(cc.argRegs) then 0 else n - FirstOnStack(cc.argRegs)
  }

  lemma {:induction false} StackSlotsCount(cc: CallingConvention, n: nat)
    requires Shaped(cc) && n <= |cc.argRegs|
    ensures StackSlots(cc.argRegs, n) == OnStack(cc, n)
  {
    if n > 0 {
      StackSlotsCount(cc, n - 1);
    }
  }

  /** Address of the first stack argument when the return address is at sp. */
  function ArgsAt(cc: CallingConvention, sp: int): int {
    sp + (1 + cc.shadow) * cc.word
  }

  predicate Within(a: int, lo: int, hi: int) {
    lo <= a < hi
  }

  lemma SlotAddress(cc: CallingConvention, sp: int, i: nat)
    requires Shaped(cc) && FirstOnStack(cc.argRegs) <= i < |cc.argRegs|
    ensures AccessParam(cc, i) == Ok(Stack(ArgsAt(cc, 0) + OnStack(cc, i) * cc.word))
    ensures ArgsAt(cc, 0) + sp == ArgsAt(cc, sp) && OnStack(cc, i + 1) == OnStack(cc, i) + 1
    ensures OnStack(cc, i + 1) * cc.word == OnStack(cc, i) * cc.word + cc.word
  {
    Distribute(1 + cc.shadow, OnStack(cc, i), cc.word);
    Distribute(OnStack(cc, i), 1, cc.word);
  }

  lemma Distribute(x: int, y: int, w: int)
    ensures (x + y) * w == x * w + y * w
  {
  }

  /** a is no address of the stack slots among the first n. */
  predicate Outside(cc: CallingConvention, sp: int, n: nat, a: int) {
    !Within(a, ArgsAt(cc, sp), ArgsAt(cc, sp) + OnStack(cc, n) * cc.word)
  }

  lemma SlotInside(cc: CallingConvention, sp: int, i: nat, a: int) returns (offset: int)
    requires Shaped(cc) && FirstOnStack(cc.argRegs) <= i < |cc.argRegs| && Outside(cc, sp, i + 1, a)
    ensures AccessParam(cc, i) == Ok(Stack(offset)) && !Within(a, sp + offset, sp + offset + cc.word)
  {
    SlotAddress(cc, sp, i);
    offset := ArgsAt(cc, 0) + OnStack(cc, i) * cc.word;
  }

  lemma SetConfined(cpu: Cpu, cc: CallingConvention, arg: Arg, i: nat, sp: int, a: int)
    requires Shaped(cc) && i < |cc.argRegs| && cpu.sp == sp && Outside(cc, sp, i + 1, a)
    ensures SetRawParam(cpu, cc, i, arg.value, arg.bits).0.mem(a) == cpu.mem(a)
  {
    if i >= FirstOnStack(cc.argRegs) {
      var offset := SlotInside(cc, sp, i, a);
      PutElsewhere(cpu, cc, sp + offset, Masked(arg.value, arg.bits), a);
    }
  }

  lemma PutElsewhere(cpu: Cpu, cc: CallingConvention, at: int, v: int, a: int)
    requires !Within(a, at, at + cc.word)
    ensures PutWord(cpu, cc, at, v).0.mem(a) == cpu.mem(a)
  {
  }

  lemma OutsideFewer(cc: CallingConvention, sp: int, m: nat, n: nat, a: int)
    requires m <= n && Outside(cc, sp, n, a)
    ensures Outside(cc, sp, m, a)
  {
    MulMonotone(cc.word, OnStack(cc, m), OnStack(cc, n));
  }

  lemma NextConfined(cpu: Cpu, cc: CallingConvention, arg: Arg, i: nat, sp: int, a: int, top: nat)
    requires Shaped(cc) && i < |cc.argRegs| && cpu.sp == sp && i < top && Outside(cc, sp, top, a)
    ensures SetRawParam(cpu, cc, i, arg.value, arg.bits).0.mem(a) == cpu.mem(a)
  {
    OutsideFewer(cc, sp, i + 1, top, a);
    SetConfined(cpu, cc, arg, i, sp, a);
  }

  /** Writing arguments touches only the words from the first stack argument up to the last. */
  lemma {:induction false} WriteConfined(
    cpu: Cpu, cc: CallingConvention, args: seq<Arg>, n: nat, sp: int, a: int, top: nat)
    requires Shaped(cc) && Room(cc, args) && n <= |args|
    requires cpu.sp == sp && Outside(cc, sp, top, a) && SlotOf(cc, args, n) <= top
    ensures ParamsWritten(cpu, cc, args, n).0.mem(a) == cpu.mem(a)
  {
    if n > 0 {
      SlotsGrow(cc, args, n - 1, n);
      WriteConfined(cpu, cc, args, n - 1, sp, a, top);
      if ParamsWritten(cpu, cc, args, n - 1).1.None? {
        WriteSucceedsIff(cpu, cc, args, n - 1);
        var cpu1, i, low := WrittenNext(cpu, cc, args, n);
        NextConfined(cpu1, cc, low, i, sp, a, top);
      }
    }
  }

  // ----- a whole call -----

  /** Bytes reserved for n slots. */
  function Reserved(cc: CallingConvention, n: nat): int {
    (cc.shadow + OnStack(cc, n)) * cc.word
  }

  predicate RetFits(cc: CallingConvention, ret: Option<int>) {
    ret.Some? ==> 0 <= ret.value < Pow256(cc.word)
  }

  lemma StagedMeaning(cpu: Cpu, cc: CallingConvention, n: nat, ret: Option<int>)
    requires Shaped(cc)
    ensures var (cpu1, err) := Staged(cpu, cc, n, ret);
            && (err.None? <==> n < |cc.argRegs| && RetFits(cc, ret))
            && (err.None? ==>
                && cpu1.sp == cpu.sp - Reserved(cc, n) - (if ret.Some? then cc.word else 0)
                && cpu1.regs == cpu.regs
                && cpu1.mem == if ret.Some? then StoreWord(cpu.mem, cpu1.sp, ret.value, cc.word, false) else cpu.mem)
  {
    if n < |cc.argRegs| {
      StackSlotsCount(cc, n);
    }
  }

  /** A call is staged exactly when there are slots to spare, and the return address and the stack arguments fit. */
  lemma {:induction false} CallNativeSucceedsIff(
    cpu: Cpu, cc: CallingConvention, addr: int, args: seq<Arg>, ret: Option<int>)
    requires Shaped(cc) && Known(cc, args)
    ensures var (cpu', err) := NativeCalled(cpu, cc, addr, args, ret);
            var n := SlotOf(cc, args, |args|);
            && (err.None? <==> n < |cc.argRegs| && RetFits(cc, ret) && AllFit(cc, args, |args|))
            && (err.None? ==>
                cpu'.pc == addr && cpu'.sp == cpu.sp - Reserved(cc, n) - (if ret.Some? then cc.word else 0))
  {
    var n := SlotOf(cc, args, |args|);
    SlotsMeaning(cc, args, |args|);
    StagedMeaning(cpu, cc, n, ret);
    if n < |cc.argRegs| {
      WriteSucceedsIff(Staged(cpu, cc, n, ret).0, cc, args, |args|);
    }
  }

  /** The states of a call that succeeds: staged, arguments written, and at its entry point. */
  lemma {:induction false} CallStates(cpu: Cpu, cc: CallingConvention, addr: int, args: seq<Arg>, ret: Option<int>)
    returns (n: nat, cpu1: Cpu, cpu2: Cpu)
    requires Shaped(cc) && Known(cc, args) && NativeCalled(cpu, cc, addr, args, ret).1.None?
    ensures n == SlotOf(cc, args, |args|) < |cc.argRegs| && RetFits(cc, ret)
    ensures Staged(cpu, cc, n, ret) == (cpu1, None) && ParamsWritten(cpu1, cc, args, |args|) == (cpu2, None)
    ensures NativeCalled(cpu, cc, addr, args, ret).0 == cpu2.(pc := addr) && cpu2.sp == cpu1.sp
    ensures cpu1.sp == cpu.sp - Reserved(cc, n) - (if ret.Some? then cc.word else 0)
    ensures cpu1.mem == if ret.Some? then StoreWord(cpu.mem, cpu1.sp, ret.value, cc.word, false) else cpu.mem
  {
    n := SlotOf(cc, args, |args|);
    CallNativeSucceedsIff(cpu, cc, addr, args, ret);
    SlotsMeaning(cc, args, |args|);
    StagedMeaning(cpu, cc, n, ret);
    cpu1 := Staged(cpu, cc, n, ret).0;
    cpu2 := ParamsWritten(cpu1, cc, args, |args|).0;
    WriteSucceedsIff(cpu1, cc, args, |args|);
  }

  /**
    What reading an argument at slot i gives after staging: the argument cut to its width; of a wide one
    its low word below the word that slot i + 1 held in the staged state, as no write went there.
  */
  predicate ReadsAs(staged: Cpu, cc: CallingConvention, arg: Arg, i: nat, v: int) {
    if Wide(cc, arg) then
      AccessParam(cc, i + 1).Ok? &&
      v == ReadAt(staged, cc, AccessParam(cc, i + 1).value) * 0x1_0000_0000 + arg.value % Pow2(arg.bits) % Pow2(32)
    else v == Delivered(arg.value, arg.bits, cc.word)
  }

  lemma ArgumentRead(staged: Cpu, cpu: Cpu, cc: CallingConvention, arg: Arg, i: nat)
    requires Shaped(cc) && KnownArg(cc, arg) && PlacedAt(cpu, cc, Low(cc, arg), i)
    requires Wide(cc, arg) ==> SameSlot(staged, cpu, cc, i + 1)
    ensures ReadParam(cpu, cc, i, arg.bits).Ok? && ReadsAs(staged, cc, arg, i, ReadParam(cpu, cc, i, arg.bits).value)
  {
    if Wide(cc, arg) {
      MaskedMeaning(ReadAt(cpu, cc, AccessParam(cc, i + 1).value), 0);
    }
  }

  /** Argument i is in its slot, and above a wide one lies what was there before the arguments were written. */
  ghost predicate InSlot(staged: Cpu, cpu: Cpu, cc: CallingConvention, args: seq<Arg>, i: nat)
    requires i < |args|
  {
    && PlacedAt(cpu, cc, Low(cc, args[i]), SlotOf(cc, args, i))
    && (Wide(cc, args[i]) ==> SameSlot(staged, cpu, cc, SlotOf(cc, args, i) + 1))
  }

  lemma {:induction false} ReadNext(staged: Cpu, cpu: Cpu, cc: CallingConvention, args: seq<Arg>, n: nat, vs: seq<int>)
    returns (v: int)
    requires Shaped(cc) && Known(cc, args) && n < |args| && InSlot(staged, cpu, cc, args, n)
    requires ParamsRead(cpu, cc, args, n) == Ok(vs)
    ensures ParamsRead(cpu, cc, args, n + 1) == Ok(vs + [v])
    ensures ReadsAs(staged, cc, args[n], SlotOf(cc, args, n), v)
  {
    SlotsMeaning(cc, args, n);
    ArgumentRead(staged, cpu, cc, args[n], SlotOf(cc, args, n));
    v := ReadParam(cpu, cc, SlotOf(cc, args, n), args[n].bits).value;
  }

  ghost predicate ReadBack(staged: Cpu, cc: CallingConvention, args: seq<Arg>, vs: seq<int>, i: nat)
    requires i < |args| && i < |vs|
  {
    ReadsAs(staged, cc, args[i], SlotOf(cc, args, i), vs[i])
  }

  lemma {:induction false} ReadBackSnoc(
    staged: Cpu, cc: CallingConvention, args: seq<Arg>, vs: seq<int>, v: int, i: nat)
    requires i <= |vs| < |args|
    requires i < |vs| ==> ReadBack(staged, cc, args, vs, i)
    requires i == |vs| ==> ReadsAs(staged, cc, args[i], SlotOf(cc, args, i), v)
    ensures ReadBack(staged, cc, args, vs + [v], i)
  {
  }

  lemma {:induction false} AllRead(staged: Cpu, cpu: Cpu, cc: CallingConvention, args: seq<Arg>, n: nat)
    returns (vs: seq<int>)
    requires Shaped(cc) && Known(cc, args) && n <= |args|
    requires forall i {:trigger InSlot(staged, cpu, cc, args, i)} :: 0 <= i < n ==> InSlot(staged, cpu, cc, args, i)
    ensures ParamsRead(cpu, cc, args, n) == Ok(vs) && |vs| == n
    ensures forall i {:trigger ReadBack(staged, cc, args, vs, i)} :: 0 <= i < n ==> ReadBack(staged, cc, args, vs, i)
  {
    if n == 0 {
      vs := [];
    } else {
      var ws := AllRead(staged, cpu, cc, args, n - 1);
      assert InSlot(staged, cpu, cc, args, n - 1);
      var v := ReadNext(staged, cpu, cc, args, n - 1, ws);
      vs := ws + [v];
      forall i | 0 <= i < n ensures ReadBack(staged, cc, args, vs, i) {
        ReadBackSnoc(staged, cc, args, ws, v, i);
      }
    }
  }

  lemma {:induction false} ArgumentPlaced(
    staged: Cpu, written: Cpu, cpu: Cpu, cc: CallingConvention, args: seq<Arg>, i: nat)
    requires Shaped(cc) && Room(cc, args) && i < |args|
    requires ParamsWritten(staged, cc, args, |args|) == (written, None)
    requires cpu.regs == written.regs && cpu.sp == written.sp && cpu.mem == written.mem
    ensures InSlot(staged, cpu, cc, args, i)
  {
    WritePlaces(staged, cc, args, |args|, i, written, Low(cc, args[i]), SlotOf(cc, args, i));
    SamePlaced(written, cpu, cc, Low(cc, args[i]), SlotOf(cc, args, i));
    if Wide(cc, args[i]) {
      var h := SlotOf(cc, args, i) + 1;
      UpperSlotUnused(cc, args, i);
      SlotsGrow(cc, args, i, |args|);
      WriteKeepsUnused(staged, cc, args, |args|, h, written);
      SameRead(written, cpu, cc, AccessParam(cc, h).value);
    }
  }

  lemma SameRead(cpu: Cpu, cpu': Cpu, cc: CallingConvention, at: Location)
    requires cpu'.regs == cpu.regs && cpu'.sp == cpu.sp && cpu'.mem == cpu.mem
    ensures ReadAt(cpu', cc, at) == ReadAt(cpu, cc, at)
  {
  }

  /** The callee finds each argument in its slots. */
  lemma {:induction false} CallNativeDelivers(
    cpu: Cpu, cc: CallingConvention, addr: int, args: seq<Arg>, ret: Option<int>)
    returns (vs: seq<int>)
    requires Shaped(cc) && Known(cc, args) && NativeCalled(cpu, cc, addr, args, ret).1.None?
    ensures ParamsRead(NativeCalled(cpu, cc, addr, args, ret).0, cc, args, |args|) == Ok(vs) && |vs| == |args|
    ensures var staged := Staged(cpu, cc, SlotOf(cc, args, |args|), ret).0;
            forall i :: 0 <= i < |args| ==> ReadsAs(staged, cc, args[i], SlotOf(cc, args, i), vs[i])
  {
    var cpu' := NativeCalled(cpu, cc, addr, args, ret).0;
    var n, cpu1, cpu2 := CallStates(cpu, cc, addr, args, ret);
    forall i | 0 <= i < |args| ensures InSlot(cpu1, cpu', cc, args, i) {
      ArgumentPlaced(cpu1, cpu2, cpu', cc, args, i);
    }
    vs := AllRead(cpu1, cpu', cc, args, |args|);
    forall i | 0 <= i < |args| ensures ReadsAs(cpu1, cc, args[i], SlotOf(cc, args, i), vs[i]) {
      assert ReadBack(cpu1, cc, args, vs, i);
    }
  }

  lemma SamePlaced(cpu: Cpu, cpu': Cpu, cc: CallingConvention, arg: Arg, i: nat)
    requires cpu'.regs == cpu.regs && cpu'.sp == cpu.sp && cpu'.mem == cpu.mem
    ensures PlacedAt(cpu, cc, arg, i) <==> PlacedAt(cpu', cc, arg, i)
  {
  }

  /** With a return address nothing at or above the old stack pointer, or below the new one, is written. */
  lemma {:induction false} CallNativeConfined(
    cpu: Cpu, cc: CallingConvention, addr: int, args: seq<Arg>, ret: int, a: int)
    requires Shaped(cc) && Known(cc, args) && NativeCalled(cpu, cc, addr, args, Some(ret)).1.None?
    ensures var cpu' := NativeCalled(cpu, cc, addr, args, Some(ret)).0;
            a >= cpu.sp || a < cpu'.sp ==> cpu'.mem(a) == cpu.mem(a)
  {
    var n, cpu1, cpu2 := CallStates(cpu, cc, addr, args, Some(ret));
    if a >= cpu.sp || a < cpu1.sp {
      OutsideFrame(cc, cpu.sp, n, cc.word, a);
      WriteConfined(cpu1, cc, args, |args|, cpu1.sp, a, n);
      StoredElsewhere(cpu.mem, cpu1.sp, ret, cc.word, a);
    }
  }

  lemma StoredElsewhere(m: Mem, at: int, v: int, word: nat, a: int)
    requires a < at || a >= at + word
    ensures StoreWord(m, at, v, word, false)(a) == m(a)
  {
  }

  /** Where the arguments end, with the stack pointer d bytes below the reserved space. */
  lemma FrameEnds(cc: CallingConvention, sp: int, n: nat, d: int)
    requires Shaped(cc)
    ensures var sp1 := sp - Reserved(cc, n) - d;
            && ArgsAt(cc, sp1) + OnStack(cc, n) * cc.word == sp + cc.word - d
            && ArgsAt(cc, sp1) >= sp1 + cc.word
            && sp1 + cc.word <= sp + cc.word - d
  {
    Distribute(cc.shadow, OnStack(cc, n), cc.word);
    Distribute(1, cc.shadow, cc.word);
  }

  /** An address below the arguments or behind them. */
  lemma OutsideFrame(cc: CallingConvention, sp: int, n: nat, d: int, a: int)
    requires Shaped(cc)
    requires a < sp - Reserved(cc, n) - d + cc.word || a >= sp - d + (if OnStack(cc, n) == 0 then 0 else cc.word)
    ensures Outside(cc, sp - Reserved(cc, n) - d, n, a) && sp - Reserved(cc, n) <= sp
  {
    FrameEnds(cc, sp, n, d);
  }

  /** Without one, nothing at or above the old stack pointer is written if no argument is on the stack; ... */
  lemma {:induction false} CallNativeWithoutReturn(cpu: Cpu, cc: CallingConvention, addr: int, args: seq<Arg>, a: int)
    requires Shaped(cc) && Known(cc, args) && NativeCalled(cpu, cc, addr, args, None).1.None?
    requires a >= cpu.sp + (if OnStack(cc, SlotOf(cc, args, |args|)) == 0 then 0 else cc.word)
    ensures NativeCalled(cpu, cc, addr, args, None).0.mem(a) == cpu.mem(a)
  {
    var n, cpu1, cpu2 := CallStates(cpu, cc, addr, args, None);
    OutsideFrame(cc, cpu.sp, n, 0, a);
    WriteConfined(cpu1, cc, args, |args|, cpu1.sp, a, n);
  }

  /** ... otherwise the last argument, if it takes one slot, overwrites the word at the old stack pointer. */
  lemma {:induction false} CallNativeOverwrites(
    cpu: Cpu, cc: CallingConvention, addr: int, args: seq<Arg>, last: Arg, cpu': Cpu)
    requires Shaped(cc) && Known(cc, args) && NativeCalled(cpu, cc, addr, args, None) == (cpu', None)
    requires OnStack(cc, SlotOf(cc, args, |args|)) > 0 && last == args[|args| - 1] && !Wide(cc, last)
    ensures Masked(LoadWord(cpu'.mem, cpu.sp, cc.word, false), last.bits) ==
            Delivered(last.value, last.bits, cc.word)
  {
    var n, cpu1, cpu2 := CallStates(cpu, cc, addr, args, None);
    LastWord(cpu1, cc, args, |args| - 1, n, cpu2, cpu.sp);
  }

  lemma {:induction false} LastWord(cpu: Cpu, cc: CallingConvention, args: seq<Arg>, k: nat, n: nat, cpu': Cpu, sp: int)
    requires Shaped(cc) && Room(cc, args) && k == |args| - 1 && !Wide(cc, args[k])
    requires n == SlotOf(cc, args, |args|) && OnStack(cc, n) > 0 && cpu'.sp == sp - Reserved(cc, n)
    requires ParamsWritten(cpu, cc, args, |args|) == (cpu', None)
    ensures Masked(LoadWord(cpu'.mem, sp, cc.word, false), args[k].bits) ==
            Delivered(args[k].value, args[k].bits, cc.word)
  {
    LastSlotAddress(cc, sp, n, cpu'.sp);
    LastPlaced(cpu, cc, args, k, n - 1, cpu');
    PlacedOnStack(cpu', cc, args[k], n - 1, sp);
  }

  lemma {:induction false} LastPlaced(cpu: Cpu, cc: CallingConvention, args: seq<Arg>, k: nat, i: nat, cpu': Cpu)
    requires Shaped(cc) && Room(cc, args) && k == |args| - 1 && !Wide(cc, args[k]) && i == SlotOf(cc, args, |args|) - 1
    requires ParamsWritten(cpu, cc, args, |args|) == (cpu', None)
    ensures PlacedAt(cpu', cc, args[k], i)
  {
    LastSlot(cc, args, k);
    WritePlaces(cpu, cc, args, |args|, k, cpu', Low(cc, args[k]), SlotOf(cc, args, k));
  }

  lemma {:induction false} LastSlot(cc: CallingConvention, args: seq<Arg>, k: nat)
    requires k == |args| - 1 && !Wide(cc, args[k])
    ensures SlotOf(cc, args, k) == SlotOf(cc, args, |args|) - 1 && Low(cc, args[k]) == args[k]
  {
  }

  /** The last of n slots, when it is on the stack, ends up at the old stack pointer. */
  lemma LastSlotAddress(cc: CallingConvention, sp: int, n: nat, sp1: int)
    requires Shaped(cc) && n <= |cc.argRegs| && OnStack(cc, n) > 0 && sp1 == sp - Reserved(cc, n)
    ensures AccessParam(cc, n - 1) == Ok(Stack(sp - sp1))
  {
    FrameEnds(cc, sp, n, 0);
    SlotAddress(cc, sp1, n - 1);
  }

  lemma PlacedOnStack(cpu: Cpu, cc: CallingConvention, arg: Arg, i: nat, at: int)
    requires PlacedAt(cpu, cc, arg, i) && AccessParam(cc, i) == Ok(Stack(at - cpu.sp))
    ensures Masked(LoadWord(cpu.mem, at, cc.word, false), arg.bits) == Delivered(arg.value, arg.bits, cc.word)
  {
  }

  /** Returning yields the return address and moves the stack pointer back, all the way if the callee pops. */
  lemma {:induction false} UnwindUndoesCall(cpu: Cpu, cc: CallingConvention, addr: int, args: seq<Arg>, ret: int)
    requires Shaped(cc) && Known(cc, args) && NativeCalled(cpu, cc, addr, args, Some(ret)).1.None?
    ensures var n := SlotOf(cc, args, |args|);
            var (cpu', retaddr) := Unwind(NativeCalled(cpu, cc, addr, args, Some(ret)).0, cc, n);
            && retaddr == ret
            && cpu'.sp == cpu.sp - Reserved(cc, n) + if cc.calleePops then n * cc.word else 0
  {
    var n, cpu1, cpu2 := CallStates(cpu, cc, addr, args, Some(ret));
    forall a | cpu1.sp <= a < cpu1.sp + cc.word ensures cpu2.mem(a) == cpu1.mem(a) {
      OutsideFrame(cc, cpu.sp, n, cc.word, a);
      WriteConfined(cpu1, cc, args, |args|, cpu1.sp, a, n);
    }
    assert Load(cpu2.mem, cpu1.sp, cc.word) == Load(cpu1.mem, cpu1.sp, cc.word);
    LoadStoreWord(cpu.mem, cpu1.sp, ret, cc.word, false);
  }

  lemma {:induction false} StdcallRestoresStack(cpu: Cpu, addr: int, args: seq<Arg>, ret: int)
    requires Known(STDCALL, args) && NativeCalled(cpu, STDCALL, addr, args, Some(ret)).1.None?
    ensures var n := SlotOf(STDCALL, args, |args|);
            Unwind(NativeCalled(cpu, STDCALL, addr, args, Some(ret)).0, STDCALL, n).0.sp == cpu.sp
  {
    ConventionsShaped();
    UnwindUndoesCall(cpu, STDCALL, addr, args, ret);
  }

  // ----- 64-bit arguments on 32-bit machines -----

  /** The word of the slot above a 64-bit argument's. */
  function HighWord(cpu: Cpu, cc: CallingConvention, i: nat): int {
    LoadWord(cpu.mem, ArgsAt(cc, cpu.sp) + OnStack(cc, i + 1) * cc.word, cc.word, false)
  }

  /** The low slot holds what was written, the slot above what it held. */
  lemma WideRead(cpu: Cpu, cc: CallingConvention, i: nat, w: int, bits: nat, lo: Location)
    requires bits == 64 && Shaped(cc) && cc.word == 4 && FirstOnStack(cc.argRegs) <= i < |cc.argRegs| - 1
    requires AccessParam(cc, i) == Ok(lo) && 0 <= w < Pow256(4) && WriteAt(cpu, cc, lo, w).1.None?
    ensures ReadParam(WriteAt(cpu, cc, lo, w).0, cc, i, bits) == Ok(HighWord(cpu, cc, i) * 0x1_0000_0000 + w)
  {
    SlotAddress(cc, cpu.sp, i + 1);
    var hi := AccessParam(cc, i + 1).value;
    WriteThenRead(cpu, cc, lo, w);
    DistinctSlots(cc, i, i + 1);
    WriteElsewhere(cpu, cc, lo, w, hi);
  }

  /**
    Only the low slot is written: the write is refused unless the value fits it, and what is
    read back is the value exactly if the slot above happens to hold zero.
  */
  lemma WideArgument(cpu: Cpu, cc: CallingConvention, i: nat, v: int, bits: nat)
    requires bits == 64 && Shaped(cc) && cc.word == 4 && FirstOnStack(cc.argRegs) <= i < |cc.argRegs| - 1
    ensures var (cpu', err) := SetRawParam(cpu, cc, i, v, bits);
            && (err.None? <==> v % Pow2(bits) < Pow256(4))
            && (err.None? ==> (ReadParam(cpu', cc, i, bits) == Ok(v % Pow2(bits)) <==> HighWord(cpu, cc, i) == 0))
  {
    MaskedMeaning(v, bits);
    SlotAddress(cc, cpu.sp, i);
    if SetRawParam(cpu, cc, i, v, bits).1.None? {
      WideRead(cpu, cc, i, Masked(v, bits), bits, AccessParam(cc, i).value);
    }
  }

  /** With a 1 in the slot above no 64-bit value passed under cdecl is read back; none above 32 bits is accepted. */
  lemma WideArgumentMisread(cpu: Cpu, cc: CallingConvention, mem: Mem, v: int, bits: nat)
    requires cc == CDECL && cpu.mem == StoreWord(mem, cpu.sp + 8, 1, 4, false)
    requires 0 <= v < Pow2(bits) && bits == 64
    ensures var (cpu', err) := SetRawParam(cpu, cc, 0, v, bits);
            if v < Pow256(4) then err.None? && ReadParam(cpu', cc, 0, bits) != Ok(v) else err.Some?
  {
    ConventionsShaped();
    SlotAboveFirst(cpu, cc, mem);
    ModSmall(v, Pow2(bits));
    WideArgumentIn(cpu, cc, 0, v, bits);
  }

  lemma WideArgumentIn(cpu: Cpu, cc: CallingConvention, i: nat, v: int, bits: nat)
    requires bits == 64 && Shaped(cc) && cc.word == 4 && FirstOnStack(cc.argRegs) <= i < |cc.argRegs| - 1
    requires v % Pow2(bits) == v && HighWord(cpu, cc, i) != 0
    ensures var (cpu', err) := SetRawParam(cpu, cc, i, v, bits);
            if v < Pow256(4) then err.None? && ReadParam(cpu', cc, i, bits) != Ok(v) else err.Some?
  {
    WideArgument(cpu, cc, i, v, bits);
  }

  lemma SlotAboveFirst(cpu: Cpu, cc: CallingConvention, mem: Mem)
    requires cc == CDECL && cpu.mem == StoreWord(mem, cpu.sp + 8, 1, 4, false)
    ensures HighWord(cpu, cc, 0) == 1 && FirstOnStack(cc.argRegs) == 0
  {
    FirstOnStackAt(cc.argRegs, 0);
    LoadStoreWord(mem, cpu.sp + 8, 1, 4, false);
  }

  // ----- the caller -----

  class QlFunctionCall {
    const cc: CallingConvention
    var cpu: Cpu

    constructor (cc: CallingConvention, cpu: Cpu)
      ensures this.cc == cc && this.cpu == cpu
    {
      this.cc, this.cpu := cc, cpu;
    }

    method CountSlots(args: seq<Arg>) returns (n: nat)
      requires cc.word > 0
      ensures n == SlotsUpTo(cc, args, |args|)
    {
      n := 0;
      for k := 0 to |args|
        invariant n == SlotsUpTo(cc, args, k)
      {
        n := n + NumSlots(cc, args[k].bits);
      }
    }

    method ReadParams(args: seq<Arg>) returns (r: Result<seq<int>>)
      requires cc.word > 0
      ensures r == ParamsRead(cpu, cc, args, |args|)
    {
      var si, values := 0, [];
      for k := 0 to |args|
        invariant si == SlotsUpTo(cc, args, k)
        invariant ParamsRead(cpu, cc, args, k) == Ok(values)
      {
        var v := ReadParam(cpu, cc, si, args[k].bits);
        if v.Err? {
          ReadFails(cpu, cc, args, k + 1, |args|);
          return Err(v.error);
        }
        si := si + NumSlots(cc, args[k].bits);
        values := values + [v.value];
      }
      return Ok(values);
    }

    method WriteParams(args: seq<Arg>) returns (err: Option<Error>)
      requires cc.word > 0
      modifies this`cpu
      ensures (cpu, err) == ParamsWritten(old(cpu), cc, args, |args|)
    {
      var si := 0;
      for k := 0 to |args|
        invariant si == SlotsUpTo(cc, args, k)
        invariant ParamsWritten(old(cpu), cc, args, k) == (cpu, None)
      {
        var r := SetRawParam(cpu, cc, si, args[k].value, args[k].bits);
        cpu, err := r.0, r.1;
        if err.Some? {
          WriteFails(old(cpu), cc, args, k + 1, |args|);
          return;
        }
        si := si + NumSlots(cc, args[k].bits);
      }
      err := None;
    }

    method CallNative(addr: int, args: seq<Arg>, ret: Option<int>) returns (err: Option<Error>)
      requires cc.word > 0
      modifies this`cpu
      ensures (cpu, err) == NativeCalled(old(cpu), cc, addr, args, ret)
    {
      var nslots := CountSlots(args);
      var r := Reserve(cpu, cc, nslots);
      cpu, err := r.0, r.1;
      if err.Some? {
        return;
      }
      if ret.Some? {
        r := Push(cpu, cc, ret.value);
        cpu, err := r.0, r.1;
        if err.Some? {
          return;
        }
      }
      err := WriteParams(args);
      if err.None? {
        cpu := cpu.(pc := addr);
      }
    }
  }

  lemma {:induction false} ReadFails(cpu: Cpu, cc: CallingConvention, args: seq<Arg>, k: nat, n: nat)
    requires cc.word > 0 && k <= n <= |args| && ParamsRead(cpu, cc, args, k).Err?
    ensures ParamsRead(cpu, cc, args, n) == ParamsRead(cpu, cc, args, k)
  {
    if k < n {
      ReadFails(cpu, cc, args, k, n - 1);
    }
  }

  lemma {:induction false} WriteFails(cpu: Cpu, cc: CallingConvention, args: seq<Arg>, k: nat, n: nat)
    requires cc.word > 0 && k <= n <= |args| && ParamsWritten(cpu, cc, args, k).1.Some?
    ensures ParamsWritten(cpu, cc, args, n) == ParamsWritten(cpu, cc, args, k)
  {
    if k < n {
      WriteFails(cpu, cc, args, k, n - 1);
    }
  }
}
