/** The initial stack of an ELF program: strings, and below them the table the program starts from. */
module ElfStack {
  import Bits
  import opened Bytes
  import MapSearch
  import opened Results

  /** A Latin-1 encoded string, without its terminator. */
  type Text = seq<byte>

  // ----- strings -----

  function Terminated(s: Text): (r: seq<byte>)
    ensures |r| == |s| + 1
  {
    s + [0]
  }

  function TopAfter(top: int, s: Text, w: int): (r: int)
    requires w in {4, 8}
    ensures r <= top - (|s| + 1) < r + w && r % w == 0
  {
    WordIsPow2();
    MapSearch.Align(top - (|s| + 1), w)
  }

  lemma WordIsPow2()
    ensures Bits.PassesPow2Test(4) && Bits.PassesPow2Test(8) && Bits.PassesPow2Test(16)
  {
    assert Bits.Pow2(2) == 4 && Bits.Pow2(3) == 8 && Bits.Pow2(4) == 16;
    Bits.Pow2TestExact(4);
    Bits.Pow2TestExact(8);
    Bits.Pow2TestExact(16);
  }

  /** Stack top after the first n strings. */
  function Top(strs: seq<Text>, stack: int, w: int, n: nat): int
    requires w in {4, 8} && n <= |strs|
  {
    if n == 0 then stack else TopAfter(Top(strs, stack, w, n - 1), strs[n - 1], w)
  }

  /** Memory after the first n strings. */
  function Pushed(m: Mem, strs: seq<Text>, stack: int, w: int, n: nat): Mem
    requires w in {4, 8} && n <= |strs|
  {
    if n == 0 then m
    else Store(Pushed(m, strs, stack, w, n - 1), Top(strs, stack, w, n), Terminated(strs[n - 1]))
  }

  lemma {:induction false} TopDescends(strs: seq<Text>, stack: int, w: int, i: nat, j: nat)
    requires w in {4, 8} && i <= j <= |strs|
    ensures Top(strs, stack, w, j) <= Top(strs, stack, w, i)
    decreases j
  {
    if i < j {
      TopDescends(strs, stack, w, i, j - 1);
    }
  }

  /** Strings are written downwards from the stack's end and nowhere else. */
  lemma {:induction false} PushedConfined(m: Mem, strs: seq<Text>, stack: int, w: int, n: nat, a: int)
    requires w in {4, 8} && n <= |strs|
    requires a < Top(strs, stack, w, n) || a >= stack
    ensures Pushed(m, strs, stack, w, n)(a) == m(a)
  {
    if n > 0 {
      TopDescends(strs, stack, w, 0, n - 1);
      PushedConfined(m, strs, stack, w, n - 1, a);
    }
  }

  /** The text lies at an address, with its terminator. */
  predicate TextAt(m: Mem, a: int, s: Text) {
    Load(m, a, |s| + 1) == Terminated(s)
  }

  /** No string overwrites an earlier one. */
  lemma {:induction false} PushedHolds(m: Mem, strs: seq<Text>, stack: int, w: int, n: nat, i: nat)
    requires w in {4, 8} && i < n <= |strs|
    ensures TextAt(Pushed(m, strs, stack, w, n), Top(strs, stack, w, i + 1), strs[i])
  {
    var before := Pushed(m, strs, stack, w, n - 1);
    if i == n - 1 {
      LoadStoreSame(before, Top(strs, stack, w, n), Terminated(strs[i]));
    } else {
      PushedHolds(m, strs, stack, w, n - 1, i);
      TopDescends(strs, stack, w, i + 1, n - 1);
      LoadStoreApart(before, Top(strs, stack, w, n), Terminated(strs[n - 1]),
                     Top(strs, stack, w, i + 1), |strs[i]| + 1);
    }
  }

  lemma TextBytes(m: Mem, a: int, s: Text)
    requires TextAt(m, a, s)
    ensures m(a + |s|) == 0 && forall b :: a <= b < a + |s| ==> m(b) == s[b - a]
  {
    var bs := Load(m, a, |s| + 1);
    assert bs[|s|] == Terminated(s)[|s|];
    forall b | a <= b < a + |s| ensures m(b) == s[b - a] {
      assert bs[b - a] == Terminated(s)[b - a];
    }
  }

  /** Its terminator is the first zero byte. */
  lemma TextEnds(m: Mem, a: int, s: Text)
    requires TextAt(m, a, s) && 0 !in s
    ensures m(a + |s|) == 0 && forall b :: a <= b < a + |s| ==> m(b) == s[b - a] && m(b) != 0
  {
    TextBytes(m, a, s);
    forall b | a <= b < a + |s| ensures m(b) != 0 {
      assert s[b - a] in s;
    }
  }

  /** Two texts without a zero byte at the same address are the same text. */
  lemma TextUnique(m: Mem, a: int, s: Text, t: Text)
    requires TextAt(m, a, s) && TextAt(m, a, t) && 0 !in s && 0 !in t
    ensures s == t
  {
    TextEnds(m, a, s);
    TextEnds(m, a, t);
    assert |s| == |t|;
    forall i | 0 <= i < |s| ensures s[i] == t[i] {
      assert m(a + i) == s[a + i - a] && m(a + i) == t[a + i - a];
    }
  }

  // ----- the table -----

  predicate WordsFit(ws: seq<int>, w: int)
    requires w in {4, 8}
  {
    forall i :: 0 <= i < |ws| ==> 0 <= ws[i] < Pow256(w)
  }

  /** Offset of word k. */
  function At(k: nat, w: nat): nat {
    if k == 0 then 0 else At(k - 1, w) + w
  }

  lemma {:induction false} AtGrows(i: nat, j: nat, w: nat)
    requires i <= j
    ensures At(i, w) <= At(j, w)
    decreases j
  {
    if i < j {
      AtGrows(i, j - 1, w);
    }
  }

  function Flat(words: seq<seq<byte>>): seq<byte> {
    if words == [] then [] else Flat(words[..|words| - 1]) + words[|words| - 1]
  }

  ghost predicate AllWide(words: seq<seq<byte>>, w: nat) {
    forall i :: 0 <= i < |words| ==> |words[i]| == w
  }

  lemma {:induction false} FlatLength(words: seq<seq<byte>>, w: nat)
    requires AllWide(words, w)
    ensures |Flat(words)| == At(|words|, w)
  {
    if words != [] {
      FlatLength(words[..|words| - 1], w);
    }
  }

  lemma SliceOfFront(x: seq<byte>, y: seq<byte>, i: nat, j: nat)
    requires i <= j <= |x|
    ensures (x + y)[i..j] == x[i..j]
  {
  }

  lemma {:induction false} FlatSlice(words: seq<seq<byte>>, w: nat, k: nat)
    requires AllWide(words, w) && k < |words|
    ensures At(k + 1, w) <= |Flat(words)| && Flat(words)[At(k, w)..At(k + 1, w)] == words[k]
  {
    var n := |words| - 1;
    var front := words[..n];
    FlatLength(words, w);
    FlatLength(front, w);
    if k < n {
      FlatSlice(front, w, k);
      SliceOfFront(Flat(front), words[n], At(k, w), At(k + 1, w));
    }
    AtGrows(k + 1, |words|, w);
  }

  function Packs(ws: seq<int>, w: int, big: bool): (r: seq<seq<byte>>)
    requires w in {4, 8}
    ensures |r| == |ws| && AllWide(r, w)
  {
    seq(|ws|, i requires 0 <= i < |ws| => PackWord(ws[i], w, big))
  }

  /** The packed words one after the other. */
  function PackAll(ws: seq<int>, w: int, big: bool): (r: seq<byte>)
    requires w in {4, 8}
    ensures |r| == At(|ws|, w)
  {
    FlatLength(Packs(ws, w, big), w);
    Flat(Packs(ws, w, big))
  }

  lemma LoadWithin(m: Mem, at: int, bs: seq<byte>, off: nat, end: nat)
    requires off <= end <= |bs|
    ensures Load(Store(m, at, bs), at + off, end - off) == bs[off..end]
  {
  }

  lemma LoadPacked(m: Mem, a: int, v: int, w: nat, big: bool)
    requires 0 <= v < Pow256(w) && Load(m, a, w) == PackWord(v, w, big)
    ensures LoadWord(m, a, w, big) == v
  {
    UnpackPack(v, w, big);
  }

  lemma StoredWord(m: Mem, at: int, bs: seq<byte>, off: nat, end: nat, v: int, w: nat, big: bool)
    requires off + w == end <= |bs| && bs[off..end] == PackWord(v, w, big) && 0 <= v < Pow256(w)
    ensures LoadWord(Store(m, at, bs), at + off, w, big) == v
  {
    LoadWithin(m, at, bs, off, end);
    LoadPacked(Store(m, at, bs), at + off, v, w, big);
  }

  lemma PackedWord(ws: seq<int>, w: int, big: bool, k: nat)
    requires w in {4, 8} && k < |ws|
    ensures At(k + 1, w) <= |PackAll(ws, w, big)|
    ensures PackAll(ws, w, big)[At(k, w)..At(k + 1, w)] == PackWord(ws[k], w, big)
  {
    FlatSlice(Packs(ws, w, big), w, k);
  }

  /** Word k of a packed table, read from where the table was written. */
  lemma TableWord(m: Mem, at: int, ws: seq<int>, w: int, big: bool, k: nat, bs: seq<byte>)
    requires w in {4, 8} && WordsFit(ws, w) && k < |ws| && bs == PackAll(ws, w, big)
    ensures LoadWord(Store(m, at, bs), at + At(k, w), w, big) == ws[k]
  {
    PackedWord(ws, w, big, k);
    StoredWord(m, at, bs, At(k, w), At(k + 1, w), ws[k], w, big);
  }

  // ----- the whole stack -----

  /** Auxiliary vector entry types. */
  const AT_NULL := 0
  const AT_PHDR := 3
  const AT_PHENT := 4
  const AT_PHNUM := 5
  const AT_PAGESZ := 6
  const AT_BASE := 7
  const AT_FLAGS := 8
  const AT_ENTRY := 9
  const AT_UID := 11
  const AT_EUID := 12
  const AT_GID := 13
  const AT_EGID := 14
  const AT_PLATFORM := 15
  const AT_HWCAP := 16
  const AT_CLKTCK := 17
  const AT_SECURE := 23
  const AT_RANDOM := 25
  const AT_HWCAP2 := 26
  const AT_EXECFN := 31

  /** What the file and the system contribute to the auxiliary vector. */
  datatype AuxInputs = AuxInputs(
    phdr: int, phent: int, phnum: int, base: int, entry: int, uid: int, euid: int, gid: int, egid: int)

  datatype Program = Program(
    argv: seq<Text>, env: seq<(Text, Text)>, stackAddr: int, w: int, big: bool, aux: AuxInputs)

  function Hwcap(w: int, big: bool): int {
    if w == 8 then 0x078bfbfd else if big then 0xd7b81f else 0x1fb8d7
  }

  function AuxEntries(p: Program, randstr: int, cpustr: int, execfn: int): (r: seq<(int, int)>)
    ensures |r| == 19 && r[18] == (AT_NULL, 0) && forall k :: 0 <= k < 18 ==> r[k].0 != AT_NULL
  {
    var x := p.aux;
    [(AT_HWCAP, Hwcap(p.w, p.big)), (AT_PAGESZ, MapSearch.PAGE_SIZE), (AT_CLKTCK, 100), (AT_PHDR, x.phdr),
     (AT_PHENT, x.phent), (AT_PHNUM, x.phnum), (AT_BASE, x.base), (AT_FLAGS, 0), (AT_ENTRY, x.entry),
     (AT_UID, x.uid), (AT_EUID, x.euid), (AT_GID, x.gid), (AT_EGID, x.egid), (AT_SECURE, 0), (AT_RANDOM, randstr),
     (AT_HWCAP2, 0), (AT_EXECFN, execfn),
     (AT_PLATFORM, cpustr), (AT_NULL, 0)]
  }

  /** The entries as words. */
  function Pairs(entries: seq<(int, int)>): (r: seq<int>)
    ensures |r| == 2 * |entries|
  {
    if entries == [] then []
    else Pairs(entries[..|entries| - 1]) + [entries[|entries| - 1].0, entries[|entries| - 1].1]
  }

  lemma {:induction false} PairsAt(entries: seq<(int, int)>, i: nat)
    requires i < |entries|
    ensures Pairs(entries)[2 * i] == entries[i].0 && Pairs(entries)[2 * i + 1] == entries[i].1
  {
    if i < |entries| - 1 {
      PairsAt(entries[..|entries| - 1], i);
    }
  }

  const EQUALS: byte := 61
  const RANDOM_TEXT: Text := [97, 97, 97, 97, 97, 97, 97, 97, 97, 97, 97, 97, 97, 97, 97, 97]
  const PLATFORM_TEXT: Text := [105, 54, 56, 54]

  function EnvText(kv: (Text, Text)): Text {
    kv.0 + [EQUALS] + kv.1
  }

  function EnvTexts(env: seq<(Text, Text)>): (r: seq<Text>)
    ensures |r| == |env|
  {
    seq(|env|, i requires 0 <= i < |env| => EnvText(env[i]))
  }

  /** All strings in the order they are pushed. */
  function Strings(p: Program): (r: seq<Text>)
    requires p.argv != []
    ensures |r| == |p.argv| + |p.env| + 3
  {
    p.argv + EnvTexts(p.env) + [RANDOM_TEXT, PLATFORM_TEXT, p.argv[0]]
  }

  /** What the stack is made of: strings, of which the first are arguments and the next environment. */
  datatype Layout = Layout(
    strs: seq<Text>, argc: nat, envc: nat, aux: seq<(int, int)>, stack: int, w: int, big: bool)
  {
    predicate Valid() {
      w in {4, 8} && argc + envc <= |strs|
    }

    /** Address of string i. */
    function Address(i: nat): int
      requires Valid() && i < |strs|
    {
      Top(strs, stack, w, i + 1)
    }
  }

  /** Addresses of strings i up to j. */
  function Addresses(l: Layout, i: nat, j: nat): (r: seq<int>)
    requires l.Valid() && i <= j <= |l.strs|
    ensures |r| == j - i && forall k :: 0 <= k < j - i ==> r[k] == l.Address(i + k)
  {
    seq(j - i, k requires 0 <= k < j - i => l.Address(i + k))
  }

  /** argc, the argument pointers, a null, the environment pointers and a null. */
  function Head(l: Layout): (r: seq<int>)
    requires l.Valid()
    ensures |r| == l.argc + l.envc + 3
  {
    [l.argc] + Addresses(l, 0, l.argc) + [0] + Addresses(l, l.argc, l.argc + l.envc) + [0]
  }

  function Table(l: Layout): (r: seq<int>)
    requires l.Valid()
    ensures |r| == l.argc + l.envc + 3 + 2 * |l.aux|
  {
    Head(l) + Pairs(l.aux)
  }

  /** The stack pointer and the address of the auxiliary vector, with the memory they point into. */
  datatype Stack = Stack(mem: Mem, sp: int, auxv: int)

  function TableAt(top: int, size: nat): (sp: int)
    ensures sp <= top - size < sp + 16 && sp % 16 == 0
  {
    WordIsPow2();
    MapSearch.Align(top - size, 0x10)
  }

  /** All strings, then the table below them. */
  function Built(m: Mem, l: Layout): Stack
    requires l.Valid()
  {
    var n := |l.strs|;
    var table := PackAll(Table(l), l.w, l.big);
    var sp := TableAt(Top(l.strs, l.stack, l.w, n), |table|);
    Stack(Store(Pushed(m, l.strs, l.stack, l.w, n), sp, table), sp, sp + At(l.argc + l.envc + 3, l.w))
  }

  function LayoutOf(p: Program): (l: Layout)
    requires p.w in {4, 8} && p.argv != []
    ensures l.Valid()
  {
    var strs, n := Strings(p), |p.argv| + |p.env|;
    Layout(strs, |p.argv|, |p.env|,
           AuxEntries(p, Top(strs, p.stackAddr, p.w, n + 1), Top(strs, p.stackAddr, p.w, n + 2),
                      Top(strs, p.stackAddr, p.w, n + 3)),
           p.stackAddr, p.w, p.big)
  }

  /** What has been prepared when an empty argument list is noticed. */
  function WithoutArguments(p: Program): Layout {
    Layout(EnvTexts(p.env), 0, |p.env|, [], p.stackAddr, p.w, p.big)
  }

  /** The loader's result: a word that cannot be packed, or an empty argument list, ends it. */
  function LoadStack(m: Mem, p: Program): Result<Stack>
    requires p.w in {4, 8}
  {
    if p.argv == [] then
      if WordsFit(Head(WithoutArguments(p)), p.w) then Err(IndexError) else Err(StructError)
    else if WordsFit(Table(LayoutOf(p)), p.w) then Ok(Built(m, LayoutOf(p)))
    else Err(StructError)
  }

  // ----- reading it back -----

  /** Word k above the stack pointer. */
  function Word(m: Mem, w: int, big: bool, sp: int, k: nat): int
    requires w in {4, 8}
  {
    LoadWord(m, sp + At(k, w), w, big)
  }

  ghost predicate Packable(l: Layout) {
    l.Valid() && WordsFit(Table(l), l.w)
  }

  lemma WrittenWord(m: Mem, sp: int, ws: seq<int>, w: int, big: bool, k: nat, bs: seq<byte>)
    requires w in {4, 8} && WordsFit(ws, w) && k < |ws| && bs == PackAll(ws, w, big)
    ensures Word(Store(m, sp, bs), w, big, sp, k) == ws[k]
  {
    TableWord(m, sp, ws, w, big, k, bs);
  }

  lemma BuiltWord(m: Mem, l: Layout, k: nat)
    requires Packable(l) && k < |Table(l)|
    ensures Word(Built(m, l).mem, l.w, l.big, Built(m, l).sp, k) == Table(l)[k]
  {
    WrittenWord(Pushed(m, l.strs, l.stack, l.w, |l.strs|), Built(m, l).sp, Table(l), l.w, l.big, k,
                PackAll(Table(l), l.w, l.big));
  }

  /** The table lies below all strings, on a 16-byte boundary. */
  lemma TableBelowStrings(m: Mem, l: Layout)
    requires l.Valid()
    ensures Built(m, l).sp % 16 == 0
    ensures Built(m, l).sp + At(|Table(l)|, l.w) <= Top(l.strs, l.stack, l.w, |l.strs|)
  {
  }

  /** A string pushed later lies wholly below. */
  lemma StringsApart(l: Layout, i: nat, j: nat)
    requires l.Valid() && i < j < |l.strs|
    ensures l.Address(j) + |l.strs[j]| + 1 <= l.Address(i)
  {
    TopDescends(l.strs, l.stack, l.w, i + 1, j);
  }

  /** Every string lies whole where it was pushed, above the table, below the stack's end and below all earlier ones. */
  lemma BuiltText(m: Mem, l: Layout, i: nat)
    requires l.Valid() && i < |l.strs|
    ensures TextAt(Built(m, l).mem, l.Address(i), l.strs[i])
    ensures Built(m, l).sp + At(|Table(l)|, l.w) <= l.Address(i)
    ensures l.Address(i) + |l.strs[i]| + 1 <= l.stack
    ensures forall j :: 0 <= j < i ==> l.Address(i) + |l.strs[i]| + 1 <= l.Address(j)
  {
    forall j | 0 <= j < i ensures l.Address(i) + |l.strs[i]| + 1 <= l.Address(j) {
      StringsApart(l, j, i);
    }
    TopDescends(l.strs, l.stack, l.w, 0, i);
    TableBelowStrings(m, l);
    PushedHolds(m, l.strs, l.stack, l.w, |l.strs|, i);
    TopDescends(l.strs, l.stack, l.w, i + 1, |l.strs|);
  }

  /** Nothing below the final stack pointer or at or above the initial one is written. */
  lemma BuiltConfined(m: Mem, l: Layout, a: int)
    requires l.Valid() && (a < Built(m, l).sp || a >= l.stack)
    ensures Built(m, l).mem(a) == m(a)
  {
    TableBelowStrings(m, l);
    TopDescends(l.strs, l.stack, l.w, 0, |l.strs|);
    PushedConfined(m, l.strs, l.stack, l.w, |l.strs|, a);
  }

  /**
    What a program finds at its stack pointer: the argument count, as many pointers to the
    arguments, a null, non-null pointers to the environment strings, and a null.
  */
  ghost predicate Describes(m: Mem, w: int, big: bool, sp: int, argv: seq<Text>, env: seq<Text>)
    requires w in {4, 8}
  {
    && Word(m, w, big, sp, 0) == |argv|
    && (forall i :: 0 <= i < |argv| ==> TextAt(m, Word(m, w, big, sp, 1 + i), argv[i]))
    && Word(m, w, big, sp, 1 + |argv|) == 0
    && (forall j :: 0 <= j < |env| ==> PointerTo(m, Word(m, w, big, sp, 2 + |argv| + j), env[j]))
    && Word(m, w, big, sp, 2 + |argv| + |env|) == 0
  }

  predicate PointerTo(m: Mem, a: int, s: Text) {
    a != 0 && TextAt(m, a, s)
  }

  /** The entries of an auxiliary vector at an address. */
  ghost predicate AuxAt(m: Mem, w: int, big: bool, at: int, entries: seq<(int, int)>)
    requires w in {4, 8}
  {
    forall k :: 0 <= k < |entries| ==>
      Word(m, w, big, at, 2 * k) == entries[k].0 && Word(m, w, big, at, 2 * k + 1) == entries[k].1
  }

  lemma ArgumentFound(m: Mem, l: Layout, i: nat)
    requires Packable(l) && i < l.argc
    ensures TextAt(Built(m, l).mem, Word(Built(m, l).mem, l.w, l.big, Built(m, l).sp, 1 + i), l.strs[i])
  {
    BuiltWord(m, l, 1 + i);
    BuiltText(m, l, i);
  }

  lemma AddressAboveTable(m: Mem, l: Layout, i: nat)
    requires l.Valid() && i < |l.strs|
    ensures Built(m, l).sp < l.Address(i)
  {
    TableBelowStrings(m, l);
    AtGrows(1, |Table(l)|, l.w);
    TopDescends(l.strs, l.stack, l.w, i + 1, |l.strs|);
  }

  lemma EnvironmentFound(m: Mem, l: Layout, j: nat)
    requires Packable(l) && j < l.envc && Built(m, l).sp >= 0
    ensures PointerTo(Built(m, l).mem, Word(Built(m, l).mem, l.w, l.big, Built(m, l).sp, 2 + l.argc + j),
                      l.strs[l.argc + j])
  {
    BuiltWord(m, l, 2 + l.argc + j);
    BuiltText(m, l, l.argc + j);
    AddressAboveTable(m, l, l.argc + j);
  }

  lemma HeadWords(l: Layout)
    requires l.Valid()
    ensures var t := Table(l);
            t[0] == l.argc && t[1 + l.argc] == 0 && t[2 + l.argc + l.envc] == 0
  {
  }

  lemma CountAndNulls(m: Mem, l: Layout)
    requires Packable(l)
    ensures Word(Built(m, l).mem, l.w, l.big, Built(m, l).sp, 0) == l.argc
    ensures Word(Built(m, l).mem, l.w, l.big, Built(m, l).sp, 1 + l.argc) == 0
    ensures Word(Built(m, l).mem, l.w, l.big, Built(m, l).sp, 2 + l.argc + l.envc) == 0
  {
    HeadWords(l);
    BuiltWord(m, l, 0);
    BuiltWord(m, l, 1 + l.argc);
    BuiltWord(m, l, 2 + l.argc + l.envc);
  }

  lemma AllFound(m: Mem, l: Layout, s: Stack, argv: seq<Text>, env: seq<Text>)
    requires Packable(l) && s == Built(m, l) && s.sp >= 0
    requires argv == l.strs[..l.argc] && env == l.strs[l.argc..l.argc + l.envc]
    ensures forall i :: 0 <= i < |argv| ==> TextAt(s.mem, Word(s.mem, l.w, l.big, s.sp, 1 + i), argv[i])
    ensures forall j :: 0 <= j < |env| ==> PointerTo(s.mem, Word(s.mem, l.w, l.big, s.sp, 2 + |argv| + j), env[j])
  {
    forall i | 0 <= i < |argv| ensures TextAt(s.mem, Word(s.mem, l.w, l.big, s.sp, 1 + i), argv[i]) {
      ArgumentFound(m, l, i);
    }
    forall j | 0 <= j < |env| ensures PointerTo(s.mem, Word(s.mem, l.w, l.big, s.sp, 2 + |argv| + j), env[j]) {
      EnvironmentFound(m, l, j);
    }
  }

  lemma LayoutDescribes(m: Mem, l: Layout, s: Stack, argv: seq<Text>, env: seq<Text>)
    requires Packable(l) && s == Built(m, l) && s.sp >= 0
    requires argv == l.strs[..l.argc] && env == l.strs[l.argc..l.argc + l.envc]
    ensures Describes(s.mem, l.w, l.big, s.sp, argv, env)
  {
    CountAndNulls(m, l);
    AllFound(m, l, s, argv, env);
  }

  /** The stack parses back to the program's arguments and its environment, as strings key=value. */
  lemma StackDescribesProgram(m: Mem, p: Program, env: seq<Text>)
    requires p.w in {4, 8} && LoadStack(m, p).Ok? && LoadStack(m, p).value.sp >= 0
    requires |env| == |p.env| && forall i :: 0 <= i < |env| ==> env[i] == p.env[i].0 + [61] + p.env[i].1
    ensures var s := LoadStack(m, p).value;
            s.sp % 16 == 0 && Describes(s.mem, p.w, p.big, s.sp, p.argv, env)
  {
    var l := LayoutOf(p);
    assert env == EnvTexts(p.env);
    assert l.strs[..l.argc] == p.argv && l.strs[l.argc..l.argc + l.envc] == EnvTexts(p.env);
    LayoutDescribes(m, l, Built(m, l), p.argv, EnvTexts(p.env));
    TableBelowStrings(m, l);
  }

  lemma {:induction false} AtAdds(i: nat, k: nat, w: nat)
    ensures At(i, w) + At(k, w) == At(i + k, w)
  {
    if k > 0 {
      AtAdds(i, k - 1, w);
    }
  }

  /** The auxiliary vector lies whole at the recorded address. */
  lemma AuxVectorFound(m: Mem, l: Layout)
    requires Packable(l)
    ensures AuxAt(Built(m, l).mem, l.w, l.big, Built(m, l).auxv, l.aux)
  {
    forall k | 0 <= k < |l.aux|
      ensures Word(Built(m, l).mem, l.w, l.big, Built(m, l).auxv, 2 * k) == l.aux[k].0
      ensures Word(Built(m, l).mem, l.w, l.big, Built(m, l).auxv, 2 * k + 1) == l.aux[k].1
    {
      PairsAt(l.aux, k);
      AuxWord(m, l, 2 * k);
      AuxWord(m, l, 2 * k + 1);
    }
  }

  lemma WordShift(m: Mem, w: int, big: bool, sp: int, k: nat, i: nat)
    requires w in {4, 8}
    ensures Word(m, w, big, sp + At(k, w), i) == Word(m, w, big, sp, k + i)
  {
    AtAdds(k, i, w);
    assert sp + At(k, w) + At(i, w) == sp + At(k + i, w);
  }

  lemma TableTail(l: Layout, i: nat)
    requires l.Valid() && i < 2 * |l.aux|
    ensures Table(l)[l.argc + l.envc + 3 + i] == Pairs(l.aux)[i]
  {
  }

  lemma AuxWord(m: Mem, l: Layout, i: nat)
    requires Packable(l) && i < 2 * |l.aux|
    ensures Word(Built(m, l).mem, l.w, l.big, Built(m, l).auxv, i) == Pairs(l.aux)[i]
  {
    WordShift(Built(m, l).mem, l.w, l.big, Built(m, l).sp, l.argc + l.envc + 3, i);
    BuiltWord(m, l, l.argc + l.envc + 3 + i);
    TableTail(l, i);
  }

  /** It starts right behind the null that ends the environment pointers. */
  lemma AuxVectorBehindEnvironment(m: Mem, p: Program)
    requires p.w in {4, 8} && LoadStack(m, p).Ok?
    ensures var s := LoadStack(m, p).value; s.auxv == s.sp + At(|p.argv| + |p.env| + 3, p.w)
  {
  }

  /** The first entry with a key, and no null entry before it: what looking the key up finds. */
  ghost predicate AuxHas(m: Mem, w: int, big: bool, at: int, key: int, v: int)
    requires w in {4, 8}
  {
    exists k: nat :: AuxFirst(m, w, big, at, key, v, k)
  }

  predicate AuxFirst(m: Mem, w: int, big: bool, at: int, key: int, v: int, k: nat)
    requires w in {4, 8}
  {
    && Word(m, w, big, at, 2 * k) == key && Word(m, w, big, at, 2 * k + 1) == v
    && forall j :: 0 <= j < k ==> Word(m, w, big, at, 2 * j) != key && Word(m, w, big, at, 2 * j) != 0
  }

  /** All keys before the last differ from each other and from the null entry's. */
  ghost predicate KeysDistinct(e: seq<(int, int)>) {
    |e| == 19 && forall j, k :: 0 <= j < k < 18 ==> e[j].0 != e[k].0 && e[j].0 != 0
  }

  lemma AuxKeysDistinct(p: Program, randstr: int, cpustr: int, execfn: int, e: seq<(int, int)>)
    requires e == AuxEntries(p, randstr, cpustr, execfn)
    ensures KeysDistinct(e)
  {
  }

  /** Every entry but the null one is what looking its key up finds. */
  ghost predicate EveryKeyFound(m: Mem, w: int, big: bool, at: int, e: seq<(int, int)>)
    requires w in {4, 8}
  {
    |e| == 19 && forall k :: 0 <= k < 18 ==> AuxHas(m, w, big, at, e[k].0, e[k].1)
  }

  lemma AuxHasEntries(m: Mem, w: int, big: bool, at: int, e: seq<(int, int)>)
    requires w in {4, 8} && AuxAt(m, w, big, at, e) && KeysDistinct(e)
    ensures EveryKeyFound(m, w, big, at, e)
  {
    forall k | 0 <= k < 18 ensures AuxHas(m, w, big, at, e[k].0, e[k].1) {
      assert AuxFirst(m, w, big, at, e[k].0, e[k].1, k);
    }
  }

  lemma LayoutAux(p: Program, l: Layout, n: nat)
    requires p.w in {4, 8} && p.argv != [] && l == LayoutOf(p) && n == l.argc + l.envc
    ensures |l.strs| == n + 3 && l.w == p.w && l.big == p.big
    ensures l.aux == AuxEntries(p, l.Address(n), l.Address(n + 1), l.Address(n + 2))
  {
  }

  lemma AuxAllFound(m: Mem, p: Program) returns (s: Stack, l: Layout, e: seq<(int, int)>)
    requires p.w in {4, 8} && LoadStack(m, p).Ok?
    ensures p.argv != [] && l == LayoutOf(p) && s == LoadStack(m, p).value == Built(m, l)
    ensures var n := l.argc + l.envc;
            && |l.strs| == n + 3 && EveryKeyFound(s.mem, p.w, p.big, s.auxv, e)
            && e == AuxEntries(p, l.Address(n), l.Address(n + 1), l.Address(n + 2))
  {
    s, l := LoadStack(m, p).value, LayoutOf(p);
    e := l.aux;
    var n := l.argc + l.envc;
    LayoutAux(p, l, n);
    AuxVectorFound(m, l);
    AuxKeysDistinct(p, l.Address(n), l.Address(n + 1), l.Address(n + 2), e);
    AuxHasEntries(s.mem, p.w, p.big, s.auxv, e);
  }

  lemma AuxElements(p: Program, random: int, platform: int, execfn: int, e: seq<(int, int)>)
    requires e == AuxEntries(p, random, platform, execfn)
    ensures e[3] == (3, p.aux.phdr) && e[4] == (4, p.aux.phent) && e[5] == (5, p.aux.phnum)
    ensures e[6] == (7, p.aux.base) && e[8] == (9, p.aux.entry)
    ensures e[9] == (11, p.aux.uid) && e[10] == (12, p.aux.euid)
    ensures e[11] == (13, p.aux.gid) && e[12] == (14, p.aux.egid)
    ensures e[0] == (16, if p.w == 8 then 0x078bfbfd else if p.big then 0xd7b81f else 0x1fb8d7)
    ensures e[1] == (6, 0x1000) && e[2] == (17, 100) && e[7] == (8, 0) && e[13] == (23, 0) && e[15] == (26, 0)
    ensures e[14] == (25, random) && e[17] == (15, platform) && e[16] == (31, execfn)
  {
  }

  /** Looking up the program's own values, and the system's: capabilities, page size, clock ticks, and zero flags. */
  lemma AuxValues(m: Mem, p: Program)
    requires p.w in {4, 8} && LoadStack(m, p).Ok?
    ensures var s, x := LoadStack(m, p).value, p.aux;
            && AuxHas(s.mem, p.w, p.big, s.auxv, 3, x.phdr)
            && AuxHas(s.mem, p.w, p.big, s.auxv, 4, x.phent)
            && AuxHas(s.mem, p.w, p.big, s.auxv, 5, x.phnum)
            && AuxHas(s.mem, p.w, p.big, s.auxv, 7, x.base)
            && AuxHas(s.mem, p.w, p.big, s.auxv, 9, x.entry)
            && AuxHas(s.mem, p.w, p.big, s.auxv, 11, x.uid) && AuxHas(s.mem, p.w, p.big, s.auxv, 12, x.euid)
            && AuxHas(s.mem, p.w, p.big, s.auxv, 13, x.gid) && AuxHas(s.mem, p.w, p.big, s.auxv, 14, x.egid)
    ensures var s := LoadStack(m, p).value;
            && AuxHas(s.mem, p.w, p.big, s.auxv, 16,
                      if p.w == 8 then 0x078bfbfd else if p.big then 0xd7b81f else 0x1fb8d7)
            && AuxHas(s.mem, p.w, p.big, s.auxv, 6, 0x1000) && AuxHas(s.mem, p.w, p.big, s.auxv, 17, 100)
            && AuxHas(s.mem, p.w, p.big, s.auxv, 8, 0) && AuxHas(s.mem, p.w, p.big, s.auxv, 23, 0)
            && AuxHas(s.mem, p.w, p.big, s.auxv, 26, 0)
  {
    var s, l, e := AuxAllFound(m, p);
    var n := l.argc + l.envc;
    AuxElements(p, l.Address(n), l.Address(n + 1), l.Address(n + 2), e);
  }

  /** The entries for the random bytes, the platform and the file name point to those texts. */
  lemma AuxPointers(m: Mem, p: Program) returns (random: int, platform: int, execfn: int)
    requires p.w in {4, 8} && LoadStack(m, p).Ok?
    ensures p.argv != []
    ensures var s := LoadStack(m, p).value;
            && AuxHas(s.mem, p.w, p.big, s.auxv, 25, random) && TextAt(s.mem, random, seq(16, _ => 97))
            && AuxHas(s.mem, p.w, p.big, s.auxv, 15, platform) && TextAt(s.mem, platform, [105, 54, 56, 54])
            && AuxHas(s.mem, p.w, p.big, s.auxv, 31, execfn) && TextAt(s.mem, execfn, p.argv[0])
  {
    var s, l, e := AuxAllFound(m, p);
    var n := l.argc + l.envc;
    random, platform, execfn := l.Address(n), l.Address(n + 1), l.Address(n + 2);
    AuxElements(p, random, platform, execfn, e);
    AuxTextsFound(m, p, l, n);
  }

  lemma TextFound(m: Mem, l: Layout, i: nat, text: Text)
    requires l.Valid() && i < |l.strs| && l.strs[i] == text
    ensures TextAt(Built(m, l).mem, l.Address(i), text)
  {
    BuiltText(m, l, i);
  }

  lemma AuxTextsFound(m: Mem, p: Program, l: Layout, n: nat)
    requires p.w in {4, 8} && p.argv != [] && l == LayoutOf(p) && n == l.argc + l.envc
    ensures |l.strs| == n + 3
    ensures TextAt(Built(m, l).mem, l.Address(n), seq(16, _ => 97))
    ensures TextAt(Built(m, l).mem, l.Address(n + 1), [105, 54, 56, 54])
    ensures TextAt(Built(m, l).mem, l.Address(n + 2), p.argv[0])
  {
    AuxTexts(p, l.(aux := []));
    assert RANDOM_TEXT == seq(16, _ => 97);
    TextFound(m, l, n, seq(16, _ => 97));
    TextFound(m, l, n + 1, [105, 54, 56, 54]);
    TextFound(m, l, n + 2, p.argv[0]);
  }

  /** Reading is unambiguous: memory describes at most one list of arguments and one environment. */
  lemma DescribedOnce(
    m: Mem, w: int, big: bool, sp: int, argv: seq<Text>, env: seq<Text>, argv': seq<Text>, env': seq<Text>)
    requires w in {4, 8} && Describes(m, w, big, sp, argv, env) && Describes(m, w, big, sp, argv', env')
    requires forall s :: s in argv + env + argv' + env' ==> 0 !in s
    ensures argv == argv' && env == env'
  {
    forall i | 0 <= i < |argv| ensures argv[i] == argv'[i] {
      TextUnique(m, Word(m, w, big, sp, 1 + i), argv[i], argv'[i]);
    }
    SameLength(m, w, big, sp, argv, env, env');
    SameLength(m, w, big, sp, argv, env', env);
    forall j | 0 <= j < |env| ensures env[j] == env'[j] {
      TextUnique(m, Word(m, w, big, sp, 2 + |argv| + j), env[j], env'[j]);
    }
  }

  lemma EnvironmentPointer(m: Mem, w: int, big: bool, sp: int, argv: seq<Text>, env: seq<Text>, j: nat)
    requires w in {4, 8} && Describes(m, w, big, sp, argv, env) && j < |env|
    ensures Word(m, w, big, sp, 2 + |argv| + j) != 0
  {
    assert PointerTo(m, Word(m, w, big, sp, 2 + |argv| + j), env[j]);
  }

  lemma SameLength(m: Mem, w: int, big: bool, sp: int, argv: seq<Text>, env: seq<Text>, env': seq<Text>)
    requires w in {4, 8} && Describes(m, w, big, sp, argv, env) && Describes(m, w, big, sp, argv, env')
    ensures |env'| <= |env|
  {
    if |env| < |env'| {
      EnvironmentPointer(m, w, big, sp, argv, env', |env|);
    }
  }

  // ----- the loader -----

  method PushStr(m: Mem, top: int, s: Text, w: int) returns (m': Mem, top': int)
    requires w in {4, 8}
    ensures top' == TopAfter(top, s, w) && m' == Store(m, top', Terminated(s))
  {
    var data := s + [0];
    WordIsPow2();
    top' := MapSearch.Align(top - |data|, w);
    m' := Store(m, top', data);
  }

  predicate AddressFits(l: Layout, k: nat)
    requires l.Valid() && k < |l.strs|
  {
    0 <= l.Address(k) < Pow256(l.w)
  }

  ghost predicate AllFit(l: Layout, i: nat, j: nat)
    requires l.Valid() && i <= j <= |l.strs|
  {
    forall k {:trigger AddressFits(l, k)} :: i <= k < j ==> AddressFits(l, k)
  }

  lemma AllFitMeaning(l: Layout, i: nat, j: nat)
    requires l.Valid() && i <= j <= |l.strs|
    ensures AllFit(l, i, j) <==> WordsFit(Addresses(l, i, j), l.w)
  {
    var ws := Addresses(l, i, j);
    if WordsFit(ws, l.w) {
      forall k | i <= k < j ensures AddressFits(l, k) {
        assert ws[k - i] == l.Address(k);
      }
    }
    if AllFit(l, i, j) {
      forall x | 0 <= x < |ws| ensures 0 <= ws[x] < Pow256(l.w) {
        assert AddressFits(l, i + x);
      }
    }
  }

  lemma FitSnoc(ws: seq<int>, x: int, w: int)
    requires w in {4, 8}
    ensures WordsFit(ws + [x], w) <==> WordsFit(ws, w) && 0 <= x < Pow256(w)
  {
    var all := ws + [x];
    assert all[|ws|] == x;
    assert forall i :: 0 <= i < |ws| ==> all[i] == ws[i];
  }

  lemma FitConcat(x: seq<int>, y: seq<int>, w: int)
    requires w in {4, 8}
    ensures WordsFit(x + y, w) <==> WordsFit(x, w) && WordsFit(y, w)
  {
    var all := x + y;
    assert forall i :: 0 <= i < |x| ==> all[i] == x[i];
    assert forall i :: 0 <= i < |y| ==> all[|x| + i] == y[i];
  }

  method PushNext(ghost m0: Mem, l: Layout, k: nat, m: Mem, top: int, s: Text) returns (m': Mem, top': int)
    requires l.Valid() && k < |l.strs| && l.strs[k] == s
    requires m == Pushed(m0, l.strs, l.stack, l.w, k) && top == Top(l.strs, l.stack, l.w, k)
    ensures m' == Pushed(m0, l.strs, l.stack, l.w, k + 1) && top' == Top(l.strs, l.stack, l.w, k + 1)
  {
    m', top' := PushStr(m, top, s, l.w);
  }

  /** Pushes strings i up to j of a layout and notes their addresses, until one does not fit a word. */
  method PushStrings(ghost m0: Mem, l: Layout, i: nat, j: nat, m: Mem, top: int)
    returns (ok: bool, m': Mem, top': int, addresses: seq<int>)
    requires l.Valid() && i <= j <= |l.strs|
    requires m == Pushed(m0, l.strs, l.stack, l.w, i) && top == Top(l.strs, l.stack, l.w, i)
    ensures ok <==> AllFit(l, i, j)
    ensures ok ==> m' == Pushed(m0, l.strs, l.stack, l.w, j) && top' == Top(l.strs, l.stack, l.w, j)
    ensures ok ==> addresses == Addresses(l, i, j)
  {
    ok, m', top', addresses := true, m, top, [];
    for k := i to j
      invariant m' == Pushed(m0, l.strs, l.stack, l.w, k) && top' == Top(l.strs, l.stack, l.w, k)
      invariant ok && AllFit(l, i, k)
      invariant addresses == Addresses(l, i, k)
    {
      m', top' := PushNext(m0, l, k, m', top', l.strs[k]);
      ok := 0 <= top' < Pow256(l.w);
      assert ok <==> AddressFits(l, k);
      if !ok {
        return;
      }
      addresses := addresses + [top'];
    }
  }

  /** Notes the entries of the auxiliary vector, until a word does not fit. */
  method ExtendPairs(entries: seq<(int, int)>, w: int) returns (ok: bool, words: seq<int>)
    requires w in {4, 8}
    ensures ok <==> WordsFit(Pairs(entries), w)
    ensures ok ==> words == Pairs(entries)
  {
    ok, words := true, [];
    for k := 0 to |entries|
      invariant ok && WordsFit(words, w) && words == Pairs(entries[..k])
    {
      ok := 0 <= entries[k].0 < Pow256(w) && 0 <= entries[k].1 < Pow256(w);
      PairsNext(entries, k, w);
      if !ok {
        PairsPrefixFits(entries, k + 1, w);
        return;
      }
      words := words + [entries[k].0, entries[k].1];
    }
    assert entries[..|entries|] == entries;
  }

  lemma PairsNext(entries: seq<(int, int)>, k: nat, w: int)
    requires w in {4, 8} && k < |entries|
    ensures Pairs(entries[..k + 1]) == Pairs(entries[..k]) + [entries[k].0, entries[k].1]
    ensures WordsFit(Pairs(entries[..k + 1]), w) <==>
            WordsFit(Pairs(entries[..k]), w) && 0 <= entries[k].0 < Pow256(w) && 0 <= entries[k].1 < Pow256(w)
  {
    assert entries[..k + 1][..k] == entries[..k];
    assert Pairs(entries[..k]) + [entries[k].0, entries[k].1] == Pairs(entries[..k]) + [entries[k].0] + [entries[k].1];
    FitSnoc(Pairs(entries[..k]) + [entries[k].0], entries[k].1, w);
    FitSnoc(Pairs(entries[..k]), entries[k].0, w);
  }

  lemma {:induction false} PairsPrefixFits(entries: seq<(int, int)>, k: nat, w: int)
    requires w in {4, 8} && k <= |entries|
    ensures WordsFit(Pairs(entries), w) ==> WordsFit(Pairs(entries[..k]), w)
    decreases |entries| - k
  {
    if k < |entries| {
      PairsNext(entries, k, w);
      PairsPrefixFits(entries, k + 1, w);
    } else {
      assert entries[..k] == entries;
    }
  }

  /** Everything up to the second null: argc, and the pushed strings with their addresses. */
  method BuildHead(m: Mem, l: Layout) returns (ok: bool, m': Mem, top: int, table: seq<int>)
    requires l.Valid()
    ensures ok <==> WordsFit(Head(l), l.w)
    ensures ok ==> m' == Pushed(m, l.strs, l.stack, l.w, l.argc + l.envc)
    ensures ok ==> top == Top(l.strs, l.stack, l.w, l.argc + l.envc) && table == Head(l)
  {
    HeadFits(l);
    AllFitMeaning(l, 0, l.argc);
    AllFitMeaning(l, l.argc, l.argc + l.envc);
    m', top, table := m, l.stack, [l.argc];
    ok := l.argc < Pow256(l.w);
    if !ok { return; }
    var addresses;
    ok, m', top, addresses := PushStrings(m, l, 0, l.argc, m', top);
    if !ok { return; }
    table := table + addresses + [0];
    ok, m', top, addresses := PushStrings(m, l, l.argc, l.argc + l.envc, m', top);
    if !ok { return; }
    table := table + addresses + [0];
  }

  lemma HeadFits(l: Layout)
    requires l.Valid()
    ensures WordsFit(Head(l), l.w) <==>
            && 0 <= l.argc < Pow256(l.w)
            && WordsFit(Addresses(l, 0, l.argc), l.w) && WordsFit(Addresses(l, l.argc, l.argc + l.envc), l.w)
  {
    var x, y := [l.argc] + Addresses(l, 0, l.argc), Addresses(l, l.argc, l.argc + l.envc);
    FitSnoc(x + [0] + y, 0, l.w);
    FitConcat(x + [0], y, l.w);
    FitSnoc(x, 0, l.w);
    FitConcat([l.argc], Addresses(l, 0, l.argc), l.w);
    FitSnoc([], l.argc, l.w);
  }

  lemma AuxTexts(p: Program, l: Layout)
    requires p.w in {4, 8} && p.argv != [] && l == LayoutOf(p).(aux := [])
    ensures var n := l.argc + l.envc;
            && |l.strs| == n + 3
            && l.strs[n] == RANDOM_TEXT && l.strs[n + 1] == PLATFORM_TEXT && l.strs[n + 2] == p.argv[0]
  {
  }

  method PushThree(ghost m0: Mem, l: Layout, m: Mem, top: int, s0: Text, s1: Text, s2: Text)
    returns (m': Mem, a0: int, a1: int, a2: int)
    requires l.Valid() && |l.strs| == l.argc + l.envc + 3
    requires var n := l.argc + l.envc; l.strs[n] == s0 && l.strs[n + 1] == s1 && l.strs[n + 2] == s2
    requires m == Pushed(m0, l.strs, l.stack, l.w, l.argc + l.envc)
    requires top == Top(l.strs, l.stack, l.w, l.argc + l.envc)
    ensures m' == Pushed(m0, l.strs, l.stack, l.w, |l.strs|)
    ensures var n := l.argc + l.envc;
            && a0 == Top(l.strs, l.stack, l.w, n + 1) && a1 == Top(l.strs, l.stack, l.w, n + 2)
            && a2 == Top(l.strs, l.stack, l.w, n + 3)
  {
    var n := l.argc + l.envc;
    m', a0 := PushNext(m0, l, n, m, top, s0);
    m', a1 := PushNext(m0, l, n + 1, m', a0, s1);
    m', a2 := PushNext(m0, l, n + 2, m', a1, s2);
  }

  /** The three strings the auxiliary vector points to, and its entries. */
  method PushAuxStrings(ghost m0: Mem, p: Program, l: Layout, m: Mem, top: int)
    returns (m': Mem, execfn: int, entries: seq<(int, int)>)
    requires p.w in {4, 8} && p.argv != [] && l == LayoutOf(p).(aux := [])
    requires m == Pushed(m0, l.strs, l.stack, l.w, l.argc + l.envc)
    requires top == Top(l.strs, l.stack, l.w, l.argc + l.envc)
    ensures m' == Pushed(m0, l.strs, l.stack, l.w, |l.strs|) && execfn == Top(l.strs, l.stack, l.w, |l.strs|)
    ensures LayoutOf(p) == l.(aux := entries)
  {
    AuxTexts(p, l);
    var randstr, cpustr;
    m', randstr, cpustr, execfn := PushThree(m0, l, m, top, RANDOM_TEXT, PLATFORM_TEXT, p.argv[0]);
    entries := AuxEntries(p, randstr, cpustr, execfn);
    LayoutWith(p, l, randstr, cpustr, execfn, entries);
  }

  lemma LayoutWith(p: Program, l: Layout, randstr: int, cpustr: int, execfn: int, entries: seq<(int, int)>)
    requires p.w in {4, 8} && p.argv != [] && l == LayoutOf(p).(aux := [])
    requires var n := l.argc + l.envc;
             && randstr == Top(l.strs, l.stack, l.w, n + 1) && cpustr == Top(l.strs, l.stack, l.w, n + 2)
             && execfn == Top(l.strs, l.stack, l.w, n + 3)
    requires entries == AuxEntries(p, randstr, cpustr, execfn)
    ensures LayoutOf(p) == l.(aux := entries)
  {
  }

  method LoadWithStack(m: Mem, p: Program) returns (r: Result<Stack>)
    requires p.w in {4, 8}
    ensures r == LoadStack(m, p)
  {
    var strs := if p.argv == [] then EnvTexts(p.env) else Strings(p);
    var l := Layout(strs, |p.argv|, |p.env|, [], p.stackAddr, p.w, p.big);
    var ok, m', top, table := BuildHead(m, l);
    if p.argv == [] {
      return if ok then Err(IndexError) else Err(StructError);
    }
    r := LoadRest(m, p, l, ok, m', top, table);
  }

  method LoadRest(m: Mem, p: Program, l: Layout, ok: bool, m': Mem, top: int, table: seq<int>)
    returns (r: Result<Stack>)
    requires p.w in {4, 8} && p.argv != [] && l == LayoutOf(p).(aux := [])
    requires ok <==> WordsFit(Head(l), l.w)
    requires ok ==> m' == Pushed(m, l.strs, l.stack, l.w, l.argc + l.envc)
    requires ok ==> top == Top(l.strs, l.stack, l.w, l.argc + l.envc) && table == Head(l)
    ensures r == LoadStack(m, p)
  {
    if !ok {
      TableFits(l, LayoutOf(p));
      return Err(StructError);
    }
    var m2, execfn, entries := PushAuxStrings(m, p, l, m', top);
    r := Finish(m, l, l.(aux := entries), m2, execfn, table);
  }

  method Finish(ghost m: Mem, ghost l: Layout, full: Layout, m2: Mem, execfn: int, table: seq<int>)
    returns (r: Result<Stack>)
    requires l.Valid() && full.Valid() && l == full.(aux := [])
    requires WordsFit(Head(l), l.w) && table == Head(l)
    requires m2 == Pushed(m, l.strs, l.stack, l.w, |l.strs|) && execfn == Top(l.strs, l.stack, l.w, |l.strs|)
    ensures r == if WordsFit(Table(full), full.w) then Ok(Built(m, full)) else Err(StructError)
  {
    TableFits(l, full);
    var ok, words := ExtendPairs(full.aux, full.w);
    if !ok {
      return Err(StructError);
    }
    var bytes := PackAll(table + words, full.w, full.big);
    var sp := TableAt(execfn, |bytes|);
    return Ok(Stack(Store(m2, sp, bytes), sp, sp + At(|table|, full.w)));
  }

  lemma TableFits(l: Layout, full: Layout)
    requires l.Valid() && full.Valid() && l == full.(aux := [])
    ensures Head(full) == Head(l)
    ensures WordsFit(Table(full), full.w) <==> WordsFit(Head(l), l.w) && WordsFit(Pairs(full.aux), full.w)
  {
    SameHead(l, full);
    FitConcat(Head(full), Pairs(full.aux), full.w);
  }

  lemma SameHead(l: Layout, full: Layout)
    requires l.Valid() && full.Valid() && l == full.(aux := [])
    ensures Head(full) == Head(l)
  {
    assert Addresses(full, 0, full.argc) == Addresses(l, 0, l.argc);
    assert Addresses(full, full.argc, full.argc + full.envc) == Addresses(l, l.argc, l.argc + l.envc);
  }

  // ----- when loading succeeds -----

  predicate PairFits(x: (int, int), w: int)
    requires w in {4, 8}
  {
    0 <= x.0 < Pow256(w) && 0 <= x.1 < Pow256(w)
  }

  lemma {:induction false} PairsFit(e: seq<(int, int)>, w: int)
    requires w in {4, 8}
    ensures WordsFit(Pairs(e), w) <==> forall k :: 0 <= k < |e| ==> PairFits(e[k], w)
  {
    if e != [] {
      var n := |e| - 1;
      PairsFit(e[..n], w);
      assert e[..n + 1] == e;
      PairsNext(e, n, w);
      assert forall k :: 0 <= k < n ==> e[..n][k] == e[k];
    }
  }

  lemma LayoutFits(l: Layout)
    requires l.Valid()
    ensures WordsFit(Table(l), l.w) <==>
            && l.argc < Pow256(l.w)
            && (forall i :: 0 <= i < l.argc + l.envc ==> 0 <= l.Address(i) < Pow256(l.w))
            && (forall k :: 0 <= k < |l.aux| ==> PairFits(l.aux[k], l.w))
  {
    HeadFits(l);
    AllFitMeaning(l, 0, l.argc);
    AllFitMeaning(l, l.argc, l.argc + l.envc);
    PairsFit(l.aux, l.w);
    FitConcat(Head(l), Pairs(l.aux), l.w);
    if AllFit(l, 0, l.argc) && AllFit(l, l.argc, l.argc + l.envc) {
      forall i | 0 <= i < l.argc + l.envc ensures 0 <= l.Address(i) < Pow256(l.w) {
        assert AddressFits(l, i);
      }
    }
  }

  /**
    Loading fails without arguments, and otherwise exactly if the argument count, the address of an
    argument or environment string, or an auxiliary value does not fit a word.
  */
  lemma LoadSucceedsIff(m: Mem, p: Program)
    requires p.w in {4, 8}
    ensures p.argv == [] ==>
              var l := WithoutArguments(p);
              LoadStack(m, p) ==
              Err(if forall i :: 0 <= i < |p.env| ==> 0 <= l.Address(i) < Pow256(p.w) then IndexError else StructError)
    ensures p.argv != [] ==>
              var l := LayoutOf(p);
              && (LoadStack(m, p).Ok? || LoadStack(m, p) == Err(StructError))
              && (LoadStack(m, p).Ok? <==>
                    && |p.argv| < Pow256(p.w)
                    && (forall i :: 0 <= i < |p.argv| + |p.env| ==> 0 <= l.Address(i) < Pow256(p.w))
                    && (forall k :: 0 <= k < |l.aux| ==> PairFits(l.aux[k], p.w)))
  {
    if p.argv != [] {
      LayoutFits(LayoutOf(p));
    } else {
      LayoutFits(WithoutArguments(p));
      assert Table(WithoutArguments(p)) == Head(WithoutArguments(p));
    }
  }
}
