/** Saving the contents of memory and writing a saved copy back. */
module MemorySnapshot {
  import Bytes
  import Engine
  import MapCallbacks
  import opened MapInfo
  import opened MapOps
  import MapSearch
  import MemoryManager
  import opened Results

  datatype RamSegment = RamSegment(lo: int, hi: int, perms: int, info: string, data: seq<Bytes.byte>) {
    predicate Contains(a: int) { lo <= a < hi }
  }

  datatype MmioSegment = MmioSegment(lo: int, hi: int, perms: int, info: string, cb: Callbacks) {
    predicate Contains(a: int) { lo <= a < hi }
  }

  datatype Saved = Saved(ram: seq<RamSegment>, mmio: seq<MmioSegment>)

  /** The ram segments of the first n entries, with their contents. */
  function RamUpTo(st: State, n: nat): seq<RamSegment>
    requires n <= |st.info| && NonEmpty(st.info)
  {
    if n == 0 then []
    else
      var x := st.info[n - 1];
      RamUpTo(st, n - 1) +
      if x.mmio then [] else [RamSegment(x.lo, x.hi, x.perms, x.info, Bytes.Load(st.uc.data, x.lo, x.hi - x.lo))]
  }

  /** Every mmio entry among the first n still has its callbacks. */
  predicate CallbacksKnown(st: State, n: nat)
    requires n <= |st.info|
  {
    forall i :: 0 <= i < n && st.info[i].mmio ==> (st.info[i].lo, st.info[i].hi) in st.cbs
  }

  lemma AllKnownIsCallbacksKnown(st: State)
    ensures CallbacksKnown(st, |st.info|) <==> MapCallbacks.AllKnown(st.info, st.cbs)
  {
    if CallbacksKnown(st, |st.info|) {
      assert forall i :: 0 <= i < |st.info| ==> MapCallbacks.Known(st.info[i], st.cbs);
    } else {
      var i :| 0 <= i < |st.info| && st.info[i].mmio && (st.info[i].lo, st.info[i].hi) !in st.cbs;
      assert !MapCallbacks.Known(st.info[i], st.cbs);
    }
  }

  /** After a run that leaves no part of an mmio range without callbacks the map can be saved. */
  lemma RunIsSavable(st: State, ops: seq<Op>, st': State)
    requires Inv(st) && CallbacksKnown(st, |st.info|)
    requires Reaches(st, ops, st') && MapCallbacks.LeavesCallbacksAll(st, ops)
    ensures Inv(st') && CallbacksKnown(st', |st'.info|)
  {
    AllKnownIsCallbacksKnown(st);
    AllKnownIsCallbacksKnown(st');
    RunKeepsInv(st, ops, st');
    MapCallbacks.RunKeepsCallbacks(st, ops, st');
  }

  function MmioUpTo(st: State, n: nat): seq<MmioSegment>
    requires n <= |st.info| && CallbacksKnown(st, n)
  {
    if n == 0 then []
    else
      var x := st.info[n - 1];
      MmioUpTo(st, n - 1) +
      if x.mmio then [MmioSegment(x.lo, x.hi, x.perms, x.info, st.cbs[(x.lo, x.hi)])] else []
  }

  /** save succeeds exactly when no mmio entry has lost its callbacks. */
  method Save(m: MemoryManager.QlMemoryManager) returns (r: Result<Saved>)
    requires m.Valid()
    ensures r == if CallbacksKnown(m.Abs(), |m.mapInfo|)
                 then Ok(Saved(RamUpTo(m.Abs(), |m.mapInfo|), MmioUpTo(m.Abs(), |m.mapInfo|)))
                 else Err(KeyError)
  {
    var ram, mmio := [], [];
    for i := 0 to |m.mapInfo|
      invariant CallbacksKnown(m.Abs(), i)
      invariant ram == RamUpTo(m.Abs(), i) && mmio == MmioUpTo(m.Abs(), i)
    {
      var x := m.mapInfo[i];
      if x.mmio {
        if (x.lo, x.hi) !in m.mmioCbs {
          return Err(KeyError);
        }
        mmio := mmio + [MmioSegment(x.lo, x.hi, x.perms, x.info, m.mmioCbs[(x.lo, x.hi)])];
      } else {
        ListedIsReadable(m.Abs(), i);
        var data := m.uc.MemRead(x.lo, x.hi - x.lo);
        ram := ram + [RamSegment(x.lo, x.hi, x.perms, x.info, data.value)];
      }
    }
    return Ok(Saved(ram, mmio));
  }

  lemma ListedIsReadable(st: State, i: nat)
    requires Inv(st) && i < |st.info|
    ensures st.info[i].lo < st.info[i].hi
    ensures st.uc.MemRead(st.info[i].lo, st.info[i].hi - st.info[i].lo) ==
            Ok(Bytes.Load(st.uc.data, st.info[i].lo, st.info[i].hi - st.info[i].lo))
  {
    forall a | st.info[i].Contains(a) ensures st.uc.Maps(a) {
      ViewAt(st.info, i, a);
      assert Mapped(st.info, a);
    }
  }

  /** Segments are non-empty, hold one byte per address and do not overlap. */
  ghost predicate RamOrdered(ram: seq<RamSegment>) {
    && (forall i :: 0 <= i < |ram| ==> RamOk(ram[i]))
    && (forall i, j :: 0 <= i < j < |ram| ==> ram[i].hi <= ram[j].lo)
  }

  predicate RamOk(x: RamSegment) {
    x.lo < x.hi && |x.data| == x.hi - x.lo
  }

  /** A segment map would accept where it is free. */
  predicate Mappable(x: RamSegment) {
    && 0 <= x.lo && x.hi <= Engine.ADDRESS_LIMIT
    && x.lo % MapSearch.PAGE_SIZE == 0 && x.hi % MapSearch.PAGE_SIZE == 0
    && 0 <= x.perms <= Engine.PROT_ALL
  }

  predicate AllMappable(ram: seq<RamSegment>) {
    forall i :: 0 <= i < |ram| ==> Mappable(ram[i])
  }

  ghost predicate Saves(ram: seq<RamSegment>, a: int) {
    exists i :: 0 <= i < |ram| && ram[i].Contains(a)
  }

  lemma EntryWithinLimits(st: State, i: nat)
    requires Inv(st) && i < |st.info|
    ensures 0 <= st.info[i].lo < st.info[i].hi <= Engine.ADDRESS_LIMIT
  {
    var x := st.info[i];
    ViewAt(st.info, i, x.lo);
    ViewAt(st.info, i, x.hi - 1);
    assert Mapped(st.info, x.lo) && Mapped(st.info, x.hi - 1);
  }

  lemma {:induction false} SavedIsOrdered(st: State, n: nat)
    requires WellFormed(st.info) && n <= |st.info|
    ensures RamOrdered(RamUpTo(st, n))
    ensures forall i :: 0 <= i < |RamUpTo(st, n)| ==> n > 0 && RamUpTo(st, n)[i].hi <= st.info[n - 1].hi
  {
    if n > 0 {
      SavedIsOrdered(st, n - 1);
      assert n > 1 ==> st.info[n - 2].hi <= st.info[n - 1].lo;
    }
  }

  lemma {:induction false} SavedIsMappable(st: State, n: nat)
    requires Inv(st) && Regular(st.info) && n <= |st.info|
    ensures AllMappable(RamUpTo(st, n))
  {
    if n > 0 {
      SavedIsMappable(st, n - 1);
      EntryWithinLimits(st, n - 1);
      assert RegularEntry(st.info[n - 1]);
    }
  }

  /** The copy holds the byte of every listed ram address. */
  lemma {:induction false} SavedHolds(st: State, n: nat, k: nat, a: int) returns (i: nat)
    requires Inv(st) && k < n <= |st.info| && st.info[k].Contains(a) && !st.info[k].mmio
    ensures i < |RamUpTo(st, n)|
    ensures RamUpTo(st, n)[i].Contains(a) && |RamUpTo(st, n)[i].data| == RamUpTo(st, n)[i].hi - RamUpTo(st, n)[i].lo
    ensures RamUpTo(st, n)[i].data[a - RamUpTo(st, n)[i].lo] == st.uc.data(a)
  {
    if k == n - 1 {
      i := |RamUpTo(st, n - 1)|;
    } else {
      i := SavedHolds(st, n - 1, k, a);
    }
  }

  /** Where a saved ram segment comes from. */
  lemma {:induction false} CopyOf(st: State, n: nat, i: nat) returns (k: nat)
    requires NonEmpty(st.info) && n <= |st.info| && i < |RamUpTo(st, n)|
    ensures k < n && !st.info[k].mmio
    ensures RamUpTo(st, n)[i].lo == st.info[k].lo && RamUpTo(st, n)[i].hi == st.info[k].hi
    ensures RamUpTo(st, n)[i].perms == st.info[k].perms && RamUpTo(st, n)[i].info == st.info[k].info
    ensures RamUpTo(st, n)[i].lo < RamUpTo(st, n)[i].hi
    ensures RamUpTo(st, n)[i].data ==
            Bytes.Load(st.uc.data, RamUpTo(st, n)[i].lo, RamUpTo(st, n)[i].hi - RamUpTo(st, n)[i].lo)
  {
    if i == |RamUpTo(st, n - 1)| {
      k := n - 1;
    } else {
      k := CopyOf(st, n - 1, i);
    }
  }

  lemma {:induction false} MmioOf(st: State, n: nat, i: nat) returns (k: nat)
    requires n <= |st.info| && CallbacksKnown(st, n) && i < |MmioUpTo(st, n)|
    ensures k < n && st.info[k].mmio
    ensures MmioUpTo(st, n)[i].lo == st.info[k].lo && MmioUpTo(st, n)[i].hi == st.info[k].hi
    ensures MmioUpTo(st, n)[i].info == st.info[k].info
    ensures MmioUpTo(st, n)[i].cb == st.cbs[(st.info[k].lo, st.info[k].hi)]
  {
    if i == |MmioUpTo(st, n - 1)| {
      k := n - 1;
    } else {
      k := MmioOf(st, n - 1, i);
    }
  }

  // ----- restore -----

  /** One segment: map the range if it is free, then write the bytes. */
  function RestoreSegment(st: State, x: RamSegment): Outcome {
    if x.hi <= x.lo then (st, Some(AssertionError))
    else
      var (st', err) := if Available(st, x.lo, x.hi - x.lo)
                        then MapStep(st, x.lo, x.hi - x.lo, x.perms, Some(x.info))
                        else (st, None);
      if err.Some? then (st', err) else WriteStep(st', x.lo, x.data)
  }

  function RestoreRam(st: State, ram: seq<RamSegment>, k: nat): Outcome
    requires k <= |ram|
    decreases |ram| - k
  {
    if k == |ram| then (st, None)
    else
      var (st', err) := RestoreSegment(st, ram[k]);
      if err.Some? then (st', err) else RestoreRam(st', ram, k + 1)
  }

  function RestoreMmioSegment(st: State, x: MmioSegment): Outcome {
    if x.hi <= x.lo then (st, Some(AssertionError))
    else if AllListed(st.info, x.lo, x.hi) then (st, None)
    else MapMmioStep(st, x.lo, x.hi - x.lo, x.cb, x.info)
  }

  function RestoreMmio(st: State, mmio: seq<MmioSegment>, k: nat): Outcome
    requires k <= |mmio|
    decreases |mmio| - k
  {
    if k == |mmio| then (st, None)
    else
      var (st', err) := RestoreMmioSegment(st, mmio[k]);
      if err.Some? then (st', err) else RestoreMmio(st', mmio, k + 1)
  }

  function RestoreStep(st: State, saved: Saved): Outcome {
    var (st', err) := RestoreRam(st, saved.ram, 0);
    if err.Some? then (st', err) else RestoreMmio(st', saved.mmio, 0)
  }

  /** A saved range without addresses, as a protect of no bytes lists one, ends a restore at the range test. */
  lemma EmptyRangeIsRefused(st: State, x: RamSegment, y: MmioSegment)
    ensures x.lo == x.hi ==> RestoreSegment(st, x) == (st, Some(AssertionError))
    ensures y.lo == y.hi ==> RestoreMmioSegment(st, y) == (st, Some(AssertionError))
  {
  }

  /** Each address of the range is mapped, or none is. */
  ghost predicate AllOrNone(st: State, lo: int, hi: int) {
    st.uc.AllMapped(lo, hi - lo) || st.uc.NoneMapped(lo, hi - lo)
  }

  /** One segment succeeds exactly if its range is wholly mapped or wholly free, and writes only inside it. */
  lemma RestoreSegmentMeaning(st: State, x: RamSegment)
    requires Inv(st) && Exact(st) && RamOk(x) && Mappable(x)
    ensures var (st', err) := RestoreSegment(st, x);
            && (err.None? <==> AllOrNone(st, x.lo, x.hi))
            && (err.None? ==>
                && Inv(st') && Exact(st')
                && (forall a :: st'.uc.Maps(a) <==> st.uc.Maps(a) || x.Contains(a))
                && (forall a :: st'.uc.data(a) == if x.Contains(a) then x.data[a - x.lo] else st.uc.data(a)))
  {
    assert Available(st, x.lo, x.hi - x.lo) <==> st.uc.NoneMapped(x.lo, x.hi - x.lo);
    if Available(st, x.lo, x.hi - x.lo) {
      NewRamSucceeds(st, x);
      NewRamMaps(st, x, MapStep(st, x.lo, x.hi - x.lo, x.perms, Some(x.info)).0);
    } else {
      WriteKeepsInv(st, x.lo, x.data);
    }
  }

  lemma NewRamSucceeds(st: State, x: RamSegment)
    requires Inv(st) && Exact(st) && RamOk(x) && Mappable(x) && Available(st, x.lo, x.hi - x.lo)
    ensures MapStep(st, x.lo, x.hi - x.lo, x.perms, Some(x.info)).1.None?
  {
    MapOutcome(st, x.lo, x.hi - x.lo, x.perms, Some(x.info));
  }

  lemma NewRamMaps(st: State, x: RamSegment, st1: State)
    requires Inv(st) && Exact(st) && RamOk(x)
    requires MapStep(st, x.lo, x.hi - x.lo, x.perms, Some(x.info)) == (st1, None)
    ensures var (st', err) := WriteStep(st1, x.lo, x.data);
            && err.None? && Inv(st') && Exact(st')
            && (forall a :: st'.uc.Maps(a) <==> st.uc.Maps(a) || x.Contains(a))
            && (forall a :: st'.uc.data(a) == if x.Contains(a) then x.data[a - x.lo] else st.uc.data(a))
  {
    MapKeepsExact(st, x.lo, x.hi - x.lo, x.perms, Some(x.info));
    WriteKeepsInv(st1, x.lo, x.data);
  }

  lemma AllOrNoneElsewhere(st: State, st': State, lo: int, hi: int)
    requires forall a :: lo <= a < hi ==> (st'.uc.Maps(a) <==> st.uc.Maps(a))
    ensures AllOrNone(st', lo, hi) <==> AllOrNone(st, lo, hi)
  {
  }

  ghost predicate AllOrNoneFrom(st: State, ram: seq<RamSegment>, k: nat) {
    forall i :: k <= i < |ram| ==> AllOrNone(st, ram[i].lo, ram[i].hi)
  }

  /** Restoring ram succeeds exactly when every saved range is wholly mapped or wholly free. */
  lemma {:induction false} RestoreRamSucceedsIff(st: State, ram: seq<RamSegment>, k: nat)
    requires Inv(st) && Exact(st) && RamOrdered(ram) && AllMappable(ram) && k <= |ram|
    ensures var (st', err) := RestoreRam(st, ram, k);
            && (err.None? <==> AllOrNoneFrom(st, ram, k))
            && (err.None? ==> Inv(st') && Exact(st'))
    decreases |ram| - k
  {
    if k < |ram| {
      RestoreSegmentMeaning(st, ram[k]);
      var (st1, err1) := RestoreSegment(st, ram[k]);
      if err1.None? {
        RestoreRamSucceedsIff(st1, ram, k + 1);
        forall i | k < i < |ram|
          ensures AllOrNone(st1, ram[i].lo, ram[i].hi) <==> AllOrNone(st, ram[i].lo, ram[i].hi)
        {
          AllOrNoneElsewhere(st, st1, ram[i].lo, ram[i].hi);
        }
        assert AllOrNoneFrom(st1, ram, k + 1) && AllOrNone(st, ram[k].lo, ram[k].hi) <==> AllOrNoneFrom(st, ram, k);
      }
    }
  }

  /** So it does with the copy saved after one page-granular run and restored after another. */
  lemma SavedRamSucceedsIff(before: State, later: State)
    requires Tidy(before) && Tidy(later)
    ensures var ram := RamUpTo(before, |before.info|);
            RestoreRam(later, ram, 0).1.None? <==> AllOrNoneFrom(later, ram, 0)
  {
    SavedIsOrdered(before, |before.info|);
    SavedIsMappable(before, |before.info|);
    RestoreRamSucceedsIff(later, RamUpTo(before, |before.info|), 0);
  }

  /** A segment that goes through is mapped afterwards and holds its bytes; nothing else changes. */
  lemma RestoreSegmentByte(st: State, x: RamSegment)
    requires Inv(st) && RamOk(x) && RestoreSegment(st, x).1.None?
    ensures var st' := RestoreSegment(st, x).0;
            && Inv(st')
            && (forall a :: st'.uc.Maps(a) <==> st.uc.Maps(a) || x.Contains(a))
            && (forall a :: st'.uc.data(a) == if x.Contains(a) then x.data[a - x.lo] else st.uc.data(a))
  {
    var size := x.hi - x.lo;
    if Available(st, x.lo, size) {
      MapAddsRange(st, x.lo, size, x.perms, Some(x.info));
      var st1 := MapStep(st, x.lo, size, x.perms, Some(x.info)).0;
      WriteKeepsInv(st1, x.lo, x.data);
    } else {
      WriteKeepsInv(st, x.lo, x.data);
    }
  }

  lemma MapAddsRange(st: State, addr: int, size: int, perms: int, info: Option<string>)
    requires Inv(st) && MapStep(st, addr, size, perms, info).1.None?
    ensures var st' := MapStep(st, addr, size, perms, info).0;
            && Inv(st')
            && (forall a :: st'.uc.Maps(a) <==> st.uc.Maps(a) || addr <= a < addr + size)
            && (forall a :: !(addr <= a < addr + size) ==> st'.uc.data(a) == st.uc.data(a))
  {
    MapMeaning(st, addr, size, perms, info);
    var st' := MapStep(st, addr, size, perms, info).0;
    forall a ensures st'.uc.Maps(a) <==> st.uc.Maps(a) || addr <= a < addr + size {
      assert st'.uc.prot(a) == if addr <= a < addr + size then Some(perms) else st.uc.prot(a);
    }
  }

  lemma WriteKeepsInv(st: State, addr: int, data: seq<Bytes.byte>)
    requires Inv(st)
    ensures var (st', err) := WriteStep(st, addr, data);
            && (err.None? <==> st.uc.AllMapped(addr, |data|))
            && Inv(st') && st'.info == st.info
            && (forall a :: st'.uc.Maps(a) <==> st.uc.Maps(a))
            && (err.None? ==>
                forall a :: st'.uc.data(a) == if addr <= a < addr + |data| then data[a - addr] else st.uc.data(a))
  {
    var (st', err) := WriteStep(st, addr, data);
    assert st'.uc.prot == st.uc.prot;
    assert forall a :: st'.uc.Maps(a) <==> st.uc.Maps(a);
  }

  /** ... and then each address holds its saved byte, or, outside all saved ranges, what it held before. */
  lemma {:induction false} RestoreRamByte(st: State, ram: seq<RamSegment>, k: nat, a: int)
    requires Inv(st) && RamOrdered(ram) && k <= |ram|
    requires RestoreRam(st, ram, k).1.None?
    ensures var st' := RestoreRam(st, ram, k).0;
            && Inv(st')
            && (forall i :: k <= i < |ram| && ram[i].Contains(a) ==>
                  st'.uc.Maps(a) && st'.uc.data(a) == ram[i].data[a - ram[i].lo])
            && ((forall i :: k <= i < |ram| ==> !ram[i].Contains(a)) ==>
                  (st'.uc.Maps(a) <==> st.uc.Maps(a)) && st'.uc.data(a) == st.uc.data(a))
    decreases |ram| - k
  {
    if k < |ram| {
      RestoreSegmentByte(st, ram[k]);
      var (st1, err1) := RestoreSegment(st, ram[k]);
      RestoreRamByte(st1, ram, k + 1, a);
      if ram[k].Contains(a) {
        assert forall i :: k < i < |ram| ==> !ram[i].Contains(a);
      }
    }
  }

  // ----- when a restore goes through -----

  ghost predicate MmioOrdered(mmio: seq<MmioSegment>) {
    && (forall i :: 0 <= i < |mmio| ==> mmio[i].lo < mmio[i].hi)
    && (forall i, j :: 0 <= i < j < |mmio| ==> mmio[i].hi <= mmio[j].lo)
  }

  predicate MmioMappable(x: MmioSegment) {
    0 <= x.lo && x.hi <= Engine.ADDRESS_LIMIT && x.lo % MapSearch.PAGE_SIZE == 0 && x.hi % MapSearch.PAGE_SIZE == 0
  }

  predicate AllMmioMappable(mmio: seq<MmioSegment>) {
    forall i :: 0 <= i < |mmio| ==> MmioMappable(mmio[i])
  }

  ghost predicate MmioAllOrNoneFrom(st: State, mmio: seq<MmioSegment>, k: nat) {
    forall i :: k <= i < |mmio| ==> AllOrNone(st, mmio[i].lo, mmio[i].hi)
  }

  lemma RestoreMmioSegmentMeaning(st: State, x: MmioSegment)
    requires Inv(st) && Exact(st) && x.lo < x.hi && MmioMappable(x)
    ensures var (st', err) := RestoreMmioSegment(st, x);
            && (err.None? <==> AllOrNone(st, x.lo, x.hi))
            && (err.None? ==>
                && Inv(st') && Exact(st')
                && (forall a :: st'.uc.Maps(a) <==> st.uc.Maps(a) || x.lo <= a < x.hi))
  {
    assert AllListed(st.info, x.lo, x.hi) <==> st.uc.AllMapped(x.lo, x.hi - x.lo);
    if !AllListed(st.info, x.lo, x.hi) {
      NewMmioSucceedsIff(st, x);
      if RestoreMmioSegment(st, x).1.None? {
        NewMmioMaps(st, x, RestoreMmioSegment(st, x).0);
      }
    }
  }

  lemma NewMmioSucceedsIff(st: State, x: MmioSegment)
    requires x.lo < x.hi && MmioMappable(x)
    ensures MapMmioStep(st, x.lo, x.hi - x.lo, x.cb, x.info).1.None? <==> st.uc.NoneMapped(x.lo, x.hi - x.lo)
  {
    MapMmioOutcome(st, x.lo, x.hi - x.lo, x.cb, x.info);
  }

  lemma NewMmioMaps(st: State, x: MmioSegment, st': State)
    requires Inv(st) && Exact(st) && MapMmioStep(st, x.lo, x.hi - x.lo, x.cb, x.info) == (st', None)
    ensures Inv(st') && Exact(st')
    ensures forall a :: st'.uc.Maps(a) <==> st.uc.Maps(a) || x.lo <= a < x.hi
  {
    MapMmioMeaning(st, x.lo, x.hi - x.lo, x.cb, x.info);
    MapMmioKeepsExact(st, x.lo, x.hi - x.lo, x.cb, x.info, st');
    MapMmioOutcome(st, x.lo, x.hi - x.lo, x.cb, x.info);
  }

  /** So does putting the mmio ranges back. */
  lemma {:induction false} RestoreMmioSucceedsIff(st: State, mmio: seq<MmioSegment>, k: nat)
    requires Inv(st) && Exact(st) && MmioOrdered(mmio) && AllMmioMappable(mmio) && k <= |mmio|
    ensures RestoreMmio(st, mmio, k).1.None? <==> MmioAllOrNoneFrom(st, mmio, k)
    decreases |mmio| - k
  {
    if k < |mmio| {
      RestoreMmioSegmentMeaning(st, mmio[k]);
      var (st1, err1) := RestoreMmioSegment(st, mmio[k]);
      if err1.None? {
        RestoreMmioSucceedsIff(st1, mmio, k + 1);
        forall i | k < i < |mmio|
          ensures AllOrNone(st1, mmio[i].lo, mmio[i].hi) <==> AllOrNone(st, mmio[i].lo, mmio[i].hi)
        {
          AllOrNoneElsewhere(st, st1, mmio[i].lo, mmio[i].hi);
        }
        assert MmioAllOrNoneFrom(st1, mmio, k + 1) && AllOrNone(st, mmio[k].lo, mmio[k].hi) <==>
               MmioAllOrNoneFrom(st, mmio, k);
      }
    }
  }

  predicate RangeApart(x: RamSegment, y: MmioSegment) {
    x.hi <= y.lo || y.hi <= x.lo
  }

  /** No address is saved both as ram and as mmio. */
  predicate Apart(saved: Saved) {
    forall i, j :: 0 <= i < |saved.ram| && 0 <= j < |saved.mmio| ==> RangeApart(saved.ram[i], saved.mmio[j])
  }

  lemma RamLeavesMmio(later: State, saved: Saved, j: nat)
    requires Inv(later) && RamOrdered(saved.ram) && Apart(saved) && j < |saved.mmio|
    requires RestoreRam(later, saved.ram, 0).1.None?
    ensures var y, mid := saved.mmio[j], RestoreRam(later, saved.ram, 0).0;
            AllOrNone(mid, y.lo, y.hi) <==> AllOrNone(later, y.lo, y.hi)
  {
    var y, mid := saved.mmio[j], RestoreRam(later, saved.ram, 0).0;
    forall a | y.lo <= a < y.hi ensures mid.uc.Maps(a) <==> later.uc.Maps(a) {
      RestoreRamByte(later, saved.ram, 0, a);
      assert forall i :: 0 <= i < |saved.ram| ==> RangeApart(saved.ram[i], y);
    }
    AllOrNoneElsewhere(later, mid, y.lo, y.hi);
  }

  /** A restore goes through exactly if every saved range, ram or mmio, is wholly mapped or wholly free. */
  lemma RestoreSucceedsIff(later: State, saved: Saved)
    requires Inv(later) && Exact(later) && Apart(saved)
    requires RamOrdered(saved.ram) && AllMappable(saved.ram) && MmioOrdered(saved.mmio) && AllMmioMappable(saved.mmio)
    ensures RestoreStep(later, saved).1.None? <==>
              AllOrNoneFrom(later, saved.ram, 0) && MmioAllOrNoneFrom(later, saved.mmio, 0)
  {
    RestoreRamSucceedsIff(later, saved.ram, 0);
    var (mid, err) := RestoreRam(later, saved.ram, 0);
    if err.None? {
      RestoreMmioSucceedsIff(mid, saved.mmio, 0);
      forall j | 0 <= j < |saved.mmio|
        ensures AllOrNone(mid, saved.mmio[j].lo, saved.mmio[j].hi) <==>
                AllOrNone(later, saved.mmio[j].lo, saved.mmio[j].hi)
      {
        RamLeavesMmio(later, saved, j);
      }
    }
  }

  lemma {:induction false} SavedMmioIsOrdered(st: State, n: nat)
    requires Inv(st) && n <= |st.info| && CallbacksKnown(st, n)
    ensures MmioOrdered(MmioUpTo(st, n))
    ensures Regular(st.info) ==> AllMmioMappable(MmioUpTo(st, n))
    ensures forall i :: 0 <= i < |MmioUpTo(st, n)| ==> n > 0 && MmioUpTo(st, n)[i].hi <= st.info[n - 1].hi
  {
    if n > 0 {
      SavedMmioIsOrdered(st, n - 1);
      EntryWithinLimits(st, n - 1);
      assert n > 1 ==> st.info[n - 2].hi <= st.info[n - 1].lo;
      assert Regular(st.info) ==> RegularEntry(st.info[n - 1]);
    }
  }

  lemma SavedIsApart(st: State)
    requires Inv(st) && CallbacksKnown(st, |st.info|)
    ensures Apart(Saved(RamUpTo(st, |st.info|), MmioUpTo(st, |st.info|)))
  {
    var saved := Saved(RamUpTo(st, |st.info|), MmioUpTo(st, |st.info|));
    forall i, j | 0 <= i < |saved.ram| && 0 <= j < |saved.mmio| ensures RangeApart(saved.ram[i], saved.mmio[j]) {
      var k := CopyOf(st, |st.info|, i);
      var l := MmioOf(st, |st.info|, j);
      assert k < l ==> st.info[k].hi <= st.info[l].lo;
      assert l < k ==> st.info[l].hi <= st.info[k].lo;
    }
  }

  /** Saving after one page-granular run and restoring after another. */
  lemma SavedSucceedsIff(before: State, later: State)
    requires Tidy(before) && Tidy(later) && CallbacksKnown(before, |before.info|)
    ensures var saved := Saved(RamUpTo(before, |before.info|), MmioUpTo(before, |before.info|));
            RestoreStep(later, saved).1.None? <==>
              AllOrNoneFrom(later, saved.ram, 0) && MmioAllOrNoneFrom(later, saved.mmio, 0)
  {
    SavedIsOrdered(before, |before.info|);
    SavedIsMappable(before, |before.info|);
    SavedMmioIsOrdered(before, |before.info|);
    SavedIsApart(before);
    RestoreSucceedsIff(later, Saved(RamUpTo(before, |before.info|), MmioUpTo(before, |before.info|)));
  }

  lemma RestoreMmioSegmentKeeps(st: State, x: MmioSegment, a: int)
    requires Inv(st) && st.uc.Maps(a)
    ensures var st' := RestoreMmioSegment(st, x).0;
            Inv(st') && st'.uc.Maps(a) && st'.uc.data(a) == st.uc.data(a)
  {
    if x.lo < x.hi {
      var size := x.hi - x.lo;
      if st.uc.MemMap(x.lo, size, Engine.PROT_READ_WRITE).Ok? {
      }
      assert Inv(RestoreMmioSegment(st, x).0) by {
        MapMmioMeaning(st, x.lo, size, x.cb, x.info);
      }
    }
  }

  /** Putting mmio ranges back never touches an address that is mapped already. */
  lemma {:induction false} RestoreMmioKeeps(st: State, mmio: seq<MmioSegment>, k: nat, a: int)
    requires Inv(st) && k <= |mmio| && st.uc.Maps(a)
    ensures var st' := RestoreMmio(st, mmio, k).0;
            Inv(st') && st'.uc.Maps(a) && st'.uc.data(a) == st.uc.data(a)
    decreases |mmio| - k
  {
    if k < |mmio| {
      RestoreMmioSegmentKeeps(st, mmio[k], a);
      var (st', err) := RestoreMmioSegment(st, mmio[k]);
      if err.None? {
        RestoreMmioKeeps(st', mmio, k + 1, a);
      }
    }
  }

  lemma RestoreByte(later: State, saved: Saved, a: int)
    requires Inv(later) && RamOrdered(saved.ram)
    requires RestoreStep(later, saved).1.None?
    ensures var after := RestoreStep(later, saved).0;
            && (forall i :: 0 <= i < |saved.ram| && saved.ram[i].Contains(a) ==>
                  after.uc.Maps(a) && after.uc.data(a) == saved.ram[i].data[a - saved.ram[i].lo])
            && (!Saves(saved.ram, a) && later.uc.Maps(a) ==>
                  after.uc.Maps(a) && after.uc.data(a) == later.uc.data(a))
  {
    RestoreRamByte(later, saved.ram, 0, a);
    var mid := RestoreRam(later, saved.ram, 0).0;
    if mid.uc.Maps(a) {
      RestoreMmioKeeps(mid, saved.mmio, 0, a);
    }
  }

  /**
    Save in one state and restore in any later one: when the restore goes through,
    every byte of ram listed at save time is back, and a byte that is mapped at
    restore time and was not saved is what it was.
  */
  lemma RestoreUndoes(before: State, later: State, saved: Saved, a: int)
    requires Inv(before) && CallbacksKnown(before, |before.info|)
    requires saved == Saved(RamUpTo(before, |before.info|), MmioUpTo(before, |before.info|))
    requires Inv(later)
    requires RestoreStep(later, saved).1.None?
    ensures var after := RestoreStep(later, saved).0;
            && (View(before.info, a).Some? && !View(before.info, a).value.mmio ==>
                  after.uc.Maps(a) && after.uc.data(a) == before.uc.data(a))
            && (!Saves(saved.ram, a) && later.uc.Maps(a) ==>
                  after.uc.Maps(a) && after.uc.data(a) == later.uc.data(a))
  {
    SavedIsOrdered(before, |before.info|);
    RestoreByte(later, saved, a);
    if View(before.info, a).Some? && !View(before.info, a).value.mmio {
      var i := SavedListed(before, a);
    }
  }

  lemma SavedListed(st: State, a: int) returns (i: nat)
    requires Inv(st) && View(st.info, a).Some? && !View(st.info, a).value.mmio
    ensures var ram := RamUpTo(st, |st.info|);
            && i < |ram| && ram[i].Contains(a) && |ram[i].data| == ram[i].hi - ram[i].lo
            && ram[i].data[a - ram[i].lo] == st.uc.data(a)
  {
    MappedIffContained(st.info, a);
    var k :| 0 <= k < |st.info| && st.info[k].Contains(a);
    ViewAt(st.info, k, a);
    i := SavedHolds(st, |st.info|, k, a);
  }

  // ----- attributes after a restore -----

  /** How a restore lists a ram range it has to map. */
  function RamAttr(x: RamSegment): Attr {
    Attr(x.perms, if x.info == "" then "[mapped]" else x.info, false)
  }

  /** ... and an mmio range: with the permissions of the callbacks that were saved. */
  function MmioAttr(x: MmioSegment): Attr {
    Attr((if x.cb.read.Some? then 1 else 0) + (if x.cb.write.Some? then 2 else 0), x.info, true)
  }

  /** Address a has the same attributes and protection in both states. */
  predicate SameAt(st: State, st': State, a: int) {
    View(st'.info, a) == View(st.info, a) && st'.uc.prot(a) == st.uc.prot(a)
  }

  predicate ListedAs(st: State, a: int, x: Attr, prot: int) {
    View(st.info, a) == Some(x) && st.uc.prot(a) == Some(prot)
  }

  lemma WriteKeepsAttr(st: State, addr: int, data: seq<Bytes.byte>, a: int)
    requires Inv(st)
    ensures SameAt(st, WriteStep(st, addr, data).0, a)
    ensures WriteStep(st, addr, data).1.None? && addr <= a < addr + |data| ==> st.uc.Maps(a)
  {
    WriteOutcome(st, addr, data);
  }

  lemma NewRamAttr(st: State, x: RamSegment, a: int, st': State)
    requires Inv(st) && MapStep(st, x.lo, x.hi - x.lo, x.perms, Some(x.info)) == (st', None)
    ensures Inv(st')
    ensures if x.Contains(a) then !Mapped(st.info, a) && ListedAs(st', a, RamAttr(x), x.perms) else SameAt(st, st', a)
  {
    MapMeaning(st, x.lo, x.hi - x.lo, x.perms, Some(x.info));
    MapOutcome(st, x.lo, x.hi - x.lo, x.perms, Some(x.info));
  }

  lemma RestoreSegmentAttr(st: State, x: RamSegment, a: int)
    requires Inv(st) && Exact(st) && RamOk(x) && RestoreSegment(st, x).1.None?
    ensures var st' := RestoreSegment(st, x).0;
            if x.Contains(a) && !Mapped(st.info, a) then ListedAs(st', a, RamAttr(x), x.perms) else SameAt(st, st', a)
  {
    var size := x.hi - x.lo;
    if Available(st, x.lo, size) {
      var st1 := MapStep(st, x.lo, size, x.perms, Some(x.info)).0;
      NewRamAttr(st, x, a, st1);
      WriteKeepsAttr(st1, x.lo, x.data, a);
    } else {
      WriteKeepsAttr(st, x.lo, x.data, a);
    }
  }

  lemma RestoreSegmentKeeps(st: State, x: RamSegment)
    requires Inv(st) && Exact(st) && RamOk(x) && RestoreSegment(st, x).1.None?
    ensures var st' := RestoreSegment(st, x).0; Inv(st') && Exact(st') && st'.cbs == st.cbs
  {
    var st' := RestoreSegment(st, x).0;
    RestoreSegmentByte(st, x);
    forall a ensures Mapped(st'.info, a) <==> st'.uc.Maps(a) {
      RestoreSegmentAttr(st, x, a);
      assert Mapped(st.info, a) <==> st.uc.Maps(a);
    }
  }

  lemma {:induction false} RestoreRamAttr(st: State, ram: seq<RamSegment>, k: nat, a: int)
    requires Inv(st) && Exact(st) && RamOrdered(ram) && k <= |ram| && RestoreRam(st, ram, k).1.None?
    ensures var st' := RestoreRam(st, ram, k).0;
            && Inv(st') && Exact(st') && st'.cbs == st.cbs
            && (forall i :: k <= i < |ram| && ram[i].Contains(a) && !Mapped(st.info, a) ==>
                  ListedAs(st', a, RamAttr(ram[i]), ram[i].perms))
            && (Mapped(st.info, a) || (forall i :: k <= i < |ram| ==> !ram[i].Contains(a)) ==> SameAt(st, st', a))
    decreases |ram| - k
  {
    if k < |ram| {
      RestoreSegmentAttr(st, ram[k], a);
      RestoreSegmentKeeps(st, ram[k]);
      var st1 := RestoreSegment(st, ram[k]).0;
      RestoreRamAttr(st1, ram, k + 1, a);
      if ram[k].Contains(a) {
        assert forall i :: k < i < |ram| ==> !ram[i].Contains(a);
      }
    }
  }

  lemma RestoreMmioSegmentAttr(st: State, x: MmioSegment, a: int)
    requires Inv(st) && Exact(st) && x.lo < x.hi && RestoreMmioSegment(st, x).1.None?
    ensures var st' := RestoreMmioSegment(st, x).0;
            if x.Contains(a) && !Mapped(st.info, a) then
              ListedAs(st', a, MmioAttr(x), 3) && (x.lo, x.hi) in st'.cbs && st'.cbs[(x.lo, x.hi)] == x.cb
            else SameAt(st, st', a)
  {
    if !AllListed(st.info, x.lo, x.hi) {
      NewMmioAttr(st, x, a, RestoreMmioSegment(st, x).0);
    }
  }

  lemma NewMmioAttr(st: State, x: MmioSegment, a: int, st': State)
    requires Inv(st) && Exact(st) && MapMmioStep(st, x.lo, x.hi - x.lo, x.cb, x.info) == (st', None)
    ensures if x.Contains(a) then
              && !Mapped(st.info, a)
              && ListedAs(st', a, MmioAttr(x), 3) && (x.lo, x.hi) in st'.cbs && st'.cbs[(x.lo, x.hi)] == x.cb
            else SameAt(st, st', a)
  {
    MapMmioMeaning(st, x.lo, x.hi - x.lo, x.cb, x.info);
    MapMmioOutcome(st, x.lo, x.hi - x.lo, x.cb, x.info);
    if Mapped(st.info, a) {
      assert st.uc.Maps(a);
    }
  }

  ghost predicate KeepsCallbacksBut(st: State, st': State, lo: int, hi: int) {
    forall k :: k in st.cbs && k != (lo, hi) ==> k in st'.cbs && st'.cbs[k] == st.cbs[k]
  }

  lemma RestoreMmioSegmentKeepsExact(st: State, x: MmioSegment)
    requires Inv(st) && Exact(st) && x.lo < x.hi && RestoreMmioSegment(st, x).1.None?
    ensures var st' := RestoreMmioSegment(st, x).0;
            Inv(st') && Exact(st') && KeepsCallbacksBut(st, st', x.lo, x.hi)
  {
    if !AllListed(st.info, x.lo, x.hi) {
      NewMmioKeeps(st, x, RestoreMmioSegment(st, x).0);
    }
  }

  lemma NewMmioKeeps(st: State, x: MmioSegment, st': State)
    requires Inv(st) && Exact(st) && MapMmioStep(st, x.lo, x.hi - x.lo, x.cb, x.info) == (st', None)
    ensures Inv(st') && Exact(st') && KeepsCallbacksBut(st, st', x.lo, x.hi)
  {
    MapMmioMeaning(st, x.lo, x.hi - x.lo, x.cb, x.info);
    MapMmioKeepsExact(st, x.lo, x.hi - x.lo, x.cb, x.info, st');
    MapMmioOutcome(st, x.lo, x.hi - x.lo, x.cb, x.info);
  }

  predicate HasCallbacks(st: State, x: MmioSegment) {
    (x.lo, x.hi) in st.cbs && st.cbs[(x.lo, x.hi)] == x.cb
  }

  /** Callbacks of a range that no further segment is for stay. */
  lemma {:induction false} RestoreMmioKeepsCallbacks(st: State, mmio: seq<MmioSegment>, k: nat, x: MmioSegment)
    requires Inv(st) && Exact(st) && MmioOrdered(mmio) && k <= |mmio| && RestoreMmio(st, mmio, k).1.None?
    requires HasCallbacks(st, x) && forall i :: k <= i < |mmio| ==> (mmio[i].lo, mmio[i].hi) != (x.lo, x.hi)
    ensures HasCallbacks(RestoreMmio(st, mmio, k).0, x)
    decreases |mmio| - k
  {
    if k < |mmio| {
      RestoreMmioSegmentKeepsExact(st, mmio[k]);
      RestoreMmioKeepsCallbacks(RestoreMmioSegment(st, mmio[k]).0, mmio, k + 1, x);
    }
  }

  lemma {:induction false} RestoreMmioAttr(st: State, mmio: seq<MmioSegment>, k: nat, a: int)
    requires Inv(st) && Exact(st) && MmioOrdered(mmio) && k <= |mmio| && RestoreMmio(st, mmio, k).1.None?
    ensures var st' := RestoreMmio(st, mmio, k).0;
            && (forall i :: k <= i < |mmio| && mmio[i].Contains(a) && !Mapped(st.info, a) ==>
                  ListedAs(st', a, MmioAttr(mmio[i]), 3) && HasCallbacks(st', mmio[i]))
            && (Mapped(st.info, a) || (forall i :: k <= i < |mmio| ==> !mmio[i].Contains(a)) ==> SameAt(st, st', a))
    decreases |mmio| - k
  {
    if k < |mmio| {
      RestoreMmioSegmentAttr(st, mmio[k], a);
      RestoreMmioSegmentKeepsExact(st, mmio[k]);
      var st1 := RestoreMmioSegment(st, mmio[k]).0;
      RestoreMmioAttr(st1, mmio, k + 1, a);
      if mmio[k].Contains(a) {
        assert forall i :: k < i < |mmio| ==> !mmio[i].Contains(a);
        if !Mapped(st.info, a) {
          RestoreMmioKeepsCallbacks(st1, mmio, k + 1, mmio[k]);
        }
      }
    }
  }

  predicate NotSaved(saved: Saved, a: int) {
    && (forall i :: 0 <= i < |saved.ram| ==> !saved.ram[i].Contains(a))
    && (forall j :: 0 <= j < |saved.mmio| ==> !saved.mmio[j].Contains(a))
  }

  /** What a restore does to the attributes of one address. */
  lemma RestoreAttr(later: State, saved: Saved, a: int)
    requires Inv(later) && Exact(later) && RamOrdered(saved.ram) && MmioOrdered(saved.mmio) && Apart(saved)
    requires RestoreStep(later, saved).1.None?
    ensures var after := RestoreStep(later, saved).0;
            && (Mapped(later.info, a) ==> SameAt(later, after, a))
            && (forall i :: 0 <= i < |saved.ram| && saved.ram[i].Contains(a) && !Mapped(later.info, a) ==>
                  ListedAs(after, a, RamAttr(saved.ram[i]), saved.ram[i].perms))
            && (forall j :: 0 <= j < |saved.mmio| && saved.mmio[j].Contains(a) && !Mapped(later.info, a) ==>
                  ListedAs(after, a, MmioAttr(saved.mmio[j]), 3) && HasCallbacks(after, saved.mmio[j]))
            && (NotSaved(saved, a) ==> SameAt(later, after, a))
  {
    RestoreRamAttr(later, saved.ram, 0, a);
    var mid := RestoreRam(later, saved.ram, 0).0;
    RestoreMmioAttr(mid, saved.mmio, 0, a);
    forall i, j | 0 <= i < |saved.ram| && 0 <= j < |saved.mmio| && saved.ram[i].Contains(a)
      ensures !saved.mmio[j].Contains(a)
    {
      assert RangeApart(saved.ram[i], saved.mmio[j]);
    }
  }

  lemma {:induction false} SavedMmioHolds(st: State, n: nat, k: nat) returns (j: nat)
    requires NonEmpty(st.info) && k < n <= |st.info| && CallbacksKnown(st, n) && st.info[k].mmio
    ensures j < |MmioUpTo(st, n)|
    ensures MmioUpTo(st, n)[j].lo == st.info[k].lo && MmioUpTo(st, n)[j].hi == st.info[k].hi
    ensures MmioUpTo(st, n)[j].info == st.info[k].info
    ensures MmioUpTo(st, n)[j].cb == st.cbs[(st.info[k].lo, st.info[k].hi)]
  {
    if k == n - 1 {
      j := |MmioUpTo(st, n - 1)|;
    } else {
      j := SavedMmioHolds(st, n - 1, k);
    }
  }

  /** An unlabelled range is listed with the default label when it is mapped again. */
  function Relisted(x: Attr): Attr {
    if x.info == "" then x.(info := "[mapped]") else x
  }

  /**
    Save in one state and restore in any later one: an address that is listed when the restore goes through
    keeps its attributes and protection.  One that is not, and was saved as part of entry k, gets the
    attributes of that entry back, and its permissions from the engine; an mmio entry gets the permissions
    of its callbacks, which are found under its bounds again.
  */
  lemma RestoredAttributes(before: State, later: State, saved: Saved, k: nat, a: int)
    requires Inv(before) && CallbacksKnown(before, |before.info|)
    requires saved == Saved(RamUpTo(before, |before.info|), MmioUpTo(before, |before.info|))
    requires Inv(later) && Exact(later) && RestoreStep(later, saved).1.None?
    requires k < |before.info| && before.info[k].Contains(a)
    ensures var after, x := RestoreStep(later, saved).0, before.info[k];
            if Mapped(later.info, a) then SameAt(later, after, a)
            else if x.mmio then
              var cb := before.cbs[(x.lo, x.hi)];
              && after.uc.prot(a) == Some(3) && (x.lo, x.hi) in after.cbs && after.cbs[(x.lo, x.hi)] == cb
              && View(after.info, a) ==
                 Some(Attr((if cb.read.Some? then 1 else 0) + (if cb.write.Some? then 2 else 0), x.info, true))
            else ListedAs(after, a, Relisted(x.Attributes()), x.perms)
  {
    SavedIsOrdered(before, |before.info|);
    SavedMmioIsOrdered(before, |before.info|);
    SavedIsApart(before);
    RestoreAttr(later, saved, a);
    if before.info[k].mmio {
      var j := SavedMmioHolds(before, |before.info|, k);
      assert saved.mmio[j].Contains(a);
    } else {
      var i := SavedHolds(before, |before.info|, k, a);
      var l := CopyOf(before, |before.info|, i);
      assert before.info[l].Contains(a) && l == k;
    }
  }

  /** An address that was not listed when the copy was saved keeps what it had. */
  lemma UnsavedKeepsAttributes(before: State, later: State, saved: Saved, a: int)
    requires Inv(before) && CallbacksKnown(before, |before.info|) && !Mapped(before.info, a)
    requires saved == Saved(RamUpTo(before, |before.info|), MmioUpTo(before, |before.info|))
    requires Inv(later) && Exact(later) && RestoreStep(later, saved).1.None?
    ensures SameAt(later, RestoreStep(later, saved).0, a)
  {
    SavedIsOrdered(before, |before.info|);
    SavedMmioIsOrdered(before, |before.info|);
    SavedIsApart(before);
    RestoreAttr(later, saved, a);
    MappedIffContained(before.info, a);
    forall i | 0 <= i < |saved.ram| ensures !saved.ram[i].Contains(a) {
      var k := CopyOf(before, |before.info|, i);
      assert !before.info[k].Contains(a);
    }
    forall j | 0 <= j < |saved.mmio| ensures !saved.mmio[j].Contains(a) {
      var k := MmioOf(before, |before.info|, j);
      assert !before.info[k].Contains(a);
    }
  }

  method Restore(m: MemoryManager.QlMemoryManager, saved: Saved) returns (err: Option<Error>)
    requires m.Valid()
    modifies m
    ensures m.Valid()
    ensures (m.Abs(), err) == RestoreStep(old(m.Abs()), saved)
  {
    ghost var goal := RestoreRam(m.Abs(), saved.ram, 0);
    for k := 0 to |saved.ram|
      invariant m.Valid()
      invariant RestoreRam(m.Abs(), saved.ram, k) == goal
    {
      err := RestoreOne(m, saved.ram[k]);
      if err.Some? {
        return;
      }
    }
    ghost var goal' := RestoreMmio(m.Abs(), saved.mmio, 0);
    for k := 0 to |saved.mmio|
      invariant m.Valid()
      invariant RestoreMmio(m.Abs(), saved.mmio, k) == goal'
    {
      err := RestoreMmioOne(m, saved.mmio[k]);
      if err.Some? {
        return;
      }
    }
    return None;
  }

  /** A non-empty ram segment is mapped first if it is free. */
  lemma RestoreCases(st: State, x: RamSegment, size: int, free: bool)
    requires size == x.hi - x.lo > 0 && (free <==> Available(st, x.lo, size))
    ensures RestoreSegment(st, x) ==
            if !free then WriteStep(st, x.lo, x.data)
            else
              var (st', err) := MapStep(st, x.lo, size, x.perms, Some(x.info));
              if err.Some? then (st', err) else WriteStep(st', x.lo, x.data)
  {
  }

  method RestoreOne(m: MemoryManager.QlMemoryManager, x: RamSegment) returns (err: Option<Error>)
    requires m.Valid()
    modifies m
    ensures m.Valid()
    ensures (m.Abs(), err) == RestoreSegment(old(m.Abs()), x)
  {
    var size := x.hi - x.lo;
    if size <= 0 {
      return Some(AssertionError);
    }
    var free := m.IsAvailable(x.lo, size);
    RestoreCases(m.Abs(), x, size, free);
    if free {
      err := m.Map(x.lo, size, x.perms, Some(x.info));
      if err.Some? {
        return;
      }
    }
    err := m.Write(x.lo, x.data);
  }

  /** The two ways a non-empty mmio segment is put back. */
  lemma RestoreMmioCases(st: State, x: MmioSegment, size: int, listed: bool)
    requires size == x.hi - x.lo > 0 && (listed <==> AllListed(st.info, x.lo, x.lo + size))
    ensures RestoreMmioSegment(st, x) == if listed then (st, None) else MapMmioStep(st, x.lo, size, x.cb, x.info)
  {
  }

  method RestoreMmioOne(m: MemoryManager.QlMemoryManager, x: MmioSegment) returns (err: Option<Error>)
    requires m.Valid()
    modifies m
    ensures m.Valid()
    ensures (m.Abs(), err) == RestoreMmioSegment(old(m.Abs()), x)
  {
    var size := x.hi - x.lo;
    if size <= 0 {
      return Some(AssertionError);
    }
    var mapped := m.IsMapped(x.lo, size);
    RestoreMmioCases(m.Abs(), x, size, mapped);
    if mapped {
      return None;
    }
    err := m.MapMmio(x.lo, size, x.cb, x.info);
  }
}
