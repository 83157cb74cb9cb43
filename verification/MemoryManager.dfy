/** The memory manager object: the list it edits in place, its mmio callbacks and the engine. */
module MemoryManager {
  import opened Bits
  import Bytes
  import opened Engine
  import opened MapInfo
  import opened MapOps
  import opened MapSearch
  import opened Results

  // The source's alignment calls without an alignment argument, and its mask of permission bits.

  function PageOffset(v: int): (r: int)
    ensures r == v % PAGE_SIZE
  {
    PageSizeIsPow2();
    AlignmentMeaning(v, PAGE_SIZE);
    And(v, PAGE_SIZE - 1)
  }

  function PageAlign(v: int): (r: int)
    ensures r == PageOf(v)
  {
    PageSizeIsPow2();
    Align(v, PAGE_SIZE)
  }

  function PageAlignUp(v: int): (r: int)
    ensures r == PageEnd(v)
  {
    PageSizeIsPow2();
    AlignUp(v, PAGE_SIZE)
  }

  function SupportedPerms(perms: int): (r: int)
    ensures r == perms % 8
  {
    PermsMask(perms);
    And(perms, PROT_ALL)
  }

  lemma Pow2Of64()
    ensures Pow2(64) == ADDRESS_LIMIT && Pow2(32) == 0x1_0000_0000 && Pow2(20) == 0x10_0000
  {
    assert Pow2(8) == 0x100;
    assert Pow2(14) == 0x4000;
    assert Pow2(20) == 0x10_0000;
    assert Pow2(26) == 0x400_0000;
    assert Pow2(32) == 0x1_0000_0000;
    assert Pow2(38) == 0x40_0000_0000;
    assert Pow2(44) == 0x1000_0000_0000;
    assert Pow2(50) == 0x4_0000_0000_0000;
    assert Pow2(56) == 0x100_0000_0000_0000;
  }

  /** Highest address of a machine: real-mode ones have 20 address lines. */
  function MaxAddress(bits: int): int {
    Pow2(if bits == 64 then 64 else if bits == 32 then 32 else 20) - 1
  }

  lemma MaxAddressExact(bits: int)
    ensures bits == 64 ==> MaxAddress(bits) == 0xFFFF_FFFF_FFFF_FFFF
    ensures bits == 32 ==> MaxAddress(bits) == 0xFFFF_FFFF
    ensures bits == 16 ==> MaxAddress(bits) == 0xF_FFFF
    ensures MaxAddress(bits) < ADDRESS_LIMIT
  {
    Pow2Of64();
  }

  /** The permission mask tests: `perms & ~PROT_ALL` and `perms & PROT_ALL`. */
  lemma PermsMask(perms: int)
    ensures And(perms, Not(PROT_ALL)) == 0 <==> 0 <= perms <= PROT_ALL
    ensures And(perms, PROT_ALL) == perms % 8
  {
    assert Pow2(3) == 8;
    AndMask(perms, 3);
    AndClear(perms, 3);
  }

  /** Entries between two overlapping ones overlap too: overlapping indices are consecutive. */
  lemma OverlapsConsecutive(m: seq<Entry>, s: int, e: int, i: nat, j: nat, k: nat)
    requires WellFormed(m) && i < j < k < |m|
    requires m[i].Overlaps(s, e) && m[k].Overlaps(s, e)
    ensures m[j].Overlaps(s, e)
  {
    assert m[i].hi <= m[j].lo < m[j].hi <= m[k].lo;
  }

  /** What the source relies on when it slices from the first to the last overlapping index. */
  ghost predicate OverlapRun(m: seq<Entry>, s: int, e: int, upto: nat, run: seq<nat>)
    requires upto <= |m|
  {
    && (run != [] ==> run[0] + |run| <= upto)
    && (forall k :: 0 <= k < |run| ==> run[k] == run[0] + k)
    && (forall k :: 0 <= k < |run| ==> m[run[k]].Overlaps(s, e))
    && (forall j :: 0 <= j < upto && m[j].Overlaps(s, e) ==> run != [] && run[0] <= j < run[0] + |run|)
  }

  /** An overlapping entry right after the ones looked at continues the run. */
  lemma RunReaches(m: seq<Entry>, s: int, e: int, i: nat, run: seq<nat>)
    requires WellFormed(m) && i < |m| && OverlapRun(m, s, e, i, run) && m[i].Overlaps(s, e) && run != []
    ensures run[0] + |run| == i
  {
    var next := run[0] + |run|;
    assert m[run[0]].Overlaps(s, e);
    if next < i {
      OverlapsConsecutive(m, s, e, run[0], next, i);
    }
  }

  lemma RunSnoc(m: seq<Entry>, s: int, e: int, i: nat, run: seq<nat>)
    requires i < |m| && OverlapRun(m, s, e, i, run) && m[i].Overlaps(s, e) && (run != [] ==> run[0] + |run| == i)
    ensures OverlapRun(m, s, e, i + 1, run + [i])
  {
  }

  lemma OverlapRunGrows(m: seq<Entry>, s: int, e: int, i: nat, run: seq<nat>)
    requires WellFormed(m) && i < |m| && OverlapRun(m, s, e, i, run)
    ensures OverlapRun(m, s, e, i + 1, if m[i].Overlaps(s, e) then run + [i] else run)
  {
    if m[i].Overlaps(s, e) {
      if run != [] {
        RunReaches(m, s, e, i, run);
      }
      RunSnoc(m, s, e, i, run);
    }
  }

  lemma CutAround(a: seq<Entry>, x: seq<Entry>, b: seq<Entry>, s: int, e: int)
    requires NoOverlap(a, s, e) && NoOverlap(b, s, e)
    ensures Cut(a + x + b, s, e) == a + Cut(x, s, e) + b
  {
    CutUntouched(a, s, e);
    CutUntouched(b, s, e);
    CutConcat(a + x, b, s, e);
    CutConcat(a, x, s, e);
  }

  /** Untouched entries, the run of overlapping ones, and untouched entries again. */
  lemma CutRun(m: seq<Entry>, s: int, e: int, run: seq<nat>)
    requires OverlapRun(m, s, e, |m|, run) && run != []
    ensures run[0] + |run| == run[|run| - 1] + 1 <= |m|
    ensures Cut(m, s, e) == m[..run[0]] + Cut(m[run[0]..run[0] + |run|], s, e) + m[run[0] + |run|..]
  {
    var i0, j := run[0], run[0] + |run|;
    assert m[..i0] + m[i0..j] + m[j..] == m;
    var tail := m[j..];
    forall k | 0 <= k < |tail| ensures !tail[k].Overlaps(s, e) {
      assert tail[k] == m[j + k];
    }
    CutAround(m[..i0], m[i0..j], tail, s, e);
  }

  predicate AllOverlap(m: seq<Entry>, s: int, e: int) {
    forall k :: 0 <= k < |m| ==> m[k].Overlaps(s, e)
  }

  lemma RunSlice(m: seq<Entry>, s: int, e: int, run: seq<nat>, overlaps: seq<Entry>)
    requires OverlapRun(m, s, e, |m|, run) && run != [] && overlaps == m[run[0]..run[0] + |run|]
    ensures run[|run| - 1] + 1 == run[0] + |run|
    ensures AllOverlap(overlaps, s, e)
  {
    forall k | 0 <= k < |overlaps| ensures overlaps[k].Overlaps(s, e) {
      assert m[run[k]].Overlaps(s, e) && run[k] == run[0] + k;
    }
  }

  lemma ProtectKeepsInv(st: State, addr: int, size: nat, perms: int)
    requires Inv(st)
    ensures PageOf(addr) < PageEnd(addr + size) ==> Inv(ProtectStep(st, addr, size, perms).0)
  {
    if PageOf(addr) < PageEnd(addr + size) {
      ProtectMeaning(st, addr, size, perms);
    }
  }

  /** Slicing out the run and putting back what is left of its entries. */
  lemma RunReplaced(m: seq<Entry>, s: int, e: int, run: seq<nat>, i: nat, j: nat)
    requires WellFormed(m) && s <= e && OverlapRun(m, s, e, |m|, run) && run != []
    requires i == run[0] && j == run[|run| - 1] + 1
    ensures i <= j <= |m| && AllOverlap(m[i..j], s, e)
    ensures m[..i] + Cut(m[i..j], s, e) + m[j..] == Cut(m, s, e)
    ensures WellFormed(Cut(m, s, e)) && !NoOverlap(m, s, e)
  {
    CutWellFormed(m, s, e);
    CutRun(m, s, e, run);
    RunSlice(m, s, e, run, m[i..j]);
    assert m[run[0]].Overlaps(s, e);
  }

  lemma CutNext(m: seq<Entry>, k: nat, s: int, e: int)
    requires k < |m|
    ensures Cut(m[..k + 1], s, e) == Cut(m[..k], s, e) + Pieces(m[k], s, e)
  {
    var x := m[k];
    assert m[..k + 1] == m[..k] + [x];
    CutConcat(m[..k], [x], s, e);
    assert [x][1..] == [];
    assert Cut([x], s, e) == Pieces(x, s, e) + [];
  }

  lemma NextFits(p: seq<Entry>, ne: seq<Entry>, q: seq<Entry>, k: nat)
    requires WellFormed(p + ne + q) && k < |ne|
    ensures WellFormed(p + ne[..k] + q) && ne[k].lo < ne[k].hi
    ensures FitsAt(p + ne[..k] + q, |p| + k, ne[k])
  {
    var c, m := p + ne + q, p + ne[..k] + q;
    assert ne[k] == c[|p| + k];
    forall i | 0 <= i < |p| + k ensures m[i] == c[i] {}
    forall i | |p| + k <= i < |m| ensures m[i] == c[i + |ne| - k] {}
    WellFormedDrop(c, m, |p| + k, |ne| - k);
  }

  /** Re-inserting the k-th of the new entries puts it right behind the previous ones. */
  lemma InsortNext(p: seq<Entry>, ne: seq<Entry>, q: seq<Entry>, k: nat)
    requires WellFormed(p + ne + q) && k < |ne|
    ensures Insort(p + ne[..k] + q, ne[k]) == p + ne[..k + 1] + q
  {
    var m := p + ne[..k] + q;
    NextFits(p, ne, q, k);
    InsortFits(m, |p| + k, ne[k]);
    assert m[..|p| + k] == p + ne[..k];
    assert m[|p| + k..] == q;
    assert ne[..k + 1] == ne[..k] + [ne[k]];
  }

  /** A list with a stretch left out is still well formed. */
  lemma WellFormedDrop(c: seq<Entry>, m: seq<Entry>, at: nat, n: nat)
    requires WellFormed(c) && at <= |m| && |c| == |m| + n
    requires forall i :: 0 <= i < at ==> m[i] == c[i]
    requires forall i :: at <= i < |m| ==> m[i] == c[i + n]
    ensures WellFormed(m)
  {
    forall i, j | 0 <= i < j < |m| ensures m[i].hi <= m[j].lo {
      var i', j' := if i < at then i else i + n, if j < at then j else j + n;
      assert m[i] == c[i'] && m[j] == c[j'];
    }
    forall i | 0 <= i < |m| ensures m[i].lo < m[i].hi {
      var i' := if i < at then i else i + n;
      assert m[i] == c[i'];
    }
  }

  class QlMemoryManager {
    var mapInfo: seq<Entry>
    var mmioCbs: map<(int, int), Callbacks>
    var uc: Engine
    const maxAddr: int

    ghost function Abs(): State
      reads this
    {
      State(mapInfo, mmioCbs, uc)
    }

    ghost predicate Valid()
      reads this
    {
      Inv(Abs()) && maxAddr < ADDRESS_LIMIT
    }

    /** bits is the width of the emulated architecture; 16 stands for a 20-bit address line. */
    constructor (bits: int)
      requires bits in {16, 32, 64}
      ensures Valid() && Exact(Abs()) && PermsAgree(Abs()) && mapInfo == [] && mmioCbs == map[]
      ensures maxAddr == MaxAddress(bits)
    {
      mapInfo := [];
      mmioCbs := map[];
      uc := Engine((a: int) => None, (a: int) => 0);
      maxAddr := MaxAddress(bits);
      new;
      MaxAddressExact(bits);
    }

    method AddMapinfo(memS: int, memE: int, memP: int, memInfo: string, isMmio: bool)
      modifies this`mapInfo
      ensures mapInfo == Insort(old(mapInfo), Entry(memS, memE, memP, memInfo, isMmio))
    {
      mapInfo := Insort(mapInfo, Entry(memS, memE, memP, memInfo, isMmio));
    }

    method OverlapRanges(memS: int, memE: int) returns (run: seq<nat>)
      requires WellFormed(mapInfo)
      ensures OverlapRun(mapInfo, memS, memE, |mapInfo|, run)
    {
      run := [];
      for idx := 0 to |mapInfo|
        invariant OverlapRun(mapInfo, memS, memE, idx, run)
      {
        OverlapRunGrows(mapInfo, memS, memE, idx, run);
        if memS < mapInfo[idx].hi && memE > mapInfo[idx].lo {
          run := run + [idx];
        }
      }
    }

    static method SplitOverlaps(entries: seq<Entry>, memS: int, memE: int) returns (newEntries: seq<Entry>)
      requires AllOverlap(entries, memS, memE)
      ensures newEntries == Cut(entries, memS, memE)
    {
      newEntries := [];
      for k := 0 to |entries|
        invariant newEntries == Cut(entries[..k], memS, memE)
      {
        CutNext(entries, k, memS, memE);
        var pieces := SplitEntry(entries[k], memS, memE);
        newEntries := newEntries + pieces;
      }
      assert entries[..|entries|] == entries;
    }

    static method SplitEntry(x: Entry, memS: int, memE: int) returns (pieces: seq<Entry>)
      requires x.Overlaps(memS, memE)
      ensures pieces == Pieces(x, memS, memE)
    {
      pieces := [];
      if x.lo < memS {
        pieces := pieces + [Entry(x.lo, memS, x.perms, x.info, x.mmio)];
      }
      if memE < x.hi {
        pieces := pieces + [Entry(memE, x.hi, x.perms, x.info, x.mmio)];
      }
    }

    /** Replaces the slice from i up to j by new entries, which find their places by bisection. */
    method ReplaceSlice(i: nat, j: nat, newEntries: seq<Entry>)
      requires i <= j <= |mapInfo| && WellFormed(mapInfo[..i] + newEntries + mapInfo[j..])
      modifies this`mapInfo
      ensures mapInfo == old(mapInfo)[..i] + newEntries + old(mapInfo)[j..]
    {
      ghost var p, q := mapInfo[..i], mapInfo[j..];
      mapInfo := mapInfo[..i] + mapInfo[j..];
      assert newEntries[..0] == [] && p + [] == p;
      for k := 0 to |newEntries|
        invariant mapInfo == p + newEntries[..k] + q
      {
        InsortNext(p, newEntries, q, k);
        mapInfo := Insort(mapInfo, newEntries[k]);
      }
      assert newEntries[..|newEntries|] == newEntries;
    }

    /** Slices out the run of overlapping entries and re-inserts what is left of them. */
    method DelMapinfo(memS: int, memE: int) returns (err: Option<Error>)
      requires WellFormed(mapInfo) && memS <= memE
      modifies this`mapInfo
      ensures WellFormed(mapInfo)
      ensures mapInfo == Cut(old(mapInfo), memS, memE)
      ensures err == if NoOverlap(old(mapInfo), memS, memE) then Some(IndexError) else None
    {
      var run := OverlapRanges(memS, memE);
      if run == [] {
        CutWellFormed(mapInfo, memS, memE);
        CutUntouched(mapInfo, memS, memE);
        return Some(IndexError);
      }
      var i0, i1 := run[0], run[|run| - 1];
      RunReplaced(mapInfo, memS, memE, run, i0, i1 + 1);
      ReplaceRun(memS, memE, i0, i1 + 1);
      return None;
    }

    /** Replaces entries i up to j, which all overlap the range, by what is left of them. */
    method ReplaceRun(memS: int, memE: int, i: nat, j: nat)
      requires i <= j <= |mapInfo| && AllOverlap(mapInfo[i..j], memS, memE)
      requires WellFormed(mapInfo[..i] + Cut(mapInfo[i..j], memS, memE) + mapInfo[j..])
      modifies this`mapInfo
      ensures mapInfo == old(mapInfo)[..i] + Cut(old(mapInfo)[i..j], memS, memE) + old(mapInfo)[j..]
    {
      var newEntries := SplitOverlaps(mapInfo[i..j], memS, memE);
      ReplaceSlice(i, j, newEntries);
    }

    method ChangeMapinfo(memS: int, memE: int, memP: Option<int>, memInfo: Option<string>)
      returns (err: Option<Error>)
      requires WellFormed(mapInfo) && memS <= memE
      modifies this`mapInfo
      ensures memP.Some? ==> (mapInfo, err) == ChangePerms(old(mapInfo), memS, memE, memP.value, memInfo)
      ensures memP.None? && memInfo.Some? ==>
                err.None? && mapInfo == RelabelStep(old(Abs()), memS, memE, memInfo.value).0.info
      ensures memP.None? && memInfo.None? ==> err.None? && mapInfo == old(mapInfo)
    {
      var infoIdx: Option<nat> := None;
      for idx := 0 to |mapInfo|
        invariant infoIdx.None? && mapInfo == old(mapInfo)
        invariant forall j :: 0 <= j < idx ==> !(mapInfo[j].lo <= memS && memE <= mapInfo[j].hi)
      {
        if memS >= mapInfo[idx].lo && memE <= mapInfo[idx].hi {
          infoIdx := Some(idx);
          break;
        }
      }
      EnclosingIsFirst(mapInfo, memS, memE, infoIdx);
      if infoIdx.None? {
        return None;
      }
      var tmp := mapInfo[infoIdx.value];
      if memP.Some? {
        err := DelMapinfo(memS, memE);
        if err.Some? {
          CutUntouched(old(mapInfo), memS, memE);
          return err;
        }
        AddMapinfo(memS, memE, memP.value, LabelOr(memInfo, tmp.info), false);
        return None;
      }
      if memInfo.Some? {
        mapInfo := mapInfo[infoIdx.value := Entry(tmp.lo, tmp.hi, tmp.perms, memInfo.value, tmp.mmio)];
      }
      return None;
    }

    method IsAvailable(addr: int, size: int) returns (r: bool)
      requires Valid() && size > 0
      ensures r <==> forall a | addr <= a < addr + size :: !Mapped(mapInfo, a)
    {
      var begin, end := addr, addr + size;
      var rs := MappedRegions(mapInfo);
      IsAvailableExact(mapInfo, addr, size);
      r := !exists i :: 0 <= i < |rs| && Meets(rs[i], begin, end);
    }

    method IsMapped(addr: int, size: int) returns (r: bool)
      requires Valid() && size > 0
      ensures r <==> forall a | addr <= a < addr + size :: Mapped(mapInfo, a)
    {
      var begin, end := addr, addr + size;
      var rs := MappedRegions(mapInfo);
      IsMappedExact(mapInfo, addr, size);
      r := exists i :: 0 <= i < |rs| && rs[i].0 <= begin < end <= rs[i].1;
    }

    method Map(addr: int, size: int, perms: int, info: Option<string>) returns (err: Option<Error>)
      requires Valid()
      modifies this`mapInfo, this`uc
      ensures Valid()
      ensures (Abs(), err) == MapStep(old(Abs()), addr, size, perms, info)
    {
      MapMeaning(Abs(), addr, size, perms, info);
      PermsMask(perms);
      if And(perms, Not(PROT_ALL)) != 0 || size <= 0 {
        return Some(AssertionError);
      }
      var free := IsAvailable(addr, size);
      if !free {
        return Some(MappedError);
      }
      match uc.MemMap(addr, size, perms)
      case Err(e) => return Some(e);
      case Ok(uc') =>
        uc := uc';
        AddMapinfo(addr, addr + size, perms, LabelOr(info, "[mapped]"), false);
        return None;
    }

    /** The least suitable address is mapped; with a page-multiple alignment the engine never refuses it. */
    method MapAnywhere(q: Query, perms: int, info: Option<string>) returns (r: Result<int>)
      requires Valid() && q.Valid() && q.maxAddr == maxAddr
      modifies this`mapInfo, this`uc
      ensures Valid()
      ensures r.Ok? ==> LeastCandidate(old(mapInfo), Rounded(q), r.value)
      ensures r.Ok? ==> (Abs(), None) == MapStep(old(Abs()), r.value, Rounded(q).size, perms, info)
      ensures r.Err? ==> Abs() == old(Abs())
      ensures r == Err(OutOfMemory) ==> NoCandidate(old(mapInfo), Rounded(q))
      ensures old(Exact(Abs())) && q.Alignment() % PAGE_SIZE == 0 && 0 <= perms <= PROT_ALL ==>
                r.Ok? || r.error in {AssertionError, ValueError, OutOfMemory}
    {
      ghost var st := Abs();
      StartsAtZero(st);
      r := FindFreeSpace(mapInfo, Rounded(q));
      if r.Ok? {
        var err := Map(r.value, Rounded(q).size, perms, info);
        FoundIsMappable(st, Rounded(q), r.value, perms, info, err);
        if err.Some? {
          r := Err(err.value);
        }
      }
    }

    static method MmioProt(cb: Callbacks) returns (prot: int)
      ensures prot == MmioPerms(cb)
    {
      prot := 0;
      if cb.read.Some? {
        prot := prot + 1;
      }
      if cb.write.Some? {
        prot := prot + 2;
      }
    }

    method MapMmio(addr: int, size: int, cb: Callbacks, info: string) returns (err: Option<Error>)
      requires Valid()
      modifies this
      ensures Valid()
      ensures (Abs(), err) == MapMmioStep(old(Abs()), addr, size, cb, info)
    {
      MapMmioMeaning(Abs(), addr, size, cb, info);
      var prot := MmioProt(cb);
      match uc.MemMap(addr, size, PROT_READ_WRITE)
      case Err(e) => return Some(e);
      case Ok(uc') =>
        uc := uc';
        AddMapinfo(addr, addr + size, prot, info, true);
        mmioCbs := mmioCbs[(addr, addr + size) := cb];
        return None;
    }

    method Unmap(addr: int, size: nat) returns (err: Option<Error>)
      requires Valid()
      modifies this
      ensures Valid()
      ensures (Abs(), err) == UnmapStep(old(Abs()), addr, size)
    {
      UnmapMeaning(Abs(), addr, size);
      err := DelMapinfo(addr, addr + size);
      if err.Some? {
        CutUntouched(old(mapInfo), addr, addr + size);
        return;
      }
      match uc.MemUnmap(addr, size)
      case Err(e) => return Some(e);
      case Ok(uc') =>
        uc := uc';
        if (addr, addr + size) in mmioCbs {
          mmioCbs := mmioCbs - {(addr, addr + size)};
        } else {
          assert mmioCbs - {(addr, addr + size)} == mmioCbs;
        }
        return None;
    }

    method UnmapCommonPart(x: Entry, memS: int, memE: int) returns (err: Option<Error>)
      requires Valid() && memS <= memE && x.lo < x.hi && x.Overlaps(memS, memE)
      modifies this
      ensures Valid()
      ensures (Abs(), err) == UnmapStep(old(Abs()), Clip(x, memS, memE).0, Clip(x, memS, memE).1)
    {
      var lbound := Max(memS, x.lo);
      var ubound := Min(memE, x.hi);
      err := Unmap(lbound, ubound - lbound);
    }

    method UnmapBetween(memS: int, memE: int) returns (err: Option<Error>)
      requires Valid() && memS <= memE
      modifies this
      ensures Valid()
      ensures (Abs(), err) == UnmapBetweenStep(old(Abs()), memS, memE)
    {
      // the list changes during the loop, so the relevant ranges are those it has now
      var mapped := mapInfo;
      ghost var goal := UnmapBetweenStep(Abs(), memS, memE);
      assert NonEmpty(mapped);
      for k := 0 to |mapped|
        invariant Valid()
        invariant UnmapEach(Abs(), mapped, k, memS, memE) == goal
      {
        if memS < mapped[k].hi && memE > mapped[k].lo {
          err := UnmapCommonPart(mapped[k], memS, memE);
          if err.Some? {
            return;
          }
        }
      }
      return None;
    }

    /** The engine first; its refusal leaves the list alone. */
    method ProtectAligned(addr: int, size: nat, perms: int) returns (err: Option<Error>)
      requires Valid()
      modifies this`mapInfo, this`uc
      ensures (Abs(), err) == ProtectRange(old(Abs()), addr, size, perms)
      ensures Inv(ProtectRange(old(Abs()), addr, size, perms).0) ==> Valid()
    {
      match uc.MemProtect(addr, size, perms)
      case Err(e) => return Some(e);
      case Ok(uc') =>
        uc := uc';
        err := ChangeMapinfo(addr, addr + size, Some(perms), None);
    }

    method Protect(addr: int, size: nat, perms: int) returns (err: Option<Error>)
      requires Valid()
      modifies this`mapInfo, this`uc
      ensures PageOf(addr) < PageEnd(addr + size) ==> Valid()
      ensures (Abs(), err) == ProtectStep(old(Abs()), addr, size, perms)
    {
      var supported := SupportedPerms(perms);
      var alignedAddress := PageAlign(addr);
      var alignedSize := PageAlignUp(PageOffset(addr) + size);
      ProtectKeepsInv(Abs(), addr, size, perms);
      assert ProtectRange(Abs(), alignedAddress, alignedSize, supported) == ProtectStep(Abs(), addr, size, perms);
      err := ProtectAligned(alignedAddress, alignedSize, supported);
    }

    method Write(addr: int, data: seq<Bytes.byte>) returns (err: Option<Error>)
      requires Valid()
      modifies this`uc
      ensures Valid()
      ensures (Abs(), err) == WriteStep(old(Abs()), addr, data)
    {
      StepKeepsInv(Abs(), OpWrite(addr, data));
      match uc.MemWrite(addr, data)
      case Err(e) => return Some(e);
      case Ok(uc') =>
        uc := uc';
        return None;
    }
  }

  lemma {:induction false} EnclosingIsFirst(m: seq<Entry>, s: int, e: int, k: Option<nat>)
    requires k.Some? ==> k.value < |m| && m[k.value].lo <= s && e <= m[k.value].hi
    requires forall j :: 0 <= j < (if k.Some? then k.value else |m|) ==> !(m[j].lo <= s && e <= m[j].hi)
    ensures Enclosing(m, s, e) == k
  {
    if m != [] && k != Some(0) {
      EnclosingIsFirst(m[1..], s, e, if k.Some? then Some(k.value - 1) else None);
    }
  }

  lemma StartsAtZero(st: State)
    requires Inv(st)
    ensures Searchable(st.info)
  {
    forall i | 0 <= i < |st.info| ensures 0 <= st.info[i].lo {
      ViewAt(st.info, i, st.info[i].lo);
      assert Mapped(st.info, st.info[i].lo);
    }
  }

  function Rounded(q: Query): (r: Query)
    ensures r == q.(size := r.size)
    ensures q.size <= r.size < q.size + PAGE_SIZE && r.size % PAGE_SIZE == 0
  {
    q.(size := PageAlignUp(q.size))
  }

  lemma LastWithinLimit(st: State)
    requires Inv(st) && st.info != []
    ensures 0 <= st.info[|st.info| - 1].lo < ADDRESS_LIMIT
  {
    var last := st.info[|st.info| - 1];
    ViewAt(st.info, |st.info| - 1, last.lo);
    assert Mapped(st.info, last.lo);
  }

  lemma CandidateIsMappable(st: State, q: Query, al: int, a: int, perms: int, info: Option<string>)
    requires Inv(st) && Exact(st) && q.maxAddr < ADDRESS_LIMIT && q.size % PAGE_SIZE == 0
    requires al > 0 && al % PAGE_SIZE == 0 && Candidate(st.info, q, al, a) && 0 <= perms <= PROT_ALL
    ensures MapStep(st, a, q.size, perms, info).1.None?
  {
    MultipleOfMultiple(a, al, PAGE_SIZE);
    if st.info != [] {
      LastWithinLimit(st);
    }
    assert st.uc.PageRange(a, q.size);
    assert st.uc.NoneMapped(a, q.size);
  }

  /** What the search returns, map accepts; and map never runs out of memory itself. */
  lemma FoundIsMappable(st: State, q: Query, a: int, perms: int, info: Option<string>, err: Option<Error>)
    requires Inv(st) && q.Valid() && q.maxAddr < ADDRESS_LIMIT && q.size % PAGE_SIZE == 0
    requires Candidate(st.info, q, q.Alignment(), a)
    requires err == MapStep(st, a, q.size, perms, info).1
    ensures err.Some? ==> MapStep(st, a, q.size, perms, info).0 == st && err.value != OutOfMemory
    ensures Exact(st) && q.Alignment() % PAGE_SIZE == 0 && 0 <= perms <= PROT_ALL ==> err.None?
  {
    if Exact(st) && q.Alignment() % PAGE_SIZE == 0 && 0 <= perms <= PROT_ALL {
      CandidateIsMappable(st, q, q.Alignment(), a, perms, info);
    }
  }

  lemma MultipleOfMultiple(a: int, m: int, n: int)
    requires m > 0 && n > 0 && a % m == 0 && m % n == 0
    ensures a % n == 0
  {
    var i, j := a / m, m / n;
    assert a == m * i && m == n * j;
    assert a == n * (j * i) + 0;
    DivModUnique(a, n, j * i, 0);
  }
}
