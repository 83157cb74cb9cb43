/** Consolidation of an ELF file's loadable segments into page-aligned memory regions. */
module ElfRegions {
  import Bits
  import opened MapSearch
  import opened Results

  datatype Perms = Perms(read: bool, write: bool, exec: bool) {
    /** The engine's protection bits. */
    function Prot(): int {
      (if read then 1 else 0) + (if write then 2 else 0) + (if exec then 4 else 0)
    }
    function Or(other: Perms): Perms {
      Perms(read || other.read, write || other.write, exec || other.exec)
    }
    predicate Includes(other: Perms) {
      (other.read ==> read) && (other.write ==> write) && (other.exec ==> exec)
    }
  }

  /** A PT_LOAD program header. */
  datatype Segment = Segment(vaddr: int, memsz: nat, flags: nat)

  datatype Region = Region(lo: int, hi: int, perms: Perms) {
    predicate Contains(a: int) {
      lo <= a < hi
    }
  }

  /** PF_X is 1, PF_W is 2 and PF_R is 4. */
  function SegPerms(flags: nat): Perms {
    Perms(Bits.And(flags, 4) != 0, Bits.And(flags, 2) != 0, Bits.And(flags, 1) != 0)
  }

  /** Each flag bit gives the permission of its own name; the engine numbers the same three bits the other way round. */
  lemma SegPermsMeaning(flags: nat)
    ensures SegPerms(flags) == Perms(flags / 4 % 2 == 1, flags / 2 % 2 == 1, flags % 2 == 1)
    ensures SegPerms(flags).Prot() == flags / 4 % 2 + 2 * (flags / 2 % 2) + 4 * (flags % 2)
  {
    Bits.AndMask(flags, 1);
    Bits.AndMask(flags / 2, 1);
    Bits.AndMask(flags / 4, 1);
    assert Bits.Pow2(1) == 2 && flags / 2 / 2 == flags / 4;
    AndDoubled(flags, 1);
    AndDoubled(flags, 2);
    AndDoubled(flags / 2, 1);
  }

  lemma AndDoubled(x: nat, y: nat)
    ensures Bits.And(x, 2 * y) == 2 * Bits.And(x / 2, y)
  {
  }

  /** The segment's pages. */
  function Pages(load: int, s: Segment): (r: Region)
    ensures r.lo <= load + s.vaddr && load + s.vaddr + s.memsz <= r.hi
    ensures r.lo % PAGE_SIZE == 0 && r.hi % PAGE_SIZE == 0
    ensures load + s.vaddr < r.lo + PAGE_SIZE && r.hi < load + s.vaddr + s.memsz + PAGE_SIZE
    ensures r.perms == SegPerms(s.flags)
  {
    PageSizeIsPow2();
    Region(Align(load + s.vaddr, PAGE_SIZE), AlignUp(load + s.vaddr + s.memsz, PAGE_SIZE), SegPerms(s.flags))
  }

  /** One round of the loop: how the pages of the next segment join the regions so far. */
  function Join(regions: seq<Region>, r: Region, arm64: bool): Result<seq<Region>> {
    if regions == [] then Ok([r])
    else
      var n := |regions| - 1;
      var prev := regions[n];
      if r.lo == prev.hi then
        if r.perms == prev.perms then Ok(regions[n := prev.(hi := r.hi)]) else Ok(regions + [r])
      else if r.lo > prev.hi then Ok(regions + [r])
      else if arm64 then Ok(regions[n := Region(prev.lo, r.hi, prev.perms.Or(r.perms))])
      else Err(OverlapError)
  }

  /** Regions of the first n segments. */
  function Consolidated(segs: seq<Segment>, load: int, arm64: bool, n: nat): Result<seq<Region>>
    requires n <= |segs|
  {
    if n == 0 then Ok([])
    else match Consolidated(segs, load, arm64, n - 1)
      case Err(e) => Err(e)
      case Ok(regions) => Join(regions, Pages(load, segs[n - 1]), arm64)
  }

  // ----- what holds of the regions -----

  /** Page-aligned, in order, not overlapping, and no two that touch could have been one. */
  ghost predicate Separate(regions: seq<Region>) {
    && (forall i :: 0 <= i < |regions| ==>
          regions[i].lo <= regions[i].hi && regions[i].lo % PAGE_SIZE == 0 && regions[i].hi % PAGE_SIZE == 0)
    && (forall i, j :: 0 <= i < j < |regions| ==> regions[i].hi <= regions[j].lo)
  }

  ghost predicate TouchingDiffer(regions: seq<Region>) {
    forall i {:trigger regions[i].hi} :: 0 <= i < |regions| - 1 && regions[i].hi == regions[i + 1].lo ==>
      regions[i].perms != regions[i + 1].perms
  }

  ghost predicate Covers(regions: seq<Region>, a: int) {
    exists i :: 0 <= i < |regions| && regions[i].Contains(a)
  }

  /** All of r lies in x, which has at least its permissions. */
  predicate HeldBy(x: Region, r: Region, exactly: bool) {
    && x.lo <= r.lo && r.hi <= x.hi
    && x.perms.Includes(r.perms) && (exactly ==> x.perms == r.perms)
  }

  ghost predicate Holds(regions: seq<Region>, r: Region, exactly: bool) {
    exists i :: 0 <= i < |regions| && HeldBy(regions[i], r, exactly)
  }

  predicate PagesOk(r: Region) {
    r.lo <= r.hi && r.lo % PAGE_SIZE == 0 && r.hi % PAGE_SIZE == 0
  }

  lemma JoinSeparate(regions: seq<Region>, r: Region, arm64: bool)
    requires Separate(regions) && PagesOk(r)
    requires regions != [] ==> regions[|regions| - 1].lo <= r.lo
    requires Join(regions, r, arm64).Ok?
    ensures var regions' := Join(regions, r, arm64).value;
            Separate(regions') && regions' != [] && regions'[|regions'| - 1].hi == r.hi
            && regions'[|regions'| - 1].lo <= r.lo
  {
  }

  lemma JoinTouchingDiffer(regions: seq<Region>, r: Region)
    requires TouchingDiffer(regions) && Join(regions, r, false).Ok?
    ensures TouchingDiffer(Join(regions, r, false).value)
  {
  }

  /** Nothing that ends in order is lost; off the ARM64 workaround permissions stay exact, else they only grow. */
  lemma JoinHolds(regions: seq<Region>, r: Region, s: Region, arm64: bool)
    requires Separate(regions) && PagesOk(r) && Join(regions, r, arm64).Ok?
    requires regions != [] ==> regions[|regions| - 1].lo <= r.lo
    requires s == r || (Holds(regions, s, !arm64) && (arm64 ==> s.hi <= r.hi))
    ensures Holds(Join(regions, r, arm64).value, s, !arm64)
  {
    var regions' := Join(regions, r, arm64).value;
    if s == r {
      var n := |regions'| - 1;
      assert HeldBy(regions'[n], r, !arm64);
    } else {
      var i :| 0 <= i < |regions| && HeldBy(regions[i], s, !arm64);
      assert HeldBy(regions'[i], s, !arm64);
    }
  }

  /** What a round does to the covered addresses: those at or above the new end go, the new pages come. */
  lemma JoinCovers(regions: seq<Region>, r: Region, arm64: bool, a: int)
    requires Separate(regions) && PagesOk(r) && Join(regions, r, arm64).Ok?
    requires regions != [] ==> regions[|regions| - 1].lo <= r.lo
    ensures Covers(Join(regions, r, arm64).value, a) <==> (Covers(regions, a) && a < r.hi) || r.Contains(a)
  {
    var regions' := Join(regions, r, arm64).value;
    if Covers(regions, a) && a < r.hi {
      var i :| 0 <= i < |regions| && regions[i].Contains(a);
      assert regions'[i].Contains(a);
    }
    if r.Contains(a) {
      LastContains(regions, r, arm64, a);
    }
    if Covers(regions', a) {
      JoinSeparate(regions, r, arm64);
      var i :| 0 <= i < |regions'| && regions'[i].Contains(a);
      assert r.Contains(a) || (i < |regions| && regions[i].Contains(a) && a < r.hi);
    }
  }

  lemma LastContains(regions: seq<Region>, r: Region, arm64: bool, a: int)
    requires r.Contains(a) && Join(regions, r, arm64).Ok?
    requires regions != [] ==> regions[|regions| - 1].lo <= r.lo
    ensures Covers(Join(regions, r, arm64).value, a)
  {
    var regions' := Join(regions, r, arm64).value;
    assert regions'[|regions'| - 1].Contains(a);
  }

  // ----- all segments -----

  /** The loop's input: segments in address order. */
  ghost predicate Sorted(segs: seq<Segment>) {
    forall i, j :: 0 <= i < j < |segs| ==> segs[i].vaddr <= segs[j].vaddr
  }

  lemma PagesInOrder(segs: seq<Segment>, load: int, i: nat, j: nat)
    requires Sorted(segs) && i <= j < |segs|
    ensures Pages(load, segs[i]).lo <= Pages(load, segs[j]).lo
  {
  }

  /** The regions are page-aligned, ordered and disjoint; the last one ends where the last segment's pages end. */
  lemma {:induction false} RegionsSeparate(segs: seq<Segment>, load: int, arm64: bool, n: nat)
    requires Sorted(segs) && n <= |segs| && Consolidated(segs, load, arm64, n).Ok?
    ensures var regions := Consolidated(segs, load, arm64, n).value;
            && Separate(regions) && (regions == [] <==> n == 0)
            && (n > 0 ==> regions[|regions| - 1].hi == Pages(load, segs[n - 1]).hi &&
                          regions[|regions| - 1].lo <= Pages(load, segs[n - 1]).lo)
  {
    if n > 0 {
      RegionsSeparate(segs, load, arm64, n - 1);
      if n > 1 {
        PagesInOrder(segs, load, n - 2, n - 1);
      }
      JoinSeparate(Consolidated(segs, load, arm64, n - 1).value, Pages(load, segs[n - 1]), arm64);
    }
  }

  /** The regions the n-th segment is joined to. */
  lemma BeforeJoin(segs: seq<Segment>, load: int, arm64: bool, n: nat)
    requires Sorted(segs) && 0 < n <= |segs| && Consolidated(segs, load, arm64, n).Ok?
    ensures var before := Consolidated(segs, load, arm64, n - 1);
            && before.Ok? && Separate(before.value) && PagesOk(Pages(load, segs[n - 1]))
            && Join(before.value, Pages(load, segs[n - 1]), arm64) == Consolidated(segs, load, arm64, n)
            && (before.value != [] ==> before.value[|before.value| - 1].lo <= Pages(load, segs[n - 1]).lo)
  {
    RegionsSeparate(segs, load, arm64, n - 1);
    if n > 1 {
      PagesInOrder(segs, load, n - 2, n - 1);
    }
  }

  predicate OverlapsPrevious(segs: seq<Segment>, load: int, i: nat)
    requires 0 < i < |segs|
  {
    Pages(load, segs[i]).lo < Pages(load, segs[i - 1]).hi
  }

  ghost predicate AnyOverlap(segs: seq<Segment>, load: int, n: nat)
    requires n <= |segs|
  {
    exists i {:trigger OverlapsPrevious(segs, load, i)} :: 0 < i < n && OverlapsPrevious(segs, load, i)
  }

  lemma AnyOverlapNext(segs: seq<Segment>, load: int, n: nat)
    requires 1 < n <= |segs|
    ensures AnyOverlap(segs, load, n) <==> AnyOverlap(segs, load, n - 1) || OverlapsPrevious(segs, load, n - 1)
  {
  }

  lemma JoinRejects(regions: seq<Region>, r: Region, arm64: bool)
    requires regions != []
    ensures Join(regions, r, arm64).Err? <==> !arm64 && r.lo < regions[|regions| - 1].hi
  {
  }

  /** Off ARM64 the file is rejected exactly when the pages of two consecutive segments overlap. */
  lemma {:induction false} RejectedIffOverlap(segs: seq<Segment>, load: int, arm64: bool, n: nat)
    requires Sorted(segs) && n <= |segs|
    ensures Consolidated(segs, load, arm64, n).Err? <==> !arm64 && AnyOverlap(segs, load, n)
  {
    if n > 1 {
      RejectedIffOverlap(segs, load, arm64, n - 1);
      AnyOverlapNext(segs, load, n);
      var before := Consolidated(segs, load, arm64, n - 1);
      if before.Ok? {
        RegionsSeparate(segs, load, arm64, n - 1);
        JoinRejects(before.value, Pages(load, segs[n - 1]), arm64);
      }
    } else if n == 1 {
      assert Consolidated(segs, load, arm64, 0) == Ok([]);
    }
  }

  /** Off ARM64 no two regions that touch have the same permissions. */
  lemma {:induction false} RegionsDiffer(segs: seq<Segment>, load: int, n: nat)
    requires n <= |segs| && Consolidated(segs, load, false, n).Ok?
    ensures TouchingDiffer(Consolidated(segs, load, false, n).value)
  {
    if n > 0 {
      RegionsDiffer(segs, load, n - 1);
      JoinTouchingDiffer(Consolidated(segs, load, false, n - 1).value, Pages(load, segs[n - 1]));
    }
  }

  /** Segment i has the page of a, and no later segment among the first n ends at or before a. */
  ghost predicate LastWord(segs: seq<Segment>, load: int, n: nat, i: nat, a: int)
    requires i < n <= |segs|
  {
    && Pages(load, segs[i]).Contains(a)
    && forall j {:trigger Pages(load, segs[j])} :: i < j < n ==> a < Pages(load, segs[j]).hi
  }

  ghost predicate Kept(segs: seq<Segment>, load: int, n: nat, a: int)
    requires n <= |segs|
  {
    exists i :: 0 <= i < n && LastWord(segs, load, n, i, a)
  }

  lemma KeptNext(segs: seq<Segment>, load: int, n: nat, a: int)
    requires 0 < n <= |segs|
    ensures Kept(segs, load, n, a) <==>
            (Kept(segs, load, n - 1, a) && a < Pages(load, segs[n - 1]).hi) || Pages(load, segs[n - 1]).Contains(a)
  {
    if Kept(segs, load, n - 1, a) && a < Pages(load, segs[n - 1]).hi {
      var i :| 0 <= i < n - 1 && LastWord(segs, load, n - 1, i, a);
      assert LastWord(segs, load, n, i, a);
    }
    if Pages(load, segs[n - 1]).Contains(a) {
      assert LastWord(segs, load, n, n - 1, a);
    }
    if Kept(segs, load, n, a) {
      var i :| 0 <= i < n && LastWord(segs, load, n, i, a);
      if i < n - 1 {
        assert LastWord(segs, load, n - 1, i, a) && a < Pages(load, segs[n - 1]).hi;
      }
    }
  }

  /**
    Exactly the covered addresses, on every architecture: those in the pages of a segment
    that no later segment cuts off.
  */
  lemma {:induction false} CoveredExactly(segs: seq<Segment>, load: int, arm64: bool, n: nat, a: int)
    requires Sorted(segs) && n <= |segs| && Consolidated(segs, load, arm64, n).Ok?
    ensures Covers(Consolidated(segs, load, arm64, n).value, a) <==> Kept(segs, load, n, a)
  {
    if n > 0 {
      CoveredExactly(segs, load, arm64, n - 1, a);
      BeforeJoin(segs, load, arm64, n);
      KeptNext(segs, load, n, a);
      JoinCovers(Consolidated(segs, load, arm64, n - 1).value, Pages(load, segs[n - 1]), arm64, a);
    }
  }

  /** No segment's pages end before those of an earlier one. */
  ghost predicate EndsInOrder(segs: seq<Segment>, load: int) {
    forall i, j :: 0 <= i < j < |segs| ==> Pages(load, segs[i]).hi <= Pages(load, segs[j]).hi
  }

  /**
    Every segment lies in one region: off ARM64 in one that has exactly its permissions, and on ARM64,
    when the ends are in order, in one that has at least those.
  */
  lemma {:induction false} SegmentHeld(segs: seq<Segment>, load: int, arm64: bool, n: nat, i: nat)
    requires Sorted(segs) && i < n <= |segs| && Consolidated(segs, load, arm64, n).Ok?
    requires arm64 ==> EndsInOrder(segs, load)
    ensures Holds(Consolidated(segs, load, arm64, n).value, Pages(load, segs[i]), !arm64)
  {
    if i < n - 1 {
      SegmentHeld(segs, load, arm64, n - 1, i);
    }
    BeforeJoin(segs, load, arm64, n);
    JoinHolds(Consolidated(segs, load, arm64, n - 1).value, Pages(load, segs[n - 1]), Pages(load, segs[i]), arm64);
  }

  ghost predicate InSegment(segs: seq<Segment>, load: int, a: int) {
    exists i :: 0 <= i < |segs| && Pages(load, segs[i]).Contains(a)
  }

  /** When the ends are in order, the regions are exactly the union of the segments' pages. */
  lemma UnionExact(segs: seq<Segment>, load: int, arm64: bool, a: int)
    requires Sorted(segs) && Consolidated(segs, load, arm64, |segs|).Ok? && EndsInOrder(segs, load)
    ensures Covers(Consolidated(segs, load, arm64, |segs|).value, a) <==> InSegment(segs, load, a)
  {
    CoveredExactly(segs, load, arm64, |segs|, a);
    if InSegment(segs, load, a) {
      var i :| 0 <= i < |segs| && Pages(load, segs[i]).Contains(a);
      assert LastWord(segs, load, |segs|, i, a);
    }
  }

  /** Off ARM64 the ends of an accepted file are in order. */
  lemma {:induction false} AcceptedEndsInOrder(segs: seq<Segment>, load: int, i: nat, j: nat)
    requires Sorted(segs) && i <= j < |segs| && Consolidated(segs, load, false, |segs|).Ok?
    ensures Pages(load, segs[i]).hi <= Pages(load, segs[j]).hi
    decreases j
  {
    if i < j {
      AcceptedEndsInOrder(segs, load, i, j - 1);
      RejectedIffOverlap(segs, load, false, |segs|);
      assert !OverlapsPrevious(segs, load, j);
    }
  }

  lemma PagesExample()
    ensures Pages(0x10000, Segment(0, 0x3000, 5)).Contains(0x12800)
    ensures Pages(0x10000, Segment(0x1400, 0x400, 6)).hi == 0x12000
  {
    var p, q := Pages(0x10000, Segment(0, 0x3000, 5)), Pages(0x10000, Segment(0x1400, 0x400, 6));
    assert p.lo <= 0x10000 && 0x13000 <= p.hi;
    assert 0x11800 <= q.hi < 0x12800 && q.hi % 0x1000 == 0;
  }

  /** The ARM64 workaround: a segment nested in its predecessor's pages shrinks the region, and pages are lost. */
  lemma NestedSegmentLosesPages(segs: seq<Segment>)
    requires segs == [Segment(0, 0x3000, 5), Segment(0x1400, 0x400, 6)]
    ensures Sorted(segs) && InSegment(segs, 0x10000, 0x12800)
    ensures Consolidated(segs, 0x10000, true, 2).Ok? && !Covers(Consolidated(segs, 0x10000, true, 2).value, 0x12800)
  {
    PagesExample();
    assert Pages(0x10000, segs[0]).Contains(0x12800);
    RejectedIffOverlap(segs, 0x10000, true, 2);
    CoveredExactly(segs, 0x10000, true, 2, 0x12800);
    NotKept(segs, 0x10000, 2, 1, 0x12800);
  }

  lemma NotKept(segs: seq<Segment>, load: int, n: nat, k: nat, a: int)
    requires k < n <= |segs| && Pages(load, segs[k]).hi <= a
    requires forall i :: k < i < n ==> !Pages(load, segs[i]).Contains(a)
    ensures !Kept(segs, load, n, a)
  {
    forall i | 0 <= i < n ensures !LastWord(segs, load, n, i, a) {}
  }

  /** The image reported to the rest of the loader: where the first region starts and the last one ends. */
  function ImageBounds(regions: seq<Region>): Result<(int, int)> {
    if regions == [] then Err(IndexError) else Ok((regions[0].lo, regions[|regions| - 1].hi))
  }

  lemma {:induction false} FirstRegionStart(segs: seq<Segment>, load: int, arm64: bool, n: nat)
    requires 0 < n <= |segs| && Consolidated(segs, load, arm64, n).Ok?
    ensures Consolidated(segs, load, arm64, n).value != []
    ensures Consolidated(segs, load, arm64, n).value[0].lo == Pages(load, segs[0]).lo
  {
    if n == 1 {
      assert Consolidated(segs, load, arm64, 0) == Ok([]);
    } else {
      FirstRegionStart(segs, load, arm64, n - 1);
    }
  }

  /** The image runs from the first segment's first page to the last segment's last; no segments are an error. */
  lemma ImageBoundsExact(segs: seq<Segment>, load: int, arm64: bool)
    requires Sorted(segs) && Consolidated(segs, load, arm64, |segs|).Ok?
    ensures ImageBounds(Consolidated(segs, load, arm64, |segs|).value) ==
            if segs == [] then Err(IndexError)
            else Ok((Pages(load, segs[0]).lo, Pages(load, segs[|segs| - 1]).hi))
  {
    RegionsSeparate(segs, load, arm64, |segs|);
    if segs != [] {
      FirstRegionStart(segs, load, arm64, |segs|);
    }
  }

  // ----- the loop -----

  method LoadRegions(segs: seq<Segment>, load: int, arm64: bool) returns (r: Result<seq<Region>>)
    ensures r == Consolidated(segs, load, arm64, |segs|)
  {
    var loadRegions: seq<Region> := [];
    for n := 0 to |segs|
      invariant Consolidated(segs, load, arm64, n) == Ok(loadRegions)
    {
      var p := Pages(load, segs[n]);
      if loadRegions != [] {
        var last := |loadRegions| - 1;
        var prev := loadRegions[last];
        if p.lo == prev.hi {
          if p.perms == prev.perms {
            loadRegions := loadRegions[last := prev.(hi := p.hi)];
          } else {
            loadRegions := loadRegions + [p];
          }
        } else if p.lo > prev.hi {
          loadRegions := loadRegions + [p];
        } else {
          if arm64 {
            loadRegions := loadRegions[last := Region(prev.lo, p.hi, prev.perms.Or(p.perms))];
            continue;
          }
          RejectedForGood(segs, load, arm64, n + 1, |segs|);
          return Err(OverlapError);
        }
      } else {
        loadRegions := [p];
      }
    }
    return Ok(loadRegions);
  }

  lemma {:induction false} RejectedForGood(segs: seq<Segment>, load: int, arm64: bool, n: nat, m: nat)
    requires n <= m <= |segs| && Consolidated(segs, load, arm64, n).Err?
    ensures Consolidated(segs, load, arm64, m) == Consolidated(segs, load, arm64, n)
  {
    if n < m {
      RejectedForGood(segs, load, arm64, n, m - 1);
    }
  }
}
