/** Queries over the memory map list: mapped regions, availability and free-space search. */
module MapSearch {
  import opened Bits
  import opened MapInfo
  import opened Results

  const PAGE_SIZE := 0x1000

  function Align(value: int, alignment: int): (r: int)
    requires alignment > 0 && PassesPow2Test(alignment)
    ensures r == value - value % alignment
    ensures r <= value < r + alignment && r % alignment == 0
  {
    AlignmentMeaning(value, alignment);
    RoundDown(value, alignment);
    And(value, Not(alignment - 1))
  }

  function AlignUp(value: int, alignment: int): (r: int)
    requires alignment > 0 && PassesPow2Test(alignment)
    ensures r == value + alignment - 1 - (value + alignment - 1) % alignment
    ensures value <= r < value + alignment && r % alignment == 0
  {
    AlignmentMeaning(value + alignment - 1, alignment);
    RoundDown(value + alignment - 1, alignment);
    And(value + alignment - 1, Not(alignment - 1))
  }

  lemma RoundDown(v: int, n: int)
    requires n > 0
    ensures v - n < v - v % n <= v
    ensures (v - v % n) % n == 0
  {
    assert v - v % n == n * (v / n) + 0;
    DivModUnique(v - v % n, n, v / n, 0);
  }

  lemma PageSizeIsPow2()
    ensures PassesPow2Test(PAGE_SIZE)
  {
    assert Pow2(4) == 16;
    assert Pow2(8) == 0x100;
    assert Pow2(12) == PAGE_SIZE;
    Pow2TestExact(PAGE_SIZE);
  }

  /** No multiple of the alignment lies between a value and its rounding up. */
  lemma AlignUpLeast(value: int, alignment: int, a: int)
    requires alignment > 0 && PassesPow2Test(alignment)
    requires a % alignment == 0 && value <= a
    ensures AlignUp(value, alignment) <= a
  {
    var r := AlignUp(value, alignment);
    if a < r {
      MultiplesApart(alignment, a, r);
    }
  }

  // ----- mapped regions -----

  type Region = (int, int)

  predicate InRegion(r: Region, a: int) {
    r.0 <= a < r.1
  }

  /** Consolidation of touching entries, with lo..hi the region being extended. */
  function RegionsFrom(lo: int, hi: int, rest: seq<Entry>): seq<Region>
    decreases |rest|
  {
    if rest == [] then [(lo, hi)]
    else if rest[0].lo == hi then RegionsFrom(lo, rest[0].hi, rest[1..])
    else [(lo, hi)] + RegionsFrom(rest[0].lo, rest[0].hi, rest[1..])
  }

  function Regions(m: seq<Entry>): seq<Region> {
    if m == [] then [] else RegionsFrom(m[0].lo, m[0].hi, m[1..])
  }

  /** The generator's loop over the list. */
  method MappedRegions(m: seq<Entry>) returns (regions: seq<Region>)
    ensures regions == Regions(m)
  {
    regions := [];
    if m == [] {
      return;
    }
    var lo, hi := m[0].lo, m[0].hi;
    for i := 1 to |m|
      invariant regions + RegionsFrom(lo, hi, m[i..]) == Regions(m)
    {
      if m[i].lo == hi {
        hi := m[i].hi;
      } else {
        regions := regions + [(lo, hi)];
        lo, hi := m[i].lo, m[i].hi;
      }
    }
    regions := regions + [(lo, hi)];
  }

  /** Regions are non-empty and a real gap separates each from the next. */
  ghost predicate Separated(rs: seq<Region>) {
    && (forall i :: 0 <= i < |rs| ==> rs[i].0 < rs[i].1)
    && (forall i, j :: 0 <= i < j < |rs| ==> rs[i].1 < rs[j].0)
  }

  ghost predicate InSome(rs: seq<Region>, a: int) {
    exists i :: 0 <= i < |rs| && InRegion(rs[i], a)
  }

  lemma InSomeCons(r: Region, rs: seq<Region>, a: int)
    ensures InSome([r] + rs, a) <==> InRegion(r, a) || InSome(rs, a)
  {
    var all := [r] + rs;
    if i :| 0 <= i < |rs| && InRegion(rs[i], a) {
      assert InRegion(all[i + 1], a);
    }
    if InRegion(r, a) {
      assert InRegion(all[0], a);
    }
  }

  lemma {:induction false} RegionsFromSeparated(lo: int, hi: int, rest: seq<Entry>)
    requires lo < hi && WellFormed(rest) && (rest != [] ==> hi <= rest[0].lo)
    ensures |RegionsFrom(lo, hi, rest)| > 0 && RegionsFrom(lo, hi, rest)[0].0 == lo
    ensures Separated(RegionsFrom(lo, hi, rest))
    decreases |rest|
  {
    if rest != [] {
      WellFormedSlice(rest, 1, |rest|);
      if rest[0].lo == hi {
        RegionsFromSeparated(lo, rest[0].hi, rest[1..]);
      } else {
        RegionsFromSeparated(rest[0].lo, rest[0].hi, rest[1..]);
        var tail := RegionsFrom(rest[0].lo, rest[0].hi, rest[1..]);
        var rs := RegionsFrom(lo, hi, rest);
        assert rs == [(lo, hi)] + tail;
        forall i, j | 0 <= i < j < |rs| ensures rs[i].1 < rs[j].0 {
          assert j == 1 || tail[0].1 < tail[j - 1].0;
        }
      }
    }
  }

  lemma {:induction false} RegionsFromCover(lo: int, hi: int, rest: seq<Entry>, a: int)
    requires lo < hi && WellFormed(rest) && (rest != [] ==> hi <= rest[0].lo)
    ensures InSome(RegionsFrom(lo, hi, rest), a) <==> lo <= a < hi || Mapped(rest, a)
    decreases |rest|
  {
    if rest == [] {
      InSomeCons((lo, hi), [], a);
    } else {
      WellFormedSlice(rest, 1, |rest|);
      if rest[0].lo == hi {
        RegionsFromCover(lo, rest[0].hi, rest[1..], a);
      } else {
        RegionsFromCover(rest[0].lo, rest[0].hi, rest[1..], a);
        InSomeCons((lo, hi), RegionsFrom(rest[0].lo, rest[0].hi, rest[1..]), a);
      }
    }
  }

  /** The consolidated regions cover exactly the mapped addresses and never touch each other. */
  lemma RegionsMeaning(m: seq<Entry>)
    requires WellFormed(m)
    ensures Separated(Regions(m))
    ensures forall a :: InSome(Regions(m), a) <==> Mapped(m, a)
  {
    if m != [] {
      WellFormedSlice(m, 1, |m|);
      RegionsFromSeparated(m[0].lo, m[0].hi, m[1..]);
      forall a ensures InSome(Regions(m), a) <==> Mapped(m, a) {
        RegionsFromCover(m[0].lo, m[0].hi, m[1..], a);
      }
    }
  }

  /** The source's three-way overlap test. */
  predicate Meets(r: Region, begin: int, end: int) {
    r.0 <= begin < r.1 || r.0 < end <= r.1 || begin <= r.0 < r.1 <= end
  }

  predicate IsAvailable(m: seq<Entry>, addr: int, size: int)
    requires size > 0
  {
    var rs := Regions(m);
    !exists i :: 0 <= i < |rs| && Meets(rs[i], addr, addr + size)
  }

  predicate IsMapped(m: seq<Entry>, addr: int, size: int)
    requires size > 0
  {
    var begin, end := addr, addr + size;
    var rs := Regions(m);
    exists i :: 0 <= i < |rs| && rs[i].0 <= begin < end <= rs[i].1
  }

  /** A range is reported available exactly when none of its addresses is mapped. */
  lemma IsAvailableExact(m: seq<Entry>, addr: int, size: int)
    requires WellFormed(m) && size > 0
    ensures IsAvailable(m, addr, size) <==> forall a | addr <= a < addr + size :: !Mapped(m, a)
  {
    RegionsMeaning(m);
    var rs, end := Regions(m), addr + size;
    if IsAvailable(m, addr, size) {
      forall a | addr <= a < end ensures !Mapped(m, a) {
        forall i | 0 <= i < |rs| ensures !InRegion(rs[i], a) {
          assert !Meets(rs[i], addr, end);
        }
      }
    } else {
      var i :| 0 <= i < |rs| && Meets(rs[i], addr, end);
      var a := if rs[i].0 <= addr then addr else rs[i].0;
      assert InRegion(rs[i], a) && InSome(rs, a);
    }
  }

  /** A range is reported mapped exactly when all of its addresses are, however many entries it spans. */
  lemma IsMappedExact(m: seq<Entry>, addr: int, size: int)
    requires WellFormed(m) && size > 0
    ensures IsMapped(m, addr, size) <==> forall a | addr <= a < addr + size :: Mapped(m, a)
  {
    RegionsMeaning(m);
    var rs, end := Regions(m), addr + size;
    if IsMapped(m, addr, size) {
      var i :| 0 <= i < |rs| && rs[i].0 <= addr < end <= rs[i].1;
      forall a | addr <= a < end ensures Mapped(m, a) {
        assert InRegion(rs[i], a) && InSome(rs, a);
      }
    } else if InSome(rs, addr) {
      var i :| 0 <= i < |rs| && InRegion(rs[i], addr);
      var a := rs[i].1;
      forall j | 0 <= j < |rs| ensures !InRegion(rs[j], a) {
        assert j < i ==> rs[j].1 < rs[i].0;
        assert i < j ==> rs[i].1 < rs[j].0;
      }
      assert addr <= a < end && !Mapped(m, a);
    } else {
      assert !Mapped(m, addr);
    }
  }

  // ----- free-space search -----

  /** The arguments of one search; maxAddr is the last address of the memory space. */
  datatype Query = Query(
    maxAddr: int, size: int, minaddr: Option<int>, maxaddr: Option<int>, align: Option<int>
  ) {
    predicate Valid() {
      align.Some? ==> align.value > 0 && PassesPow2Test(align.value)
    }
    function Alignment(): (r: int)
      requires Valid()
      ensures r > 0 && PassesPow2Test(r)
      ensures align == Some(r) || (align.None? && r == 0x1000)
    {
      PageSizeIsPow2();
      if align.Some? then align.value else PAGE_SIZE
    }
    /** The first address past the memory space. */
    function Bound(): (r: int)
      ensures r - 1 == maxAddr
    {
      maxAddr + 1
    }
    function Low(): (r: int)
      ensures minaddr == Some(r) || (minaddr.None? && r == 0)
    {
      if minaddr.Some? then minaddr.value else 0
    }
    function High(): (r: int)
      ensures maxaddr == Some(r) || (maxaddr.None? && r == maxAddr + 1)
    {
      if maxaddr.Some? then maxaddr.value else Bound()
    }
  }

  /** Highest end address any searched gap has: the memory bound, or the last entry's start above it. */
  function TopOfSpace(m: seq<Entry>, bound: int): int {
    if m != [] && m[|m| - 1].lo > bound then m[|m| - 1].lo else bound
  }

  /** What a caller asks for: an aligned, wholly unmapped range inside the search domain. */
  ghost predicate Candidate(m: seq<Entry>, q: Query, al: int, a: int)
    requires al > 0
  {
    && q.size > 0
    && a % al == 0
    && q.Low() <= a && a + q.size <= q.High()
    && 0 <= a && a + q.size <= TopOfSpace(m, q.Bound())
    && forall x | a <= x < a + q.size :: !Mapped(m, x)
  }

  function GapLower(m: seq<Entry>, i: nat): int
    requires i <= |m|
  {
    if i == 0 then 0 else m[i - 1].hi
  }

  function GapUpper(m: seq<Entry>, i: nat, bound: int): int
    requires i <= |m|
  {
    if i < |m| then m[i].lo else bound
  }

  ghost predicate InGap(m: seq<Entry>, q: Query, i: nat, a: int)
    requires i <= |m|
  {
    GapLower(m, i) <= a && a + q.size <= GapUpper(m, i, q.Bound())
  }

  ghost predicate Searchable(m: seq<Entry>) {
    WellFormed(m) && forall i :: 0 <= i < |m| ==> 0 <= m[i].lo
  }

  /** Every candidate lies inside one of the gaps between entries. */
  lemma CandidateInGap(m: seq<Entry>, q: Query, al: int, a: int) returns (k: nat)
    requires Searchable(m) && al > 0 && Candidate(m, q, al, a)
    ensures k <= |m| && InGap(m, q, k, a)
  {
    var x := Entry(a, a + q.size, 0, "", false);
    k := FreeRangeFits(m, x);
    if k == |m| && m != [] {
      assert m[|m| - 1].lo < m[|m| - 1].hi <= a;
    }
  }

  lemma GapIsFree(m: seq<Entry>, k: nat, bound: int, a: int)
    requires WellFormed(m) && k <= |m| && GapLower(m, k) <= a < GapUpper(m, k, bound)
    ensures !Mapped(m, a)
  {
    MappedIffContained(m, a);
    forall i | 0 <= i < |m| ensures !m[i].Contains(a) {
      assert i < k - 1 ==> m[i].hi <= m[k - 1].lo;
      assert k < i ==> m[k].hi <= m[i].lo;
    }
  }

  /** A range that fits the i-th gap and the search domain is a candidate. */
  lemma FitIsCandidate(m: seq<Entry>, q: Query, al: int, i: nat, a: int)
    requires Searchable(m) && i <= |m| && al > 0
    requires q.size > 0 && a % al == 0 && InGap(m, q, i, a)
    requires q.Low() <= a && a + q.size <= q.High()
    ensures Candidate(m, q, al, a)
  {
    forall x | a <= x < a + q.size ensures !Mapped(m, x) {
      GapIsFree(m, i, q.Bound(), x);
    }
    assert i < |m| - 1 ==> m[i].hi <= m[|m| - 1].lo;
  }

  /** What one round of the loop over the gaps returns, if anything. */
  function TryGap(m: seq<Entry>, q: Query, al: int, i: nat): Option<int>
    requires i <= |m| && al > 0 && PassesPow2Test(al)
  {
    var lbound, ubound := GapLower(m, i), GapUpper(m, i, q.Bound());
    if lbound < q.High() && q.Low() < ubound then
      var addr := AlignUp(Max(q.Low(), lbound), al);
      var end := addr + q.size;
      if lbound <= addr < end <= ubound && q.Low() <= addr < end <= q.High() then Some(addr) else None
    else None
  }

  /** A gap with a candidate is not passed over, and what is tried in it is at most that candidate. */
  lemma GapNotPassedOver(m: seq<Entry>, q: Query, al: int, i: nat, a: int)
    requires Searchable(m) && i <= |m| && al > 0 && PassesPow2Test(al)
    requires Candidate(m, q, al, a) && InGap(m, q, i, a)
    ensures TryGap(m, q, al, i).Some? && TryGap(m, q, al, i).value <= a
  {
    AlignUpLeast(Max(q.Low(), GapLower(m, i)), al, a);
  }

  ghost predicate NoneBefore(m: seq<Entry>, q: Query, al: int, i: nat)
    requires i <= |m| + 1 && al > 0
  {
    forall k, a | 0 <= k < i && Candidate(m, q, al, a) :: !InGap(m, q, k, a)
  }

  lemma FirstFit(m: seq<Entry>, q: Query, al: int, i: nat)
    requires Searchable(m) && i <= |m| && al > 0 && PassesPow2Test(al) && NoneBefore(m, q, al, i)
    ensures TryGap(m, q, al, i).None? ==> NoneBefore(m, q, al, i + 1)
    ensures TryGap(m, q, al, i).Some? ==>
              var addr := TryGap(m, q, al, i).value;
              Candidate(m, q, al, addr) && forall a | Candidate(m, q, al, a) :: addr <= a
  {
    if TryGap(m, q, al, i).Some? {
      var addr := TryGap(m, q, al, i).value;
      FitIsCandidate(m, q, al, i, addr);
      forall a | Candidate(m, q, al, a) ensures addr <= a {
        var k := CandidateInGap(m, q, al, a);
        if k == i {
          GapNotPassedOver(m, q, al, i, a);
        }
      }
    } else {
      forall a | Candidate(m, q, al, a) ensures !InGap(m, q, i, a) {
        if InGap(m, q, i, a) { GapNotPassedOver(m, q, al, i, a); }
      }
    }
  }

  lemma AllGapsPassed(m: seq<Entry>, q: Query, al: int)
    requires Searchable(m) && al > 0 && NoneBefore(m, q, al, |m| + 1)
    ensures forall a :: !Candidate(m, q, al, a)
  {
    forall a ensures !Candidate(m, q, al, a) {
      if Candidate(m, q, al, a) {
        var k := CandidateInGap(m, q, al, a);
      }
    }
  }

  /** a is a candidate and no candidate is below it. */
  ghost predicate LeastCandidate(m: seq<Entry>, q: Query, a: int)
    requires q.Valid()
  {
    Candidate(m, q, q.Alignment(), a) && forall b | Candidate(m, q, q.Alignment(), b) :: a <= b
  }

  ghost predicate NoCandidate(m: seq<Entry>, q: Query)
    requires q.Valid()
  {
    forall b :: !Candidate(m, q, q.Alignment(), b)
  }

  /** First fit over the gaps: the least candidate, or the exception that says there is none. */
  method FindFreeSpace(m: seq<Entry>, q: Query) returns (r: Result<int>)
    requires Searchable(m) && q.Valid()
    ensures r == Err(AssertionError) <==> q.Low() >= q.High()
    ensures r == Err(ValueError) <==> q.Low() < q.High() && q.High() - q.Low() < q.size
    ensures r.Ok? ==> LeastCandidate(m, q, r.value)
    ensures r == Err(OutOfMemory) ==> NoCandidate(m, q)
    ensures r.Ok? || r.error in {AssertionError, ValueError, OutOfMemory}
  {
    if q.Low() >= q.High() {
      return Err(AssertionError);
    }
    if q.High() - q.Low() < q.size {
      return Err(ValueError);
    }
    for i := 0 to |m| + 1
      invariant NoneBefore(m, q, q.Alignment(), i)
    {
      FirstFit(m, q, q.Alignment(), i);
      var found := TryGap(m, q, q.Alignment(), i);
      if found.Some? {
        return Ok(found.value);
      }
    }
    AllGapsPassed(m, q, q.Alignment());
    return Err(OutOfMemory);
  }
}
