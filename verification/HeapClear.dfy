/** What clear leaves of a heap. */
module HeapClear {
  import HeapBounds
  import opened HeapOps
  import opened MapInfo
  import opened MapOps
  import MapSearch
  import opened Results

  function AllFree(cs: seq<ChunkView>): (r: seq<ChunkView>)
    ensures |r| == |cs| && forall i :: 0 <= i < |cs| ==> r[i] == cs[i].(inuse := false)
  {
    seq(|cs|, i requires 0 <= i < |cs| => cs[i].(inuse := false))
  }

  predicate SizesNatural(bs: seq<(int, int)>) {
    forall i :: 0 <= i < |bs| ==> bs[i].1 >= 0
  }

  /** Unmaps the blocks from the k-th on, up to one that fails. */
  function UnmapBlocks(mem: State, bs: seq<(int, int)>, k: nat): Outcome
    requires k <= |bs| && SizesNatural(bs)
    decreases |bs| - k
  {
    if k == |bs| then (mem, None)
    else
      var (mem', err) := UnmapStep(mem, bs[k].0, bs[k].1);
      if err.Some? then (mem', err) else UnmapBlocks(mem', bs, k + 1)
  }

  /** Every chunk is marked free but stays in the list; every block is unmapped and forgotten. */
  function ClearStep(h: Heap): (Heap, Option<Error>)
    requires SizesNatural(h.blocks)
  {
    var (mem, err) := UnmapBlocks(h.mem, h.blocks, 0);
    var freed := h.(chunks := AllFree(h.chunks), mem := mem);
    if err.Some? then (freed, err) else (freed.(alloc := 0, use := 0, blocks := []), None)
  }

  lemma {:induction false} BlockEdgesAscend(bs: seq<(int, int)>, start: int, alloc: int, i: nat, j: nat)
    requires BlocksTile(bs, start, alloc) && i <= j <= |bs|
    ensures BlockEdge(bs, start, i) <= BlockEdge(bs, start, j)
    decreases j
  {
    if i < j {
      BlockEdgesAscend(bs, start, alloc, i, j - 1);
      assert bs[j - 1].0 == BlockEdge(bs, start, j - 1);
    }
  }

  lemma {:induction false} BlockEdgeAligned(bs: seq<(int, int)>, start: int, alloc: int, i: nat)
    requires BlocksTile(bs, start, alloc) && i <= |bs| && start % MapSearch.PAGE_SIZE == 0
    ensures BlockEdge(bs, start, i) % MapSearch.PAGE_SIZE == 0
  {
    if i > 0 {
      BlockEdgeAligned(bs, start, alloc, i - 1);
      assert bs[i - 1].0 == BlockEdge(bs, start, i - 1);
    }
  }

  /** A mapped range of whole pages is taken off both the list and the engine. */
  lemma UnmapPages(mem: State, at: int, size: nat) returns (mem': State)
    requires Inv(mem) && size > 0 && at % MapSearch.PAGE_SIZE == 0 && size % MapSearch.PAGE_SIZE == 0
    requires forall a :: at <= a < at + size ==> Mapped(mem.info, a)
    ensures UnmapStep(mem, at, size) == (mem', None) && Inv(mem')
    ensures forall a :: View(mem'.info, a) == if at <= a < at + size then None else View(mem.info, a)
  {
    mem' := UnmapStep(mem, at, size).0;
    UnmapMeaning(mem, at, size);
    assert Mapped(mem.info, at) && Mapped(mem.info, at + size - 1);
    MappedIffContained(mem.info, at);
    assert !NoOverlap(mem.info, at, at + size);
    assert mem.uc.Maps(at) && mem.uc.Maps(at + size - 1);
    assert mem.uc.AllMapped(at, size) && mem.uc.PageRange(at, size);
  }

  lemma UnmapFront(mem: State, lo: int, mid: int, hi: int) returns (mem': State)
    requires Inv(mem) && lo < mid <= hi && lo % MapSearch.PAGE_SIZE == 0 && (mid - lo) % MapSearch.PAGE_SIZE == 0
    requires forall a :: lo <= a < hi ==> Mapped(mem.info, a)
    ensures UnmapStep(mem, lo, mid - lo) == (mem', None) && Inv(mem')
    ensures forall a :: mid <= a < hi ==> Mapped(mem'.info, a)
    ensures forall a :: View(mem'.info, a) == if lo <= a < mid then None else View(mem.info, a)
  {
    mem' := UnmapPages(mem, lo, mid - lo);
    forall a | mid <= a < hi ensures Mapped(mem'.info, a) {
      assert Mapped(mem.info, a);
    }
  }

  lemma {:induction false} BlocksUnmapped(mem: State, bs: seq<(int, int)>, start: int, alloc: int, k: nat)
    returns (mem': State)
    requires Inv(mem) && BlocksTile(bs, start, alloc) && SizesNatural(bs) && k <= |bs|
    requires k < |bs| ==> start % MapSearch.PAGE_SIZE == 0
    requires forall a :: BlockEdge(bs, start, k) <= a < start + alloc ==> Mapped(mem.info, a)
    ensures UnmapBlocks(mem, bs, k) == (mem', None) && Inv(mem')
    ensures forall a :: View(mem'.info, a) ==
              if BlockEdge(bs, start, k) <= a < start + alloc then None else View(mem.info, a)
    decreases |bs| - k
  {
    if k == |bs| {
      mem' := mem;
    } else {
      BlockEdgeAligned(bs, start, alloc, k);
      BlockEdgesAscend(bs, start, alloc, k + 1, |bs|);
      var lo, mid := BlockEdge(bs, start, k), BlockEdge(bs, start, k + 1);
      assert bs[k] == (lo, mid - lo) && mid - lo > 0 && (mid - lo) % MapSearch.PAGE_SIZE == 0;
      var mem1 := UnmapFront(mem, lo, mid, start + alloc);
      mem' := BlocksUnmapped(mem1, bs, start, alloc, k + 1);
    }
  }

  /** clear succeeds and unmaps just what the heap had mapped. */
  lemma ClearMeaning(h: Heap)
    requires HeapInv(h)
    ensures SizesNatural(h.blocks)
    ensures var (h', err) := ClearStep(h);
            && err.None? && Inv(h'.mem) && h'.use == h'.alloc == 0 && h'.chunks == AllFree(h.chunks)
            && forall a :: View(h'.mem.info, a) ==
                 if h.start <= a < h.start + h.alloc then None else View(h.mem.info, a)
  {
    forall i | 0 <= i < |h.blocks| ensures h.blocks[i].1 >= 0 {
      assert h.blocks[i].0 == BlockEdge(h.blocks, h.start, i);
    }
    var mem' := BlocksUnmapped(h.mem, h.blocks, h.start, h.alloc, 0);
  }

  /** But it forgets to forget the chunks: the invariant survives exactly if no byte had been handed out. */
  lemma ClearKeepsInvIff(h: Heap)
    requires HeapInv(h)
    ensures SizesNatural(h.blocks) && (HeapInv(ClearStep(h).0) <==> h.use == 0)
  {
    ClearMeaning(h);
    var h' := ClearStep(h).0;
    forall i | 0 <= i <= |h.chunks| ensures ChunkEdge(h'.chunks, h.start, i) == ChunkEdge(h.chunks, h.start, i) {}
    forall i | 0 <= i < |h.chunks| ensures h'.chunks[i].address == ChunkEdge(h'.chunks, h.start, i) {
      assert h.chunks[i].address == ChunkEdge(h.chunks, h.start, i);
    }
  }

  /** After clear every request that some former chunk could hold is given such a chunk's range, which is not mapped. */
  lemma ClearedRangeIsReused(h: Heap, size: nat)
    requires HeapInv(h) && exists i :: 0 <= i < |h.chunks| && h.chunks[i].size >= size
    ensures SizesNatural(h.blocks)
    ensures var (h', r) := AllocStep(ClearStep(h).0, size);
            && r.Ok? && (exists i :: 0 <= i < |h.chunks| && h.chunks[i].address == r.value && h.chunks[i].size >= size)
            && forall a :: r.value <= a < r.value + size ==> !Mapped(h'.mem.info, a)
  {
    ClearMeaning(h);
    var h1 := ClearStep(h).0;
    var i :| 0 <= i < |h.chunks| && h.chunks[i].size >= size;
    assert Fits(h1.chunks[i], size);
    BestFitIsSmallest(h1.chunks, size, |h1.chunks|);
    var k := BestFit(h1.chunks, size, |h1.chunks|).value;
    ChunksAscend(h.chunks, h.start, h.use, k, |h.chunks|);
    ChunksStartInside(h.chunks, h.start, h.use, k);
    assert h.chunks[k].address == ChunkEdge(h.chunks, h.start, k);
    forall a | h.chunks[k].address <= a < h.chunks[k].address + size ensures !Mapped(h1.mem.info, a) {
      assert View(h1.mem.info, a) == None;
    }
  }

  /** One byte allocated, cleared and allocated again: the same address, not mapped any more. */
  lemma ClearedByteIsReused(h: Heap)
    requires NewHeap(h) && HeapBounds.Ready(h, h.end) && h.end - h.start >= MapSearch.PAGE_SIZE
    ensures var h1 := HeapStep(h, Alloc(1));
            && SizesNatural(h1.blocks) && !HeapInv(ClearStep(h1).0)
            && AllocStep(ClearStep(h1).0, 1).1 == Ok(h.start)
            && !Mapped(AllocStep(ClearStep(h1).0, 1).0.mem.info, h.start)
  {
    var h1 := HeapBounds.GrowthStep(h, 1, h.end);
    ClearKeepsInvIff(h1);
    ClearedRangeIsReused(h1, 1);
    OneChunk(h, h1);
  }

  lemma OneChunk(h: Heap, h1: Heap)
    requires NewHeap(h) && h1 == HeapStep(h, Alloc(1)) && h1.use == 1
    ensures h1.chunks == [ChunkView(h.start, 1, true)]
  {
  }
}
