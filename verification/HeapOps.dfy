/** The heap as a value: what alloc and free do to chunks and blocks, and what every run keeps. */
module HeapOps {
  import Engine
  import opened MapInfo
  import opened MapOps
  import MapSearch
  import opened Results

  datatype ChunkView = ChunkView(address: int, size: nat, inuse: bool)

  datatype Heap = Heap(
    start: int, end: int, chunks: seq<ChunkView>, use: int, alloc: int, blocks: seq<(int, int)>, mem: State
  )

  type HeapOutcome = (Heap, Result<int>)

  // ----- choosing a chunk -----

  predicate Fits(c: ChunkView, size: nat) {
    !c.inuse && c.size >= size
  }

  /** The first of the smallest free chunks among the first n that hold size bytes. */
  function BestFit(cs: seq<ChunkView>, size: nat, n: nat): (k: Option<nat>)
    requires n <= |cs|
    ensures k.Some? ==> k.value < n && Fits(cs[k.value], size)
  {
    if n == 0 then None
    else
      var k := BestFit(cs, size, n - 1);
      if Fits(cs[n - 1], size) && (k.None? || cs[n - 1].size < cs[k.value].size) then Some(n - 1) else k
  }

  /** A fitting chunk is found when there is one, and none that fits is smaller, nor as small and earlier. */
  lemma {:induction false} BestFitIsSmallest(cs: seq<ChunkView>, size: nat, n: nat)
    requires n <= |cs|
    ensures BestFit(cs, size, n).None? <==> forall i :: 0 <= i < n ==> !Fits(cs[i], size)
    ensures BestFit(cs, size, n).Some? ==>
              var k := BestFit(cs, size, n).value;
              && (forall i :: 0 <= i < n && Fits(cs[i], size) ==> cs[k].size <= cs[i].size)
              && (forall i :: 0 <= i < k && Fits(cs[i], size) ==> cs[k].size < cs[i].size)
  {
    if n > 0 {
      BestFitIsSmallest(cs, size, n - 1);
    }
  }

  /** The first chunk in use at an address. */
  function FindInUse(cs: seq<ChunkView>, addr: int, n: nat): (k: Option<nat>)
    requires n <= |cs|
    ensures k.Some? ==> k.value < n && cs[k.value].address == addr && cs[k.value].inuse
    ensures k.None? ==> forall i :: 0 <= i < n ==> !(cs[i].address == addr && cs[i].inuse)
    ensures k.Some? ==> forall i :: 0 <= i < k.value ==> !(cs[i].address == addr && cs[i].inuse)
  {
    if n == 0 then None
    else
      var k := FindInUse(cs, addr, n - 1);
      if k.None? && cs[n - 1].address == addr && cs[n - 1].inuse then Some(n - 1) else k
  }

  // ----- the operations -----

  function Take(h: Heap, k: nat): Heap
    requires k < |h.chunks|
  {
    h.(chunks := h.chunks[k := h.chunks[k].(inuse := true)])
  }

  /** One more mapped block behind the others. */
  function AddBlock(h: Heap, realSize: int): Result<Heap> {
    var (mem, err) := MapStep(h.mem, h.start + h.alloc, realSize, Engine.PROT_ALL, Some("[heap]"));
    if err.Some? then Err(err.value)
    else Ok(h.(mem := mem, alloc := h.alloc + realSize, blocks := h.blocks + [(h.start + h.alloc, realSize)]))
  }

  /** Room for one more chunk: unchanged if there is enough, else one more block, or no heap at all. */
  function Grow(h: Heap, size: nat): Result<Option<Heap>> {
    if h.use + size <= h.alloc then Ok(Some(h))
    else
      var realSize := PageEnd(size);
      if h.start + h.use + realSize > h.end then Ok(None)
      else match AddBlock(h, realSize)
        case Err(e) => Err(e)
        case Ok(g) => Ok(Some(g))
  }

  function Append(h: Heap, size: nat): Heap {
    h.(chunks := h.chunks + [ChunkView(h.start + h.use, size, true)], use := h.use + size)
  }

  function AllocStep(h: Heap, size: nat): HeapOutcome {
    var k := BestFit(h.chunks, size, |h.chunks|);
    if k.Some? then (Take(h, k.value), Ok(h.chunks[k.value].address))
    else match Grow(h, size)
      case Err(e) => (h, Err(e))
      case Ok(None) => (h, Ok(0))
      case Ok(Some(g)) => (Append(g, size), Ok(g.start + g.use))
  }

  function FreeStep(h: Heap, addr: int): (Heap, bool) {
    var k := FindInUse(h.chunks, addr, |h.chunks|);
    if k.None? then (h, false)
    else (h.(chunks := h.chunks[k.value := h.chunks[k.value].(inuse := false)]), true)
  }

  function SizeAt(h: Heap, addr: int): nat {
    var k := FindInUse(h.chunks, addr, |h.chunks|);
    if k.None? then 0 else h.chunks[k.value].size
  }

  // ----- the invariant -----

  /** Where the i-th chunk starts when each one starts where the previous ends. */
  function ChunkEdge(cs: seq<ChunkView>, start: int, i: nat): int
    requires i <= |cs|
  {
    if i == 0 then start else cs[i - 1].address + cs[i - 1].size
  }

  ghost predicate ChunksTile(cs: seq<ChunkView>, start: int, use: int) {
    && (forall i {:trigger ChunkEdge(cs, start, i)} :: 0 <= i < |cs| ==> cs[i].address == ChunkEdge(cs, start, i))
    && start + use == ChunkEdge(cs, start, |cs|)
  }

  function BlockEdge(bs: seq<(int, int)>, start: int, i: nat): int
    requires i <= |bs|
  {
    if i == 0 then start else bs[i - 1].0 + bs[i - 1].1
  }

  ghost predicate BlocksTile(bs: seq<(int, int)>, start: int, alloc: int) {
    && (forall i {:trigger BlockEdge(bs, start, i)} :: 0 <= i < |bs| ==>
          bs[i].0 == BlockEdge(bs, start, i) && bs[i].1 > 0 && bs[i].1 % MapSearch.PAGE_SIZE == 0)
    && start + alloc == BlockEdge(bs, start, |bs|)
  }

  /** Chunks tile the used part, blocks tile the allocated part, and the one lies in the other. */
  ghost predicate Tiled(h: Heap) {
    && ChunksTile(h.chunks, h.start, h.use)
    && BlocksTile(h.blocks, h.start, h.alloc)
    && 0 <= h.use <= h.alloc && h.alloc % MapSearch.PAGE_SIZE == 0
    && (h.blocks != [] ==> h.start % MapSearch.PAGE_SIZE == 0)
  }

  /** All of the allocated part is mapped. */
  ghost predicate Backed(mem: State, start: int, alloc: int) {
    Inv(mem) && forall a :: start <= a < start + alloc ==> Mapped(mem.info, a)
  }

  ghost predicate HeapInv(h: Heap) {
    Tiled(h) && Backed(h.mem, h.start, h.alloc)
  }

  ghost predicate NewHeap(h: Heap) {
    h.chunks == [] && h.use == 0 && h.alloc == 0 && h.blocks == [] && Inv(h.mem)
  }

  lemma NewHeapInv(h: Heap)
    requires NewHeap(h)
    ensures HeapInv(h)
  {
  }

  /** Marking a chunk does not move any. */
  lemma MarkKeepsTiles(cs: seq<ChunkView>, start: int, use: int, k: nat, inuse: bool)
    requires ChunksTile(cs, start, use) && k < |cs|
    ensures ChunksTile(cs[k := cs[k].(inuse := inuse)], start, use)
  {
    var cs' := cs[k := cs[k].(inuse := inuse)];
    forall i | 0 <= i <= |cs| ensures ChunkEdge(cs', start, i) == ChunkEdge(cs, start, i) {}
    forall i | 0 <= i < |cs| ensures cs'[i].address == ChunkEdge(cs', start, i) {
      assert cs'[i].address == cs[i].address;
    }
  }

  lemma AppendKeepsTiles(cs: seq<ChunkView>, start: int, use: int, size: nat)
    requires ChunksTile(cs, start, use)
    ensures ChunksTile(cs + [ChunkView(start + use, size, true)], start, use + size)
  {
    var cs' := cs + [ChunkView(start + use, size, true)];
    forall i | 0 <= i < |cs'| ensures cs'[i].address == ChunkEdge(cs', start, i) {
      assert ChunkEdge(cs', start, i) == ChunkEdge(cs, start, i);
    }
  }

  lemma BlockKeepsTiles(bs: seq<(int, int)>, start: int, alloc: int, size: int)
    requires BlocksTile(bs, start, alloc) && size > 0 && size % MapSearch.PAGE_SIZE == 0
    ensures BlocksTile(bs + [(start + alloc, size)], start, alloc + size)
  {
    var bs' := bs + [(start + alloc, size)];
    forall i | 0 <= i < |bs'|
      ensures bs'[i].0 == BlockEdge(bs', start, i) && bs'[i].1 > 0 && bs'[i].1 % MapSearch.PAGE_SIZE == 0
    {
      assert BlockEdge(bs', start, i) == BlockEdge(bs, start, i);
    }
  }

  lemma BackedExtends(mem: State, mem': State, start: int, alloc: int, size: int, x: Attr)
    requires Backed(mem, start, alloc) && Inv(mem')
    requires forall a :: View(mem'.info, a) ==
               if start + alloc <= a < start + alloc + size then Some(x) else View(mem.info, a)
    ensures Backed(mem', start, alloc + size)
  {
    forall a | start <= a < start + (alloc + size) ensures Mapped(mem'.info, a) {
      assert a < start + alloc ==> Mapped(mem.info, a);
    }
  }

  lemma MapHeapPages(mem: State, mem': State, at: int, size: int, x: Attr)
    requires Inv(mem) && MapStep(mem, at, size, Engine.PROT_ALL, Some("[heap]")) == (mem', None)
    requires x == Attr(Engine.PROT_ALL, LabelOr(Some("[heap]"), "[mapped]"), false)
    ensures Inv(mem')
    ensures forall a :: View(mem'.info, a) == if at <= a < at + size then Some(x) else View(mem.info, a)
  {
    MapMeaning(mem, at, size, Engine.PROT_ALL, Some("[heap]"));
  }

  lemma MapExtendsBacking(mem: State, mem': State, start: int, alloc: int, size: int)
    requires Backed(mem, start, alloc)
    requires MapStep(mem, start + alloc, size, Engine.PROT_ALL, Some("[heap]")) == (mem', None)
    ensures Backed(mem', start, alloc + size)
  {
    var x := Attr(Engine.PROT_ALL, LabelOr(Some("[heap]"), "[mapped]"), false);
    MapHeapPages(mem, mem', start + alloc, size, x);
    BackedExtends(mem, mem', start, alloc, size, x);
  }

  /** The heap before the call and with one more block. */
  ghost predicate GrownBy(h: Heap, g: Heap, size: nat) {
    g == h || g == h.(mem := g.mem, alloc := h.alloc + size, blocks := h.blocks + [(h.start + h.alloc, size)])
  }

  lemma AddBlockKeepsInv(h: Heap, realSize: int)
    requires HeapInv(h) && realSize % MapSearch.PAGE_SIZE == 0 && AddBlock(h, realSize).Ok?
    ensures realSize > 0 && HeapInv(AddBlock(h, realSize).value)
  {
    MapExtendsBacking(h.mem, AddBlock(h, realSize).value.mem, h.start, h.alloc, realSize);
    BlockKeepsTiles(h.blocks, h.start, h.alloc, realSize);
  }

  /** Both outcomes of mapping a block, with the map's own outcome given by name. */
  lemma BlockAdded(h: Heap, realSize: int, mem': State, err: Option<Error>)
    requires HeapInv(h) && realSize % MapSearch.PAGE_SIZE == 0
    requires (mem', err) == MapStep(h.mem, h.start + h.alloc, realSize, Engine.PROT_ALL, Some("[heap]"))
    ensures err.Some? ==> AddBlock(h, realSize) == Err(err.value) && mem' == h.mem
    ensures err.None? ==>
              var blocks := h.blocks + [(h.start + h.alloc, realSize)];
              var g := h.(mem := mem', alloc := h.alloc + realSize, blocks := blocks);
              AddBlock(h, realSize) == Ok(g) && HeapInv(g)
  {
    if err.None? {
      AddBlockKeepsInv(h, realSize);
    }
  }

  lemma GrowKeepsInv(h: Heap, size: nat)
    requires HeapInv(h) && Grow(h, size).Ok? && Grow(h, size).value.Some?
    ensures var g := Grow(h, size).value.value;
            HeapInv(g) && GrownBy(h, g, PageEnd(size)) && g.use + size <= g.alloc
  {
    if h.use + size > h.alloc {
      AddBlockKeepsInv(h, PageEnd(size));
    }
  }

  lemma AppendKeepsInv(h: Heap, size: nat)
    requires HeapInv(h) && h.use + size <= h.alloc
    ensures HeapInv(Append(h, size))
  {
    AppendKeepsTiles(h.chunks, h.start, h.use, size);
  }

  lemma AllocKeepsInv(h: Heap, size: nat)
    requires HeapInv(h)
    ensures HeapInv(AllocStep(h, size).0)
  {
    var k := BestFit(h.chunks, size, |h.chunks|);
    if k.Some? {
      MarkKeepsTiles(h.chunks, h.start, h.use, k.value, true);
    } else if Grow(h, size).Ok? && Grow(h, size).value.Some? {
      GrowKeepsInv(h, size);
      AppendKeepsInv(Grow(h, size).value.value, size);
    }
  }

  lemma FreeKeepsInv(h: Heap, addr: int)
    requires HeapInv(h)
    ensures HeapInv(FreeStep(h, addr).0)
  {
    var k := FindInUse(h.chunks, addr, |h.chunks|);
    if k.Some? {
      MarkKeepsTiles(h.chunks, h.start, h.use, k.value, false);
    }
  }

  // ----- consequences -----

  lemma {:induction false} ChunksAscend(cs: seq<ChunkView>, start: int, use: int, i: nat, j: nat)
    requires ChunksTile(cs, start, use) && i < j <= |cs|
    ensures cs[i].address + cs[i].size <= ChunkEdge(cs, start, j)
    decreases j
  {
    if i < j - 1 {
      ChunksAscend(cs, start, use, i, j - 1);
    }
  }

  lemma {:induction false} ChunksStartInside(cs: seq<ChunkView>, start: int, use: int, i: nat)
    requires ChunksTile(cs, start, use) && i <= |cs|
    ensures start <= ChunkEdge(cs, start, i)
  {
    if i > 0 {
      ChunksStartInside(cs, start, use, i - 1);
    }
  }

  /** Any two chunks are disjoint, and every byte of a chunk is mapped. */
  lemma ChunksDisjointAndMapped(h: Heap, i: nat, j: nat)
    requires HeapInv(h) && i < j < |h.chunks|
    ensures h.chunks[i].address + h.chunks[i].size <= h.chunks[j].address
    ensures forall a :: h.chunks[i].address <= a < h.chunks[i].address + h.chunks[i].size ==> Mapped(h.mem.info, a)
    ensures forall a :: h.chunks[j].address <= a < h.chunks[j].address + h.chunks[j].size ==> Mapped(h.mem.info, a)
  {
    ChunksAscend(h.chunks, h.start, h.use, i, j);
    ChunksAscend(h.chunks, h.start, h.use, i, |h.chunks|);
    ChunksAscend(h.chunks, h.start, h.use, j, |h.chunks|);
    ChunksStartInside(h.chunks, h.start, h.use, i);
    ChunksStartInside(h.chunks, h.start, h.use, j);
  }

  // ----- balance of allocations and frees -----

  /** Number of chunks in use at an address, among the first n. */
  function InUseAt(cs: seq<ChunkView>, addr: int, n: nat): nat
    requires n <= |cs|
  {
    if n == 0 then 0
    else InUseAt(cs, addr, n - 1) + (if cs[n - 1].inuse && cs[n - 1].address == addr then 1 else 0)
  }

  function Live(h: Heap, addr: int): nat {
    InUseAt(h.chunks, addr, |h.chunks|)
  }

  lemma {:induction false} InUsePrefix(cs: seq<ChunkView>, ds: seq<ChunkView>, addr: int, n: nat)
    requires n <= |cs| && n <= |ds| && forall i :: 0 <= i < n ==> cs[i] == ds[i]
    ensures InUseAt(cs, addr, n) == InUseAt(ds, addr, n)
  {
    if n > 0 {
      InUsePrefix(cs, ds, addr, n - 1);
    }
  }

  lemma {:induction false} InUseMark(cs: seq<ChunkView>, k: nat, inuse: bool, addr: int, n: nat)
    requires k < |cs| && n <= |cs| && cs[k].inuse != inuse
    ensures InUseAt(cs[k := cs[k].(inuse := inuse)], addr, n) ==
            InUseAt(cs, addr, n) + (if k < n && cs[k].address == addr then (if inuse then 1 else -1) else 0)
  {
    if n > 0 {
      InUseMark(cs, k, inuse, addr, n - 1);
    }
  }

  lemma {:induction false} InUseZeroIff(cs: seq<ChunkView>, addr: int, n: nat)
    requires n <= |cs|
    ensures InUseAt(cs, addr, n) > 0 <==> FindInUse(cs, addr, n).Some?
  {
    if n > 0 {
      InUseZeroIff(cs, addr, n - 1);
    }
  }

  /** What a caller takes for success. */
  predicate Succeeded(r: Result<int>) {
    r.Ok? && r.value != 0
  }

  /** Room was found: a chunk to recycle, or space for a new one. */
  predicate Granted(h: Heap, size: nat) {
    BestFit(h.chunks, size, |h.chunks|).Some? || (Grow(h, size).Ok? && Grow(h, size).value.Some?)
  }

  lemma GrantedIff(h: Heap, size: nat)
    requires HeapInv(h)
    ensures var (h', r) := AllocStep(h, size);
            && (!Granted(h, size) ==> h' == h && !Succeeded(r))
            && (Granted(h, size) ==> r.Ok? && r.value >= h.start)
  {
    var k := BestFit(h.chunks, size, |h.chunks|);
    if k.Some? {
      ChunksStartInside(h.chunks, h.start, h.use, k.value);
      assert h.chunks[k.value].address == ChunkEdge(h.chunks, h.start, k.value);
    } else if Granted(h, size) {
      GrowKeepsInv(h, size);
    }
  }

  lemma GrantedLive(h: Heap, size: nat, addr: int)
    requires HeapInv(h) && Granted(h, size)
    ensures var (h', r) := AllocStep(h, size);
            r.Ok? && Live(h', addr) == Live(h, addr) + (if addr == r.value then 1 else 0)
  {
    var h' := AllocStep(h, size).0;
    var k := BestFit(h.chunks, size, |h.chunks|);
    if k.Some? {
      InUseMark(h.chunks, k.value, true, addr, |h.chunks|);
    } else {
      GrowKeepsInv(h, size);
      InUsePrefix(h.chunks, h'.chunks, addr, |h.chunks|);
    }
  }

  /**
    alloc.  A call that returns a non-zero address makes one more chunk live there and nowhere
    else; one that returns 0 or raises changes nothing, for a heap that does not start at 0.
  */
  lemma AllocMeaning(h: Heap, size: nat, addr: int)
    requires HeapInv(h) && addr != 0
    ensures var (h', r) := AllocStep(h, size);
            && Live(h', addr) == Live(h, addr) + (if r == Ok(addr) then 1 else 0)
            && (h.start > 0 && !Succeeded(r) ==> h' == h)
  {
    GrantedIff(h, size);
    if Granted(h, size) {
      GrantedLive(h, size, addr);
    }
  }

  /** Chunk k of a heap against another one, and against memory. */
  ghost predicate OwnsRange(h: Heap, k: nat)
    requires k < |h.chunks|
  {
    var c := h.chunks[k];
    && (forall a :: c.address <= a < c.address + c.size ==> Mapped(h.mem.info, a))
    && (forall i :: 0 <= i < |h.chunks| && i != k ==>
          h.chunks[i].address + h.chunks[i].size <= c.address || c.address + c.size <= h.chunks[i].address)
  }

  lemma ChunkOwnsRange(h: Heap, k: nat)
    requires HeapInv(h) && k < |h.chunks|
    ensures OwnsRange(h, k)
  {
    ChunksAscend(h.chunks, h.start, h.use, k, |h.chunks|);
    ChunksStartInside(h.chunks, h.start, h.use, k);
    forall i | 0 <= i < |h.chunks| && i != k
      ensures h.chunks[i].address + h.chunks[i].size <= h.chunks[k].address ||
              h.chunks[k].address + h.chunks[k].size <= h.chunks[i].address
    {
      if i < k {
        ChunksAscend(h.chunks, h.start, h.use, i, k);
      } else {
        ChunksAscend(h.chunks, h.start, h.use, k, i);
      }
    }
  }

  /**
    The address a successful alloc returns is that of a chunk of at least the requested size, now in
    use, all mapped and apart from every other chunk; all chunks in use before are other ones, unchanged.
  */
  lemma AllocReturnsOwnRange(h: Heap, size: nat) returns (k: nat)
    requires HeapInv(h) && Succeeded(AllocStep(h, size).1)
    ensures var (h', r) := AllocStep(h, size);
            && k < |h'.chunks| && h'.chunks[k].address == r.value
            && h'.chunks[k].inuse && h'.chunks[k].size >= size && OwnsRange(h', k)
            && |h.chunks| <= |h'.chunks|
            && (forall i :: 0 <= i < |h.chunks| && i != k ==> h'.chunks[i] == h.chunks[i])
            && (k < |h.chunks| ==> !h.chunks[k].inuse)
  {
    var h' := AllocStep(h, size).0;
    GrantedIff(h, size);
    AllocKeepsInv(h, size);
    var best := BestFit(h.chunks, size, |h.chunks|);
    if best.Some? {
      k := best.value;
    } else {
      GrowKeepsInv(h, size);
      k := |h.chunks|;
    }
    ChunkOwnsRange(h', k);
  }

  /** Every chunk is in use or too small. */
  predicate NoneFits(h: Heap, size: nat) {
    forall i :: 0 <= i < |h.chunks| ==> h.chunks[i].inuse || h.chunks[i].size < size
  }

  /**
    If any free chunk is large enough, alloc marks the first of the smallest ones, returns its address, and
    changes nothing else.
  */
  lemma AllocRecycles(h: Heap, size: nat) returns (k: nat)
    requires !NoneFits(h, size)
    ensures k < |h.chunks| && Fits(h.chunks[k], size)
    ensures forall i :: 0 <= i < |h.chunks| && Fits(h.chunks[i], size) ==> h.chunks[k].size <= h.chunks[i].size
    ensures forall i :: 0 <= i < k && Fits(h.chunks[i], size) ==> h.chunks[k].size < h.chunks[i].size
    ensures AllocStep(h, size) ==
            (h.(chunks := h.chunks[k := h.chunks[k].(inuse := true)]), Ok(h.chunks[k].address))
  {
    BestFitIsSmallest(h.chunks, size, |h.chunks|);
    k := BestFit(h.chunks, size, |h.chunks|).value;
  }

  /** The heap with one more used chunk behind the others. */
  predicate OneMoreChunk(h: Heap, h': Heap, size: nat) {
    h'.chunks == h.chunks + [ChunkView(h.start + h.use, size, true)] && h'.use == h.use + size
    && h'.start == h.start && h'.end == h.end
  }

  /** Otherwise it appends a chunk behind the used part; no memory is touched if the allocated part has room. */
  lemma AllocAppends(h: Heap, size: nat)
    requires NoneFits(h, size) && h.use + size <= h.alloc
    ensures var (h', r) := AllocStep(h, size);
            && r == Ok(h.start + h.use) && OneMoreChunk(h, h', size)
            && h'.alloc == h.alloc && h'.blocks == h.blocks && h'.mem == h.mem
  {
    BestFitIsSmallest(h.chunks, size, |h.chunks|);
  }

  /**
    If it has not, one more block of whole pages is mapped behind the others, with all permissions, unless
    the bound test or the map refuses it; then nothing changes.
  */
  lemma AllocMapsBlock(h: Heap, size: nat, mem: State, err: Option<Error>)
    requires NoneFits(h, size) && h.use + size > h.alloc
    requires (mem, err) == MapStep(h.mem, h.start + h.alloc, PageEnd(size), 7, Some("[heap]"))
    ensures var (h', r) := AllocStep(h, size);
            var at, pages := h.start + h.alloc, PageEnd(size);
            if h.start + h.use + pages > h.end then r == Ok(0) && h' == h
            else if err.Some? then r == Err(err.value) && h' == h
            else
              && r == Ok(h.start + h.use) && OneMoreChunk(h, h', size)
              && h'.alloc == h.alloc + pages && h'.blocks == h.blocks + [(at, pages)] && h'.mem == mem
  {
    BestFitIsSmallest(h.chunks, size, |h.chunks|);
  }

  /** What mapping such a block adds to the list. */
  lemma BlockListed(mem: State, mem': State, at: int, pages: int, a: int)
    requires Inv(mem) && MapStep(mem, at, pages, 7, Some("[heap]")) == (mem', None)
    ensures View(mem'.info, a) == if at <= a < at + pages then Some(Attr(7, "[heap]", false)) else View(mem.info, a)
  {
    MapMeaning(mem, at, pages, 7, Some("[heap]"));
  }

  /** Chunk k is the first one in use at the address. */
  predicate FirstUsed(cs: seq<ChunkView>, addr: int, k: nat) {
    && k < |cs| && cs[k].inuse && cs[k].address == addr
    && forall i :: 0 <= i < k ==> !(cs[i].inuse && cs[i].address == addr)
  }

  /** size tells the size of the first used chunk at the address, and 0 if there is none. */
  lemma SizeAtMeaning(h: Heap, addr: int)
    ensures (forall i :: 0 <= i < |h.chunks| ==> !(h.chunks[i].inuse && h.chunks[i].address == addr)) ==>
            SizeAt(h, addr) == 0
    ensures forall k: nat :: FirstUsed(h.chunks, addr, k) ==> SizeAt(h, addr) == h.chunks[k].size
  {
    var f := FindInUse(h.chunks, addr, |h.chunks|);
  }

  /** free marks the first used chunk at the address and changes nothing else. */
  lemma FreeMarks(h: Heap, addr: int, k: nat)
    requires FirstUsed(h.chunks, addr, k)
    ensures FreeStep(h, addr) == (h.(chunks := h.chunks[k := h.chunks[k].(inuse := false)]), true)
  {
    var f := FindInUse(h.chunks, addr, |h.chunks|);
  }

  /** free succeeds exactly when a chunk is live at the address, and then one less is. */
  lemma FreeMeaning(h: Heap, addr: int, other: int)
    requires HeapInv(h)
    ensures var (h', ok) := FreeStep(h, addr);
            && (ok <==> Live(h, addr) > 0)
            && (!ok ==> h' == h)
            && (ok ==> Live(h', other) == Live(h, other) - (if other == addr then 1 else 0))
  {
    InUseZeroIff(h.chunks, addr, |h.chunks|);
    var k := FindInUse(h.chunks, addr, |h.chunks|);
    if k.Some? {
      InUseMark(h.chunks, k.value, false, other, |h.chunks|);
    }
  }

  // ----- runs -----

  datatype HeapOp = Alloc(size: nat) | Free(addr: int)

  function HeapStep(h: Heap, op: HeapOp): Heap {
    match op
    case Alloc(size) => AllocStep(h, size).0
    case Free(addr) => FreeStep(h, addr).0
  }

  function HeapRun(h: Heap, ops: seq<HeapOp>): Heap
    decreases |ops|
  {
    if ops == [] then h else HeapRun(HeapStep(h, ops[0]), ops[1..])
  }

  /** Allocations that returned an address minus successful frees of it. */
  function Balance(h: Heap, ops: seq<HeapOp>, addr: int): int
    decreases |ops|
  {
    if ops == [] then 0
    else
      (match ops[0]
       case Alloc(size) => if AllocStep(h, size).1 == Ok(addr) then 1 else 0
       case Free(a) => if FreeStep(h, a).1 && a == addr then -1 else 0)
      + Balance(HeapStep(h, ops[0]), ops[1..], addr)
  }

  /**
    In every run of alloc and free the tiling invariant holds, and the chunks live at
    an address are the successful allocations of it not yet freed.
  */
  lemma {:induction false} HeapRunKeeps(h: Heap, ops: seq<HeapOp>, addr: int)
    requires HeapInv(h) && addr != 0
    ensures HeapInv(HeapRun(h, ops))
    ensures Live(HeapRun(h, ops), addr) == Live(h, addr) + Balance(h, ops, addr)
    decreases |ops|
  {
    if ops != [] {
      match ops[0] {
        case Alloc(size) =>
          AllocKeepsInv(h, size);
          AllocMeaning(h, size, addr);
        case Free(a) =>
          FreeKeepsInv(h, a);
          FreeMeaning(h, a, addr);
      }
      HeapRunKeeps(HeapStep(h, ops[0]), ops[1..], addr);
    }
  }

  lemma {:induction false} InUseDistinct(cs: seq<ChunkView>, start: int, use: int, addr: int, n: nat)
    requires ChunksTile(cs, start, use) && n <= |cs|
    requires forall i :: 0 <= i < |cs| ==> cs[i].size > 0
    ensures InUseAt(cs, addr, n) <= 1
    ensures InUseAt(cs, addr, n) == 1 ==> exists i :: 0 <= i < n && cs[i].address == addr
  {
    if n > 0 {
      InUseDistinct(cs, start, use, addr, n - 1);
      forall i | 0 <= i < n - 1 ensures cs[i].address < cs[n - 1].address {
        ChunksAscend(cs, start, use, i, n - 1);
      }
    }
  }

  predicate PositiveChunks(h: Heap) {
    forall i :: 0 <= i < |h.chunks| ==> h.chunks[i].size > 0
  }

  lemma StepPositive(h: Heap, op: HeapOp)
    requires PositiveChunks(h) && (op.Alloc? ==> op.size > 0)
    ensures PositiveChunks(HeapStep(h, op))
  {
    if op.Alloc? && Grow(h, op.size).Ok? && Grow(h, op.size).value.Some? {
      assert Grow(h, op.size).value.value.chunks == h.chunks;
    }
  }

  predicate RequestsPositive(ops: seq<HeapOp>) {
    forall i :: 0 <= i < |ops| && ops[i].Alloc? ==> ops[i].size > 0
  }

  lemma {:induction false} RunPositive(h: Heap, ops: seq<HeapOp>)
    requires PositiveChunks(h) && RequestsPositive(ops)
    ensures PositiveChunks(HeapRun(h, ops))
    decreases |ops|
  {
    if ops != [] {
      StepPositive(h, ops[0]);
      RunPositive(HeapStep(h, ops[0]), ops[1..]);
    }
  }

  /** After any run of positive requests an address is live at most once: what is allocated is freed exactly once. */
  lemma LiveAtMostOnce(h: Heap, ops: seq<HeapOp>, addr: int)
    requires NewHeap(h) && RequestsPositive(ops) && addr != 0
    ensures var h' := HeapRun(h, ops);
            && Live(h', addr) == Balance(h, ops, addr) <= 1
            && (FreeStep(h', addr).1 <==> Balance(h, ops, addr) == 1)
            && (FreeStep(h', addr).1 ==> !FreeStep(FreeStep(h', addr).0, addr).1)
  {
    HeapRunKeeps(h, ops, addr);
    RunPositive(h, ops);
    var h' := HeapRun(h, ops);
    InUseDistinct(h'.chunks, h'.start, h'.use, addr, |h'.chunks|);
    FreeMeaning(h', addr, addr);
    FreeKeepsInv(h', addr);
    FreeMeaning(FreeStep(h', addr).0, addr, addr);
  }

  /** Empty chunks share an address: two of them can both be freed by it. */
  lemma EmptyChunksShare(h: Heap)
    requires NewHeap(h) && h.start > 0
    ensures var h' := HeapRun(h, [Alloc(0), Alloc(0)]);
            && Live(h', h.start) == 2
            && FreeStep(h', h.start).1 && FreeStep(FreeStep(h', h.start).0, h.start).1
  {
    var ops := [Alloc(0), Alloc(0)];
    assert ops[1..] == [Alloc(0)] && ops[1..][1..] == [];
    var h1 := EmptyAllocated(h);
    var h2 := EmptyAllocated(h1);
    assert HeapRun(h, ops) == HeapRun(h1, ops[1..]) == HeapRun(h2, []);
    FreeMeaning(h2, h.start, h.start);
    FreeKeepsInv(h2, h.start);
    FreeMeaning(FreeStep(h2, h.start).0, h.start, h.start);
  }

  lemma EmptyAllocated(h: Heap) returns (h': Heap)
    requires HeapInv(h) && h.use == 0 && forall i :: 0 <= i < |h.chunks| ==> h.chunks[i].inuse
    ensures h' == HeapStep(h, Alloc(0)) && HeapInv(h') && h'.use == 0 && h'.start == h.start
    ensures forall i :: 0 <= i < |h'.chunks| ==> h'.chunks[i].inuse
    ensures Live(h', h.start) == Live(h, h.start) + 1
  {
    BestFitIsSmallest(h.chunks, 0, |h.chunks|);
    h' := Append(h, 0);
    AppendKeepsInv(h, 0);
    InUsePrefix(h.chunks, h'.chunks, h.start, |h.chunks|);
  }
}
