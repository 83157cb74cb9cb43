/** How far the heap can be mapped: exactly when a run stays within end_address, and by how much it can pass it. */
module HeapBounds {
  import Engine
  import opened HeapOps
  import MapInfo
  import opened MapOps
  import opened MapSearch
  import opened Results

  predicate WithinEnd(h: Heap) {
    h.start + h.alloc <= h.end
  }

  // ----- the exact condition -----

  /**
    The bound test looks at the used size but the new block starts at the allocated size: this
    request needs a block, the test lets it through, the block does not fit, and it is mapped.
  */
  predicate Overshoots(h: Heap, op: HeapOp) {
    && op.Alloc? && BestFit(h.chunks, op.size, |h.chunks|).None? && h.use + op.size > h.alloc
    && h.start + h.use + PageEnd(op.size) <= h.end < h.start + h.alloc + PageEnd(op.size)
    && AddBlock(h, PageEnd(op.size)).Ok?
  }

  /** No call of the run does, in the state it is made in. */
  predicate NoneOvershoots(h: Heap, ops: seq<HeapOp>)
    decreases |ops|
  {
    ops == [] || (!Overshoots(h, ops[0]) && NoneOvershoots(HeapStep(h, ops[0]), ops[1..]))
  }

  lemma StepBounds(h: Heap, op: HeapOp)
    ensures var h' := HeapStep(h, op);
            && h'.start == h.start && h'.end == h.end && h'.alloc >= h.alloc
            && (WithinEnd(h) ==> (WithinEnd(h') <==> !Overshoots(h, op)))
  {
  }

  lemma {:induction false} RunBounds(h: Heap, ops: seq<HeapOp>)
    ensures var h' := HeapRun(h, ops); h'.start == h.start && h'.end == h.end && h'.alloc >= h.alloc
    decreases |ops|
  {
    if ops != [] {
      StepBounds(h, ops[0]);
      RunBounds(HeapStep(h, ops[0]), ops[1..]);
    }
  }

  /** A run stays within the end exactly if none of its requests overshoots. */
  lemma {:induction false} WithinEndIff(h: Heap, ops: seq<HeapOp>)
    requires WithinEnd(h)
    ensures WithinEnd(HeapRun(h, ops)) <==> NoneOvershoots(h, ops)
    decreases |ops|
  {
    if ops != [] {
      StepBounds(h, ops[0]);
      if Overshoots(h, ops[0]) {
        RunBounds(HeapStep(h, ops[0]), ops[1..]);
      } else {
        WithinEndIff(HeapStep(h, ops[0]), ops[1..]);
      }
    }
  }

  // ----- requests that never overshoot, and how far the others go -----

  /** No request of the run is larger. */
  predicate Requests(ops: seq<HeapOp>, most: nat) {
    forall i :: 0 <= i < |ops| && ops[i].Alloc? ==> ops[i].size <= most
  }

  predicate WholePages(ops: seq<HeapOp>) {
    forall i :: 0 <= i < |ops| && ops[i].Alloc? ==> ops[i].size % PAGE_SIZE == 0
  }

  lemma StepPacked(h: Heap, op: HeapOp)
    requires h.use == h.alloc && (op.Alloc? ==> op.size % PAGE_SIZE == 0)
    ensures HeapStep(h, op).use == HeapStep(h, op).alloc && !Overshoots(h, op)
  {
    if op.Alloc? {
      assert PageEnd(op.size) == op.size;
    }
  }

  /** With requests of whole pages all that is mapped is used, and none overshoots. */
  lemma {:induction false} PageRequestsStayWithin(h: Heap, ops: seq<HeapOp>)
    requires h.use == h.alloc && WholePages(ops)
    ensures HeapRun(h, ops).use == HeapRun(h, ops).alloc && NoneOvershoots(h, ops)
    decreases |ops|
  {
    if ops != [] {
      StepPacked(h, ops[0]);
      PageRequestsStayWithin(HeapStep(h, ops[0]), ops[1..]);
    }
  }

  lemma StepOverrun(h: Heap, op: HeapOp, most: nat)
    requires h.start + h.alloc < h.end + most && (op.Alloc? ==> op.size <= most)
    ensures var h' := HeapStep(h, op); h'.start + h'.alloc < h'.end + most
  {
  }

  /** In every run the heap passes its end by less than the largest request. */
  lemma {:induction false} OverrunBelowRequest(h: Heap, ops: seq<HeapOp>, most: nat)
    requires h.start + h.alloc < h.end + most && Requests(ops, most)
    ensures var h' := HeapRun(h, ops); h'.start + h'.alloc < h'.end + most
    decreases |ops|
  {
    if ops != [] {
      StepOverrun(h, ops[0], most);
      OverrunBelowRequest(HeapStep(h, ops[0]), ops[1..], most);
    }
  }

  /**
    In every run from a new heap that does not start behind its end, the heap is mapped to less than the
    largest request past the end; and never past it when every request is a whole number of pages.
  */
  lemma MappedBelowEnd(h: Heap, ops: seq<HeapOp>, most: nat)
    requires NewHeap(h) && h.start <= h.end && most > 0 && Requests(ops, most)
    ensures var h' := HeapRun(h, ops);
            && h'.start + h'.alloc < h'.end + most
            && (WholePages(ops) ==> h'.use == h'.alloc && WithinEnd(h'))
  {
    OverrunBelowRequest(h, ops, most);
    if WholePages(ops) {
      PageRequestsStayWithin(h, ops);
      WithinEndIff(h, ops);
    }
  }

  // ----- which sizes and rooms let a run pass a page-aligned end -----

  predicate PageBounds(h: Heap) {
    h.start % PAGE_SIZE == 0 && h.end % PAGE_SIZE == 0
  }

  /** More is used than before the last block was mapped, and more than that block less a page. */
  predicate LastBlockUsed(h: Heap) {
    h.blocks != [] ==>
      var last := h.blocks[|h.blocks| - 1].1; h.use > h.alloc - last && h.use > last - PAGE_SIZE
  }

  lemma StepKeepsLastBlock(h: Heap, op: HeapOp)
    requires HeapInv(h) && LastBlockUsed(h)
    ensures HeapInv(HeapStep(h, op)) && LastBlockUsed(HeapStep(h, op))
  {
    match op
    case Alloc(size) => AllocKeepsInv(h, size);
    case Free(addr) => FreeKeepsInv(h, addr);
  }

  lemma LastBlockMultiple(h: Heap)
    requires HeapInv(h)
    ensures h.blocks == [] ==> h.alloc == 0
    ensures h.blocks != [] ==> h.blocks[|h.blocks| - 1].1 % PAGE_SIZE == 0
  {
    if h.blocks != [] {
      assert h.blocks[|h.blocks| - 1].0 == BlockEdge(h.blocks, h.start, |h.blocks| - 1);
    }
  }

  /** The arithmetic of it: block sizes and bounds are whole pages. */
  lemma NoRoomToOvershoot(use: int, alloc: int, last: int, room: int, size: nat)
    requires alloc % PAGE_SIZE == 0 && last % PAGE_SIZE == 0 && room % PAGE_SIZE == 0 && 0 <= use <= alloc
    requires (alloc == 0 && last == 0) || (use > alloc - last && use > last - PAGE_SIZE)
    requires size <= PAGE_SIZE || room < 4 * PAGE_SIZE
    requires use + size > alloc && use + PageEnd(size) <= room
    ensures alloc + PageEnd(size) <= room
  {
  }

  /** With requests of at most a page, or room for less than four pages, none overshoots. */
  lemma SmallNeverOvershoots(h: Heap, op: HeapOp)
    requires HeapInv(h) && LastBlockUsed(h) && PageBounds(h)
    requires op.Alloc? ==> op.size <= PAGE_SIZE || h.end - h.start < 4 * PAGE_SIZE
    ensures !Overshoots(h, op)
  {
    LastBlockMultiple(h);
    if op.Alloc? && h.use + op.size > h.alloc && h.start + h.use + PageEnd(op.size) <= h.end {
      var last := if h.blocks == [] then 0 else h.blocks[|h.blocks| - 1].1;
      NoRoomToOvershoot(h.use, h.alloc, last, h.end - h.start, op.size);
    }
  }

  lemma {:induction false} SmallRunStaysWithin(h: Heap, ops: seq<HeapOp>, most: nat)
    requires HeapInv(h) && LastBlockUsed(h) && PageBounds(h) && Requests(ops, most)
    requires most <= PAGE_SIZE || h.end - h.start < 4 * PAGE_SIZE
    ensures NoneOvershoots(h, ops)
    decreases |ops|
  {
    if ops != [] {
      SmallNeverOvershoots(h, ops[0]);
      StepKeepsLastBlock(h, ops[0]);
      StepBounds(h, ops[0]);
      SmallRunStaysWithin(HeapStep(h, ops[0]), ops[1..], most);
    }
  }

  // ----- a run that passes the end -----

  /** No chunk is free, and the memory behind the blocks is up to limit. */
  ghost predicate Ready(h: Heap, limit: int) {
    && HeapInv(h) && Exact(h.mem)
    && 0 <= h.start && h.start % PAGE_SIZE == 0 && limit <= Engine.ADDRESS_LIMIT
    && (forall i :: 0 <= i < |h.chunks| ==> h.chunks[i].inuse)
    && (forall a :: h.start + h.alloc <= a < limit ==> !MapInfo.Mapped(h.mem.info, a))
  }

  lemma FreshPagesMap(mem: State, at: int, size: int)
    requires Inv(mem) && Exact(mem) && size > 0 && size % PAGE_SIZE == 0
    requires 0 <= at && at % PAGE_SIZE == 0 && at + size <= Engine.ADDRESS_LIMIT
    requires forall a :: at <= a < at + size ==> !MapInfo.Mapped(mem.info, a)
    ensures var (mem', err) := MapStep(mem, at, size, Engine.PROT_ALL, Some("[heap]"));
            && err.None? && Exact(mem')
            && forall a :: MapInfo.Mapped(mem'.info, a) ==> at <= a < at + size || MapInfo.Mapped(mem.info, a)
  {
    assert mem.uc.NoneMapped(at, size);
    assert mem.uc.PageRange(at, size);
    MapMeaning(mem, at, size, Engine.PROT_ALL, Some("[heap]"));
    MapKeepsExact(mem, at, size, Engine.PROT_ALL, Some("[heap]"));
  }

  /** Fresh pages at page-aligned addresses the engine has not mapped are always granted. */
  lemma GrowGranted(h: Heap, size: nat, limit: int)
    requires Ready(h, limit) && h.use + size > h.alloc
    requires h.start + h.alloc + PageEnd(size) <= limit && h.start + h.use + PageEnd(size) <= h.end
    ensures Grow(h, size).Ok? && Grow(h, size).value.Some?
    ensures var g := Grow(h, size).value.value;
            && Exact(g.mem) && g.alloc == h.alloc + PageEnd(size)
            && forall a :: MapInfo.Mapped(g.mem.info, a) ==>
                 h.start + h.alloc <= a < h.start + g.alloc || MapInfo.Mapped(h.mem.info, a)
  {
    var at, realSize := h.start + h.alloc, PageEnd(size);
    FreshPagesMap(h.mem, at, realSize);
    var r := MapStep(h.mem, at, realSize, Engine.PROT_ALL, Some("[heap]"));
    BlockAdded(h, realSize, r.0, r.1);
  }

  /** An allocation that maps one more block. */
  lemma GrowthStep(h: Heap, size: nat, limit: int) returns (h': Heap)
    requires Ready(h, limit) && h.use + size > h.alloc
    requires h.start + h.alloc + PageEnd(size) <= limit && h.start + h.use + PageEnd(size) <= h.end
    ensures h' == HeapStep(h, Alloc(size)) && Ready(h', limit)
    ensures h'.start == h.start && h'.end == h.end
    ensures h'.use == h.use + size && h'.alloc == h.alloc + PageEnd(size)
  {
    BestFitIsSmallest(h.chunks, size, |h.chunks|);
    GrowGranted(h, size, limit);
    GrowKeepsInv(h, size);
    AppendKeepsInv(Grow(h, size).value.value, size);
    h' := HeapStep(h, Alloc(size));
  }

  /** One that fits the blocks. */
  lemma AppendStep(h: Heap, size: nat, limit: int) returns (h': Heap)
    requires Ready(h, limit) && h.use + size <= h.alloc
    ensures h' == HeapStep(h, Alloc(size)) && Ready(h', limit)
    ensures h'.start == h.start && h'.end == h.end && h'.use == h.use + size && h'.alloc == h.alloc
  {
    BestFitIsSmallest(h.chunks, size, |h.chunks|);
    AppendKeepsInv(h, size);
    h' := HeapStep(h, Alloc(size));
  }

  lemma {:induction false} RunConcat(h: Heap, xs: seq<HeapOp>, ys: seq<HeapOp>)
    ensures HeapRun(h, xs + ys) == HeapRun(HeapRun(h, xs), ys)
    decreases |xs|
  {
    if xs == [] {
      assert xs + ys == ys;
    } else {
      assert (xs + ys)[1..] == xs[1..] + ys;
      RunConcat(HeapStep(h, xs[0]), xs[1..], ys);
    }
  }

  /** Allocating page by page up to size bytes. */
  lemma {:induction false} FillPages(h: Heap, size: nat, limit: int) returns (ops: seq<HeapOp>, h': Heap)
    requires Ready(h, limit) && h.use == h.alloc && size % PAGE_SIZE == 0
    requires h.start + h.alloc + size <= limit && h.start + h.alloc + size <= h.end
    ensures Requests(ops, PAGE_SIZE) && h' == HeapRun(h, ops) && Ready(h', limit)
    ensures h'.start == h.start && h'.end == h.end && h'.use == h'.alloc == h.alloc + size
    decreases size
  {
    if size == 0 {
      ops, h' := [], h;
    } else {
      assert PageEnd(PAGE_SIZE) == PAGE_SIZE;
      var h1 := GrowthStep(h, PAGE_SIZE, limit);
      var rest;
      rest, h' := FillPages(h1, size - PAGE_SIZE, limit);
      ops := [Alloc(PAGE_SIZE)] + rest;
      assert ops[1..] == rest;
    }
  }

  lemma RunFirst(h: Heap, op: HeapOp, ops: seq<HeapOp>)
    ensures HeapRun(h, [op] + ops) == HeapRun(HeapStep(h, op), ops)
  {
    assert ([op] + ops)[1..] == ops;
  }

  lemma FourSteps(h: Heap, a: HeapOp, b: HeapOp, c: HeapOp, d: HeapOp)
    ensures HeapRun(h, [a] + ([b] + ([c] + ([d] + [])))) == HeapStep(HeapStep(HeapStep(HeapStep(h, a), b), c), d)
  {
    RunFirst(h, a, [b] + ([c] + ([d] + [])));
    RunFirst(HeapStep(h, a), b, [c] + ([d] + []));
    RunFirst(HeapStep(HeapStep(h, a), b), c, [d] + []);
    RunFirst(HeapStep(HeapStep(HeapStep(h, a), b), c), d, []);
  }

  /** In the last four pages three requests leave two pages used and three mapped, and the fourth passes the end. */
  lemma PassFromFourPages(h: Heap, limit: int, a: nat, b: nat, c: nat) returns (h': Heap)
    requires Ready(h, limit) && h.use == h.alloc && h.end == h.start + h.alloc + 4 * PAGE_SIZE
    requires h.end + PAGE_SIZE <= limit && a == 1 && b == PAGE_SIZE + 1 && c == PAGE_SIZE - 2
    ensures h' == HeapStep(HeapStep(HeapStep(HeapStep(h, Alloc(a)), Alloc(b)), Alloc(c)), Alloc(b))
    ensures !WithinEnd(h')
  {
    assert PageEnd(a) == PAGE_SIZE && PageEnd(b) == 2 * PAGE_SIZE;
    h' := GrowthStep(h, a, limit);
    h' := GrowthStep(h', b, limit);
    h' := AppendStep(h', c, limit);
    h' := GrowthStep(h', b, limit);
  }

  lemma SomeRunPasses(h: Heap) returns (ops: seq<HeapOp>)
    requires NewHeap(h) && PageBounds(h) && Ready(h, h.end + PAGE_SIZE)
    requires h.end - h.start >= 4 * PAGE_SIZE
    ensures Requests(ops, PAGE_SIZE + 1) && !WithinEnd(HeapRun(h, ops))
  {
    var limit := h.end + PAGE_SIZE;
    var fill, h1 := FillPages(h, h.end - h.start - 4 * PAGE_SIZE, limit);
    var a, b, c := 1, PAGE_SIZE + 1, PAGE_SIZE - 2;
    var h2 := PassFromFourPages(h1, limit, a, b, c);
    ops := FillThenPass(h, h1, fill, a, b, c, h2);
  }

  lemma FillThenPass(h: Heap, h1: Heap, fill: seq<HeapOp>, a: nat, b: nat, c: nat, h2: Heap)
    returns (ops: seq<HeapOp>)
    requires h1 == HeapRun(h, fill) && Requests(fill, b) && a <= b && c <= b
    requires h2 == HeapStep(HeapStep(HeapStep(HeapStep(h1, Alloc(a)), Alloc(b)), Alloc(c)), Alloc(b))
    ensures Requests(ops, b) && HeapRun(h, ops) == h2
  {
    var pass := [Alloc(a)] + ([Alloc(b)] + ([Alloc(c)] + ([Alloc(b)] + [])));
    FourSteps(h1, Alloc(a), Alloc(b), Alloc(c), Alloc(b));
    RunConcat(h, fill, pass);
    ops := fill + pass;
  }

  /** Some run of requests of at most most bytes passes the end. */
  ghost predicate Passable(h: Heap, most: nat) {
    exists ops :: Requests(ops, most) && !WithinEnd(HeapRun(h, ops))
  }

  /**
    A new heap with page-aligned bounds, over memory that is free up to a page behind its end: requests
    of at most most bytes can pass the end exactly if they can exceed a page and there is room for four.
  */
  lemma PassableIff(h: Heap, most: nat)
    requires NewHeap(h) && Exact(h.mem) && PageBounds(h) && 0 <= h.start <= h.end
    requires h.end + PAGE_SIZE <= Engine.ADDRESS_LIMIT
    requires forall a :: h.start <= a < h.end + PAGE_SIZE ==> !MapInfo.Mapped(h.mem.info, a)
    ensures Passable(h, most) <==> most > PAGE_SIZE && h.end - h.start >= 4 * PAGE_SIZE
  {
    NewHeapInv(h);
    if most > PAGE_SIZE && h.end - h.start >= 4 * PAGE_SIZE {
      var ops := SomeRunPasses(h);
      assert Requests(ops, most);
    } else {
      forall ops | Requests(ops, most) ensures WithinEnd(HeapRun(h, ops)) {
        SmallRunStaysWithin(h, ops, most);
        WithinEndIff(h, ops);
      }
    }
  }

  /** With room for four pages, allocating 1, 0x1001 and 0x2000 bytes maps five. */
  lemma EndCanBePassed(h: Heap)
    requires NewHeap(h) && Exact(h.mem) && h.start == 0x10000 && h.end == 0x14000
    requires forall a :: 0x10000 <= a < 0x15000 ==> !MapInfo.Mapped(h.mem.info, a)
    ensures var h' := HeapStep(HeapStep(HeapStep(h, Alloc(1)), Alloc(0x1001)), Alloc(0x2000));
            h'.start + h'.alloc == 0x15000 && h'.start + h'.alloc > h'.end
  {
    NewHeapInv(h);
    ThreeGrowths(h, 1, 0x1001, 0x2000);
  }

  lemma ThreeGrowths(h: Heap, a: nat, b: nat, c: nat)
    requires Ready(h, 0x15000) && h.use == h.alloc == 0 && h.start == 0x10000 && h.end == 0x14000
    requires a == 1 && b == 0x1001 && c == 0x2000
    ensures var h' := HeapStep(HeapStep(HeapStep(h, Alloc(a)), Alloc(b)), Alloc(c));
            h'.alloc == 0x5000 && h'.start == 0x10000 && h'.end == 0x14000
  {
    var h1 := GrowthStep(h, a, 0x15000);
    var h2 := GrowthStep(h1, b, 0x15000);
    var h3 := GrowthStep(h2, c, 0x15000);
  }
}
