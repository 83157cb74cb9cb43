/** The heap object: chunk objects whose in-use flag it toggles, over a memory manager it maps blocks in. */
module MemoryHeap {
  import Engine
  import HeapClear
  import opened HeapOps
  import MapSearch
  import MemoryManager
  import opened Results

  class Chunk {
    var inuse: bool
    const address: int
    const size: nat

    constructor (address: int, size: nat)
      ensures inuse && this.address == address && this.size == size
    {
      this.inuse := true;
      this.address := address;
      this.size := size;
    }

    function Look(): ChunkView
      reads this
    {
      ChunkView(address, size, inuse)
    }
  }

  function Views(chunks: seq<Chunk>): (vs: seq<ChunkView>)
    reads chunks
    ensures |vs| == |chunks|
    ensures forall i :: 0 <= i < |chunks| ==> vs[i] == chunks[i].Look()
  {
    seq(|chunks|, i requires 0 <= i < |chunks| reads chunks => chunks[i].Look())
  }

  class QlMemoryHeap {
    const mem: MemoryManager.QlMemoryManager
    const startAddress: int
    const endAddress: int
    var chunks: seq<Chunk>
    var currentAlloc: int
    var currentUse: int
    var memAlloc: seq<(int, int)>

    ghost function Abs(): Heap
      reads this, mem, chunks
    {
      HeapOps.Heap(startAddress, endAddress, Views(chunks), currentUse, currentAlloc, memAlloc, mem.Abs())
    }

    ghost predicate Valid()
      reads this, mem, chunks
    {
      && mem.Valid()
      && HeapInv(Abs())
      && forall i, j :: 0 <= i < j < |chunks| ==> chunks[i] != chunks[j]
    }

    constructor (mem: MemoryManager.QlMemoryManager, startAddress: int, endAddress: int)
      requires mem.Valid()
      ensures Valid() && this.mem == mem && NewHeap(Abs())
      ensures this.startAddress == startAddress && this.endAddress == endAddress
    {
      this.mem := mem;
      this.startAddress := startAddress;
      this.endAddress := endAddress;
      chunks, currentAlloc, currentUse, memAlloc := [], 0, 0, [];
      new;
      NewHeapInv(Abs());
    }

    /** The smallest free chunk with enough room, the first one of that size. */
    method SmallestFree(size: nat) returns (k: Option<nat>)
      ensures k == BestFit(Views(chunks), size, |chunks|)
    {
      k := None;
      for i := 0 to |chunks|
        invariant k == BestFit(Views(chunks), size, i)
      {
        if !chunks[i].inuse && chunks[i].size >= size && (k.None? || chunks[i].size < chunks[k.value].size) {
          k := Some(i);
        }
      }
    }

    method FindUsed(addr: int) returns (k: Option<nat>)
      ensures k == FindInUse(Views(chunks), addr, |chunks|)
    {
      k := None;
      for i := 0 to |chunks|
        invariant k == FindInUse(Views(chunks), addr, i)
      {
        if k.None? && addr == chunks[i].address && chunks[i].inuse {
          k := Some(i);
        }
      }
    }

    /** Sets one chunk's flag; every other chunk is a different object. */
    method Mark(k: nat, inuse: bool)
      requires Valid() && k < |chunks|
      modifies chunks[k]
      ensures Views(chunks) == old(Views(chunks))[k := old(Views(chunks))[k].(inuse := inuse)]
    {
      chunks[k].inuse := inuse;
    }

    method MapBlock(realSize: int) returns (err: Option<Error>)
      requires Valid() && realSize % MapSearch.PAGE_SIZE == 0
      modifies this, mem
      ensures Valid() && chunks == old(chunks)
      ensures match AddBlock(old(Abs()), realSize)
              case Err(e) => err == Some(e) && Abs() == old(Abs())
              case Ok(g) => err == None && Abs() == g
    {
      ghost var h := Abs();
      err := mem.Map(startAddress + currentAlloc, realSize, Engine.PROT_ALL, Some("[heap]"));
      assert Views(chunks) == h.chunks;
      BlockAdded(h, realSize, mem.Abs(), err);
      if err.None? {
        memAlloc := memAlloc + [(startAddress + currentAlloc, realSize)];
        currentAlloc := currentAlloc + realSize;
      }
    }

    /** Maps one more block when the new chunk would exceed the allocated part; false if that passes the end. */
    method GrowFor(size: nat) returns (r: Result<bool>)
      requires Valid()
      modifies this, mem
      ensures Valid() && chunks == old(chunks)
      ensures match Grow(old(Abs()), size)
              case Err(e) => r == Err(e) && Abs() == old(Abs())
              case Ok(None) => r == Ok(false) && Abs() == old(Abs())
              case Ok(Some(g)) => r == Ok(true) && Abs() == g
    {
      if currentUse + size <= currentAlloc {
        return Ok(true);
      }
      var realSize := MemoryManager.PageAlignUp(size);
      if startAddress + currentUse + realSize > endAddress {
        return Ok(false);
      }
      var err := MapBlock(realSize);
      r := if err.Some? then Err(err.value) else Ok(true);
    }

    method AppendChunk(size: nat) returns (chunk: Chunk)
      requires Valid() && currentUse + size <= currentAlloc
      modifies this
      ensures Valid() && chunk.address == old(startAddress + currentUse)
      ensures Abs() == Append(old(Abs()), size)
      ensures chunks == old(chunks) + [chunk] && fresh(chunk)
    {
      AppendKeepsInv(Abs(), size);
      chunk := new Chunk(startAddress + currentUse, size);
      currentUse := currentUse + size;
      chunks := chunks + [chunk];
      assert Views(chunks) == old(Views(chunks)) + [chunk.Look()];
    }

    method Alloc(size: nat) returns (r: Result<int>)
      requires Valid()
      modifies this, mem, chunks
      ensures Valid()
      ensures (Abs(), r) == AllocStep(old(Abs()), size)
    {
      ghost var h := Abs();
      var k := SmallestFree(size);
      if k.Some? {
        AllocKeepsInv(h, size);
        Mark(k.value, true);
        return Ok(chunks[k.value].address);
      }
      var grown := GrowFor(size);
      match grown
      case Err(e) => return Err(e);
      case Ok(room) =>
        if !room {
          return Ok(0);
        }
        GrowKeepsInv(h, size);
        var chunk := AppendChunk(size);
        return Ok(chunk.address);
    }

    method Size(addr: int) returns (n: nat)
      requires Valid()
      ensures n == SizeAt(Abs(), addr)
    {
      var k := FindUsed(addr);
      n := if k.Some? then chunks[k.value].size else 0;
    }

    method FreeChunks()
      requires forall i, j :: 0 <= i < j < |chunks| ==> chunks[i] != chunks[j]
      modifies chunks
      ensures Views(chunks) == HeapClear.AllFree(old(Views(chunks)))
    {
      for i := 0 to |chunks|
        invariant forall k :: 0 <= k < |chunks| ==> chunks[k].inuse == (i <= k && old(chunks[k].inuse))
      {
        chunks[i].inuse := false;
      }
    }

    method UnmapAll() returns (err: Option<Error>)
      requires mem.Valid() && HeapClear.SizesNatural(memAlloc)
      modifies mem
      ensures mem.Valid() && (mem.Abs(), err) == HeapClear.UnmapBlocks(old(mem.Abs()), memAlloc, 0)
    {
      for i := 0 to |memAlloc|
        invariant mem.Valid()
        invariant HeapClear.UnmapBlocks(mem.Abs(), memAlloc, i) == HeapClear.UnmapBlocks(old(mem.Abs()), memAlloc, 0)
      {
        err := mem.Unmap(memAlloc[i].0, memAlloc[i].1);
        if err.Some? {
          return;
        }
      }
      return None;
    }

    /** Frees every chunk and unmaps every block, which never fails; the chunks stay listed. */
    method Clear() returns (err: Option<Error>)
      requires Valid()
      modifies this, mem, chunks
      ensures mem.Valid() && chunks == old(chunks)
      ensures err.None? && HeapClear.SizesNatural(old(memAlloc)) && Abs() == HeapClear.ClearStep(old(Abs())).0
    {
      ghost var h := Abs();
      HeapClear.ClearMeaning(h);
      FreeChunks();
      err := UnmapAll();
      if err.Some? {
        return;
      }
      memAlloc, currentAlloc, currentUse := [], 0, 0;
    }

    method Free(addr: int) returns (ok: bool)
      requires Valid()
      modifies chunks
      ensures Valid()
      ensures (Abs(), ok) == FreeStep(old(Abs()), addr)
    {
      FreeKeepsInv(Abs(), addr);
      var k := FindUsed(addr);
      if k.None? {
        return false;
      }
      Mark(k.value, false);
      return true;
    }
  }
}
