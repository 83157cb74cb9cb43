/** Intel HEX files: records at extended addresses, merged into segments before they are written. */
module Ihex {
  import opened Bytes

  /** A decoded line: its record type, 16-bit address and data bytes. */
  datatype Record = Record(kind: string, offset: nat, data: seq<byte>)

  /** Bytes and where they go. */
  datatype Chunk = Chunk(addr: int, data: seq<byte>) {
    function End(): int {
      addr + |data|
    }
  }

  // ----- lines -----

  /** Base address after the first n records; a number of any length, most significant byte first, sets it. */
  function BaseAfter(records: seq<Record>, n: nat): int
    requires n <= |records|
  {
    if n == 0 then 0
    else
      var r := records[n - 1];
      if r.kind == "02" then Unpack(r.data, true) * 0x10
      else if r.kind == "04" then Unpack(r.data, true) * 0x10000
      else BaseAfter(records, n - 1)
  }

  /** The data records among the first n, at their extended addresses. */
  function ChunksOf(records: seq<Record>, n: nat): seq<Chunk>
    requires n <= |records|
  {
    if n == 0 then []
    else
      var r := records[n - 1];
      if r.kind == "00" then ChunksOf(records, n - 1) + [Chunk(BaseAfter(records, n - 1) + r.offset, r.data)]
      else ChunksOf(records, n - 1)
  }

  // ----- merging -----

  /** Finished segments, and the one that is growing. */
  datatype Merge = Merge(segments: seq<Chunk>, growing: Chunk)

  function Merged(chunks: seq<Chunk>, n: nat): Merge
    requires n <= |chunks|
  {
    if n == 0 then Merge([], Chunk(0, []))
    else
      var m, c := Merged(chunks, n - 1), chunks[n - 1];
      if c.addr != m.growing.End() then Merge(m.segments + [m.growing], c)
      else m.(growing := Chunk(m.growing.addr, m.growing.data + c.data))
  }

  function Segments(chunks: seq<Chunk>): seq<Chunk> {
    var m := Merged(chunks, |chunks|);
    m.segments + [m.growing]
  }

  // ----- writing -----

  /** Memory after the first n chunks are written in order. */
  function Written(m: Mem, chunks: seq<Chunk>, n: nat): Mem
    requires n <= |chunks|
  {
    if n == 0 then m else Store(Written(m, chunks, n - 1), chunks[n - 1].addr, chunks[n - 1].data)
  }

  /** The byte an address holds after the first n chunks: the last chunk that has it wins. */
  function ByteAfter(m: Mem, chunks: seq<Chunk>, n: nat, a: int): byte
    requires n <= |chunks|
  {
    if n == 0 then m(a)
    else
      var c := chunks[n - 1];
      if c.addr <= a < c.End() then c.data[a - c.addr] else ByteAfter(m, chunks, n - 1, a)
  }

  lemma {:induction false} WrittenByte(m: Mem, chunks: seq<Chunk>, n: nat, a: int)
    requires n <= |chunks|
    ensures Written(m, chunks, n)(a) == ByteAfter(m, chunks, n, a)
  {
    if n > 0 {
      WrittenByte(m, chunks, n - 1, a);
    }
  }

  lemma {:induction false} ByteAfterPrefix(m: Mem, chunks: seq<Chunk>, more: seq<Chunk>, n: nat, a: int)
    requires n <= |chunks|
    ensures ByteAfter(m, chunks + more, n, a) == ByteAfter(m, chunks, n, a)
  {
    if n > 0 {
      ByteAfterPrefix(m, chunks, more, n - 1, a);
    }
  }

  lemma ByteAfterLast(m: Mem, chunks: seq<Chunk>, c: Chunk, a: int)
    ensures ByteAfter(m, chunks + [c], |chunks| + 1, a) ==
            if c.addr <= a < c.End() then c.data[a - c.addr] else ByteAfter(m, chunks, |chunks|, a)
  {
    ByteAfterPrefix(m, chunks, [c], |chunks|, a);
  }

  lemma {:induction false} MergedByte(m: Mem, chunks: seq<Chunk>, n: nat, a: int)
    requires n <= |chunks|
    ensures var g := Merged(chunks, n);
            ByteAfter(m, g.segments + [g.growing], |g.segments| + 1, a) == ByteAfter(m, chunks, n, a)
  {
    var g := Merged(chunks, n);
    ByteAfterLast(m, g.segments, g.growing, a);
    if n > 0 {
      var g' := Merged(chunks, n - 1);
      MergedByte(m, chunks, n - 1, a);
      ByteAfterLast(m, g'.segments, g'.growing, a);
    }
  }

  /**
    Merging changes nothing: writing the segments in order gives the same memory as writing
    every data record in order, however the records overlap or jump back.
  */
  lemma MergingPreservesMemory(m: Mem, chunks: seq<Chunk>, a: int)
    ensures Written(m, Segments(chunks), |Segments(chunks)|)(a) == Written(m, chunks, |chunks|)(a)
  {
    MergedByte(m, chunks, |chunks|, a);
    WrittenByte(m, Segments(chunks), |Segments(chunks)|, a);
    WrittenByte(m, chunks, |chunks|, a);
  }

  // ----- what merging does -----

  /** All data in order. */
  function AllData(chunks: seq<Chunk>, n: nat): seq<byte>
    requires n <= |chunks|
  {
    if n == 0 then [] else AllData(chunks, n - 1) + chunks[n - 1].data
  }

  lemma {:induction false} AllDataPrefix(chunks: seq<Chunk>, more: seq<Chunk>, n: nat)
    requires n <= |chunks|
    ensures AllData(chunks + more, n) == AllData(chunks, n)
  {
    if n > 0 {
      AllDataPrefix(chunks, more, n - 1);
    }
  }

  lemma AllDataLast(chunks: seq<Chunk>, c: Chunk)
    ensures AllData(chunks + [c], |chunks| + 1) == AllData(chunks, |chunks|) + c.data
  {
    AllDataPrefix(chunks, [c], |chunks|);
  }

  lemma {:induction false} MergedData(chunks: seq<Chunk>, n: nat)
    requires n <= |chunks|
    ensures var g := Merged(chunks, n); AllData(g.segments, |g.segments|) + g.growing.data == AllData(chunks, n)
  {
    if n > 0 {
      var g, g', c := Merged(chunks, n), Merged(chunks, n - 1), chunks[n - 1];
      MergedData(chunks, n - 1);
      AllDataLast(g'.segments, g'.growing);
      var done := AllData(g'.segments, |g'.segments|);
      assert done + (g'.growing.data + c.data) == (done + g'.growing.data) + c.data;
    }
  }

  /** No segment continues the one before it. */
  ghost predicate Apart(segments: seq<Chunk>) {
    forall i :: 0 < i < |segments| ==> segments[i].addr != segments[i - 1].End()
  }

  lemma {:induction false} MergedApart(chunks: seq<Chunk>, n: nat)
    requires n <= |chunks|
    ensures var g := Merged(chunks, n); Apart(g.segments + [Chunk(g.growing.addr, [])])
  {
    if n > 0 {
      var g, g' := Merged(chunks, n), Merged(chunks, n - 1);
      MergedApart(chunks, n - 1);
      var before, after := g'.segments + [Chunk(g'.growing.addr, [])], g.segments + [Chunk(g.growing.addr, [])];
      forall i | 0 < i < |after| ensures after[i].addr != after[i - 1].End() {
        if i < |before| {
          assert before[i].addr != before[i - 1].End();
        }
      }
    }
  }

  /** Segments keep all data in order, and are as long as they can be. */
  lemma SegmentsMaximal(chunks: seq<Chunk>)
    ensures AllData(Segments(chunks), |Segments(chunks)|) == AllData(chunks, |chunks|)
    ensures Apart(Segments(chunks))
  {
    MergedData(chunks, |chunks|);
    MergedApart(chunks, |chunks|);
    AllDataLast(Merged(chunks, |chunks|).segments, Merged(chunks, |chunks|).growing);
    var g := Merged(chunks, |chunks|);
    var s, t := Segments(chunks), g.segments + [Chunk(g.growing.addr, [])];
    forall i | 0 < i < |s| ensures s[i].addr != s[i - 1].End() {
      assert s[i].addr == t[i].addr && s[i - 1] == t[i - 1];
    }
  }

  // ----- the parser and the loader -----

  class IhexParser {
    var mem: seq<Chunk>
    var segments: seq<Chunk>
    var base: int

    constructor (records: seq<Record>)
      ensures mem == ChunksOf(records, |records|) && segments == Segments(mem)
    {
      mem, segments, base := [], [], 0;
      new;
      for i := 0 to |records|
        modifies this
        invariant mem == ChunksOf(records, i) && base == BaseAfter(records, i) && segments == []
      {
        ParseLine(records[i]);
      }
      var begin, stream := 0, [];
      for i := 0 to |mem|
        modifies this`segments
        invariant mem == ChunksOf(records, |records|)
        invariant Merged(mem, i) == Merge(segments, Chunk(begin, stream))
      {
        var c := mem[i];
        if c.addr != begin + |stream| {
          segments := segments + [Chunk(begin, stream)];
          begin, stream := c.addr, c.data;
        } else {
          stream := stream + c.data;
        }
      }
      segments := segments + [Chunk(begin, stream)];
    }

    method ParseLine(r: Record)
      modifies this`mem, this`base
      ensures mem == old(mem) + if r.kind == "00" then [Chunk(old(base) + r.offset, r.data)] else []
      ensures base == if r.kind == "02" then Unpack(r.data, true) * 0x10
                      else if r.kind == "04" then Unpack(r.data, true) * 0x10000
                      else old(base)
    {
      if r.kind == "00" {
        mem := mem + [Chunk(base + r.offset, r.data)];
      } else if r.kind == "02" {
        base := Unpack(r.data, true) * 0x10;
      } else if r.kind == "04" {
        base := Unpack(r.data, true) * 0x10000;
      }
    }
  }

  /** Loading a file leaves memory as if each data record were written when it is read. */
  method Reset(m: Mem, ihex: IhexParser) returns (m': Mem)
    ensures m' == Written(m, ihex.segments, |ihex.segments|)
  {
    m' := m;
    for i := 0 to |ihex.segments|
      invariant m' == Written(m, ihex.segments, i)
    {
      m' := Store(m', ihex.segments[i].addr, ihex.segments[i].data);
    }
  }
}
