/**
  What each operation of the memory manager does to the pair it keeps in step, the
  memory map list and the engine, stated with `Cut` and `Insort` alone; and what
  every operation, and every run of operations, keeps.
*/
module MapOps {
  import Bits
  import Bytes
  import opened Engine
  import opened MapInfo
  import opened MapSearch
  import opened Results

  /** Identities of an mmio range's read and write callbacks, either of which may be absent. */
  datatype Callbacks = Callbacks(read: Option<int>, write: Option<int>)

  datatype State = State(info: seq<Entry>, cbs: map<(int, int), Callbacks>, uc: Engine)

  /** A state and the exception that ended the call, if any. */
  type Outcome = (State, Option<Error>)

  predicate Available(st: State, addr: int, size: int) {
    forall a | addr <= a < addr + size :: !Mapped(st.info, a)
  }

  predicate AllListed(m: seq<Entry>, lo: int, hi: int) {
    forall a | lo <= a < hi :: Mapped(m, a)
  }

  function MapStep(st: State, addr: int, size: int, perms: int, info: Option<string>): Outcome {
    if !(0 <= perms <= PROT_ALL) || size <= 0 then (st, Some(AssertionError))
    else if !Available(st, addr, size) then (st, Some(MappedError))
    else match st.uc.MemMap(addr, size, perms)
      case Err(e) => (st, Some(e))
      case Ok(uc) =>
        (State(Insort(st.info, Entry(addr, addr + size, perms, LabelOr(info, "[mapped]"), false)), st.cbs, uc), None)
  }

  function MmioPerms(cb: Callbacks): (r: int)
    ensures 0 <= r < 4 && (r % 2 == 1 <==> cb.read.Some?) && (r >= 2 <==> cb.write.Some?)
  {
    (if cb.read.Some? then 1 else 0) + (if cb.write.Some? then 2 else 0)
  }

  /** The engine is given a wrapper for either access whatever callbacks there are, so it allows both. */
  function MapMmioStep(st: State, addr: int, size: int, cb: Callbacks, info: string): Outcome {
    match st.uc.MemMap(addr, size, PROT_READ_WRITE)
    case Err(e) => (st, Some(e))
    case Ok(uc) =>
      (State(Insort(st.info, Entry(addr, addr + size, MmioPerms(cb), info, true)),
             st.cbs[(addr, addr + size) := cb], uc), None)
  }

  /** The list is cut before the engine is asked, and stays cut if the engine refuses. */
  function UnmapStep(st: State, addr: int, size: nat): Outcome {
    if NoOverlap(st.info, addr, addr + size) then (st, Some(IndexError))
    else
      var cut := st.(info := Cut(st.info, addr, addr + size));
      match st.uc.MemUnmap(addr, size)
      case Err(e) => (cut, Some(e))
      case Ok(uc) => (State(cut.info, st.cbs - {(addr, addr + size)}, uc), None)
  }

  predicate NonEmpty(m: seq<Entry>) {
    forall i :: 0 <= i < |m| ==> m[i].lo < m[i].hi
  }

  /** Start and size of what an entry has in common with s..e. */
  function Clip(x: Entry, s: int, e: int): (int, nat)
    requires x.lo < x.hi && s <= e && x.Overlaps(s, e)
  {
    (Bits.Max(s, x.lo), Bits.Min(e, x.hi) - Bits.Max(s, x.lo))
  }

  /** From the k-th entry on: one unmap for each overlapping entry, of the part it has in common with s..e. */
  function UnmapEach(st: State, entries: seq<Entry>, k: nat, s: int, e: int): Outcome
    requires NonEmpty(entries) && k <= |entries| && s <= e
    decreases |entries| - k
  {
    if k == |entries| then (st, None)
    else if !entries[k].Overlaps(s, e) then UnmapEach(st, entries, k + 1, s, e)
    else
      var (l, n) := Clip(entries[k], s, e);
      var (st', err) := UnmapStep(st, l, n);
      if err.Some? then (st', err) else UnmapEach(st', entries, k + 1, s, e)
  }

  function UnmapBetweenStep(st: State, s: int, e: int): Outcome
    requires WellFormed(st.info) && s <= e
  {
    UnmapEach(st, st.info, 0, s, e)
  }

  /** Index of the first entry that encloses s..e. */
  function Enclosing(m: seq<Entry>, s: int, e: int): (k: Option<nat>)
    ensures k.Some? ==> k.value < |m| && m[k.value].lo <= s && e <= m[k.value].hi
  {
    if m == [] then None
    else if m[0].lo <= s && e <= m[0].hi then Some(0)
    else var k := Enclosing(m[1..], s, e); if k.None? then None else Some(k.value + 1)
  }

  /** A label that is missing or empty leaves the default in place. */
  function LabelOr(info: Option<string>, default: string): string {
    if info.Some? && info.value != "" then info.value else default
  }

  /** New permissions for a range; ranges no single entry encloses are left alone. */
  function ChangePerms(m: seq<Entry>, s: int, e: int, perms: int, info: Option<string>): (seq<Entry>, Option<Error>) {
    var k := Enclosing(m, s, e);
    if k.None? then (m, None)
    else if NoOverlap(m, s, e) then (m, Some(IndexError))
    else (Insort(Cut(m, s, e), Entry(s, e, perms, LabelOr(info, m[k.value].info), false)), None)
  }

  /** First address of the page of addr. */
  function PageOf(addr: int): (r: int)
    ensures r <= addr < r + PAGE_SIZE && r % PAGE_SIZE == 0
  {
    addr - addr % PAGE_SIZE
  }

  function PageEnd(addr: int): (r: int)
    ensures addr <= r < addr + PAGE_SIZE && r % PAGE_SIZE == 0
  {
    PageOf(addr + PAGE_SIZE - 1)
  }

  /** Number of bytes protect rounds its range to, counted from the page of addr. */
  function ProtectSize(addr: int, size: nat): (n: nat)
    ensures PageOf(addr) + n == PageEnd(addr + size)
  {
    PageEnd(addr % PAGE_SIZE + size)
  }

  /** Engine first, then the list. */
  function ProtectRange(st: State, s: int, n: nat, perms: int): Outcome {
    match st.uc.MemProtect(s, n, perms)
    case Err(err) => (st, Some(err))
    case Ok(uc) =>
      var (info, err) := ChangePerms(st.info, s, s + n, perms, None);
      (State(info, st.cbs, uc), err)
  }

  /** Permission bits the engine does not know are dropped and the range is rounded to pages. */
  function ProtectStep(st: State, addr: int, size: nat, perms: int): Outcome {
    ProtectRange(st, PageOf(addr), ProtectSize(addr, size), perms % 8)
  }

  function RelabelStep(st: State, s: int, e: int, info: string): Outcome {
    var k := Enclosing(st.info, s, e);
    if k.None? then (st, None)
    else (st.(info := st.info[k.value := st.info[k.value].(info := info)]), None)
  }

  function WriteStep(st: State, addr: int, data: seq<Bytes.byte>): Outcome {
    match st.uc.MemWrite(addr, data)
    case Err(e) => (st, Some(e))
    case Ok(uc) => (st.(uc := uc), None)
  }

  // ----- the invariant of every run -----

  /** The list is well formed and lists nothing the engine does not map. */
  ghost predicate Inv(st: State) {
    && WellFormed(st.info)
    && (forall a :: Mapped(st.info, a) ==> st.uc.Maps(a))
    && (forall a :: st.uc.Maps(a) ==> 0 <= a < ADDRESS_LIMIT)
  }

  /** The list and the engine name the same addresses. */
  ghost predicate Exact(st: State) {
    forall a :: Mapped(st.info, a) <==> st.uc.Maps(a)
  }

  /** ... with the same permissions. */
  ghost predicate PermsAgree(st: State) {
    forall a :: Mapped(st.info, a) && st.uc.Maps(a) ==> View(st.info, a).value.perms == st.uc.prot(a).value
  }

  // ----- map -----

  /** A new range: its addresses get the new attributes and no other address is affected. */
  lemma NewRangeMeaning(st: State, x: Entry, prot: int, uc: Engine)
    requires Inv(st) && x.lo < x.hi && 0 <= x.lo && x.hi <= ADDRESS_LIMIT
    requires st.uc.NoneMapped(x.lo, x.hi - x.lo)
    requires forall a :: uc.prot(a) == if x.Contains(a) then Some(prot) else st.uc.prot(a)
    ensures var info := Insort(st.info, x);
            && Inv(State(info, st.cbs, uc))
            && forall a :: View(info, a) == if x.Contains(a) then Some(x.Attributes()) else View(st.info, a)
  {
    forall a | x.Contains(a) ensures !Mapped(st.info, a) {
      assert !st.uc.Maps(a);
    }
    InsortFree(st.info, x);
    forall a ensures uc.Maps(a) <==> x.Contains(a) || st.uc.Maps(a) {
      assert uc.prot(a) == if x.Contains(a) then Some(prot) else st.uc.prot(a);
    }
  }

  /** A successful map adds exactly the named range; a failing one changes nothing. */
  lemma MapMeaning(st: State, addr: int, size: int, perms: int, info: Option<string>)
    requires Inv(st)
    ensures var (st', err) := MapStep(st, addr, size, perms, info);
            && Inv(st')
            && (err.Some? ==> st' == st)
            && (err.None? ==>
                forall a :: View(st'.info, a) ==
                  if !(addr <= a < addr + size) then View(st.info, a)
                  else if info == None || info == Some("") then Some(Attr(perms, "[mapped]", false))
                  else Some(Attr(perms, info.value, false)))
  {
    var (st', err) := MapStep(st, addr, size, perms, info);
    if err.None? {
      NewRangeMeaning(st, Entry(addr, addr + size, perms, LabelOr(info, "[mapped]"), false), perms, st'.uc);
    }
  }

  /** A successful map keeps list and engine in agreement and touches no byte outside the new range. */
  lemma MapKeepsExact(st: State, addr: int, size: int, perms: int, info: Option<string>)
    requires Inv(st) && Exact(st) && MapStep(st, addr, size, perms, info).1.None?
    ensures var st' := MapStep(st, addr, size, perms, info).0;
            && Inv(st') && Exact(st')
            && (forall a :: st'.uc.Maps(a) <==> st.uc.Maps(a) || addr <= a < addr + size)
            && (forall a :: !(addr <= a < addr + size) ==> st'.uc.data(a) == st.uc.data(a))
  {
    var st' := MapStep(st, addr, size, perms, info).0;
    MapMeaning(st, addr, size, perms, info);
    forall a ensures st'.uc.Maps(a) <==> st.uc.Maps(a) || addr <= a < addr + size {
      assert st'.uc.prot(a) == if addr <= a < addr + size then Some(perms) else st.uc.prot(a);
    }
  }

  lemma MapMmioMeaning(st: State, addr: int, size: int, cb: Callbacks, info: string)
    requires Inv(st)
    ensures var (st', err) := MapMmioStep(st, addr, size, cb, info);
            && Inv(st')
            && (err.Some? ==> st' == st)
            && (err.None? ==>
                forall a :: View(st'.info, a) ==
                  if addr <= a < addr + size then Some(Attr(MmioPerms(cb), info, true)) else View(st.info, a))
  {
    var (st', err) := MapMmioStep(st, addr, size, cb, info);
    if err.None? {
      NewRangeMeaning(st, Entry(addr, addr + size, MmioPerms(cb), info, true), PROT_READ_WRITE, st'.uc);
    }
  }

  /** The engine allows both accesses, the list those with a callback: they agree exactly if neither is missing. */
  lemma MapMmioKeepsPermsIff(st: State, addr: int, size: int, cb: Callbacks, info: string)
    requires Inv(st) && PermsAgree(st) && MapMmioStep(st, addr, size, cb, info).1.None?
    ensures PermsAgree(MapMmioStep(st, addr, size, cb, info).0) <==> cb.read.Some? && cb.write.Some?
  {
    var st' := MapMmioStep(st, addr, size, cb, info).0;
    MapMmioMeaning(st, addr, size, cb, info);
    if cb.read.Some? && cb.write.Some? {
      MapMmioKeepsPerms(st, addr, size, cb, info);
    } else {
      assert st'.uc.prot(addr) == Some(PROT_READ_WRITE) && View(st'.info, addr).Some?;
      assert Mapped(st'.info, addr) && st'.uc.Maps(addr);
    }
  }

  // ----- unmap -----

  /** Whatever the engine answers, the list loses exactly the named range and stays well formed. */
  lemma UnmapMeaning(st: State, addr: int, size: nat)
    requires Inv(st)
    ensures var (st', err) := UnmapStep(st, addr, size);
            && Inv(st')
            && (forall a :: View(st'.info, a) == if addr <= a < addr + size then None else View(st.info, a))
            && (forall a :: st'.uc.Maps(a) <==> st.uc.Maps(a) && (err.None? ==> !(addr <= a < addr + size)))
  {
    var (st', err) := UnmapStep(st, addr, size);
    var s, e := addr, addr + size;
    forall a ensures View(Cut(st.info, s, e), a) == if s <= a < e then None else View(st.info, a) {
      ViewCut(st.info, s, e, a);
    }
    CutWellFormed(st.info, s, e);
    if err == Some(IndexError) {
      CutUntouched(st.info, s, e);
    } else {
      forall a ensures st'.uc.Maps(a) <==> st.uc.Maps(a) && (err.None? ==> !(addr <= a < addr + size)) {
        assert err.None? ==> st'.uc.prot(a) == if addr <= a < addr + size then None else st.uc.prot(a);
      }
    }
  }

  /**
    unmap leaves list and engine in agreement exactly when the engine accepts the
    range or the list has no entry overlapping it: otherwise the list has lost
    addresses the engine still maps.
  */
  lemma UnmapKeepsExactIff(st: State, addr: int, size: nat)
    requires Inv(st) && Exact(st)
    ensures Exact(UnmapStep(st, addr, size).0) <==>
            || size == 0
            || (st.uc.PageRange(addr, size) && st.uc.AllMapped(addr, size))
            || st.uc.NoneMapped(addr, size)
  {
    var (st', err) := UnmapStep(st, addr, size);
    UnmapMeaning(st, addr, size);
    if NoOverlap(st.info, addr, addr + size) {
      forall a | addr <= a < addr + size ensures !Mapped(st.info, a) {
        MappedIffContained(st.info, a);
        assert forall i :: 0 <= i < |st.info| && st.info[i].Contains(a) ==> st.info[i].Overlaps(addr, addr + size);
      }
    } else if err.Some? {
      if a :| addr <= a < addr + size && st.uc.Maps(a) {
        assert !Mapped(st'.info, a) && st'.uc.Maps(a);
      }
    }
    forall a ensures Mapped(st'.info, a) <==> st.uc.Maps(a) && !(addr <= a < addr + size) {
      assert View(st'.info, a) == if addr <= a < addr + size then None else View(st.info, a);
    }
  }

  /** A list with the one entry x, and an engine that maps just its addresses. */
  function OneRange(x: Entry, data: Bytes.Mem): State {
    State([x], map[], Engine((a: int) => if x.Contains(a) then Some(x.perms) else None, data))
  }

  lemma OneRangeIsExact(x: Entry, data: Bytes.Mem)
    requires 0 <= x.lo < x.hi <= ADDRESS_LIMIT
    ensures var st := OneRange(x, data); Inv(st) && Exact(st) && PermsAgree(st)
  {
    var st := OneRange(x, data);
    forall a ensures View(st.info, a) == if x.Contains(a) then Some(x.Attributes()) else None {
      assert st.info[1..] == [];
    }
  }

  /** Unmapping half a page takes it off the list, is refused by the engine, and leaves it mapped there. */
  lemma UnmapCanLoseExact(data: Bytes.Mem)
    ensures var st := OneRange(Entry(0x1000, 0x2000, 7, "a", false), data);
            var (st', err) := UnmapStep(st, 0x1000, 0x800);
            Inv(st) && Exact(st) && err == Some(EngineError) && !Exact(st')
  {
    var x := Entry(0x1000, 0x2000, 7, "a", false);
    var st := OneRange(x, data);
    OneRangeIsExact(x, data);
    assert st.info[0].Overlaps(0x1000, 0x1800);
    assert st.uc.Maps(0x1000);
    UnmapKeepsExactIff(st, 0x1000, 0x800);
  }

  // ----- unmap_between -----

  lemma CutMiddle(a: seq<Entry>, x: Entry, b: seq<Entry>, s: int, e: int)
    requires NoOverlap(a, s, e) && NoOverlap(b, s, e)
    ensures Cut(a + [x] + b, s, e) == a + Pieces(x, s, e) + b
  {
    CutUntouched(a, s, e);
    CutUntouched(b, s, e);
    CutConcat(a + [x], b, s, e);
    CutConcat(a, [x], s, e);
    assert [x][1..] == [] && Cut([], s, e) == [];
    assert Cut([x], s, e) == Pieces(x, s, e);
  }

  /** A range clipped to one entry cuts that entry only. */
  lemma CutOneEntry(a: seq<Entry>, x: Entry, b: seq<Entry>, s: int, e: int)
    requires WellFormed(a + [x] + b) && x.lo < x.hi && s <= e && x.Overlaps(s, e)
    ensures var (l, n) := Clip(x, s, e);
            Cut(a + [x] + b, l, l + n) == a + Pieces(x, s, e) + b && x.Overlaps(l, l + n)
  {
    var m := a + [x] + b;
    var (l, n) := Clip(x, s, e);
    assert m[|a|] == x;
    forall i | 0 <= i < |a| ensures !a[i].Overlaps(l, l + n) {
      assert a[i] == m[i] && m[i].hi <= m[|a|].lo;
    }
    forall i | 0 <= i < |b| ensures !b[i].Overlaps(l, l + n) {
      assert b[i] == m[|a| + 1 + i] && m[|a|].hi <= m[|a| + 1 + i].lo;
    }
    CutMiddle(a, x, b, l, l + n);
  }

  lemma SplitFirst(a: seq<Entry>, b: seq<Entry>)
    requires b != []
    ensures a + b == a + [b[0]] + b[1..]
  {
  }

  lemma CutFirst(a: seq<Entry>, b: seq<Entry>, s: int, e: int)
    requires b != []
    ensures a + Cut(b, s, e) == (a + Pieces(b[0], s, e)) + Cut(b[1..], s, e)
  {
  }

  /** One round of the loop: the overlap is not empty, and only the engine can refuse. */
  lemma RoundMeaning(st: State, a: seq<Entry>, x: Entry, b: seq<Entry>, s: int, e: int)
    requires Inv(st) && st.info == a + [x] + b && x.lo < x.hi && s <= e && x.Overlaps(s, e)
    ensures var (l, n) := Clip(x, s, e);
            var (st', err) := UnmapStep(st, l, n);
            && Inv(st')
            && (err.None? || err == Some(EngineError))
            && st'.info == a + Pieces(x, s, e) + b
  {
    var (l, n) := Clip(x, s, e);
    CutOneEntry(a, x, b, s, e);
    assert st.info[|a|].Overlaps(l, l + n);
    UnmapMeaning(st, l, n);
  }

  /** The loop's effect, with a standing for the entries behind it. */
  lemma {:induction false} UnmapEachCuts(st: State, a: seq<Entry>, m: seq<Entry>, k: nat, s: int, e: int)
    requires k <= |m| && NonEmpty(m) && s <= e
    requires Inv(st) && st.info == a + m[k..]
    ensures var (st', err) := UnmapEach(st, m, k, s, e);
            && (err.None? || err == Some(EngineError))
            && (err.None? ==> st'.info == a + Cut(m[k..], s, e))
    decreases |m| - k
  {
    if k < |m| {
      var b := m[k..];
      SplitFirst(a, b);
      CutFirst(a, b, s, e);
      var x, rest := b[0], b[1..];
      if x.Overlaps(s, e) {
        RoundMeaning(st, a, x, rest, s, e);
        var (st', err) := UnmapStep(st, Clip(x, s, e).0, Clip(x, s, e).1);
        if err.None? {
          UnmapEachCuts(st', a + Pieces(x, s, e), m, k + 1, s, e);
        }
      } else {
        UnmapEachCuts(st, a + [x], m, k + 1, s, e);
      }
    }
  }

  lemma {:induction false} UnmapEachFrame(st: State, m: seq<Entry>, k: nat, s: int, e: int)
    requires Inv(st) && k <= |m| && NonEmpty(m) && s <= e
    ensures Inv(UnmapEach(st, m, k, s, e).0)
    ensures forall a :: !(s <= a < e) ==> View(UnmapEach(st, m, k, s, e).0.info, a) == View(st.info, a)
    decreases |m| - k
  {
    if k < |m| {
      if m[k].Overlaps(s, e) {
        var (l, n) := Clip(m[k], s, e);
        var (st', err) := UnmapStep(st, l, n);
        UnmapMeaning(st, l, n);
        if err.None? {
          UnmapEachFrame(st', m, k + 1, s, e);
        }
      } else {
        UnmapEachFrame(st, m, k + 1, s, e);
      }
    }
  }

  /**
    unmap_between removes exactly the named addresses, however many entries it spans
    or splits, and no round of its loop fails with an empty overlap.
  */
  lemma UnmapBetweenMeaning(st: State, s: int, e: int)
    requires Inv(st) && s <= e
    ensures var (st', err) := UnmapBetweenStep(st, s, e);
            && Inv(st')
            && (err.None? || err == Some(EngineError))
            && (err.None? ==> st'.info == Cut(st.info, s, e))
            && (err.None? ==> forall a :: s <= a < e ==> !Mapped(st'.info, a))
            && (forall a :: !(s <= a < e) ==> View(st'.info, a) == View(st.info, a))
  {
    assert [] + st.info[0..] == st.info == st.info[0..];
    UnmapEachCuts(st, [], st.info, 0, s, e);
    UnmapEachFrame(st, st.info, 0, s, e);
    forall a | s <= a < e ensures !Mapped([] + Cut(st.info, s, e), a) {
      ViewConcat([], Cut(st.info, s, e), a);
      ViewCut(st.info, s, e, a);
    }
  }

  predicate PageAligned(m: seq<Entry>) {
    forall i :: 0 <= i < |m| ==> m[i].lo % PAGE_SIZE == 0 && m[i].hi % PAGE_SIZE == 0
  }

  /** A page-aligned part of a listed entry is a range the engine accepts. */
  lemma EntryIsEngineRange(st: State, k: nat, l: int, n: nat)
    requires Inv(st) && k < |st.info| && st.info[k].lo <= l && l + n <= st.info[k].hi
    requires l % PAGE_SIZE == 0 && (l + n) % PAGE_SIZE == 0
    ensures st.uc.MemUnmap(l, n).Ok?
  {
    forall a | l <= a < l + n ensures st.uc.Maps(a) {
      ViewAt(st.info, k, a);
      assert Mapped(st.info, a);
    }
    if n > 0 {
      assert st.uc.Maps(l) && st.uc.Maps(l + n - 1);
    }
  }

  lemma RoundSucceeds(st: State, a: seq<Entry>, x: Entry, b: seq<Entry>, s: int, e: int)
    requires Inv(st) && Exact(st) && st.info == a + [x] + b && x.lo < x.hi && s <= e && x.Overlaps(s, e)
    requires PageAligned([x]) && s % PAGE_SIZE == 0 && e % PAGE_SIZE == 0
    ensures var (l, n) := Clip(x, s, e);
            var (st', err) := UnmapStep(st, l, n);
            err.None? && Inv(st') && Exact(st') && st'.info == a + Pieces(x, s, e) + b
  {
    var (l, n) := Clip(x, s, e);
    CutOneEntry(a, x, b, s, e);
    assert x == [x][0] && x == st.info[|a|];
    EntryIsEngineRange(st, |a|, l, n);
    UnmapMeaning(st, l, n);
    UnmapKeepsExactIff(st, l, n);
  }

  lemma {:induction false} UnmapEachSucceeds(st: State, a: seq<Entry>, m: seq<Entry>, k: nat, s: int, e: int)
    requires k <= |m| && NonEmpty(m) && s <= e
    requires Inv(st) && Exact(st) && st.info == a + m[k..]
    requires PageAligned(m) && s % PAGE_SIZE == 0 && e % PAGE_SIZE == 0
    ensures var (st', err) := UnmapEach(st, m, k, s, e); err.None? && Exact(st')
    decreases |m| - k
  {
    if k < |m| {
      SplitFirst(a, m[k..]);
      var x, rest := m[k], m[k..][1..];
      if x.Overlaps(s, e) {
        RoundSucceeds(st, a, x, rest, s, e);
        var (st', err) := UnmapStep(st, Clip(x, s, e).0, Clip(x, s, e).1);
        UnmapEachSucceeds(st', a + Pieces(x, s, e), m, k + 1, s, e);
      } else {
        UnmapEachSucceeds(st, a + [x], m, k + 1, s, e);
      }
    }
  }

  /** On page boundaries, with list and engine in agreement, unmap_between succeeds and keeps the agreement. */
  lemma UnmapBetweenSucceeds(st: State, s: int, e: int)
    requires Inv(st) && Exact(st) && s <= e
    requires PageAligned(st.info) && s % PAGE_SIZE == 0 && e % PAGE_SIZE == 0
    ensures var (st', err) := UnmapBetweenStep(st, s, e); err.None? && Exact(st')
  {
    assert st.info == [] + st.info[0..];
    UnmapEachSucceeds(st, [], st.info, 0, s, e);
  }

  // ----- protect -----

  lemma {:induction false} EnclosingFound(m: seq<Entry>, s: int, e: int, k: nat)
    requires k < |m| && m[k].lo <= s && e <= m[k].hi
    ensures Enclosing(m, s, e).Some?
  {
    if k > 0 {
      EnclosingFound(m[1..], s, e, k - 1);
    }
  }

  /** Replacing a part of one entry: the part gets the new attributes, the rest is unaffected. */
  lemma ChangePermsMeaning(m: seq<Entry>, s: int, e: int, perms: int, info: Option<string>)
    requires WellFormed(m) && s < e
    ensures var (m', err) := ChangePerms(m, s, e, perms, info);
            var k := Enclosing(m, s, e);
            && err.None? && WellFormed(m')
            && (k.None? ==> m' == m)
            && (k.Some? ==>
                forall a :: View(m', a) ==
                  if s <= a < e then Some(Attr(perms, LabelOr(info, m[k.value].info), false)) else View(m, a))
  {
    var k := Enclosing(m, s, e);
    if k.Some? {
      assert m[k.value].Overlaps(s, e);
      var x := Entry(s, e, perms, LabelOr(info, m[k.value].info), false);
      CutWellFormed(m, s, e);
      forall a ensures View(Cut(m, s, e), a) == if s <= a < e then None else View(m, a) {
        ViewCut(m, s, e, a);
      }
      InsortFree(Cut(m, s, e), x);
    }
  }

  lemma ProtectEngine(uc: Engine, addr: int, n: nat, perms: int)
    requires uc.MemProtect(addr, n, perms).Ok?
    ensures forall a :: uc.MemProtect(addr, n, perms).value.Maps(a) <==> uc.Maps(a)
  {
    var uc' := uc.MemProtect(addr, n, perms).value;
    forall a ensures uc'.Maps(a) <==> uc.Maps(a) {
      assert uc'.prot(a) == if addr <= a < addr + n then Some(perms) else uc.prot(a);
    }
  }

  lemma ProtectRangeMeaning(st: State, s: int, n: nat, perms: int)
    requires Inv(st) && n > 0
    ensures var (st', err) := ProtectRange(st, s, n, perms);
            var k := Enclosing(st.info, s, s + n);
            && Inv(st')
            && (err.Some? ==> st' == st)
            && (err.None? ==>
                forall a :: st'.uc.prot(a) == if s <= a < s + n then Some(perms) else st.uc.prot(a))
            && (err.None? && k.None? ==> st'.info == st.info)
            && (err.None? && k.Some? ==>
                forall a :: View(st'.info, a) ==
                  if s <= a < s + n then Some(Attr(perms, st.info[k.value].info, false)) else View(st.info, a))
  {
    ChangePermsMeaning(st.info, s, s + n, perms, None);
    if st.uc.MemProtect(s, n, perms).Ok? {
      ProtectEngine(st.uc, s, n, perms);
    }
  }

  /**
    protect over at least one byte.  The engine changes the whole page-rounded range;
    the list follows when one entry encloses that range and is left as it was otherwise.
  */
  lemma ProtectMeaning(st: State, addr: int, size: nat, perms: int)
    requires Inv(st) && PageOf(addr) < PageEnd(addr + size)
    ensures var (st', err) := ProtectStep(st, addr, size, perms);
            var s, e := PageOf(addr), PageEnd(addr + size);
            var k := Enclosing(st.info, s, e);
            && Inv(st')
            && (err.Some? ==> st' == st)
            && (err.None? ==>
                forall a :: st'.uc.prot(a) == if s <= a < e then Some(perms % 8) else st.uc.prot(a))
            && (err.None? && k.None? ==> st'.info == st.info)
            && (err.None? && k.Some? ==>
                forall a :: View(st'.info, a) ==
                  if s <= a < e then Some(Attr(perms % 8, st.info[k.value].info, false)) else View(st.info, a))
  {
    ProtectRangeMeaning(st, PageOf(addr), ProtectSize(addr, size), perms % 8);
  }

  /** For a non-empty range those are the addresses whose page holds one of its bytes. */
  lemma ProtectedPages(addr: int, size: nat, a: int)
    requires size > 0
    ensures PageOf(addr) <= a < PageEnd(addr + size) <==>
            exists b {:trigger PageOf(b)} :: addr <= b < addr + size && PageOf(b) == PageOf(a)
  {
    if PageOf(addr) <= a < PageEnd(addr + size) {
      var b := if a < addr then addr else if a < addr + size then a else addr + size - 1;
      assert addr <= b < addr + size && PageOf(b) == PageOf(a);
    }
  }

  /**
    After a successful protect the list still tells the engine's permissions exactly
    when one entry encloses the rounded range, or nothing had to change.
  */
  lemma ProtectKeepsPermsIff(st: State, s: int, n: nat, perms: int)
    requires Inv(st) && Exact(st) && PermsAgree(st) && n > 0
    requires ProtectRange(st, s, n, perms).1.None?
    ensures PermsAgree(ProtectRange(st, s, n, perms).0) <==>
              || Enclosing(st.info, s, s + n).Some?
              || forall a | s <= a < s + n :: st.uc.prot(a) == Some(perms)
  {
    var (st', err) := ProtectRange(st, s, n, perms);
    ProtectRangeMeaning(st, s, n, perms);
    if Enclosing(st.info, s, s + n).None? {
      if a :| s <= a < s + n && st.uc.prot(a) != Some(perms) {
        assert st.uc.Maps(a) && Mapped(st.info, a);
        assert st'.uc.prot(a) == Some(perms);
        assert Mapped(st'.info, a) && st'.uc.Maps(a);
      }
    }
  }

  /** An empty range strictly inside an entry makes protect list an empty entry; nothing else does. */
  lemma ProtectKeepsWellFormedIff(st: State, addr: int, size: nat, perms: int)
    requires Inv(st)
    ensures WellFormed(ProtectStep(st, addr, size, perms).0.info) <==>
              PageOf(addr) < PageEnd(addr + size) || NoOverlap(st.info, addr, addr)
  {
    if PageOf(addr) < PageEnd(addr + size) {
      ProtectMeaning(st, addr, size, perms);
    } else {
      assert PageOf(addr) == addr;
      if !NoOverlap(st.info, addr, addr) {
        var i :| 0 <= i < |st.info| && st.info[i].Overlaps(addr, addr);
        EnclosingFound(st.info, addr, addr, i);
        var k := Enclosing(st.info, addr, addr).value;
        var cut, x := Cut(st.info, addr, addr), Entry(addr, addr, perms % 8, st.info[k].info, false);
        var m := ProtectStep(st, addr, size, perms).0.info;
        assert m == Insort(cut, x);
        assert m[InsortPoint(cut, x)] == x;
      }
    }
  }

  /** Two adjacent entries, protected in one call: the engine changes both, the list neither. */
  lemma ProtectCanLosePerms(data: Bytes.Mem)
    ensures var st := TwoRanges(data);
            var (st', err) := ProtectStep(st, 0x1000, 0x2000, 1);
            Inv(st) && Exact(st) && PermsAgree(st) && err.None? && !PermsAgree(st')
  {
    var st := TwoRanges(data);
    TwoRangesView(data);
    assert forall a :: 0x1000 <= a < 0x3000 ==> st.uc.Maps(a);
    assert st.uc.prot(0x1000) == Some(7);
    assert Enclosing(st.info, 0x1000, 0x3000).None?;
    ProtectKeepsPermsIff(st, 0x1000, 0x2000, 1);
  }

  function TwoRanges(data: Bytes.Mem): State {
    State([Entry(0x1000, 0x2000, 7, "a", false), Entry(0x2000, 0x3000, 7, "b", false)], map[],
          Engine((a: int) => if 0x1000 <= a < 0x3000 then Some(7) else None, data))
  }

  lemma TwoRangesView(data: Bytes.Mem)
    ensures var st := TwoRanges(data);
            && Inv(st) && Exact(st) && PermsAgree(st)
            && Enclosing(st.info, 0x1000, 0x3000).None?
  {
    var st := TwoRanges(data);
    var rest := st.info[1..];
    assert rest == [Entry(0x2000, 0x3000, 7, "b", false)] && rest[1..] == [];
    forall a ensures View(st.info, a) == if 0x1000 <= a < 0x2000 then Some(st.info[0].Attributes())
                                         else if 0x2000 <= a < 0x3000 then Some(rest[0].Attributes()) else None {
      assert View(rest, a) == if rest[0].Contains(a) then Some(rest[0].Attributes()) else View(rest[1..], a);
    }
    assert Enclosing(rest[1..], 0x1000, 0x3000).None?;
  }

  /** Protecting no byte inside an entry leaves an empty entry in the list. */
  lemma ProtectCanLoseWellFormed(data: Bytes.Mem)
    ensures var st := OneRange(Entry(0x1000, 0x3000, 7, "a", false), data);
            Inv(st) && !WellFormed(ProtectStep(st, 0x2000, 0, 1).0.info)
  {
    var x := Entry(0x1000, 0x3000, 7, "a", false);
    OneRangeIsExact(x, data);
    var st := OneRange(x, data);
    assert st.info[0].Overlaps(0x2000, 0x2000);
    ProtectKeepsWellFormedIff(st, 0x2000, 0, 1);
  }

  // ----- outcomes -----

  /** The three ways map fails, and what else it changes when it does not. */
  lemma MapOutcome(st: State, addr: int, size: int, perms: int, info: Option<string>)
    ensures var (st', err) := MapStep(st, addr, size, perms, info);
            var valid, free := 0 <= perms <= 7 && size > 0, forall a :: addr <= a < addr + size ==> !Mapped(st.info, a);
            && (!valid ==> err == Some(AssertionError))
            && (valid && !free ==> err == Some(MappedError))
            && (valid && free && !(st.uc.PageRange(addr, size) && st.uc.NoneMapped(addr, size)) ==>
                err == Some(EngineError))
            && (valid && free && st.uc.PageRange(addr, size) && st.uc.NoneMapped(addr, size) ==>
                && err == None && st'.cbs == st.cbs
                && (forall a :: st'.uc.prot(a) == if addr <= a < addr + size then Some(perms) else st.uc.prot(a))
                && (forall a :: st'.uc.data(a) == if addr <= a < addr + size then 0 else st.uc.data(a)))
  {
  }

  lemma MapMmioOutcome(st: State, addr: int, size: int, cb: Callbacks, info: string)
    ensures var (st', err) := MapMmioStep(st, addr, size, cb, info);
            if size > 0 && st.uc.PageRange(addr, size) && st.uc.NoneMapped(addr, size) then
              && err == None && st'.cbs == st.cbs[(addr, addr + size) := cb]
              && (forall a :: st'.uc.prot(a) == if addr <= a < addr + size then Some(3) else st.uc.prot(a))
              && (forall a :: !(addr <= a < addr + size) ==> st'.uc.data(a) == st.uc.data(a))
            else st' == st && err == Some(EngineError)
  {
  }

  /** The two ways unmap fails; the callbacks of just this range are forgotten when it does not. */
  lemma UnmapOutcome(st: State, addr: int, size: nat)
    ensures var (st', err) := UnmapStep(st, addr, size);
            var overlap := exists i :: 0 <= i < |st.info| && addr < st.info[i].hi && st.info[i].lo < addr + size;
            var granted := size == 0 || (st.uc.PageRange(addr, size) && st.uc.AllMapped(addr, size));
            && (!overlap ==> st' == st && err == Some(IndexError))
            && (overlap && !granted ==> err == Some(EngineError) && st'.uc == st.uc && st'.cbs == st.cbs)
            && (overlap && granted ==>
                && err == None && st'.uc.data == st.uc.data
                && forall k :: k in st'.cbs <==> k in st.cbs && k != (addr, addr + size))
            && (forall k :: k in st'.cbs ==> k in st.cbs && st'.cbs[k] == st.cbs[k])
  {
    if i :| 0 <= i < |st.info| && addr < st.info[i].hi && st.info[i].lo < addr + size {
      assert st.info[i].Overlaps(addr, addr + size);
    }
  }

  lemma MapFrame(st: State, addr: int, size: int, perms: int, info: Option<string>)
    requires Inv(st)
    ensures var st' := MapStep(st, addr, size, perms, info).0;
            Inv(st') && forall a :: !(addr <= a < addr + size) ==> View(st'.info, a) == View(st.info, a)
  {
    MapMeaning(st, addr, size, perms, info);
  }

  /** A write needs every byte to be mapped, and changes just those bytes. */
  lemma WriteOutcome(st: State, addr: int, data: seq<Bytes.byte>)
    requires Inv(st)
    ensures var (st', err) := WriteStep(st, addr, data);
            && Inv(st') && st'.info == st.info && st'.cbs == st.cbs && st'.uc.prot == st.uc.prot
            && (err == None || (err == Some(EngineError) && st' == st))
            && (err == None <==> forall a :: addr <= a < addr + |data| ==> st.uc.Maps(a))
            && (err == None ==>
                forall a :: st'.uc.data(a) == if addr <= a < addr + |data| then data[a - addr] else st.uc.data(a))
  {
    var st' := WriteStep(st, addr, data).0;
    assert forall a :: st'.uc.Maps(a) <==> st.uc.Maps(a);
    assert st.uc.AllMapped(addr, |data|) <==> forall a :: addr <= a < addr + |data| ==> st.uc.Maps(a);
  }

  /** protect fails exactly if the engine refuses; bytes and callbacks are never touched. */
  lemma ProtectOutcome(st: State, addr: int, size: nat, perms: int)
    requires Inv(st) && PageOf(addr) < PageEnd(addr + size)
    ensures var (st', err) := ProtectStep(st, addr, size, perms);
            && st'.cbs == st.cbs && st'.uc.data == st.uc.data
            && (err == None || err == Some(EngineError))
            && (err == None <==> forall a :: PageOf(addr) <= a < PageEnd(addr + size) ==> st.uc.Maps(a))
  {
    var s, n := PageOf(addr), ProtectSize(addr, size);
    ChangePermsMeaning(st.info, s, s + n, perms % 8, None);
    if st.uc.AllMapped(s, n) {
      assert st.uc.Maps(s) && st.uc.Maps(s + n - 1);
    }
  }

  // ----- relabel, write -----

  /** Changing one entry's label changes the view of that entry's addresses only. */
  lemma {:induction false} RelabelView(m: seq<Entry>, i: nat, tag: string, a: int)
    requires WellFormed(m) && i < |m|
    ensures View(m[i := m[i].(info := tag)], a) ==
            if m[i].Contains(a) then Some(m[i].Attributes().(info := tag)) else View(m, a)
  {
    if i > 0 {
      var m' := m[i := m[i].(info := tag)];
      assert m'[1..] == m[1..][i - 1 := m[1..][i - 1].(info := tag)];
      assert m[0].hi <= m[i].lo;
      WellFormedSlice(m, 1, |m|);
      RelabelView(m[1..], i - 1, tag, a);
    }
  }

  lemma RelabelWellFormed(m: seq<Entry>, i: nat, tag: string)
    requires WellFormed(m) && i < |m|
    ensures WellFormed(m[i := m[i].(info := tag)])
  {
    var m' := m[i := m[i].(info := tag)];
    assert forall k :: 0 <= k < |m| ==> m'[k].lo == m[k].lo && m'[k].hi == m[k].hi;
  }

  /** A new label goes to the whole enclosing entry, not to the named range alone. */
  lemma RelabelMeaning(st: State, s: int, e: int, info: string)
    requires Inv(st)
    ensures var st' := RelabelStep(st, s, e, info).0;
            var k := Enclosing(st.info, s, e);
            && Inv(st')
            && (k.None? ==> st' == st)
            && (k.Some? ==>
                forall a :: View(st'.info, a) ==
                  if st.info[k.value].Contains(a) then Some(st.info[k.value].Attributes().(info := info))
                  else View(st.info, a))
  {
    var st' := RelabelStep(st, s, e, info).0;
    var k := Enclosing(st.info, s, e);
    if k.Some? {
      forall a ensures View(st'.info, a) ==
          if st.info[k.value].Contains(a) then Some(st.info[k.value].Attributes().(info := info))
          else View(st.info, a)
      {
        RelabelView(st.info, k.value, info, a);
      }
      RelabelWellFormed(st.info, k.value, info);
      forall a | Mapped(st'.info, a) ensures st'.uc.Maps(a) {
        if st.info[k.value].Contains(a) { ViewAt(st.info, k.value, a); }
      }
    }
  }

  // ----- runs -----

  datatype Op =
    | OpMap(addr: int, size: int, perms: int, info: Option<string>)
    | OpMapMmio(addr: int, size: int, cb: Callbacks, tag: string)
    | OpUnmap(addr: int, len: nat)
    | OpUnmapBetween(s: int, e: int)
    | OpProtect(addr: int, len: nat, perms: int)
    | OpRelabel(s: int, e: int, tag: string)
    | OpWrite(addr: int, data: seq<Bytes.byte>)
  {
    /** Ranges are the right way round, and protect covers at least one byte. */
    predicate Sane() {
      && (OpUnmapBetween? ==> s <= e)
      && (OpProtect? ==> PageOf(addr) < PageEnd(addr + len))
    }

    /** The addresses a call is about, in the state it is made in. */
    predicate Names(st: State, a: int) {
      match this
      case OpMap(addr, size, _, _) => addr <= a < addr + size
      case OpMapMmio(addr, size, _, _) => addr <= a < addr + size
      case OpUnmap(addr, len) => addr <= a < addr + len
      case OpUnmapBetween(s, e) => s <= a < e
      case OpProtect(addr, len, _) => PageOf(addr) <= a < PageEnd(addr + len)
      case OpRelabel(s, e, _) =>
        var k := Enclosing(st.info, s, e);
        k.Some? && st.info[k.value].Contains(a)
      case OpWrite(_, _) => false
    }
  }

  function Step(st: State, op: Op): Outcome
    requires WellFormed(st.info) && op.Sane()
  {
    match op
    case OpMap(addr, size, perms, info) => MapStep(st, addr, size, perms, info)
    case OpMapMmio(addr, size, cb, tag) => MapMmioStep(st, addr, size, cb, tag)
    case OpUnmap(addr, len) => UnmapStep(st, addr, len)
    case OpUnmapBetween(s, e) => UnmapBetweenStep(st, s, e)
    case OpProtect(addr, len, perms) => ProtectStep(st, addr, len, perms)
    case OpRelabel(s, e, tag) => RelabelStep(st, s, e, tag)
    case OpWrite(addr, data) => WriteStep(st, addr, data)
  }

  /** Whether it succeeds or raises, every call keeps the invariant and the view of all addresses it does not name. */
  lemma StepKeepsInv(st: State, op: Op)
    requires Inv(st) && op.Sane()
    ensures Inv(Step(st, op).0)
    ensures forall a | !op.Names(st, a) :: View(Step(st, op).0.info, a) == View(st.info, a)
  {
    match op
    case OpMap(addr, size, perms, info) => MapFrame(st, addr, size, perms, info);
    case OpMapMmio(addr, size, cb, tag) => MapMmioMeaning(st, addr, size, cb, tag);
    case OpUnmap(addr, len) => UnmapMeaning(st, addr, len);
    case OpUnmapBetween(s, e) => UnmapBetweenMeaning(st, s, e);
    case OpProtect(addr, len, perms) => ProtectMeaning(st, addr, len, perms);
    case OpRelabel(s, e, tag) => RelabelMeaning(st, s, e, tag);
    case OpWrite(addr, data) => WriteOutcome(st, addr, data);
  }

  /** Nothing listed, nothing mapped. */
  ghost predicate Start(st: State) {
    st.info == [] && forall a :: !st.uc.Maps(a)
  }

  /** st' is reached from st by the calls in ops. */
  ghost predicate Reaches(st: State, ops: seq<Op>, st': State)
    decreases |ops|
  {
    if ops == [] then st' == st
    else WellFormed(st.info) && ops[0].Sane() && Reaches(Step(st, ops[0]).0, ops[1..], st')
  }

  /** In every run the list stays well formed and never lists an address the engine does not map. */
  lemma {:induction false} RunKeepsInv(st: State, ops: seq<Op>, st': State)
    requires Inv(st) && Reaches(st, ops, st')
    ensures Inv(st')
    decreases |ops|
  {
    if ops != [] {
      StepKeepsInv(st, ops[0]);
      RunKeepsInv(Step(st, ops[0]).0, ops[1..], st');
    }
  }

  ghost predicate NeverNamed(st: State, ops: seq<Op>, a: int)
    decreases |ops|
  {
    ops == [] || (WellFormed(st.info) && ops[0].Sane() && !ops[0].Names(st, a) &&
                  NeverNamed(Step(st, ops[0]).0, ops[1..], a))
  }

  /** ... and the attributes of an address no call names are those it had at the start. */
  lemma {:induction false} RunFrame(st: State, ops: seq<Op>, st': State, a: int)
    requires Inv(st) && Reaches(st, ops, st') && NeverNamed(st, ops, a)
    ensures View(st'.info, a) == View(st.info, a)
    decreases |ops|
  {
    if ops != [] {
      StepKeepsInv(st, ops[0]);
      RunFrame(Step(st, ops[0]).0, ops[1..], st', a);
    }
  }

  // ----- runs on page boundaries -----

  predicate RegularEntry(x: Entry) {
    x.lo % PAGE_SIZE == 0 && x.hi % PAGE_SIZE == 0 && 0 <= x.perms <= PROT_ALL
  }

  /** Page-aligned entries with permissions the engine knows. */
  predicate Regular(m: seq<Entry>) {
    forall i :: 0 <= i < |m| ==> RegularEntry(m[i])
  }

  /** List and engine name the same addresses, in entries map would accept again. */
  ghost predicate Tidy(st: State) {
    Inv(st) && Exact(st) && Regular(st.info)
  }

  lemma InsortRegular(m: seq<Entry>, x: Entry)
    requires Regular(m) && RegularEntry(x)
    ensures Regular(Insort(m, x))
  {
  }

  lemma {:induction false} CutRegular(m: seq<Entry>, s: int, e: int)
    requires Regular(m) && s % PAGE_SIZE == 0 && e % PAGE_SIZE == 0
    ensures Regular(Cut(m, s, e))
  {
    if m != [] {
      CutRegular(m[1..], s, e);
      assert RegularEntry(m[0]);
      assert Regular(Pieces(m[0], s, e));
    }
  }

  lemma RelabelRegular(m: seq<Entry>, k: nat, tag: string)
    requires Regular(m) && k < |m|
    ensures Regular(m[k := m[k].(info := tag)])
  {
    assert RegularEntry(m[k]);
  }

  lemma MapKeepsTidy(st: State, addr: int, size: int, perms: int, info: Option<string>)
    requires Tidy(st)
    ensures Tidy(MapStep(st, addr, size, perms, info).0)
  {
    var (st', err) := MapStep(st, addr, size, perms, info);
    if err.None? {
      MapKeepsExact(st, addr, size, perms, info);
      InsortRegular(st.info, Entry(addr, addr + size, perms, LabelOr(info, "[mapped]"), false));
    }
  }

  lemma MapMmioKeepsTidy(st: State, addr: int, size: int, cb: Callbacks, info: string)
    requires Tidy(st)
    ensures Tidy(MapMmioStep(st, addr, size, cb, info).0)
  {
    var (st', err) := MapMmioStep(st, addr, size, cb, info);
    MapMmioMeaning(st, addr, size, cb, info);
    if err.None? {
      MapMmioKeepsExact(st, addr, size, cb, info, st');
      InsortRegular(st.info, Entry(addr, addr + size, MmioPerms(cb), info, true));
    }
  }

  lemma MapMmioKeepsExact(st: State, addr: int, size: int, cb: Callbacks, info: string, st': State)
    requires Inv(st) && Exact(st) && MapMmioStep(st, addr, size, cb, info) == (st', None)
    ensures Exact(st')
  {
    MapMmioMeaning(st, addr, size, cb, info);
    MapMmioOutcome(st, addr, size, cb, info);
    forall a ensures Mapped(st'.info, a) <==> st'.uc.Maps(a) {
      assert Mapped(st.info, a) <==> st.uc.Maps(a);
    }
  }

  lemma UnmapKeepsTidy(st: State, addr: int, size: nat)
    requires Tidy(st) && addr % PAGE_SIZE == 0 && size % PAGE_SIZE == 0
    requires st.uc.AllMapped(addr, size) || st.uc.NoneMapped(addr, size)
    ensures Tidy(UnmapStep(st, addr, size).0)
  {
    UnmapMeaning(st, addr, size);
    if st.uc.AllMapped(addr, size) {
      MappedIsPageRange(st, addr, size);
    }
    UnmapKeepsExactIff(st, addr, size);
    UnmapRegular(st, addr, size);
  }

  lemma MappedIsPageRange(st: State, addr: int, size: nat)
    requires Inv(st) && st.uc.AllMapped(addr, size) && addr % PAGE_SIZE == 0 && size % PAGE_SIZE == 0
    ensures size > 0 ==> st.uc.PageRange(addr, size)
  {
    if size > 0 {
      assert st.uc.Maps(addr) && st.uc.Maps(addr + size - 1);
    }
  }

  lemma UnmapRegular(st: State, addr: int, size: nat)
    requires Regular(st.info) && addr % PAGE_SIZE == 0 && size % PAGE_SIZE == 0
    ensures Regular(UnmapStep(st, addr, size).0.info)
  {
    CutRegular(st.info, addr, addr + size);
  }

  lemma UnmapBetweenKeepsTidy(st: State, s: int, e: int)
    requires Tidy(st) && s <= e && s % PAGE_SIZE == 0 && e % PAGE_SIZE == 0
    ensures var (st', err) := UnmapBetweenStep(st, s, e); Tidy(st') && err.None?
  {
    UnmapBetweenMeaning(st, s, e);
    assert forall i :: 0 <= i < |st.info| ==> RegularEntry(st.info[i]);
    UnmapBetweenSucceeds(st, s, e);
    CutRegular(st.info, s, e);
  }

  lemma ProtectKeepsExact(st: State, s: int, n: nat, perms: int)
    requires Inv(st) && Exact(st) && n > 0
    ensures Exact(ProtectRange(st, s, n, perms).0)
  {
    var (st', err) := ProtectRange(st, s, n, perms);
    ProtectRangeMeaning(st, s, n, perms);
    if err.None? {
      ProtectEngine(st.uc, s, n, perms);
      forall a ensures Mapped(st'.info, a) <==> st.uc.Maps(a) {
        assert s <= a < s + n ==> st.uc.Maps(a);
        assert Mapped(st.info, a) <==> st.uc.Maps(a);
      }
    }
  }

  lemma ChangePermsRegular(m: seq<Entry>, s: int, e: int, perms: int)
    requires Regular(m) && s % PAGE_SIZE == 0 && e % PAGE_SIZE == 0 && 0 <= perms <= PROT_ALL
    ensures Regular(ChangePerms(m, s, e, perms, None).0)
  {
    var k := Enclosing(m, s, e);
    if k.Some? {
      CutRegular(m, s, e);
      InsortRegular(Cut(m, s, e), Entry(s, e, perms, m[k.value].info, false));
    }
  }

  lemma ProtectKeepsTidy(st: State, s: int, n: nat, perms: int)
    requires Tidy(st) && n > 0 && s % PAGE_SIZE == 0 && n % PAGE_SIZE == 0 && 0 <= perms <= PROT_ALL
    ensures Tidy(ProtectRange(st, s, n, perms).0)
  {
    ProtectRangeMeaning(st, s, n, perms);
    ProtectKeepsExact(st, s, n, perms);
    ProtectRegular(st, s, n, perms);
  }

  lemma ProtectRegular(st: State, s: int, n: nat, perms: int)
    requires Regular(st.info) && s % PAGE_SIZE == 0 && n % PAGE_SIZE == 0 && 0 <= perms <= PROT_ALL
    ensures Regular(ProtectRange(st, s, n, perms).0.info)
  {
    ChangePermsRegular(st.info, s, s + n, perms);
  }

  lemma RelabelKeepsTidy(st: State, s: int, e: int, tag: string)
    requires Tidy(st)
    ensures Tidy(RelabelStep(st, s, e, tag).0)
  {
    RelabelMeaning(st, s, e, tag);
    var k := Enclosing(st.info, s, e);
    if k.Some? {
      RelabelRegular(st.info, k.value, tag);
      forall a | st.info[k.value].Contains(a) ensures Mapped(st.info, a) {
        ViewAt(st.info, k.value, a);
      }
    }
  }

  /** Callers on page boundaries: unmap gets whole pages, either all of them mapped or none. */
  ghost predicate Gentle(st: State, op: Op) {
    && op.Sane()
    && (op.OpUnmap? ==>
        && op.addr % PAGE_SIZE == 0 && op.len % PAGE_SIZE == 0
        && (st.uc.AllMapped(op.addr, op.len) || st.uc.NoneMapped(op.addr, op.len)))
    && (op.OpUnmapBetween? ==> op.s % PAGE_SIZE == 0 && op.e % PAGE_SIZE == 0)
  }

  /** ... protect a range inside one entry, and map no mmio range with a callback missing. */
  ghost predicate Precise(st: State, op: Op) {
    && (op.OpProtect? ==>
        Enclosing(st.info, PageOf(op.addr), PageEnd(op.addr + op.len)).Some?)
    && (op.OpMapMmio? ==> op.cb.read.Some? && op.cb.write.Some?)
  }

  lemma StepKeepsTidy(st: State, op: Op)
    requires Tidy(st) && Gentle(st, op)
    ensures Tidy(Step(st, op).0)
  {
    match op
    case OpMap(addr, size, perms, info) => MapKeepsTidy(st, addr, size, perms, info);
    case OpMapMmio(addr, size, cb, tag) => MapMmioKeepsTidy(st, addr, size, cb, tag);
    case OpUnmap(addr, len) => UnmapKeepsTidy(st, addr, len);
    case OpUnmapBetween(s, e) => UnmapBetweenKeepsTidy(st, s, e);
    case OpProtect(addr, len, perms) => ProtectKeepsTidy(st, PageOf(addr), ProtectSize(addr, len), perms % 8);
    case OpRelabel(s, e, tag) => RelabelKeepsTidy(st, s, e, tag);
    case OpWrite(addr, data) =>
      var st' := WriteStep(st, addr, data).0;
      assert forall a :: st'.uc.Maps(a) <==> st.uc.Maps(a);
  }

  lemma NewRangeKeepsPerms(st: State, st': State, lo: int, hi: int, perms: int)
    requires PermsAgree(st)
    requires forall a {:trigger View(st'.info, a)} ::
               if lo <= a < hi then Mapped(st'.info, a) && View(st'.info, a).value.perms == perms
               else View(st'.info, a) == View(st.info, a)
    requires forall a :: st'.uc.prot(a) == if lo <= a < hi then Some(perms) else st.uc.prot(a)
    ensures PermsAgree(st')
  {
    forall a | Mapped(st'.info, a) && st'.uc.Maps(a)
      ensures View(st'.info, a).value.perms == st'.uc.prot(a).value
    {
      assert !(lo <= a < hi) ==> Mapped(st.info, a) && st.uc.Maps(a);
    }
  }

  lemma MapKeepsPerms(st: State, addr: int, size: int, perms: int, info: Option<string>)
    requires Inv(st) && PermsAgree(st)
    ensures PermsAgree(MapStep(st, addr, size, perms, info).0)
  {
    var (st', err) := MapStep(st, addr, size, perms, info);
    MapMeaning(st, addr, size, perms, info);
    if err.None? {
      NewRangeKeepsPerms(st, st', addr, addr + size, perms);
    }
  }

  lemma MapMmioKeepsPerms(st: State, addr: int, size: int, cb: Callbacks, info: string)
    requires Inv(st) && PermsAgree(st) && cb.read.Some? && cb.write.Some?
    ensures PermsAgree(MapMmioStep(st, addr, size, cb, info).0)
  {
    var (st', err) := MapMmioStep(st, addr, size, cb, info);
    MapMmioMeaning(st, addr, size, cb, info);
    if err.None? {
      NewRangeKeepsPerms(st, st', addr, addr + size, PROT_READ_WRITE);
    }
  }

  lemma UnmapKeepsPerms(st: State, addr: int, size: nat)
    requires Inv(st) && PermsAgree(st)
    ensures PermsAgree(UnmapStep(st, addr, size).0)
  {
    var (st', err) := UnmapStep(st, addr, size);
    UnmapMeaning(st, addr, size);
    forall a | Mapped(st'.info, a) && st'.uc.Maps(a)
      ensures View(st'.info, a).value.perms == st'.uc.prot(a).value
    {
      assert View(st'.info, a) == if addr <= a < addr + size then None else View(st.info, a);
      assert Mapped(st.info, a) && st.uc.Maps(a);
      assert err.None? ==> st'.uc.prot(a) == if addr <= a < addr + size then None else st.uc.prot(a);
    }
  }

  lemma {:induction false} UnmapEachKeepsPerms(st: State, m: seq<Entry>, k: nat, s: int, e: int)
    requires Inv(st) && PermsAgree(st) && k <= |m| && NonEmpty(m) && s <= e
    ensures PermsAgree(UnmapEach(st, m, k, s, e).0)
    decreases |m| - k
  {
    if k < |m| {
      if m[k].Overlaps(s, e) {
        var (l, n) := Clip(m[k], s, e);
        UnmapMeaning(st, l, n);
        UnmapKeepsPerms(st, l, n);
        var (st', err) := UnmapStep(st, l, n);
        if err.None? {
          UnmapEachKeepsPerms(st', m, k + 1, s, e);
        }
      } else {
        UnmapEachKeepsPerms(st, m, k + 1, s, e);
      }
    }
  }

  lemma StepKeepsPerms(st: State, op: Op)
    requires Tidy(st) && PermsAgree(st) && Gentle(st, op) && Precise(st, op)
    ensures PermsAgree(Step(st, op).0)
  {
    match op
    case OpMap(addr, size, perms, info) => MapKeepsPerms(st, addr, size, perms, info);
    case OpMapMmio(addr, size, cb, tag) => MapMmioKeepsPerms(st, addr, size, cb, tag);
    case OpUnmap(addr, len) => UnmapKeepsPerms(st, addr, len);
    case OpUnmapBetween(s, e) => UnmapEachKeepsPerms(st, st.info, 0, s, e);
    case OpProtect(addr, len, perms) => ProtectKeepsPerms(st, PageOf(addr), ProtectSize(addr, len), perms % 8);
    case OpRelabel(s, e, tag) => RelabelKeepsPerms(st, s, e, tag);
    case OpWrite(addr, data) => WriteKeepsPerms(st, addr, data);
  }

  lemma ProtectKeepsPerms(st: State, s: int, n: nat, perms: int)
    requires Inv(st) && Exact(st) && PermsAgree(st) && n > 0 && Enclosing(st.info, s, s + n).Some?
    ensures PermsAgree(ProtectRange(st, s, n, perms).0)
  {
    if ProtectRange(st, s, n, perms).1.None? {
      ProtectKeepsPermsIff(st, s, n, perms);
    } else {
      ProtectRangeMeaning(st, s, n, perms);
    }
  }

  lemma WriteKeepsPerms(st: State, addr: int, data: seq<Bytes.byte>)
    requires PermsAgree(st)
    ensures PermsAgree(WriteStep(st, addr, data).0)
  {
    var st' := WriteStep(st, addr, data).0;
    assert st'.uc.prot == st.uc.prot;
    assert forall a :: st'.uc.Maps(a) <==> st.uc.Maps(a);
  }

  lemma RelabelKeepsPerms(st: State, s: int, e: int, tag: string)
    requires Inv(st) && PermsAgree(st)
    ensures PermsAgree(RelabelStep(st, s, e, tag).0)
  {
    RelabelMeaning(st, s, e, tag);
    var st' := RelabelStep(st, s, e, tag).0;
    var k := Enclosing(st.info, s, e);
    forall a | Mapped(st'.info, a) && st'.uc.Maps(a)
      ensures View(st'.info, a).value.perms == st'.uc.prot(a).value
    {
      if k.Some? && st.info[k.value].Contains(a) {
        ViewAt(st.info, k.value, a);
      }
      assert Mapped(st.info, a) && st.uc.Maps(a);
    }
  }

  /** Each call of a run is gentle, or gentle and precise, in the state it is made in. */
  ghost predicate GentleRun(st: State, ops: seq<Op>, precise: bool)
    decreases |ops|
  {
    ops == [] || (WellFormed(st.info) && Gentle(st, ops[0]) && (precise ==> Precise(st, ops[0])) &&
                  GentleRun(Step(st, ops[0]).0, ops[1..], precise))
  }

  /**
    In every run, failing calls included, whose unmaps take whole pages, all of them mapped or none, list
    and engine go on naming the same addresses, in entries on page boundaries; and they agree on
    permissions as well if each protect lies in one entry and each mmio range has both callbacks.
  */
  lemma {:induction false} RunKeepsTidy(st: State, ops: seq<Op>, st': State, precise: bool)
    requires Tidy(st) && Reaches(st, ops, st') && GentleRun(st, ops, precise)
    ensures Tidy(st')
    ensures precise && PermsAgree(st) ==> PermsAgree(st')
    decreases |ops|
  {
    if ops != [] {
      StepKeepsTidy(st, ops[0]);
      if precise && PermsAgree(st) {
        StepKeepsPerms(st, ops[0]);
      }
      RunKeepsTidy(Step(st, ops[0]).0, ops[1..], st', precise);
    }
  }

  /** So it is in every such run from an empty machine. */
  lemma StartKeepsTidy(st: State, ops: seq<Op>, st': State, precise: bool)
    requires Start(st) && Reaches(st, ops, st') && GentleRun(st, ops, precise)
    ensures Tidy(st') && (precise ==> PermsAgree(st'))
  {
    RunKeepsTidy(st, ops, st', precise);
  }
}
