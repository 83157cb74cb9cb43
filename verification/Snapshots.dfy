/** The debugger's stack of differential snapshots, for stepping backwards. */
module Snapshots {
  import Bits
  import opened Bytes
  import Engine
  import MapInfo
  import opened MapOps
  import opened MemorySnapshot
  import opened Results

  /** Register names and values in the order they are saved; names are distinct. */
  type Regs = seq<(string, int)>

  /** A saved ram range whose contents are a set of (index, byte) pairs, at most one for each index. */
  datatype Segment = Segment(lo: int, hi: int, perms: int, info: string, pairs: map<int, byte>) {
    predicate SameRange(other: Segment) {
      lo == other.lo && hi == other.hi && perms == other.perms && info == other.info
    }
  }

  /** What is saved before and after a command. */
  datatype Raw = Raw(reg: Regs, ram: seq<Segment>)

  /** What undoing the command needs: former values of registers and bytes that it changed. */
  datatype Diffed = Diffed(reg: Regs, ram: Option<seq<Segment>>)

  datatype Machine = Machine(reg: Regs, mem: State)

  function Indexed(data: seq<byte>): map<int, byte> {
    map i | 0 <= i < |data| :: data[i]
  }

  function Transformed(x: RamSegment): Segment {
    Segment(x.lo, x.hi, x.perms, x.info, Indexed(x.data))
  }

  function Transform(ram: seq<RamSegment>): (r: seq<Segment>)
    ensures |r| == |ram|
  {
    seq(|ram|, i requires 0 <= i < |ram| => Transformed(ram[i]))
  }

  function Ram(m: Machine): seq<RamSegment>
    requires NonEmpty(m.mem.info)
  {
    RamUpTo(m.mem, |m.mem.info|)
  }

  function SaveRaw(m: Machine): Result<Raw>
    requires NonEmpty(m.mem.info)
  {
    if CallbacksKnown(m.mem, |m.mem.info|) then Ok(Raw(m.reg, Transform(Ram(m)))) else Err(KeyError)
  }

  // ----- diff -----

  /** Pairs of registers compared by position. */
  function DiffReg(prev: Regs, cur: Regs, n: nat): Regs
    requires n <= |prev| && n <= |cur|
  {
    if n == 0 then []
    else DiffReg(prev, cur, n - 1) + if prev[n - 1] != cur[n - 1] then [prev[n - 1]] else []
  }

  /** Pairs of p that are not in c. */
  function Minus(p: map<int, byte>, c: map<int, byte>): map<int, byte> {
    map i | i in p && !(i in c && c[i] == p[i]) :: p[i]
  }

  function DiffRam(prev: seq<Segment>, cur: seq<Segment>, n: nat): seq<Segment>
    requires n <= |prev| && n <= |cur|
  {
    if n == 0 then []
    else
      var p, c, rest := prev[n - 1], cur[n - 1], DiffRam(prev, cur, n - 1);
      if p.SameRange(c) && c.pairs != p.pairs then rest + [c.(pairs := Minus(p.pairs, c.pairs))] else rest
  }

  function Diff(before: Raw, after: Raw): Diffed {
    Diffed(DiffReg(before.reg, after.reg, Bits.Min(|before.reg|, |after.reg|)),
           if before.ram == after.ram then None
           else Some(DiffRam(before.ram, after.ram, Bits.Min(|before.ram|, |after.ram|))))
  }

  // ----- restore -----

  /** Position of a name, or the length if there is none. */
  function Find(regs: Regs, name: string): (i: nat)
    ensures i <= |regs| && (i < |regs| ==> regs[i].0 == name)
    ensures forall j :: 0 <= j < i ==> regs[j].0 != name
  {
    if regs == [] || regs[0].0 == name then 0 else 1 + Find(regs[1..], name)
  }

  /** Dictionary assignment: a known name keeps its place, a new one goes last. */
  function Assign(regs: Regs, x: (string, int)): Regs {
    var i := Find(regs, x.0);
    if i < |regs| then regs[i := x] else regs + [x]
  }

  function AssignAll(regs: Regs, xs: Regs): Regs {
    if xs == [] then regs else Assign(AssignAll(regs, xs[..|xs| - 1]), xs[|xs| - 1])
  }

  /** The values of a dictionary in the order of its keys, of those from 0 up to n. */
  function SortedValues(d: map<int, byte>, n: nat): seq<byte> {
    if n == 0 then [] else SortedValues(d, n - 1) + if n - 1 in d then [d[n - 1]] else []
  }

  /** The segments of cur in the range of a diffed one, with the former bytes put over the current ones. */
  function Matches(x: Segment, cur: seq<Segment>, n: nat): seq<RamSegment>
    requires n <= |cur|
  {
    if n == 0 then []
    else
      var c := cur[n - 1];
      if x.SameRange(c) then Matches(x, cur, n - 1) + [Patch(x, c)] else Matches(x, cur, n - 1)
  }

  function Patch(x: Segment, c: Segment): RamSegment {
    RamSegment(c.lo, c.hi, c.perms, c.info, SortedValues(c.pairs + x.pairs, if c.lo <= c.hi then c.hi - c.lo else 0))
  }

  function Patched(prev: seq<Segment>, cur: seq<Segment>): seq<RamSegment> {
    if prev == [] then []
    else Patched(prev[..|prev| - 1], cur) + Matches(prev[|prev| - 1], cur, |cur|)
  }

  function RestoreMemory(st: State, prev: Option<seq<Segment>>, cur: seq<Segment>): Outcome {
    if prev.Some? && prev.value != [] && prev.value != cur
    then RestoreStep(st, Saved(Patched(prev.value, cur), []))
    else (st, None)
  }

  /** Memory is put back first, then all registers are written. */
  function RestoreDiffed(m: Machine, prev: Diffed, cur: Raw): (Machine, Option<Error>) {
    var reg := AssignAll(cur.reg, prev.reg);
    var (mem, err) := RestoreMemory(m.mem, prev.ram, cur.ram);
    if err.Some? then (Machine(m.reg, mem), err) else (Machine(AssignAll(m.reg, reg), mem), None)
  }

  // ----- registers -----

  ghost predicate SameNames(a: Regs, b: Regs) {
    |a| == |b| && forall i :: 0 <= i < |a| ==> a[i].0 == b[i].0
  }

  ghost predicate Distinct(a: Regs) {
    forall i, j :: 0 <= i < j < |a| ==> a[i].0 != a[j].0
  }

  lemma AssignReplaces(regs: Regs, x: (string, int), i: nat)
    requires i < |regs| && regs[i].0 == x.0 && forall j :: 0 <= j < i ==> regs[j].0 != x.0
    ensures Assign(regs, x) == regs[i := x]
  {
  }

  lemma AssignAt(prev: Regs, cur: Regs, n: nat)
    requires SameNames(prev, cur) && Distinct(cur) && 0 < n <= |cur|
    ensures Assign(prev[..n - 1] + cur[n - 1..], prev[n - 1]) == prev[..n] + cur[n..]
  {
    var mixed := prev[..n - 1] + cur[n - 1..];
    AssignReplaces(mixed, prev[n - 1], n - 1);
    assert mixed[n - 1 := prev[n - 1]] == prev[..n] + cur[n..];
  }

  /** Former values of the changed registers over the current ones give all former values. */
  lemma {:induction false} AssignDiff(prev: Regs, cur: Regs, n: nat)
    requires SameNames(prev, cur) && Distinct(cur) && n <= |cur|
    ensures AssignAll(cur, DiffReg(prev, cur, n)) == prev[..n] + cur[n..]
  {
    if n > 0 {
      AssignDiff(prev, cur, n - 1);
      if prev[n - 1] != cur[n - 1] {
        AssignAt(prev, cur, n);
      } else {
        assert DiffReg(prev, cur, n) == DiffReg(prev, cur, n - 1);
        assert prev[..n - 1] + cur[n - 1..] == prev[..n] + cur[n..];
      }
    }
  }

  lemma {:induction false} AssignPrefix(prev: Regs, cur: Regs, n: nat)
    requires SameNames(prev, cur) && Distinct(cur) && n <= |cur|
    ensures AssignAll(cur, prev[..n]) == prev[..n] + cur[n..]
  {
    if n > 0 {
      AssignPrefix(prev, cur, n - 1);
      assert prev[..n] == prev[..n - 1] + [prev[n - 1]];
      AssignAt(prev, cur, n);
    }
  }

  /** Undoing the register part of a diff. */
  lemma RegistersUndone(prev: Regs, cur: Regs)
    requires SameNames(prev, cur) && Distinct(cur)
    ensures AssignAll(cur, AssignAll(cur, DiffReg(prev, cur, Bits.Min(|prev|, |cur|)))) == prev
  {
    AssignDiff(prev, cur, |cur|);
    AssignPrefix(prev, cur, |cur|);
    assert prev[..|cur|] + cur[|cur|..] == prev;
    assert prev[..|cur|] == prev;
  }

  // ----- bytes of one segment -----

  lemma {:induction false} SortedIndexed(data: seq<byte>, n: nat)
    requires n <= |data|
    ensures SortedValues(Indexed(data), n) == data[..n]
  {
    if n > 0 {
      SortedIndexed(data, n - 1);
      assert data[..n] == data[..n - 1] + [data[n - 1]];
    }
  }

  /** The pairs a command removed, put over what it left, are the pairs before the command. */
  lemma OverlayUndoes(p: seq<byte>, c: seq<byte>)
    requires |p| == |c|
    ensures Indexed(c) + Minus(Indexed(p), Indexed(c)) == Indexed(p)
    ensures SortedValues(Indexed(c) + Minus(Indexed(p), Indexed(c)), |p|) == p
  {
    assert Indexed(c) + Minus(Indexed(p), Indexed(c)) == Indexed(p);
    SortedIndexed(p, |p|);
    assert p[..|p|] == p;
  }

  lemma IndexedInjective(p: seq<byte>, c: seq<byte>)
    requires |p| == |c| && Indexed(p) == Indexed(c)
    ensures p == c
  {
    forall i | 0 <= i < |p| ensures p[i] == c[i] {
      assert Indexed(p)[i] == Indexed(c)[i];
    }
  }

  // ----- all segments -----

  /** Saved copies of the same list of ranges at two times. */
  ghost predicate SameRanges(p: seq<RamSegment>, c: seq<RamSegment>) {
    && RamOrdered(p) && RamOrdered(c) && |p| == |c|
    && forall i :: 0 <= i < |p| ==> SameButData(p[i], c[i])
  }

  predicate SameButData(x: RamSegment, y: RamSegment) {
    x.lo == y.lo && x.hi == y.hi && x.perms == y.perms && x.info == y.info
  }

  /** Saved copies of possibly different lists; a diff pairs them by position. */
  ghost predicate Comparable(p: seq<RamSegment>, c: seq<RamSegment>) {
    RamOrdered(p) && RamOrdered(c)
  }

  function Paired(p: seq<RamSegment>, c: seq<RamSegment>): (n: nat)
    ensures n <= |p| && n <= |c| && (n == |p| || n == |c|)
  {
    Bits.Min(|p|, |c|)
  }

  predicate ChangedAt(p: RamSegment, c: RamSegment) {
    SameButData(p, c) && p.data != c.data
  }

  /** The former copies of those segments that stand at the same position and whose bytes have changed. */
  function Changed(p: seq<RamSegment>, c: seq<RamSegment>, n: nat): seq<RamSegment>
    requires n <= |p| && n <= |c|
  {
    if n == 0 then []
    else if ChangedAt(p[n - 1], c[n - 1]) then Changed(p, c, n - 1) + [p[n - 1]]
    else Changed(p, c, n - 1)
  }

  function DiffedSegment(p: RamSegment, c: RamSegment): Segment {
    Transformed(c).(pairs := Minus(Indexed(p.data), Indexed(c.data)))
  }

  lemma {:induction false} OneMatch(x: Segment, cur: seq<Segment>, i: nat, n: nat, y: RamSegment)
    requires i < |cur| && n <= |cur| && y == Patch(x, cur[i])
    requires forall j :: 0 <= j < |cur| ==> (x.SameRange(cur[j]) <==> j == i)
    ensures Matches(x, cur, n) == if i < n then [y] else []
  {
    if n > 0 {
      OneMatch(x, cur, i, n - 1, y);
    }
  }

  /** Ranges do not overlap, so a diffed segment finds exactly its own. */
  lemma {:induction false} DiffedMatches(p: seq<RamSegment>, c: seq<RamSegment>, i: nat)
    requires Comparable(p, c) && i < |p| && i < |c| && SameButData(p[i], c[i])
    ensures Matches(DiffedSegment(p[i], c[i]), Transform(c), |c|) == [p[i]]
  {
    var x, tc := DiffedSegment(p[i], c[i]), Transform(c);
    forall j | 0 <= j < |tc| ensures x.SameRange(tc[j]) <==> j == i {
      assert RamOk(c[j]) && RamOk(c[i]);
      assert j < i ==> c[j].hi <= c[i].lo;
      assert i < j ==> c[i].hi <= c[j].lo;
    }
    assert RamOk(p[i]) && RamOk(c[i]);
    OverlayUndoes(p[i].data, c[i].data);
    OneMatch(x, tc, i, |tc|, p[i]);
  }

  /** Segment i is recorded exactly if its bytes differ, and then patched to its former copy. */
  ghost predicate PatchedAt(p: seq<RamSegment>, c: seq<RamSegment>, tp: seq<Segment>, tc: seq<Segment>, i: nat)
    requires i < |p| == |tp| && i < |c| == |tc|
  {
    && (ChangedAt(p[i], c[i]) <==> tp[i].SameRange(tc[i]) && tc[i].pairs != tp[i].pairs)
    && (ChangedAt(p[i], c[i]) ==> Matches(tc[i].(pairs := Minus(tp[i].pairs, tc[i].pairs)), tc, |tc|) == [p[i]])
  }

  lemma PatchedNext(
    p: seq<RamSegment>, c: seq<RamSegment>, tp: seq<Segment>, tc: seq<Segment>, n: nat, d: seq<Segment>)
    returns (d': seq<Segment>)
    requires 0 < n <= |p| == |tp| && n <= |c| == |tc| && PatchedAt(p, c, tp, tc, n - 1)
    requires d == DiffRam(tp, tc, n - 1) && Patched(d, tc) == Changed(p, c, n - 1)
    ensures d' == DiffRam(tp, tc, n) && Patched(d', tc) == Changed(p, c, n)
  {
    if ChangedAt(p[n - 1], c[n - 1]) {
      var x := tc[n - 1].(pairs := Minus(tp[n - 1].pairs, tc[n - 1].pairs));
      d' := d + [x];
    } else {
      d' := d;
    }
  }

  lemma {:induction false} PatchedUpTo(
    p: seq<RamSegment>, c: seq<RamSegment>, tp: seq<Segment>, tc: seq<Segment>, n: nat) returns (d: seq<Segment>)
    requires n <= |p| == |tp| && n <= |c| == |tc|
    requires forall i {:trigger PatchedAt(p, c, tp, tc, i)} :: 0 <= i < n ==> PatchedAt(p, c, tp, tc, i)
    ensures d == DiffRam(tp, tc, n) && Patched(d, tc) == Changed(p, c, n)
  {
    if n == 0 {
      d := [];
    } else {
      d := PatchedUpTo(p, c, tp, tc, n - 1);
      assert PatchedAt(p, c, tp, tc, n - 1);
      d := PatchedNext(p, c, tp, tc, n, d);
    }
  }

  lemma PatchedAtEach(p: seq<RamSegment>, c: seq<RamSegment>, i: nat)
    requires Comparable(p, c) && i < |p| && i < |c|
    ensures PatchedAt(p, c, Transform(p), Transform(c), i)
  {
    assert RamOk(p[i]) && RamOk(c[i]);
    if SameButData(p[i], c[i]) {
      DiffedMatches(p, c, i);
    }
    if SameButData(p[i], c[i]) && Indexed(p[i].data) == Indexed(c[i].data) {
      IndexedInjective(p[i].data, c[i].data);
    }
  }

  /** What restore writes is exactly the former copies of the changed segments. */
  lemma PatchedIsChanged(p: seq<RamSegment>, c: seq<RamSegment>, n: nat)
    requires Comparable(p, c) && n == Paired(p, c)
    ensures Patched(DiffRam(Transform(p), Transform(c), n), Transform(c)) == Changed(p, c, n)
  {
    forall i | 0 <= i < n ensures PatchedAt(p, c, Transform(p), Transform(c), i) {
      PatchedAtEach(p, c, i);
    }
    var d := PatchedUpTo(p, c, Transform(p), Transform(c), n);
  }

  // ----- what restoring the changed segments does to memory -----

  lemma {:induction false} ChangedOrdered(p: seq<RamSegment>, c: seq<RamSegment>, n: nat)
    requires Comparable(p, c) && n <= |p| && n <= |c|
    ensures RamOrdered(Changed(p, c, n))
    ensures forall i :: 0 <= i < |Changed(p, c, n)| ==> n > 0 && Changed(p, c, n)[i].hi <= p[n - 1].hi
  {
    if n > 0 {
      ChangedOrdered(p, c, n - 1);
      assert n > 1 ==> p[n - 2].hi <= p[n - 1].lo;
    }
  }

  lemma {:induction false} ChangedHas(p: seq<RamSegment>, c: seq<RamSegment>, n: nat, i: nat) returns (j: nat)
    requires i < n <= |p| && n <= |c| && ChangedAt(p[i], c[i])
    ensures j < |Changed(p, c, n)| && Changed(p, c, n)[j] == p[i]
  {
    if i == n - 1 {
      j := |Changed(p, c, n - 1)|;
    } else {
      j := ChangedHas(p, c, n - 1, i);
    }
  }

  lemma {:induction false} ChangedFrom(p: seq<RamSegment>, c: seq<RamSegment>, n: nat, j: nat) returns (i: nat)
    requires n <= |p| && n <= |c| && j < |Changed(p, c, n)|
    ensures i < n && Changed(p, c, n)[j] == p[i] && ChangedAt(p[i], c[i])
  {
    if j == |Changed(p, c, n - 1)| {
      i := n - 1;
    } else {
      i := ChangedFrom(p, c, n - 1, j);
    }
  }

  /** The list has every address of the segment. */
  ghost predicate Listed(st: State, x: RamSegment) {
    forall a :: x.Contains(a) ==> MapInfo.Mapped(st.info, a)
  }

  lemma RestoreMappedSegment(st: State, x: RamSegment)
    requires Inv(st) && RamOk(x) && Listed(st, x)
    ensures var (st', err) := RestoreSegment(st, x);
            err.None? && st'.info == st.info && st'.cbs == st.cbs && st'.uc.prot == st.uc.prot
  {
    assert MapInfo.Mapped(st.info, x.lo);
    assert !Available(st, x.lo, x.hi - x.lo);
  }

  /** Segments whose addresses are all mapped are only written. */
  lemma {:induction false} RestoreMappedRam(st: State, ram: seq<RamSegment>, k: nat)
    requires Inv(st) && RamOrdered(ram) && k <= |ram|
    requires forall i :: k <= i < |ram| ==> Listed(st, ram[i])
    ensures var (st', err) := RestoreRam(st, ram, k);
            err.None? && Inv(st') && st'.info == st.info && st'.cbs == st.cbs && st'.uc.prot == st.uc.prot
    decreases |ram| - k
  {
    if k < |ram| {
      RestoreMappedSegment(st, ram[k]);
      var st' := RestoreSegment(st, ram[k]).0;
      assert forall a :: st'.uc.Maps(a) <==> st.uc.Maps(a);
      RestoreMappedRam(st', ram, k + 1);
    }
  }

  // ----- saved copies -----

  /** A state whose saved copy is complete. */
  ghost predicate Sound(st: State) {
    Inv(st) && CallbacksKnown(st, |st.info|)
  }

  lemma CopyMapped(st: State, i: nat)
    requires Sound(st) && i < |RamUpTo(st, |st.info|)|
    ensures var x := RamUpTo(st, |st.info|)[i]; x.lo < x.hi && Listed(st, x)
  {
    var k := CopyOf(st, |st.info|, i);
    var x := RamUpTo(st, |st.info|)[i];
    forall a | x.Contains(a) ensures MapInfo.Mapped(st.info, a) {
      MapInfo.ViewAt(st.info, k, a);
    }
  }

  lemma {:induction false} SameListSameRanges(s: State, t: State, n: nat)
    requires NonEmpty(s.info) && s.info == t.info && n <= |s.info|
    ensures |RamUpTo(s, n)| == |RamUpTo(t, n)|
    ensures forall i :: 0 <= i < |RamUpTo(s, n)| ==> SameButData(RamUpTo(s, n)[i], RamUpTo(t, n)[i])
  {
    if n > 0 {
      SameListSameRanges(s, t, n - 1);
    }
  }

  lemma SoundSameRanges(s: State, t: State)
    requires Sound(s) && Sound(t) && s.info == t.info
    ensures SameRanges(RamUpTo(s, |s.info|), RamUpTo(t, |t.info|))
  {
    SavedIsOrdered(s, |s.info|);
    SavedIsOrdered(t, |t.info|);
    SameListSameRanges(s, t, |s.info|);
  }

  // ----- undoing one command -----

  predicate Holds(x: RamSegment, d: Mem, a: int) {
    0 <= a - x.lo < |x.data| && d(a) == x.data[a - x.lo]
  }

  /** d' is d with the segments written; addresses not mapped are of no interest. */
  ghost predicate PutBack(now: Engine.Engine, d': Mem, ram: seq<RamSegment>) {
    && (forall i, a :: 0 <= i < |ram| && ram[i].Contains(a) ==> Holds(ram[i], d', a))
    && (forall a :: !Saves(ram, a) && now.Maps(a) ==> d'(a) == now.data(a))
  }

  lemma RestorePutsBack(now: State, ram: seq<RamSegment>)
    requires Inv(now) && RamOrdered(ram) && RestoreStep(now, Saved(ram, [])).1.None?
    ensures PutBack(now.uc, RestoreStep(now, Saved(ram, [])).0.uc.data, ram)
  {
    var after := RestoreStep(now, Saved(ram, [])).0;
    forall a
      ensures forall i :: 0 <= i < |ram| && ram[i].Contains(a) ==> Holds(ram[i], after.uc.data, a)
      ensures !Saves(ram, a) && now.uc.Maps(a) ==> after.uc.data(a) == now.uc.data(a)
    {
      RestoreByte(now, Saved(ram, []), a);
    }
  }

  /** A range that stands at the same position is put back. */
  lemma ByteUndone(now: Engine.Engine, d': Mem, p: seq<RamSegment>, c: seq<RamSegment>, n: nat, i: nat, a: int)
    requires Comparable(p, c) && i < n == Paired(p, c) && SameButData(p[i], c[i]) && p[i].Contains(a)
    requires now.Maps(a) && Holds(c[i], now.data, a) && PutBack(now, d', Changed(p, c, n))
    ensures Holds(p[i], d', a)
  {
    if ChangedAt(p[i], c[i]) {
      var j := ChangedHas(p, c, n, i);
    } else {
      NotInOthers(p, c, n, i, a);
    }
  }

  lemma NotInOthers(p: seq<RamSegment>, c: seq<RamSegment>, n: nat, i: nat, a: int)
    requires Comparable(p, c) && n == Paired(p, c) && i < |p| && p[i].Contains(a)
    requires i < n ==> !ChangedAt(p[i], c[i])
    ensures !Saves(Changed(p, c, n), a)
  {
    var changed := Changed(p, c, n);
    forall j | 0 <= j < |changed| ensures !changed[j].Contains(a) {
      var k := ChangedFrom(p, c, n, j);
      assert k < i ==> p[k].hi <= p[i].lo;
      assert i < k ==> p[i].hi <= p[k].lo;
    }
  }

  /** A range at another position is not. */
  lemma ByteNotUndone(
    now: Engine.Engine, d': Mem, p: seq<RamSegment>, c: seq<RamSegment>, n: nat, i: nat, j: nat, a: int)
    requires Comparable(p, c) && n == Paired(p, c) && i < |p| && j < |c| && i != j
    requires SameButData(p[i], c[j]) && p[i].Contains(a)
    requires now.Maps(a) && Holds(c[j], now.data, a) && PutBack(now, d', Changed(p, c, n))
    ensures Holds(c[j], d', a)
  {
    if i < n {
      assert RamOk(c[i]) && RamOk(c[j]);
      assert i < j ==> c[i].hi <= c[j].lo;
      assert j < i ==> c[j].hi <= c[i].lo;
    }
    NotInOthers(p, c, n, i, a);
  }

  lemma CopyHolds(st: State, i: nat, a: int)
    requires Sound(st) && i < |RamUpTo(st, |st.info|)| && RamUpTo(st, |st.info|)[i].Contains(a)
    ensures Holds(RamUpTo(st, |st.info|)[i], st.uc.data, a) && st.uc.Maps(a)
  {
    var k := CopyOf(st, |st.info|, i);
    CopyMapped(st, i);
  }

  lemma LoadHeld(d: Mem, x: RamSegment)
    requires x.lo < x.hi && |x.data| == x.hi - x.lo && forall a :: x.Contains(a) ==> Holds(x, d, a)
    ensures Load(d, x.lo, x.hi - x.lo) == x.data
  {
    forall j | 0 <= j < |x.data| ensures d(x.lo + j) == x.data[j] {
      assert x.Contains(x.lo + j);
    }
  }

  /**
    Bytes of a range saved at position i of the former copy and j of the current one, after the changed
    segments were put back: the former bytes if the positions are the same, and the current ones otherwise.
  */
  lemma SegmentAfter(now: State, d': Mem, p: seq<RamSegment>, c: seq<RamSegment>, n: nat, i: nat, j: nat)
    requires Sound(now) && c == RamUpTo(now, |now.info|) && Comparable(p, c) && n == Paired(p, c)
    requires i < |p| && j < |c| && SameButData(p[i], c[j]) && PutBack(now.uc, d', Changed(p, c, n))
    ensures p[i].lo < p[i].hi
    ensures Load(d', p[i].lo, p[i].hi - p[i].lo) == if i == j then p[i].data else c[j].data
  {
    var x := if i == j then p[i] else c[j];
    assert RamOk(p[i]) && RamOk(c[j]);
    forall a | x.Contains(a) ensures Holds(x, d', a) {
      CopyHolds(now, j, a);
      if i == j {
        ByteUndone(now.uc, d', p, c, n, i, a);
      } else {
        ByteNotUndone(now.uc, d', p, c, n, i, j, a);
      }
    }
    LoadHeld(d', x);
  }

  /** The same list over memory that holds the former copies is saved as the former copies. */
  lemma CopyEquals(after: State, p: seq<RamSegment>)
    requires NonEmpty(after.info) && |RamUpTo(after, |after.info|)| == |p|
    requires forall i :: 0 <= i < |p| ==> SameButData(p[i], RamUpTo(after, |after.info|)[i])
    requires forall i :: 0 <= i < |p| ==>
               p[i].lo < p[i].hi && Load(after.uc.data, p[i].lo, p[i].hi - p[i].lo) == p[i].data
    ensures RamUpTo(after, |after.info|) == p
  {
    var q := RamUpTo(after, |after.info|);
    forall i | 0 <= i < |p| ensures q[i] == p[i] {
      var k := CopyOf(after, |after.info|, i);
      assert SameButData(p[i], q[i]);
    }
  }

  lemma ChangedRestored(now: State, p: seq<RamSegment>, c: seq<RamSegment>, n: nat) returns (after: State)
    requires Sound(now) && c == RamUpTo(now, |now.info|) && Comparable(p, c) && n == Paired(p, c)
    ensures RestoreStep(now, Saved(Changed(p, c, n), [])) == (after, None)
    ensures Sound(after) && after.info == now.info && after.cbs == now.cbs
    ensures PutBack(now.uc, after.uc.data, Changed(p, c, n))
  {
    var changed := Changed(p, c, n);
    ChangedOrdered(p, c, n);
    forall j | 0 <= j < |changed| ensures Listed(now, changed[j]) {
      var i := ChangedFrom(p, c, n, j);
      CopyMapped(now, i);
      assert forall a :: changed[j].Contains(a) <==> c[i].Contains(a);
    }
    RestoreMappedRam(now, changed, 0);
    after := RestoreStep(now, Saved(changed, [])).0;
    RestorePutsBack(now, changed);
  }

  /** Putting back the changed segments gives a state whose saved copy is the former one. */
  lemma MemoryUndone(before: State, now: State) returns (after: State)
    requires Sound(before) && Sound(now) && before.info == now.info
    ensures var p, c := RamUpTo(before, |before.info|), RamUpTo(now, |now.info|);
            |p| == |c| && RestoreStep(now, Saved(Changed(p, c, |p|), [])) == (after, None)
    ensures Sound(after) && after.info == now.info && after.cbs == now.cbs
    ensures RamUpTo(after, |after.info|) == RamUpTo(before, |before.info|)
  {
    SoundSameRanges(before, now);
    var p, c := RamUpTo(before, |before.info|), RamUpTo(now, |now.info|);
    after := ChangedRestored(now, p, c, |p|);
    SameListSameRanges(before, after, |before.info|);
    forall i | 0 <= i < |p|
      ensures p[i].lo < p[i].hi && Load(after.uc.data, p[i].lo, p[i].hi - p[i].lo) == p[i].data
    {
      SegmentAfter(now, after.uc.data, p, c, |p|, i, i);
    }
    CopyEquals(after, p);
  }

  lemma {:induction false} NoneChanged(p: seq<RamSegment>, n: nat)
    requires n <= |p|
    ensures Changed(p, p, n) == []
  {
    if n > 0 {
      NoneChanged(p, n - 1);
    }
  }

  lemma TransformInjective(p: seq<RamSegment>, c: seq<RamSegment>)
    requires Comparable(p, c) && Transform(p) == Transform(c)
    ensures p == c
  {
    assert |Transform(p)| == |Transform(c)|;
    forall i | 0 <= i < |p| ensures p[i] == c[i] {
      assert Transform(p)[i] == Transform(c)[i];
      assert RamOk(p[i]) && RamOk(c[i]) && SameButData(p[i], c[i]);
      IndexedInjective(p[i].data, c[i].data);
    }
  }

  lemma {:induction false} DiffedFrom(p: seq<RamSegment>, c: seq<RamSegment>, n: nat, j: nat) returns (i: nat)
    requires n <= |p| && n <= |c| && j < |DiffRam(Transform(p), Transform(c), n)|
    ensures i < n && DiffRam(Transform(p), Transform(c), n)[j] == DiffedSegment(p[i], c[i])
  {
    var rest := DiffRam(Transform(p), Transform(c), n - 1);
    if j == |rest| {
      i := n - 1;
    } else {
      i := DiffedFrom(p, c, n - 1, j);
    }
  }

  /** A diff that records anything is never the whole current copy. */
  lemma DiffIsNotCopy(p: seq<RamSegment>, c: seq<RamSegment>, n: nat)
    requires RamOrdered(c) && n <= |p| && n <= |c| && DiffRam(Transform(p), Transform(c), n) != []
    ensures DiffRam(Transform(p), Transform(c), n) != Transform(c)
  {
    var i := DiffedFrom(p, c, n, 0);
    SegmentIsNotDiffed(p, c, i);
  }

  lemma SegmentIsNotDiffed(p: seq<RamSegment>, c: seq<RamSegment>, i: nat)
    requires RamOrdered(c) && i < |p| && i < |c|
    ensures DiffedSegment(p[i], c[i]) != Transformed(c[0])
  {
    assert RamOk(c[0]) && RamOk(c[i]);
    if i > 0 {
      assert c[0].hi <= c[i].lo;
    } else {
      assert 0 in Indexed(c[0].data) && Indexed(c[0].data)[0] == c[0].data[0];
    }
  }

  /** The memory half of a restore, in each of its cases. */
  lemma RestoredMemory(now: State, p: seq<RamSegment>, c: seq<RamSegment>, n: nat)
    requires Sound(now) && c == RamUpTo(now, |now.info|) && Comparable(p, c) && n == Paired(p, c)
    ensures var prev := if Transform(p) == Transform(c) then None else Some(DiffRam(Transform(p), Transform(c), n));
            RestoreMemory(now, prev, Transform(c)) == RestoreStep(now, Saved(Changed(p, c, n), []))
  {
    if Transform(p) == Transform(c) {
      TransformInjective(p, c);
      NoneChanged(p, |p|);
    } else {
      PatchedIsChanged(p, c, n);
      if DiffRam(Transform(p), Transform(c), n) != [] {
        DiffIsNotCopy(p, c, n);
      }
    }
  }

  // ----- undoing any number of commands -----

  ghost predicate SoundMachine(m: Machine) {
    Sound(m.mem) && Distinct(m.reg)
  }

  /** The same ranges with the same attributes, and the same register names. */
  ghost predicate SameLayout(m: Machine, n: Machine) {
    m.mem.info == n.mem.info && m.mem.cbs == n.mem.cbs && SameNames(m.reg, n.reg)
  }

  /** Every register and every byte of listed ram is the same. */
  ghost predicate SameContents(m: Machine, n: Machine)
    requires NonEmpty(m.mem.info) && NonEmpty(n.mem.info)
  {
    m.reg == n.reg && Ram(m) == Ram(n)
  }

  function DiffBetween(before: Machine, after: Machine): Diffed
    requires NonEmpty(before.mem.info) && NonEmpty(after.mem.info)
  {
    Diff(Raw(before.reg, Transform(Ram(before))), Raw(after.reg, Transform(Ram(after))))
  }

  /** One restore undoes one command. */
  lemma RestoreUndoesCommand(before: Machine, after: Machine, now: Machine) returns (now': Machine)
    requires SoundMachine(before) && SoundMachine(after) && SoundMachine(now)
    requires SameLayout(before, after) && SameLayout(now, after) && SameContents(now, after)
    ensures RestoreDiffed(now, DiffBetween(before, after), Raw(now.reg, Transform(Ram(now)))) == (now', None)
    ensures SoundMachine(now') && SameLayout(now', before) && SameContents(now', before)
  {
    SoundSameRanges(before.mem, now.mem);
    RestoredMemory(now.mem, Ram(before), Ram(now), |Ram(before)|);
    var mem := MemoryUndone(before.mem, now.mem);
    RegistersUndone(before.reg, now.reg);
    now' := Machine(before.reg, mem);
  }

  // ----- what is not undone -----

  /** The range of the segment, if it has one, starts at a listed address. */
  predicate StartsListed(m: seq<MapInfo.Entry>, x: RamSegment) {
    x.lo < x.hi ==> MapInfo.Mapped(m, x.lo)
  }

  lemma RestoreSegmentKeepsList(st: State, x: RamSegment)
    requires StartsListed(st.info, x)
    ensures RestoreSegment(st, x).0.info == st.info && RestoreSegment(st, x).0.cbs == st.cbs
  {
    if x.lo < x.hi {
      assert !Available(st, x.lo, x.hi - x.lo);
    }
  }

  lemma {:induction false} RestoreRamKeepsList(st: State, ram: seq<RamSegment>, k: nat)
    requires k <= |ram| && forall i :: 0 <= i < |ram| ==> StartsListed(st.info, ram[i])
    ensures RestoreRam(st, ram, k).0.info == st.info && RestoreRam(st, ram, k).0.cbs == st.cbs
    decreases |ram| - k
  {
    if k < |ram| {
      RestoreSegmentKeepsList(st, ram[k]);
      var (st', err) := RestoreSegment(st, ram[k]);
      if err.None? {
        RestoreRamKeepsList(st', ram, k + 1);
      }
    }
  }

  lemma {:induction false} MatchesFrom(x: Segment, cur: seq<Segment>, n: nat, j: nat) returns (i: nat)
    requires n <= |cur| && j < |Matches(x, cur, n)|
    ensures i < n && Matches(x, cur, n)[j].lo == cur[i].lo && Matches(x, cur, n)[j].hi == cur[i].hi
  {
    if x.SameRange(cur[n - 1]) && j == |Matches(x, cur, n - 1)| {
      i := n - 1;
    } else {
      i := MatchesFrom(x, cur, n - 1, j);
    }
  }

  lemma {:induction false} PatchedFrom(prev: seq<Segment>, cur: seq<Segment>, j: nat) returns (i: nat)
    requires j < |Patched(prev, cur)|
    ensures i < |cur| && Patched(prev, cur)[j].lo == cur[i].lo && Patched(prev, cur)[j].hi == cur[i].hi
  {
    var front, last := Patched(prev[..|prev| - 1], cur), Matches(prev[|prev| - 1], cur, |cur|);
    assert Patched(prev, cur) == front + last;
    if j < |front| {
      i := PatchedFrom(prev[..|prev| - 1], cur, j);
    } else {
      i := MatchesFrom(prev[|prev| - 1], cur, |cur|, j - |front|);
    }
  }

  /** Whatever was recorded, a restore never maps, unmaps or relabels anything. */
  lemma ListIsNotRestored(now: State, prev: Option<seq<Segment>>)
    requires Sound(now)
    ensures var after := RestoreMemory(now, prev, Transform(RamUpTo(now, |now.info|))).0;
            after.info == now.info && after.cbs == now.cbs
  {
    var ram := RamUpTo(now, |now.info|);
    var cur := Transform(ram);
    if prev.Some? {
      var patched := Patched(prev.value, cur);
      forall j | 0 <= j < |patched| ensures StartsListed(now.info, patched[j]) {
        var i := PatchedFrom(prev.value, cur, j);
        CopyMapped(now, i);
        assert cur[i] == Transformed(ram[i]);
      }
      RestoreRamKeepsList(now, patched, 0);
    }
  }

  /**
    So a command that keeps the registers' names is undone exactly if it keeps the memory map:
    the same ranges with the same attributes, and the same callbacks.
  */
  lemma CommandUndoneIff(before: Machine, after: Machine) returns (undone: Machine)
    requires SoundMachine(before) && SoundMachine(after) && SameNames(before.reg, after.reg)
    ensures undone == RestoreDiffed(after, DiffBetween(before, after), Raw(after.reg, Transform(Ram(after)))).0
    ensures NonEmpty(undone.mem.info)
    ensures SameLayout(undone, before) && SameContents(undone, before) <==> SameLayout(before, after)
  {
    var d := DiffBetween(before, after);
    ListIsNotRestored(after.mem, d.ram);
    undone := RestoreDiffed(after, d, Raw(after.reg, Transform(Ram(after)))).0;
    if SameLayout(before, after) {
      var now' := RestoreUndoesCommand(before, after, after);
    }
  }

  /** A range saved before the command at position i and, with the same attributes, after it at position j. */
  ghost predicate KeptRange(before: Machine, after: Machine, i: nat, j: nat)
    requires NonEmpty(before.mem.info) && NonEmpty(after.mem.info)
  {
    i < |Ram(before)| && j < |Ram(after)| && SameButData(Ram(before)[i], Ram(after)[j])
  }

  /**
    Whatever else a command does to the map, the restore goes through, and it brings a range that is
    listed before and after back to its former bytes exactly if the range stands at the same position of
    both copies, or its bytes did not change.
  */
  lemma RangeUndoneIff(before: Machine, after: Machine, i: nat, j: nat) returns (undone: Machine)
    requires SoundMachine(before) && SoundMachine(after) && KeptRange(before, after, i, j)
    ensures RestoreDiffed(after, DiffBetween(before, after), Raw(after.reg, Transform(Ram(after)))) == (undone, None)
    ensures var x := Ram(before)[i];
            Load(undone.mem.uc.data, x.lo, |x.data|) == x.data <==> i == j || x.data == Ram(after)[j].data
  {
    var p, c := Ram(before), Ram(after);
    var n := Paired(p, c);
    SavedIsOrdered(before.mem, |before.mem.info|);
    SavedIsOrdered(after.mem, |after.mem.info|);
    RestoredMemory(after.mem, p, c, n);
    var mem := ChangedRestored(after.mem, p, c, n);
    SegmentAfter(after.mem, mem.uc.data, p, c, n, i, j);
    undone := RestoreDiffed(after, DiffBetween(before, after), Raw(after.reg, Transform(c))).0;
    assert RamOk(p[i]);
  }

  /**
    A command that maps a page below the only listed one shifts it to another position: the restore
    changes no memory at all, so what the command wrote to the page stays.
  */
  lemma RangeMappedBelow(before: Machine, after: Machine)
    requires before.mem.info == [MapInfo.Entry(0x2000, 0x3000, 7, "b", false)]
    requires after.mem.info ==
               [MapInfo.Entry(0x1000, 0x2000, 7, "a", false), MapInfo.Entry(0x2000, 0x3000, 7, "b", false)]
    ensures NonEmpty(before.mem.info) && NonEmpty(after.mem.info) && KeptRange(before, after, 0, 1)
    ensures RestoreDiffed(after, DiffBetween(before, after), Raw(after.reg, Transform(Ram(after)))).0.mem == after.mem
  {
    var p, c := Ram(before), Ram(after);
    assert RamUpTo(before.mem, 0) == [] && RamUpTo(after.mem, 0) == [];
    assert |p| == 1 && p[0].lo == 0x2000;
    assert RamUpTo(after.mem, 1)[0].lo == 0x1000;
    assert |c| == 2 && c[0].lo == 0x1000 && c[1].lo == 0x2000;
    assert DiffRam(Transform(p), Transform(c), 0) == [];
    assert DiffRam(Transform(p), Transform(c), 1) == [];
  }

  /** Command i ran between two sound states of the same layout, and its diff was pushed. */
  ghost predicate CommandRecorded(states: seq<Machine>, layers: seq<Diffed>, i: nat)
    requires i < |layers| && |states| == |layers| + 1
  {
    && SoundMachine(states[i]) && SoundMachine(states[i + 1]) && SameLayout(states[i], states[i + 1])
    && layers[i] == DiffBetween(states[i], states[i + 1])
  }

  ghost predicate Recorded(states: seq<Machine>, layers: seq<Diffed>) {
    && |states| == |layers| + 1
    && forall i {:trigger CommandRecorded(states, layers, i)} ::
         0 <= i < |layers| ==> CommandRecorded(states, layers, i)
  }

  /** Restores in a row from a stack of n layers down to one of j, each popping the newest. */
  function RestoreDownTo(now: Machine, layers: seq<Diffed>, n: nat, j: nat): (Machine, Option<Error>)
    requires j <= n <= |layers|
    decreases n
  {
    if n == j then (now, None)
    else
      var (now', err) := RestoreStepOnce(now, layers[n - 1]);
      if err.Some? then (now', err) else RestoreDownTo(now', layers, n - 1, j)
  }

  /** A state whose list holds an empty range cannot be read back. */
  function RestoreStepOnce(now: Machine, top: Diffed): (Machine, Option<Error>) {
    if !NonEmpty(now.mem.info) then (now, Some(EngineError))
    else match SaveRaw(now)
      case Err(e) => (now, Some(e))
      case Ok(cur) => RestoreDiffed(now, top, cur)
  }

  lemma RestoreUndoesRecorded(states: seq<Machine>, layers: seq<Diffed>, now: Machine, n: nat, j: nat)
    returns (now': Machine)
    requires Recorded(states, layers) && j < n <= |layers|
    requires SoundMachine(now) && SameLayout(now, states[n]) && SameContents(now, states[n])
    ensures RestoreDownTo(now, layers, n, j) == RestoreDownTo(now', layers, n - 1, j)
    ensures SoundMachine(now') && SameLayout(now', states[n - 1]) && SameContents(now', states[n - 1])
  {
    assert CommandRecorded(states, layers, n - 1);
    now' := RestoreUndoesCommand(states[n - 1], states[n], now);
    assert RestoreStepOnce(now, layers[n - 1]) == (now', None);
  }

  /**
    The snapshots are an exact undo log: after any run of recorded commands that keep the
    layout, n - j restores bring every register and every byte of listed ram back to what
    they were n - j commands earlier, and nothing fails on the way.
  */
  lemma {:induction false} RestoresUndoCommands(
    states: seq<Machine>, layers: seq<Diffed>, now: Machine, n: nat, j: nat) returns (past: Machine)
    requires Recorded(states, layers) && j <= n <= |layers|
    requires SoundMachine(now) && SameLayout(now, states[n]) && SameContents(now, states[n])
    ensures RestoreDownTo(now, layers, n, j) == (past, None)
    ensures SoundMachine(past) && SameLayout(past, states[j]) && SameContents(past, states[j])
    decreases n
  {
    if n == j {
      past := now;
    } else {
      var now' := RestoreUndoesRecorded(states, layers, now, n, j);
      past := RestoresUndoCommands(states, layers, now', n - 1, j);
    }
  }

  // ----- the manager -----

  class SnapshotManager {
    var ql: Machine
    var layers: seq<Diffed>

    constructor (ql: Machine)
      ensures this.ql == ql && layers == []
    {
      this.ql, layers := ql, [];
    }

    /** Runs a command and pushes what undoes it; if a save fails, nothing is pushed. */
    method Snapshot(command: Machine -> Machine) returns (err: Option<Error>)
      requires NonEmpty(ql.mem.info) && NonEmpty(command(ql).mem.info)
      modifies this
      ensures ql == if SaveRaw(old(ql)).Ok? then command(old(ql)) else old(ql)
      ensures err.None? <==> SaveRaw(old(ql)).Ok? && SaveRaw(command(old(ql))).Ok?
      ensures layers == old(layers) + if err.None? then [DiffBetween(old(ql), ql)] else []
    {
      var p := SaveRaw(ql);
      if p.Err? {
        return Some(p.error);
      }
      ql := command(ql);
      var q := SaveRaw(ql);
      if q.Err? {
        return Some(q.error);
      }
      layers := layers + [Diff(p.value, q.value)];
      return None;
    }

    method Restore() returns (err: Option<Error>)
      modifies this
      ensures old(layers) == [] ==> err == Some(IndexError) && ql == old(ql) && layers == []
      ensures old(layers) != [] ==>
                && layers == old(layers)[..|old(layers)| - 1]
                && (ql, err) == RestoreStepOnce(old(ql), old(layers)[|old(layers)| - 1])
    {
      if layers == [] {
        return Some(IndexError);
      }
      var top := layers[|layers| - 1];
      layers := layers[..|layers| - 1];
      var r := RestoreStepOnce(ql, top);
      ql := r.0;
      err := r.1;
    }
  }
}
