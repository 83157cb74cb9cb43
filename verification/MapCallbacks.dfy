/** Which calls keep the callbacks of every listed mmio range. */
module MapCallbacks {
  import Engine
  import opened MapInfo
  import opened MapOps
  import opened Results

  type CallbackMap = map<(int, int), Callbacks>

  /** An mmio entry's callbacks are found under its exact bounds. */
  predicate Known(x: Entry, cbs: CallbackMap) {
    x.mmio ==> (x.lo, x.hi) in cbs
  }

  predicate AllKnown(m: seq<Entry>, cbs: CallbackMap) {
    forall i {:trigger Known(m[i], cbs)} :: 0 <= i < |m| ==> Known(m[i], cbs)
  }

  /** ... and so are those of what a cut leaves of each entry. */
  predicate CutsKnown(m: seq<Entry>, cbs: CallbackMap, s: int, e: int) {
    forall i {:trigger Pieces(m[i], s, e)} ::
      0 <= i < |m| && m[i].Overlaps(s, e) ==> AllKnown(Pieces(m[i], s, e), cbs)
  }

  lemma KnownConcat(m: seq<Entry>, n: seq<Entry>, cbs: CallbackMap)
    ensures AllKnown(m + n, cbs) <==> AllKnown(m, cbs) && AllKnown(n, cbs)
  {
    if AllKnown(m + n, cbs) {
      forall i | 0 <= i < |m| ensures Known(m[i], cbs) {
        assert (m + n)[i] == m[i];
      }
      forall i | 0 <= i < |n| ensures Known(n[i], cbs) {
        assert (m + n)[|m| + i] == n[i];
      }
    }
  }

  lemma CutsKnownFirst(m: seq<Entry>, cbs: CallbackMap, s: int, e: int)
    requires m != []
    ensures CutsKnown(m, cbs, s, e) <==>
              (m[0].Overlaps(s, e) ==> AllKnown(Pieces(m[0], s, e), cbs)) && CutsKnown(m[1..], cbs, s, e)
  {
    if CutsKnown(m[1..], cbs, s, e) {
      forall i | 0 < i < |m| && m[i].Overlaps(s, e) ensures AllKnown(Pieces(m[i], s, e), cbs) {
        assert m[1..][i - 1] == m[i];
      }
    }
  }

  lemma {:induction false} CutKnownIff(m: seq<Entry>, cbs: CallbackMap, s: int, e: int)
    requires AllKnown(m, cbs)
    ensures AllKnown(Cut(m, s, e), cbs) <==> CutsKnown(m, cbs, s, e)
  {
    if m != [] {
      CutKnownIff(m[1..], cbs, s, e);
      CutsKnownFirst(m, cbs, s, e);
      KnownConcat(Pieces(m[0], s, e), Cut(m[1..], s, e), cbs);
      assert !m[0].Overlaps(s, e) ==> Pieces(m[0], s, e) == [m[0]];
    }
  }

  lemma InsortKnown(m: seq<Entry>, x: Entry, cbs: CallbackMap)
    ensures AllKnown(Insort(m, x), cbs) <==> AllKnown(m, cbs) && Known(x, cbs)
  {
    var k := InsortPoint(m, x);
    KnownConcat(m[..k] + [x], m[k..], cbs);
    KnownConcat(m[..k], [x], cbs);
    KnownConcat(m[..k], m[k..], cbs);
    assert m[..k] + m[k..] == m;
    assert [x][0] == x;
  }

  /** Every entry of the list has a byte outside the range from s up to e. */
  ghost predicate ReachesOut(m: seq<Entry>, s: int, e: int) {
    forall i :: 0 <= i < |m| ==> !(s <= m[i].lo && m[i].hi <= e)
  }

  /** What a cut leaves does. */
  lemma CutReachesOut(m: seq<Entry>, s: int, e: int)
    requires WellFormed(m) && s <= e
    ensures ReachesOut(Cut(m, s, e), s, e)
  {
    var cut := Cut(m, s, e);
    CutWellFormed(m, s, e);
    forall i | 0 <= i < |cut| ensures !(s <= cut[i].lo && cut[i].hi <= e) {
      ViewAt(cut, i, cut[i].lo);
      ViewCut(m, s, e, cut[i].lo);
    }
  }

  /** Callbacks are only forgotten inside the range. */
  ghost predicate ForgetsWithin(cbs: CallbackMap, cbs': CallbackMap, s: int, e: int) {
    && (forall k :: k in cbs' ==> k in cbs)
    && (forall k :: k in cbs && !(s <= k.0 && k.1 <= e) ==> k in cbs')
  }

  lemma SameKnown(m: seq<Entry>, cbs: CallbackMap, cbs': CallbackMap, s: int, e: int)
    requires ReachesOut(m, s, e) && ForgetsWithin(cbs, cbs', s, e)
    ensures AllKnown(m, cbs') <==> AllKnown(m, cbs)
  {
    forall i | 0 <= i < |m| ensures Known(m[i], cbs') <==> Known(m[i], cbs) {
      assert !(s <= m[i].lo && m[i].hi <= e);
    }
  }

  // ----- each call -----

  lemma UnmapForgets(st: State, addr: int, size: nat)
    ensures ForgetsWithin(st.cbs, UnmapStep(st, addr, size).0.cbs, addr, addr + size)
  {
  }

  lemma UnmapCuts(st: State, addr: int, size: nat)
    ensures UnmapStep(st, addr, size).0.info == Cut(st.info, addr, addr + size)
  {
    if NoOverlap(st.info, addr, addr + size) {
      CutUntouched(st.info, addr, addr + size);
    }
  }

  /** unmap keeps all callbacks exactly if what it leaves of an mmio range is known under its new bounds. */
  lemma UnmapKeepsCallbacksIff(st: State, addr: int, size: nat)
    requires WellFormed(st.info) && AllKnown(st.info, st.cbs)
    ensures var st' := UnmapStep(st, addr, size).0;
            AllKnown(st'.info, st'.cbs) <==> CutsKnown(st.info, st.cbs, addr, addr + size)
  {
    var s, e := addr, addr + size;
    var st' := UnmapStep(st, addr, size).0;
    UnmapCuts(st, addr, size);
    UnmapForgets(st, addr, size);
    CutReachesOut(st.info, s, e);
    SameKnown(st'.info, st.cbs, st'.cbs, s, e);
    CutKnownIff(st.info, st.cbs, s, e);
  }

  lemma {:induction false} UnmapEachForgets(st: State, m: seq<Entry>, k: nat, s: int, e: int)
    requires k <= |m| && NonEmpty(m) && s <= e
    ensures ForgetsWithin(st.cbs, UnmapEach(st, m, k, s, e).0.cbs, s, e)
    decreases |m| - k
  {
    if k < |m| {
      if m[k].Overlaps(s, e) {
        var (l, n) := Clip(m[k], s, e);
        var (st', err) := UnmapStep(st, l, n);
        UnmapForgets(st, l, n);
        if err.None? {
          UnmapEachForgets(st', m, k + 1, s, e);
        }
      } else {
        UnmapEachForgets(st, m, k + 1, s, e);
      }
    }
  }

  /** When it goes through, unmap_between does so under the same condition. */
  lemma UnmapBetweenKeepsCallbacksIff(st: State, s: int, e: int)
    requires Inv(st) && s <= e && AllKnown(st.info, st.cbs) && UnmapBetweenStep(st, s, e).1.None?
    ensures var st' := UnmapBetweenStep(st, s, e).0;
            AllKnown(st'.info, st'.cbs) <==> CutsKnown(st.info, st.cbs, s, e)
  {
    var st' := UnmapBetweenStep(st, s, e).0;
    UnmapBetweenMeaning(st, s, e);
    UnmapEachForgets(st, st.info, 0, s, e);
    CutReachesOut(st.info, s, e);
    SameKnown(st'.info, st.cbs, st'.cbs, s, e);
    CutKnownIff(st.info, st.cbs, s, e);
  }

  lemma PiecesReachOut(x: Entry, s: int, e: int)
    requires x.lo < x.hi && s <= e && x.Overlaps(s, e)
    ensures ReachesOut(Pieces(x, s, e), s, e)
  {
  }

  lemma ReplacedKnown(a: seq<Entry>, x: Entry, xs: seq<Entry>, b: seq<Entry>, cbs: CallbackMap)
    requires AllKnown(a + [x] + b, cbs) && AllKnown(xs, cbs)
    ensures AllKnown(a + xs + b, cbs)
  {
    KnownConcat(a + [x], b, cbs);
    KnownConcat(a, [x], cbs);
    KnownConcat(a + xs, b, cbs);
    KnownConcat(a, xs, cbs);
  }

  /** One round of unmap_between. */
  lemma RoundKeepsCallbacks(st: State, a: seq<Entry>, x: Entry, b: seq<Entry>, s: int, e: int)
    requires Inv(st) && st.info == a + [x] + b && x.lo < x.hi && s <= e && x.Overlaps(s, e)
    requires AllKnown(st.info, st.cbs) && AllKnown(Pieces(x, s, e), st.cbs)
    ensures var (l, n) := Clip(x, s, e);
            var st' := UnmapStep(st, l, n).0;
            AllKnown(st'.info, st'.cbs) && ForgetsWithin(st.cbs, st'.cbs, s, e)
  {
    var (l, n) := Clip(x, s, e);
    var st' := UnmapStep(st, l, n).0;
    CutOneEntry(a, x, b, s, e);
    UnmapCuts(st, l, n);
    UnmapForgets(st, l, n);
    ReplacedKnown(a, x, Pieces(x, s, e), b, st.cbs);
    CutKeepsKnown(st.info, st'.info, st.cbs, st'.cbs, l, l + n);
    ForgetsWider(st.cbs, st'.cbs, l, l + n, s, e);
  }

  lemma CutKeepsKnown(m: seq<Entry>, m': seq<Entry>, cbs: CallbackMap, cbs': CallbackMap, s: int, e: int)
    requires WellFormed(m) && s <= e && m' == Cut(m, s, e)
    requires AllKnown(m', cbs) && ForgetsWithin(cbs, cbs', s, e)
    ensures AllKnown(m', cbs')
  {
    CutReachesOut(m, s, e);
    SameKnown(m', cbs, cbs', s, e);
  }

  lemma ForgetsWider(cbs: CallbackMap, cbs': CallbackMap, l: int, r: int, s: int, e: int)
    requires ForgetsWithin(cbs, cbs', l, r) && s <= l && r <= e
    ensures ForgetsWithin(cbs, cbs', s, e)
  {
  }

  lemma CutsStayKnown(m: seq<Entry>, cbs: CallbackMap, cbs': CallbackMap, s: int, e: int)
    requires NonEmpty(m) && s <= e && CutsKnown(m, cbs, s, e) && ForgetsWithin(cbs, cbs', s, e)
    ensures CutsKnown(m, cbs', s, e)
  {
    forall i | 0 <= i < |m| && m[i].Overlaps(s, e) ensures AllKnown(Pieces(m[i], s, e), cbs') {
      PiecesReachOut(m[i], s, e);
      SameKnown(Pieces(m[i], s, e), cbs, cbs', s, e);
    }
  }

  /** The loop, whether or not the engine refuses one of its rounds, with a standing for the entries behind it. */
  lemma {:induction false} UnmapEachKeepsCallbacks(st: State, a: seq<Entry>, m: seq<Entry>, k: nat, s: int, e: int)
    requires k <= |m| && NonEmpty(m) && s <= e && Inv(st) && st.info == a + m[k..]
    requires AllKnown(st.info, st.cbs) && CutsKnown(m, st.cbs, s, e)
    ensures var st' := UnmapEach(st, m, k, s, e).0; AllKnown(st'.info, st'.cbs)
    decreases |m| - k
  {
    if k < |m| {
      SplitFirst(a, m[k..]);
      var x, rest := m[k], m[k..][1..];
      if x.Overlaps(s, e) {
        RoundMeaning(st, a, x, rest, s, e);
        RoundKeepsCallbacks(st, a, x, rest, s, e);
        var (st', err) := UnmapStep(st, Clip(x, s, e).0, Clip(x, s, e).1);
        CutsStayKnown(m, st.cbs, st'.cbs, s, e);
        if err.None? {
          UnmapEachKeepsCallbacks(st', a + Pieces(x, s, e), m, k + 1, s, e);
        }
      } else {
        UnmapEachKeepsCallbacks(st, a + [x], m, k + 1, s, e);
      }
    }
  }

  lemma UnmapBetweenKeepsCallbacks(st: State, s: int, e: int)
    requires Inv(st) && s <= e && AllKnown(st.info, st.cbs)
    ensures var (st', err) := UnmapBetweenStep(st, s, e);
            && (CutsKnown(st.info, st.cbs, s, e) ==> AllKnown(st'.info, st'.cbs))
            && (AllKnown(st'.info, st'.cbs) && err.None? ==> CutsKnown(st.info, st.cbs, s, e))
  {
    assert [] + st.info[0..] == st.info;
    if CutsKnown(st.info, st.cbs, s, e) {
      UnmapEachKeepsCallbacks(st, [], st.info, 0, s, e);
    } else if UnmapBetweenStep(st, s, e).1.None? {
      UnmapBetweenKeepsCallbacksIff(st, s, e);
    }
  }

  lemma MapKeepsCallbacks(st: State, addr: int, size: int, perms: int, info: Option<string>)
    requires AllKnown(st.info, st.cbs)
    ensures var st' := MapStep(st, addr, size, perms, info).0; AllKnown(st'.info, st'.cbs)
  {
    InsortKnown(st.info, Entry(addr, addr + size, perms, LabelOr(info, "[mapped]"), false), st.cbs);
  }

  lemma MapMmioKeepsCallbacks(st: State, addr: int, size: int, cb: Callbacks, info: string)
    requires AllKnown(st.info, st.cbs)
    ensures var st' := MapMmioStep(st, addr, size, cb, info).0; AllKnown(st'.info, st'.cbs)
  {
    var st' := MapMmioStep(st, addr, size, cb, info).0;
    forall i | 0 <= i < |st.info| ensures Known(st.info[i], st'.cbs) {
      assert Known(st.info[i], st.cbs);
    }
    InsortKnown(st.info, Entry(addr, addr + size, MmioPerms(cb), info, true), st'.cbs);
  }

  lemma RelabelKeepsCallbacks(st: State, s: int, e: int, tag: string)
    requires AllKnown(st.info, st.cbs)
    ensures var st' := RelabelStep(st, s, e, tag).0; AllKnown(st'.info, st'.cbs)
  {
    var k := Enclosing(st.info, s, e);
    if k.Some? {
      assert Known(st.info[k.value], st.cbs);
    }
  }

  predicate ProtectLeavesCallbacks(st: State, s: int, n: nat, perms: int) {
    st.uc.MemProtect(s, n, perms).Ok? && Enclosing(st.info, s, s + n).Some? ==> CutsKnown(st.info, st.cbs, s, s + n)
  }

  /** protect does if the engine refuses, no entry encloses the range, or what is left of the one that does is known. */
  lemma ProtectKeepsCallbacksIff(st: State, s: int, n: nat, perms: int)
    requires AllKnown(st.info, st.cbs)
    ensures var st' := ProtectRange(st, s, n, perms).0;
            AllKnown(st'.info, st'.cbs) <==> ProtectLeavesCallbacks(st, s, n, perms)
  {
    var k := Enclosing(st.info, s, s + n);
    if st.uc.MemProtect(s, n, perms).Ok? && k.Some? && !NoOverlap(st.info, s, s + n) {
      CutKnownIff(st.info, st.cbs, s, s + n);
      InsortKnown(Cut(st.info, s, s + n), Entry(s, s + n, perms, LabelOr(None, st.info[k.value].info), false), st.cbs);
    }
  }

  /** The call leaves no part of an mmio range under bounds without callbacks. */
  predicate LeavesCallbacks(st: State, op: Op) {
    match op
    case OpUnmap(addr, len) => CutsKnown(st.info, st.cbs, addr, addr + len)
    case OpUnmapBetween(s, e) => CutsKnown(st.info, st.cbs, s, e)
    case OpProtect(addr, len, perms) =>
      ProtectLeavesCallbacks(st, PageOf(addr), ProtectSize(addr, len), perms % 8)
    case _ => true
  }

  /** Such a call, and, but for an unmap_between that fails on its way, no other keeps all callbacks. */
  lemma StepKeepsCallbacksIff(st: State, op: Op)
    requires Inv(st) && op.Sane() && AllKnown(st.info, st.cbs)
    ensures var (st', err) := Step(st, op);
            && (LeavesCallbacks(st, op) ==> AllKnown(st'.info, st'.cbs))
            && (AllKnown(st'.info, st'.cbs) && (op.OpUnmapBetween? ==> err.None?) ==> LeavesCallbacks(st, op))
  {
    match op
    case OpMap(addr, size, perms, info) => MapKeepsCallbacks(st, addr, size, perms, info);
    case OpMapMmio(addr, size, cb, tag) => MapMmioKeepsCallbacks(st, addr, size, cb, tag);
    case OpUnmap(addr, len) => UnmapKeepsCallbacksIff(st, addr, len);
    case OpUnmapBetween(s, e) => UnmapBetweenKeepsCallbacks(st, s, e);
    case OpProtect(addr, len, perms) =>
      ProtectKeepsCallbacksIff(st, PageOf(addr), ProtectSize(addr, len), perms % 8);
    case OpRelabel(s, e, tag) => RelabelKeepsCallbacks(st, s, e, tag);
    case OpWrite(addr, data) =>
  }

  ghost predicate LeavesCallbacksAll(st: State, ops: seq<Op>)
    decreases |ops|
  {
    ops == [] || (WellFormed(st.info) && ops[0].Sane() && LeavesCallbacks(st, ops[0]) &&
                  LeavesCallbacksAll(Step(st, ops[0]).0, ops[1..]))
  }

  /** In every run of such calls every listed mmio range has its callbacks, so the map can be saved. */
  lemma {:induction false} RunKeepsCallbacks(st: State, ops: seq<Op>, st': State)
    requires Inv(st) && AllKnown(st.info, st.cbs) && Reaches(st, ops, st') && LeavesCallbacksAll(st, ops)
    ensures AllKnown(st'.info, st'.cbs)
    decreases |ops|
  {
    if ops != [] {
      StepKeepsInv(st, ops[0]);
      StepKeepsCallbacksIff(st, ops[0]);
      RunKeepsCallbacks(Step(st, ops[0]).0, ops[1..], st');
    }
  }

  /** Unmapping half of an mmio range loses the callbacks of the other half. */
  lemma HalfUnmappedLosesCallbacks(cb: Callbacks, uc: Engine.Engine)
    ensures var st := State([Entry(0x1000, 0x3000, 3, "io", true)], map[(0x1000, 0x3000) := cb], uc);
            var st' := UnmapStep(st, 0x1000, 0x1000).0;
            AllKnown(st.info, st.cbs) && !AllKnown(st'.info, st'.cbs)
  {
    var x := Entry(0x1000, 0x3000, 3, "io", true);
    var st := State([x], map[(0x1000, 0x3000) := cb], uc);
    UnmapKeepsCallbacksIff(st, 0x1000, 0x1000);
    assert Pieces(x, 0x1000, 0x2000) == [x.(lo := 0x2000)];
    assert !Known(Pieces(x, 0x1000, 0x2000)[0], st.cbs);
    assert st.info[0].Overlaps(0x1000, 0x2000);
  }
}
