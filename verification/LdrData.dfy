/** The loader data block and its three module lists, kept in emulated memory. */
module LdrData {
  import opened Bytes
  import opened LdrRings

  // ----- layout, for pointers of p bytes -----

  /** Offset of the k-th of three consecutive pairs of pointers. */
  function PairOffset(p: nat, k: nat): nat {
    if k == 0 then 0 else if k == 1 then 2 * p else 4 * p
  }

  /** Offset of the list heads in the loader data: two 32-bit fields and a handle come first. */
  function HeadsOffset(p: nat): nat {
    8 + p
  }

  /** Blocks of the loader data and of every entry fit the address space and do not overlap. */
  ghost predicate Laid(p: nat, ldr: int, entries: seq<int>) {
    && 0 <= ldr && ldr + 8 + 7 * p <= Pow256(p)
    && (forall i :: 0 <= i < |entries| ==> ClearOf(p, ldr, entries[i]))
    && (forall i, j :: 0 <= i < j < |entries| ==>
          entries[i] + 6 * p <= entries[j] || entries[j] + 6 * p <= entries[i])
  }

  predicate ClearOf(p: nat, ldr: int, entry: int) {
    && 0 <= entry && entry + 6 * p <= Pow256(p)
    && (entry + 6 * p <= ldr || ldr + 8 + 7 * p <= entry)
  }

  /** Nodes of the k-th list: its head, then each entry's k-th pair of links. */
  function Nodes(p: nat, ldr: int, entries: seq<int>, k: nat): (r: seq<int>)
    ensures |r| == |entries| + 1
  {
    [ldr + HeadsOffset(p) + PairOffset(p, k)] +
    seq(|entries|, i requires 0 <= i < |entries| => entries[i] + PairOffset(p, k))
  }

  // ----- words of memory -----

  /** The pointer-sized words of a memory, by address. */
  function WordsOf(m: Mem, p: nat): Link {
    (a: int) => LoadWord(m, a, p, false)
  }

  /** The second word of the pair at each address. */
  function Blink(w: Link, p: nat): Link {
    (a: int) => At(w, a + p)
  }

  ghost predicate RingAt(w: Link, p: nat, ldr: int, entries: seq<int>, k: nat) {
    Ring(w, Blink(w, p), Nodes(p, ldr, entries, k))
  }

  ghost predicate Rings(w: Link, p: nat, ldr: int, entries: seq<int>) {
    RingAt(w, p, ldr, entries, 0) && RingAt(w, p, ldr, entries, 1) && RingAt(w, p, ldr, entries, 2)
  }

  predicate Apart(p: nat, a: int, b: int) {
    a + p <= b || b + p <= a
  }

  /** b is apart from the same word of three consecutive pairs. */
  predicate Apart3(p: nat, a: int, b: int) {
    Apart(p, a, b) && Apart(p, a + 2 * p, b) && Apart(p, a + 4 * p, b)
  }

  /** w' is w with one word of each of three consecutive pairs written. */
  ghost predicate Wrote(w: Link, w': Link, p: nat, a: int, v0: int, v1: int, v2: int) {
    && At(w', a) == v0 && At(w', a + 2 * p) == v1 && At(w', a + 4 * p) == v2
    && forall b {:trigger Apart3(p, a, b)} :: Apart3(p, a, b) ==> At(w', b) == At(w, b)
  }

  function Put3(m: Mem, p: nat, a: int, v0: int, v1: int, v2: int): Mem {
    StoreWord(StoreWord(StoreWord(m, a, v0, p, false), a + 2 * p, v1, p, false), a + 4 * p, v2, p, false)
  }

  predicate Address(p: nat, v: int) {
    0 <= v < Pow256(p)
  }

  lemma StoreWordApart(m: Mem, p: nat, a: int, v: int, b: int)
    requires Apart(p, a, b)
    ensures LoadWord(StoreWord(m, a, v, p, false), b, p, false) == LoadWord(m, b, p, false)
  {
    LoadStoreApart(m, a, PackWord(v, p, false), b, p);
  }

  lemma Put3Writes(m: Mem, p: nat, a: int, v0: int, v1: int, v2: int)
    requires p > 0 && Address(p, v0) && Address(p, v1) && Address(p, v2)
    ensures Wrote(WordsOf(m, p), WordsOf(Put3(m, p, a, v0, v1, v2), p), p, a, v0, v1, v2)
  {
    var m1 := StoreWord(m, a, v0, p, false);
    var m2 := StoreWord(m1, a + 2 * p, v1, p, false);
    LoadStoreWord(m, a, v0, p, false);
    LoadStoreWord(m1, a + 2 * p, v1, p, false);
    LoadStoreWord(m2, a + 4 * p, v2, p, false);
    StoreWordApart(m1, p, a + 2 * p, v1, a);
    StoreWordApart(m2, p, a + 4 * p, v2, a);
    StoreWordApart(m2, p, a + 4 * p, v2, a + 2 * p);
    forall b | Apart3(p, a, b)
      ensures LoadWord(Put3(m, p, a, v0, v1, v2), b, p, false) == LoadWord(m, b, p, false)
    {
      StoreWordApart(m, p, a, v0, b);
      StoreWordApart(m1, p, a + 2 * p, v1, b);
      StoreWordApart(m2, p, a + 4 * p, v2, b);
    }
  }

  // ----- empty lists -----

  lemma LoneHead(w: Link, p: nat, ldr: int, k: nat)
    requires var h := ldr + HeadsOffset(p) + PairOffset(p, k); At(w, h) == h && At(w, h + p) == h
    ensures RingAt(w, p, ldr, [], k)
  {
  }

  /** Both words of each head pointing at the head itself make three empty rings. */
  lemma InitMakesRings(w: Link, w1: Link, w2: Link, p: nat, ldr: int)
    requires p > 0
    requires var h := ldr + HeadsOffset(p);
             && Wrote(w, w1, p, h, h, h + 2 * p, h + 4 * p)
             && Wrote(w1, w2, p, h + p, h, h + 2 * p, h + 4 * p)
    ensures Rings(w2, p, ldr, [])
  {
    var h := ldr + HeadsOffset(p);
    assert Apart3(p, h + p, h) && Apart3(p, h + p, h + 2 * p) && Apart3(p, h + p, h + 4 * p);
    LoneHead(w2, p, ldr, 0);
    LoneHead(w2, p, ldr, 1);
    LoneHead(w2, p, ldr, 2);
  }

  // ----- an addition -----

  /** The first of the three nodes that are last so far. */
  function LastNode(p: nat, ldr: int, entries: seq<int>): int {
    if entries == [] then ldr + HeadsOffset(p) else entries[|entries| - 1]
  }

  /**
    The four groups of writes of an addition, in order: the last nodes' forward links
    and the heads' back links now lead to the entry, which takes over what they were.
  */
  ghost predicate Added(w: Link, w1: Link, w2: Link, w3: Link, w4: Link, p: nat, l: int, h: int, e: int) {
    && Wrote(w, w1, p, l, e, e + 2 * p, e + 4 * p)
    && Wrote(w1, w2, p, h + p, e, e + 2 * p, e + 4 * p)
    && Wrote(w2, w3, p, e, At(w, l), At(w, l + 2 * p), At(w, l + 4 * p))
    && Wrote(w3, w4, p, e + p, At(w1, h + p), At(w1, h + p + 2 * p), At(w1, h + p + 4 * p))
  }

  /** No word of the last nodes, the heads' back links or the entry overlaps another. */
  ghost predicate Separate(p: nat, l: int, h: int, e: int) {
    && 0 <= e && e + 6 * p <= Pow256(p)
    && (e + 6 * p <= h || h + 6 * p <= e)
    && (l == h || ((l + 6 * p <= h || h + 6 * p <= l) && (e + 6 * p <= l || l + 6 * p <= e)))
  }

  lemma LaidSeparate(p: nat, ldr: int, entries: seq<int>, e: int)
    requires Laid(p, ldr, entries + [e])
    ensures Separate(p, LastNode(p, ldr, entries), ldr + HeadsOffset(p), e)
  {
    var all := entries + [e];
    assert all[|entries|] == e;
    if entries != [] {
      assert all[|entries| - 1] == entries[|entries| - 1];
    }
  }

  /** The words of the k-th list that an addition is about. */
  ghost predicate KthLinked(w: Link, w': Link, p: nat, l: int, h: int, e: int, k: nat) {
    var o := PairOffset(p, k);
    && At(w', e + o) == At(w, l + o) && At(w', e + o + p) == At(w, h + o + p)
    && At(w', l + o) == e + o && At(w', h + o + p) == e + o
  }

  predicate WordUntouched(p: nat, l: int, h: int, e: int, b: int) {
    Apart3(p, l, b) && Apart3(p, h + p, b) && Apart3(p, e, b) && Apart3(p, e + p, b)
  }

  /** Net effect of an addition: the words it is about, and no others. */
  ghost predicate Linked(w: Link, w': Link, p: nat, l: int, h: int, e: int) {
    && KthLinked(w, w', p, l, h, e, 0) && KthLinked(w, w', p, l, h, e, 1) && KthLinked(w, w', p, l, h, e, 2)
    && OthersKept(w, w', p, l, h, e)
  }

  lemma SeparateWords(p: nat, l: int, h: int, e: int, k: nat)
    requires p > 0 && k < 3 && Separate(p, l, h, e)
    ensures var o := PairOffset(p, k);
            && Apart3(p, l, h + p + o) && Apart3(p, h + p, l + o)
            && Apart3(p, e, l + o) && Apart3(p, e + p, l + o)
            && Apart3(p, e, h + p + o) && Apart3(p, e + p, h + p + o)
            && Apart3(p, e + p, e + o)
  {
  }

  lemma AddedLinksKth(w: Link, w1: Link, w2: Link, w3: Link, w4: Link, p: nat, l: int, h: int, e: int, k: nat)
    requires p > 0 && k < 3 && Separate(p, l, h, e) && Added(w, w1, w2, w3, w4, p, l, h, e)
    ensures KthLinked(w, w4, p, l, h, e, k)
  {
    var o := PairOffset(p, k);
    SeparateWords(p, l, h, e, k);
    assert e + p + o == e + o + p && h + p + o == h + o + p;
  }

  lemma AddedLinks(w: Link, w1: Link, w2: Link, w3: Link, w4: Link, p: nat, l: int, h: int, e: int)
    requires p > 0 && Separate(p, l, h, e) && Added(w, w1, w2, w3, w4, p, l, h, e)
    ensures Linked(w, w4, p, l, h, e)
  {
    AddedLinksKth(w, w1, w2, w3, w4, p, l, h, e, 0);
    AddedLinksKth(w, w1, w2, w3, w4, p, l, h, e, 1);
    AddedLinksKth(w, w1, w2, w3, w4, p, l, h, e, 2);
    forall b | WordUntouched(p, l, h, e, b) ensures At(w4, b) == At(w, b) {
      assert Apart3(p, l, b) && Apart3(p, h + p, b) && Apart3(p, e, b) && Apart3(p, e + p, b);
    }
  }

  /** Words not among those an addition is about. */
  ghost predicate OthersKept(w: Link, w': Link, p: nat, l: int, h: int, e: int) {
    forall b {:trigger WordUntouched(p, l, h, e, b)} :: WordUntouched(p, l, h, e, b) ==> At(w', b) == At(w, b)
  }

  lemma LinkedForwardNode(w: Link, w': Link, p: nat, ldr: int, entries: seq<int>, e: int, k: nat)
    requires p > 0 && k < 3 && Laid(p, ldr, entries + [e])
    requires KthLinked(w, w', p, LastNode(p, ldr, entries), ldr + HeadsOffset(p), e, k)
    requires OthersKept(w, w', p, LastNode(p, ldr, entries), ldr + HeadsOffset(p), e)
    ensures ForwardInserted(w, w', Nodes(p, ldr, entries, k), e + PairOffset(p, k))
  {
    var nodes := Nodes(p, ldr, entries, k);
    forall i | 0 <= i < |nodes| - 1 ensures At(w', nodes[i]) == At(w, nodes[i]) {
      OtherForward(p, ldr, entries, e, k, i);
    }
    assert nodes[|nodes| - 1] == LastNode(p, ldr, entries) + PairOffset(p, k);
  }

  lemma LinkedBackNode(w: Link, w': Link, p: nat, ldr: int, entries: seq<int>, e: int, k: nat)
    requires p > 0 && k < 3 && Laid(p, ldr, entries + [e])
    requires KthLinked(w, w', p, LastNode(p, ldr, entries), ldr + HeadsOffset(p), e, k)
    requires OthersKept(w, w', p, LastNode(p, ldr, entries), ldr + HeadsOffset(p), e)
    ensures BackInserted(Blink(w, p), Blink(w', p), Nodes(p, ldr, entries, k), e + PairOffset(p, k))
  {
    var nodes := Nodes(p, ldr, entries, k);
    forall i | 0 < i < |nodes| ensures At(Blink(w', p), nodes[i]) == At(Blink(w, p), nodes[i]) {
      OtherBack(p, ldr, entries, e, k, i);
      assert At(w', nodes[i] + p) == At(w, nodes[i] + p);
    }
  }

  lemma NodesSnoc(p: nat, ldr: int, entries: seq<int>, e: int, k: nat)
    ensures Nodes(p, ldr, entries + [e], k) == Nodes(p, ldr, entries, k) + [e + PairOffset(p, k)]
  {
  }

  /** One list after an addition: the entry is its last node, and the ring is closed again. */
  lemma AddKeepsRing(w: Link, w': Link, p: nat, ldr: int, entries: seq<int>, e: int, k: nat)
    requires p > 0 && k < 3 && Laid(p, ldr, entries + [e]) && RingAt(w, p, ldr, entries, k)
    requires KthLinked(w, w', p, LastNode(p, ldr, entries), ldr + HeadsOffset(p), e, k)
    requires OthersKept(w, w', p, LastNode(p, ldr, entries), ldr + HeadsOffset(p), e)
    ensures RingAt(w', p, ldr, entries + [e], k)
  {
    LinkedForwardNode(w, w', p, ldr, entries, e, k);
    LinkedBackNode(w, w', p, ldr, entries, e, k);
    InsertedGrowsRing(w, Blink(w, p), w', Blink(w', p), Nodes(p, ldr, entries, k), e + PairOffset(p, k));
    NodesSnoc(p, ldr, entries, e, k);
  }

  lemma AddKeepsRings(w: Link, w': Link, p: nat, ldr: int, entries: seq<int>, e: int)
    requires p > 0 && Laid(p, ldr, entries + [e]) && Rings(w, p, ldr, entries)
    requires Linked(w, w', p, LastNode(p, ldr, entries), ldr + HeadsOffset(p), e)
    ensures Rings(w', p, ldr, entries + [e])
  {
    AddKeepsRing(w, w', p, ldr, entries, e, 0);
    AddKeepsRing(w, w', p, ldr, entries, e, 1);
    AddKeepsRing(w, w', p, ldr, entries, e, 2);
  }

  lemma OtherForward(p: nat, ldr: int, entries: seq<int>, e: int, k: nat, i: nat)
    requires p > 0 && k < 3 && Laid(p, ldr, entries + [e]) && i < |entries|
    ensures WordUntouched(p, LastNode(p, ldr, entries), ldr + HeadsOffset(p), e, Nodes(p, ldr, entries, k)[i])
  {
    var all := entries + [e];
    assert all[|entries|] == e && all[|entries| - 1] == entries[|entries| - 1];
    if i > 0 {
      assert all[i - 1] == entries[i - 1];
    }
  }

  lemma OtherBack(p: nat, ldr: int, entries: seq<int>, e: int, k: nat, i: nat)
    requires p > 0 && k < 3 && Laid(p, ldr, entries + [e]) && 0 < i <= |entries|
    ensures WordUntouched(p, LastNode(p, ldr, entries), ldr + HeadsOffset(p), e, Nodes(p, ldr, entries, k)[i] + p)
  {
    var all := entries + [e];
    assert all[|entries|] == e && all[|entries| - 1] == entries[|entries| - 1];
    assert all[i - 1] == entries[i - 1];
  }

  // ----- the writes -----

  /** w gives the words of m. */
  ghost predicate TiedTo(m: Mem, w: Link, p: nat) {
    forall a {:trigger LoadWord(m, a, p, false)} :: At(w, a) == LoadWord(m, a, p, false)
  }

  lemma WritePairs(m: Mem, w: Link, p: nat, a: int, v0: int, v1: int, v2: int) returns (w': Link)
    requires p > 0 && TiedTo(m, w, p) && Address(p, v0) && Address(p, v1) && Address(p, v2)
    ensures TiedTo(Put3(m, p, a, v0, v1, v2), w', p) && Wrote(w, w', p, a, v0, v1, v2)
  {
    Put3Writes(m, p, a, v0, v1, v2);
    w' := WordsOf(Put3(m, p, a, v0, v1, v2), p);
  }

  function ThreeWords(m: Mem, p: nat, a: int): (int, int, int) {
    (LoadWord(m, a, p, false), LoadWord(m, a + 2 * p, p, false), LoadWord(m, a + 4 * p, p, false))
  }

  lemma ReadPairs(m: Mem, w: Link, p: nat, a: int)
    requires TiedTo(m, w, p)
    ensures ThreeWords(m, p, a) == (At(w, a), At(w, a + 2 * p), At(w, a + 4 * p))
    ensures Address(p, At(w, a)) && Address(p, At(w, a + 2 * p)) && Address(p, At(w, a + 4 * p))
  {
    LoadWordRange(m, a, p, false);
    LoadWordRange(m, a + 2 * p, p, false);
    LoadWordRange(m, a + 4 * p, p, false);
  }

  /** The entry's own forward and back links are set from the given ones. */
  function EntryFilled(m: Mem, p: nat, entry: int, f: (int, int, int), b: (int, int, int)): Mem {
    Put3(Put3(m, p, entry, f.0, f.1, f.2), p, entry + p, b.0, b.1, b.2)
  }

  /** Forward links of the last nodes first, then the heads' back links, then the entry's own links. */
  function EntryLinked(m: Mem, p: nat, last: int, heads: int, entry: int): Mem {
    var m1 := Put3(m, p, last, entry, entry + 2 * p, entry + 4 * p);
    var m2 := Put3(m1, p, heads + p, entry, entry + 2 * p, entry + 4 * p);
    EntryFilled(m2, p, entry, ThreeWords(m, p, last), ThreeWords(m1, p, heads + p))
  }

  lemma LinkEntry(m: Mem, w: Link, p: nat, l: int, h: int, e: int) returns (w': Link)
    requires p > 0 && TiedTo(m, w, p) && Separate(p, l, h, e)
    ensures TiedTo(EntryLinked(m, p, l, h, e), w', p) && Linked(w, w', p, l, h, e)
  {
    ReadPairs(m, w, p, l);
    var w1 := WritePairs(m, w, p, l, e, e + 2 * p, e + 4 * p);
    w' := LinkHeadsAndEntry(m, Put3(m, p, l, e, e + 2 * p, e + 4 * p), w, w1, p, l, h, e);
  }

  lemma LinkHeadsAndEntry(m: Mem, m1: Mem, w: Link, w1: Link, p: nat, l: int, h: int, e: int) returns (w': Link)
    requires p > 0 && TiedTo(m1, w1, p) && Separate(p, l, h, e) && Wrote(w, w1, p, l, e, e + 2 * p, e + 4 * p)
    requires Address(p, At(w, l)) && Address(p, At(w, l + 2 * p)) && Address(p, At(w, l + 4 * p))
    requires ThreeWords(m, p, l) == (At(w, l), At(w, l + 2 * p), At(w, l + 4 * p))
    ensures Linked(w, w', p, l, h, e)
    ensures var m2 := Put3(m1, p, h + p, e, e + 2 * p, e + 4 * p);
            TiedTo(EntryFilled(m2, p, e, ThreeWords(m, p, l), ThreeWords(m1, p, h + p)), w', p)
  {
    ReadPairs(m1, w1, p, h + p);
    var w2 := WritePairs(m1, w1, p, h + p, e, e + 2 * p, e + 4 * p);
    w' := FillEntry(Put3(m1, p, h + p, e, e + 2 * p, e + 4 * p), w, w1, w2, p, l, h, e);
  }

  lemma FillEntry(m2: Mem, w: Link, w1: Link, w2: Link, p: nat, l: int, h: int, e: int) returns (w': Link)
    requires p > 0 && TiedTo(m2, w2, p) && Separate(p, l, h, e)
    requires Wrote(w, w1, p, l, e, e + 2 * p, e + 4 * p)
    requires Wrote(w1, w2, p, h + p, e, e + 2 * p, e + 4 * p)
    requires Address(p, At(w, l)) && Address(p, At(w, l + 2 * p)) && Address(p, At(w, l + 4 * p))
    requires Address(p, At(w1, h + p)) && Address(p, At(w1, h + p + 2 * p)) && Address(p, At(w1, h + p + 4 * p))
    ensures Linked(w, w', p, l, h, e)
    ensures var f := (At(w, l), At(w, l + 2 * p), At(w, l + 4 * p));
            var b := (At(w1, h + p), At(w1, h + p + 2 * p), At(w1, h + p + 4 * p));
            TiedTo(EntryFilled(m2, p, e, f, b), w', p)
  {
    var f := (At(w, l), At(w, l + 2 * p), At(w, l + 4 * p));
    var b := (At(w1, h + p), At(w1, h + p + 2 * p), At(w1, h + p + 4 * p));
    var w3 := WritePairs(m2, w2, p, e, f.0, f.1, f.2);
    w' := WritePairs(Put3(m2, p, e, f.0, f.1, f.2), w3, p, e + p, b.0, b.1, b.2);
    AddedLinks(w, w1, w2, w3, w', p, l, h, e);
  }

  /** Memory with the three heads pointing at themselves. */
  function HeadsLinked(m: Mem, p: nat, ldr: int): Mem {
    var h := ldr + HeadsOffset(p);
    Put3(Put3(m, p, h, h, h + 2 * p, h + 4 * p), p, h + p, h, h + 2 * p, h + 4 * p)
  }

  // ----- the lists of a memory -----

  /** Each of the three lists in memory is a well-formed ring over all entries. */
  ghost predicate RingsIn(m: Mem, p: nat, ldr: int, entries: seq<int>) {
    exists w: Link :: TiedTo(m, w, p) && Rings(w, p, ldr, entries)
  }

  lemma HeadsLinkedRings(m: Mem, p: nat, ldr: int)
    requires p > 0 && Laid(p, ldr, [])
    ensures RingsIn(HeadsLinked(m, p, ldr), p, ldr, [])
  {
    var h := ldr + HeadsOffset(p);
    var w := WordsOf(m, p);
    var w1 := WritePairs(m, w, p, h, h, h + 2 * p, h + 4 * p);
    var w2 := WritePairs(Put3(m, p, h, h, h + 2 * p, h + 4 * p), w1, p, h + p, h, h + 2 * p, h + 4 * p);
    InitMakesRings(w, w1, w2, p, ldr);
  }

  lemma LinkEntryRings(m: Mem, w: Link, p: nat, ldr: int, entries: seq<int>, e: int) returns (w': Link)
    requires p > 0 && Laid(p, ldr, entries + [e]) && TiedTo(m, w, p) && Rings(w, p, ldr, entries)
    requires Separate(p, LastNode(p, ldr, entries), ldr + HeadsOffset(p), e)
    ensures TiedTo(EntryLinked(m, p, LastNode(p, ldr, entries), ldr + HeadsOffset(p), e), w', p)
    ensures Rings(w', p, ldr, entries + [e])
  {
    w' := LinkEntry(m, w, p, LastNode(p, ldr, entries), ldr + HeadsOffset(p), e);
    AddKeepsRings(w, w', p, ldr, entries, e);
  }

  /** An addition appends the entry to each of the three rings. */
  lemma EntryLinkedKeepsRings(m: Mem, p: nat, ldr: int, entries: seq<int>, e: int)
    requires p > 0 && Laid(p, ldr, entries + [e]) && RingsIn(m, p, ldr, entries)
    ensures RingsIn(EntryLinked(m, p, LastNode(p, ldr, entries), ldr + HeadsOffset(p), e), p, ldr, entries + [e])
  {
    var w: Link :| TiedTo(m, w, p) && Rings(w, p, ldr, entries);
    LaidSeparate(p, ldr, entries, e);
    var w' := LinkEntryRings(m, w, p, ldr, entries, e);
  }

  /** Memory after the first n additions. */
  function AfterAdditions(m: Mem, p: nat, ldr: int, entries: seq<int>, n: nat): Mem
    requires n <= |entries|
  {
    if n == 0 then HeadsLinked(m, p, ldr)
    else
      EntryLinked(AfterAdditions(m, p, ldr, entries, n - 1), p, LastNode(p, ldr, entries[..n - 1]),
                  ldr + HeadsOffset(p), entries[n - 1])
  }

  lemma LaidPrefix(p: nat, ldr: int, entries: seq<int>, n: nat)
    requires Laid(p, ldr, entries) && n <= |entries|
    ensures Laid(p, ldr, entries[..n])
  {
  }

  /** After any number of additions each of the three lists is a well-formed ring over the entries so far. */
  lemma {:induction false} AdditionsKeepRings(m: Mem, p: nat, ldr: int, entries: seq<int>, n: nat)
    requires p > 0 && Laid(p, ldr, entries) && n <= |entries|
    ensures RingsIn(AfterAdditions(m, p, ldr, entries, n), p, ldr, entries[..n])
  {
    LaidPrefix(p, ldr, entries, n);
    if n == 0 {
      assert entries[..0] == [];
      HeadsLinkedRings(m, p, ldr);
    } else {
      AdditionsKeepRings(m, p, ldr, entries, n - 1);
      assert entries[..n] == entries[..n - 1] + [entries[n - 1]];
      EntryLinkedKeepsRings(AfterAdditions(m, p, ldr, entries, n - 1), p, ldr, entries[..n - 1], entries[n - 1]);
    }
  }

  /** The heads come behind two 32-bit fields and a handle; links of the k-th list are the k-th pair of their block. */
  lemma NodesExact(p: nat, ldr: int, entries: seq<int>, k: nat)
    requires k < 3
    ensures var nodes := Nodes(p, ldr, entries, k);
            && nodes[0] == ldr + 8 + p + 2 * p * k
            && forall i :: 0 <= i < |entries| ==> nodes[i + 1] == entries[i] + 2 * p * k
  {
    assert PairOffset(p, k) == 2 * p * k by {
      assert k == 0 || k == 1 || k == 2;
    }
  }

  /** What a program walking the k-th list sees: the entries in order, back to the head; and the reverse. */
  lemma WalksVisitEntries(w: Link, p: nat, ldr: int, entries: seq<int>, k: nat)
    requires Rings(w, p, ldr, entries) && k < 3
    ensures var nodes := Nodes(p, ldr, entries, k);
            && Walk(w, nodes[0], |nodes|) == nodes[1..] + [nodes[0]]
            && Walk(Blink(w, p), nodes[0], |nodes|) == Reversed(nodes)
  {
    WalkForward(w, Blink(w, p), Nodes(p, ldr, entries, k));
    WalkBack(w, Blink(w, p), Nodes(p, ldr, entries, k));
  }

  // ----- what additions leave alone -----

  /** a is no byte of the three pairs at h. */
  predicate OffPairs(p: nat, h: int, a: int) {
    a < h || h + 6 * p <= a
  }

  lemma Put3Elsewhere(m: Mem, p: nat, h: int, at: int, v0: int, v1: int, v2: int, a: int)
    requires (at == h || at == h + p) && OffPairs(p, h, a)
    ensures Put3(m, p, at, v0, v1, v2)(a) == m(a)
  {
  }

  lemma EntryLinkedElsewhere(m: Mem, p: nat, l: int, h: int, e: int, a: int)
    requires OffPairs(p, l, a) && OffPairs(p, h, a) && OffPairs(p, e, a)
    ensures EntryLinked(m, p, l, h, e)(a) == m(a)
  {
    var m1 := Put3(m, p, l, e, e + 2 * p, e + 4 * p);
    Put3Elsewhere(m, p, l, l, e, e + 2 * p, e + 4 * p, a);
    var m2 := Put3(m1, p, h + p, e, e + 2 * p, e + 4 * p);
    Put3Elsewhere(m1, p, h, h + p, e, e + 2 * p, e + 4 * p, a);
    var f, b := ThreeWords(m, p, l), ThreeWords(m1, p, h + p);
    Put3Elsewhere(m2, p, e, e, f.0, f.1, f.2, a);
    Put3Elsewhere(Put3(m2, p, e, f.0, f.1, f.2), p, e, e + p, b.0, b.1, b.2, a);
  }

  /** Besides the heads and the link pairs of the entries, no byte changes in any number of additions. */
  lemma {:induction false} AdditionsConfined(m: Mem, p: nat, ldr: int, entries: seq<int>, n: nat, a: int)
    requires n <= |entries| && OffPairs(p, ldr + 8 + p, a)
    requires forall i :: 0 <= i < n ==> OffPairs(p, entries[i], a)
    ensures AfterAdditions(m, p, ldr, entries, n)(a) == m(a)
  {
    var h := ldr + HeadsOffset(p);
    if n == 0 {
      Put3Elsewhere(m, p, h, h, h, h + 2 * p, h + 4 * p, a);
      Put3Elsewhere(Put3(m, p, h, h, h + 2 * p, h + 4 * p), p, h, h + p, h, h + 2 * p, h + 4 * p, a);
    } else {
      AdditionsConfined(m, p, ldr, entries, n - 1, a);
      var l := LastNode(p, ldr, entries[..n - 1]);
      assert n == 1 || l == entries[n - 2];
      EntryLinkedElsewhere(AfterAdditions(m, p, ldr, entries, n - 1), p, l, h, entries[n - 1], a);
    }
  }

  // ----- the loader -----

  class PeLoader {
    const p: nat
    var mem: Mem
    var ldrAddr: int
    var ldrList: seq<int>

    constructor (archbits: nat, mem: Mem)
      requires archbits in {32, 64}
      ensures p == archbits / 8 && ldrList == [] && this.mem == mem
    {
      this.p := archbits / 8;
      this.mem := mem;
      ldrAddr, ldrList := 0, [];
    }

    method InitLdrData(addr: int)
      modifies this`mem, this`ldrAddr
      ensures ldrAddr == addr && mem == HeadsLinked(old(mem), p, addr)
    {
      ldrAddr := addr;
      var heads := addr + HeadsOffset(p);
      var m := Put3(mem, p, heads, heads, heads + 2 * p, heads + 4 * p);
      mem := Put3(m, p, heads + p, heads, heads + 2 * p, heads + 4 * p);
    }

    static method WriteLinks(mem: Mem, p: nat, last: int, heads: int, entry: int) returns (m: Mem)
      ensures m == EntryLinked(mem, p, last, heads, entry)
    {
      var f := ThreeWords(mem, p, last);
      m := Put3(mem, p, last, entry, entry + 2 * p, entry + 4 * p);
      var b := ThreeWords(m, p, heads + p);
      m := Put3(m, p, heads + p, entry, entry + 2 * p, entry + 4 * p);
      m := EntryFilled(m, p, entry, f, b);
    }

    /** Links a new entry behind the last one of each list. */
    method AddLdrDataTableEntry(entry: int)
      modifies this`mem, this`ldrList
      ensures ldrList == old(ldrList) + [entry]
      ensures mem == EntryLinked(old(mem), p, LastNode(p, ldrAddr, old(ldrList)), ldrAddr + HeadsOffset(p), entry)
    {
      mem := WriteLinks(mem, p, LastNode(p, ldrAddr, ldrList), ldrAddr + HeadsOffset(p), entry);
      ldrList := ldrList + [entry];
    }
  }
}
