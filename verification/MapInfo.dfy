/**
  The memory map list: a sequence of labelled address ranges kept in the order of
  the source's tuples.  This module defines what the list means (`View`) and the
  two edits every operation is made of, with no reference to how the manager
  performs them: `Insort` puts an entry in its place, `Cut` removes an address
  range from every entry on its own.
*/
module MapInfo {

  import opened Results

  /** What the map says about one address. */
  datatype Attr = Attr(perms: int, info: string, mmio: bool)

  /** One tuple of the list: range start, range end (exclusive), permissions, label, mmio flag. */
  datatype Entry = Entry(lo: int, hi: int, perms: int, info: string, mmio: bool) {
    function Attributes(): Attr {
      Attr(perms, info, mmio)
    }

    predicate Contains(a: int) {
      lo <= a < hi
    }

    /** The source's overlap test against the range from s up to e. */
    predicate Overlaps(s: int, e: int) {
      s < hi && e > lo
    }
  }

  /** Sorted, non-empty, pairwise disjoint. */
  ghost predicate WellFormed(m: seq<Entry>) {
    && (forall i :: 0 <= i < |m| ==> m[i].lo < m[i].hi)
    && (forall i, j :: 0 <= i < j < |m| ==> m[i].hi <= m[j].lo)
  }

  lemma WellFormedConcat(m: seq<Entry>, n: seq<Entry>)
    requires WellFormed(m) && WellFormed(n)
    requires forall i, j :: 0 <= i < |m| && 0 <= j < |n| ==> m[i].hi <= n[j].lo
    ensures WellFormed(m + n)
  {
    var c := m + n;
    forall i, j | 0 <= i < j < |c| ensures c[i].hi <= c[j].lo {
      assert c[i] == if i < |m| then m[i] else n[i - |m|];
      assert c[j] == if j < |m| then m[j] else n[j - |m|];
    }
  }

  lemma WellFormedSlice(m: seq<Entry>, i: nat, j: nat)
    requires WellFormed(m) && i <= j <= |m|
    ensures WellFormed(m[i..j])
  {
  }

  /** The meaning of the list as a partial function on addresses. */
  function View(m: seq<Entry>, a: int): Option<Attr> {
    if m == [] then None
    else if m[0].Contains(a) then Some(m[0].Attributes())
    else View(m[1..], a)
  }

  predicate Mapped(m: seq<Entry>, a: int) {
    View(m, a).Some?
  }

  lemma {:induction false} ViewConcat(m: seq<Entry>, n: seq<Entry>, a: int)
    ensures View(m + n, a) == if Mapped(m, a) then View(m, a) else View(n, a)
  {
    if m == [] {
      assert m + n == n;
    } else {
      assert (m + n)[1..] == m[1..] + n;
      ViewConcat(m[1..], n, a);
    }
  }

  /** An address is mapped exactly when some entry contains it. */
  lemma {:induction false} MappedIffContained(m: seq<Entry>, a: int)
    ensures Mapped(m, a) <==> exists i :: 0 <= i < |m| && m[i].Contains(a)
  {
    if m != [] {
      MappedIffContained(m[1..], a);
      if i :| 0 <= i < |m[1..]| && m[1..][i].Contains(a) {
        assert m[i + 1].Contains(a);
      }
      if i :| 0 <= i < |m| && m[i].Contains(a) {
        assert i > 0 ==> m[1..][i - 1].Contains(a);
      }
    }
  }

  /** In a well-formed list the entry around an address speaks for it. */
  lemma {:induction false} ViewAt(m: seq<Entry>, i: nat, a: int)
    requires WellFormed(m) && i < |m| && m[i].Contains(a)
    ensures View(m, a) == Some(m[i].Attributes())
  {
    if i > 0 {
      assert m[0].hi <= m[i].lo;
      ViewAt(m[1..], i - 1, a);
    }
  }

  // ----- insertion -----

  predicate StringLess(x: string, y: string) {
    if y == "" then false
    else if x == "" then true
    else if x[0] != y[0] then x[0] < y[0]
    else StringLess(x[1..], y[1..])
  }

  /** Lexicographic order of the source's 5-tuples. */
  predicate TupleLess(x: Entry, y: Entry) {
    if x.lo != y.lo then x.lo < y.lo
    else if x.hi != y.hi then x.hi < y.hi
    else if x.perms != y.perms then x.perms < y.perms
    else if x.info != y.info then StringLess(x.info, y.info)
    else !x.mmio && y.mmio
  }

  /** Where a right bisection puts x: before the first tuple greater than it. */
  function InsortPoint(m: seq<Entry>, x: Entry): (k: nat)
    ensures k <= |m|
  {
    if m == [] || TupleLess(x, m[0]) then 0 else 1 + InsortPoint(m[1..], x)
  }

  function Insort(m: seq<Entry>, x: Entry): seq<Entry> {
    var k := InsortPoint(m, x);
    m[..k] + [x] + m[k..]
  }

  /** In the order of the source's tuples; equal tuples may follow each other. */
  predicate TupleSorted(m: seq<Entry>) {
    forall i, j :: 0 <= i < j < |m| ==> !TupleLess(m[j], m[i])
  }

  lemma {:induction false} StringLessOrder(a: string, b: string, c: string)
    ensures !(StringLess(a, b) && StringLess(b, a))
    ensures StringLess(a, b) && StringLess(b, c) ==> StringLess(a, c)
    ensures StringLess(a, b) || StringLess(b, a) || a == b
  {
    if a != "" && b != "" {
      StringLessOrder(a[1..], b[1..], if c == "" then c else c[1..]);
      assert a == [a[0]] + a[1..] && b == [b[0]] + b[1..];
    }
  }

  lemma TupleLessOrder(x: Entry, y: Entry, z: Entry)
    ensures !(TupleLess(x, y) && TupleLess(y, x))
    ensures TupleLess(x, y) && TupleLess(y, z) ==> TupleLess(x, z)
    ensures TupleLess(x, y) && !TupleLess(z, y) ==> TupleLess(x, z)
  {
    StringLessOrder(x.info, y.info, z.info);
    StringLessOrder(y.info, z.info, x.info);
  }

  /** Insertion keeps a list in tuple order, behind entries equal to the new one, and changes nothing else. */
  lemma InsortKeepsOrder(m: seq<Entry>, x: Entry) returns (k: nat)
    requires TupleSorted(m)
    ensures k <= |m| && Insort(m, x) == m[..k] + [x] + m[k..]
    ensures forall i :: 0 <= i < k ==> !TupleLess(x, m[i])
    ensures forall i :: k <= i < |m| ==> TupleLess(x, m[i])
    ensures TupleSorted(Insort(m, x))
  {
    k := InsortPointMeaning(m, x);
    forall i | k <= i < |m| ensures !TupleLess(m[i], x) {
      TupleLessOrder(m[i], x, m[i]);
    }
  }

  lemma {:induction false} InsortPointMeaning(m: seq<Entry>, x: Entry) returns (k: nat)
    requires TupleSorted(m)
    ensures k == InsortPoint(m, x)
    ensures forall i :: 0 <= i < k ==> !TupleLess(x, m[i])
    ensures forall i :: k <= i < |m| ==> TupleLess(x, m[i])
  {
    k := InsortPoint(m, x);
    if m != [] {
      if TupleLess(x, m[0]) {
        forall i | 0 < i < |m| ensures TupleLess(x, m[i]) {
          TupleLessOrder(x, m[0], m[i]);
        }
      } else {
        var j := InsortPointMeaning(m[1..], x);
      }
    }
  }

  predicate FitsAt(m: seq<Entry>, k: nat, x: Entry)
    requires k <= |m|
  {
    && (forall i :: 0 <= i < k ==> m[i].hi <= x.lo)
    && (forall i :: k <= i < |m| ==> x.hi <= m[i].lo)
  }

  /** The gap an entry fits in is where it is inserted. */
  lemma {:induction false} InsortPointFits(m: seq<Entry>, k: nat, x: Entry)
    requires WellFormed(m) && x.lo < x.hi && k <= |m| && FitsAt(m, k, x)
    ensures InsortPoint(m, x) == k
  {
    if k > 0 {
      assert m[0].lo < m[0].hi <= x.lo;
      WellFormedSlice(m, 1, |m|);
      InsortPointFits(m[1..], k - 1, x);
    }
  }

  lemma InsortFits(m: seq<Entry>, k: nat, x: Entry)
    requires WellFormed(m) && x.lo < x.hi && k <= |m| && FitsAt(m, k, x)
    ensures Insort(m, x) == m[..k] + [x] + m[k..]
    ensures WellFormed(Insort(m, x))
  {
    InsortPointFits(m, k, x);
    WellFormedSlice(m, 0, k);
    WellFormedSlice(m, k, |m|);
    WellFormedConcat(m[..k], [x]);
    WellFormedConcat(m[..k] + [x], m[k..]);
  }

  /** A range free of mapped addresses has such a gap. */
  lemma {:induction false} FreeRangeFits(m: seq<Entry>, x: Entry) returns (k: nat)
    requires WellFormed(m) && x.lo < x.hi
    requires forall a | x.Contains(a) :: !Mapped(m, a)
    ensures k <= |m| && FitsAt(m, k, x)
  {
    if m == [] {
      k := 0;
    } else {
      assert m[0].hi <= x.lo || x.hi <= m[0].lo by {
        var a := if m[0].lo <= x.lo then x.lo else m[0].lo;
        if x.Contains(a) { assert !Mapped(m, a); }
      }
      if x.hi <= m[0].lo {
        k := 0;
      } else {
        forall a | x.Contains(a) ensures !Mapped(m[1..], a) {
          assert !Mapped(m, a);
        }
        k := FreeRangeFits(m[1..], x);
        k := k + 1;
      }
    }
  }

  /** Inserting an entry in free space keeps the list well formed and adds exactly its addresses. */
  lemma InsortFree(m: seq<Entry>, x: Entry)
    requires WellFormed(m) && x.lo < x.hi
    requires forall a | x.Contains(a) :: !Mapped(m, a)
    ensures WellFormed(Insort(m, x))
    ensures forall a :: View(Insort(m, x), a) ==
                        if x.Contains(a) then Some(x.Attributes()) else View(m, a)
  {
    var k := FreeRangeFits(m, x);
    InsortFits(m, k, x);
    forall a ensures View(Insort(m, x), a) == if x.Contains(a) then Some(x.Attributes()) else View(m, a) {
      ViewConcat(m[..k] + [x], m[k..], a);
      ViewConcat(m[..k], [x], a);
      ViewConcat(m[..k], m[k..], a);
      assert m[..k] + m[k..] == m;
    }
  }

  // ----- removal -----

  /** What is left of one entry after removing the range from s up to e. */
  function Pieces(x: Entry, s: int, e: int): seq<Entry> {
    if !x.Overlaps(s, e) then [x]
    else (if x.lo < s then [x.(hi := s)] else []) + (if e < x.hi then [x.(lo := e)] else [])
  }

  /** Removal of an address range, entry by entry. */
  function Cut(m: seq<Entry>, s: int, e: int): seq<Entry> {
    if m == [] then [] else Pieces(m[0], s, e) + Cut(m[1..], s, e)
  }

  /** Cutting removes the named addresses and no other. */
  lemma {:induction false} ViewCut(m: seq<Entry>, s: int, e: int, a: int)
    requires s <= e
    ensures View(Cut(m, s, e), a) == if s <= a < e then None else View(m, a)
  {
    if m != [] {
      ViewConcat(Pieces(m[0], s, e), Cut(m[1..], s, e), a);
      ViewCut(m[1..], s, e, a);
    }
  }

  lemma {:induction false} CutConcat(m: seq<Entry>, n: seq<Entry>, s: int, e: int)
    ensures Cut(m + n, s, e) == Cut(m, s, e) + Cut(n, s, e)
  {
    if m == [] {
      assert m + n == n;
    } else {
      assert (m + n)[1..] == m[1..] + n;
      CutConcat(m[1..], n, s, e);
    }
  }

  /** No entry overlaps the range: what the source meets as an empty list of overlaps. */
  predicate NoOverlap(m: seq<Entry>, s: int, e: int) {
    forall i :: 0 <= i < |m| ==> !m[i].Overlaps(s, e)
  }

  lemma {:induction false} CutUntouched(m: seq<Entry>, s: int, e: int)
    requires NoOverlap(m, s, e)
    ensures Cut(m, s, e) == m
  {
    if m != [] {
      assert !m[0].Overlaps(s, e);
      assert NoOverlap(m[1..], s, e) by {
        forall i | 0 <= i < |m[1..]| ensures !m[1..][i].Overlaps(s, e) {
          assert !m[i + 1].Overlaps(s, e);
        }
      }
      CutUntouched(m[1..], s, e);
    }
  }

  lemma {:induction false} CutWellFormed(m: seq<Entry>, s: int, e: int)
    requires WellFormed(m) && s <= e
    ensures WellFormed(Cut(m, s, e))
    ensures m != [] ==> forall j :: 0 <= j < |Cut(m, s, e)| ==> m[0].lo <= Cut(m, s, e)[j].lo
  {
    if m != [] {
      var head, rest := Pieces(m[0], s, e), Cut(m[1..], s, e);
      WellFormedSlice(m, 1, |m|);
      CutWellFormed(m[1..], s, e);
      forall i, j | 0 <= i < |head| && 0 <= j < |rest| ensures head[i].hi <= rest[j].lo {
        assert m[0].hi <= m[1].lo <= rest[j].lo;
      }
      WellFormedConcat(head, rest);
      assert Cut(m, s, e) == head + rest;
      assert |m| > 1 ==> m[0].lo < m[0].hi <= m[1].lo;
    }
  }
}
