/**
  Circular doubly linked lists as they lie in memory: two words at each node's address,
  the next node's address and the previous node's.
*/
module LdrRings {

  /** One of the two words of every node, by node address. */
  type Link = int -> int

  function At(link: Link, node: int): int {
    link(node)
  }

  function Next(nodes: seq<int>, i: nat): int
    requires i < |nodes|
  {
    if i + 1 == |nodes| then nodes[0] else nodes[i + 1]
  }

  function Previous(nodes: seq<int>, i: nat): int
    requires i < |nodes|
  {
    if i == 0 then nodes[|nodes| - 1] else nodes[i - 1]
  }

  ghost predicate LinkedForward(flink: Link, nodes: seq<int>) {
    forall i {:trigger Next(nodes, i)} :: 0 <= i < |nodes| ==> At(flink, nodes[i]) == Next(nodes, i)
  }

  ghost predicate LinkedBack(blink: Link, nodes: seq<int>) {
    forall i {:trigger Previous(nodes, i)} :: 0 <= i < |nodes| ==> At(blink, nodes[i]) == Previous(nodes, i)
  }

  /** nodes[0] is the list head. */
  ghost predicate Ring(flink: Link, blink: Link, nodes: seq<int>) {
    nodes != [] && LinkedForward(flink, nodes) && LinkedBack(blink, nodes)
  }

  /** Forward links after an insertion behind the last node; all others are as they were. */
  ghost predicate ForwardInserted(f: Link, f': Link, nodes: seq<int>, node: int)
    requires nodes != []
  {
    var last := nodes[|nodes| - 1];
    && At(f', node) == At(f, last) && At(f', last) == node
    && forall i {:trigger At(f', nodes[i])} :: 0 <= i < |nodes| - 1 ==> At(f', nodes[i]) == At(f, nodes[i])
  }

  ghost predicate BackInserted(b: Link, b': Link, nodes: seq<int>, node: int)
    requires nodes != []
  {
    && At(b', node) == At(b, nodes[0]) && At(b', nodes[0]) == node
    && forall i {:trigger At(b', nodes[i])} :: 0 < i < |nodes| ==> At(b', nodes[i]) == At(b, nodes[i])
  }

  lemma ForwardGrows(f: Link, f': Link, nodes: seq<int>, node: int)
    requires nodes != [] && LinkedForward(f, nodes) && ForwardInserted(f, f', nodes, node)
    ensures LinkedForward(f', nodes + [node])
  {
    var n, grown := |nodes|, nodes + [node];
    assert At(f, nodes[n - 1]) == Next(nodes, n - 1);
    forall i | 0 <= i < n + 1 ensures At(f', grown[i]) == Next(grown, i) {
      if i < n - 1 {
        assert At(f, nodes[i]) == Next(nodes, i);
        assert At(f', nodes[i]) == At(f, nodes[i]);
      }
    }
  }

  lemma BackGrows(b: Link, b': Link, nodes: seq<int>, node: int)
    requires nodes != [] && LinkedBack(b, nodes) && BackInserted(b, b', nodes, node)
    ensures LinkedBack(b', nodes + [node])
  {
    var n, grown := |nodes|, nodes + [node];
    assert At(b, nodes[0]) == Previous(nodes, 0);
    forall i | 0 <= i < n + 1 ensures At(b', grown[i]) == Previous(grown, i) {
      if 0 < i < n {
        assert At(b, nodes[i]) == Previous(nodes, i);
        assert At(b', nodes[i]) == At(b, nodes[i]);
      }
    }
  }

  /** Such an insertion makes the node the last of a well-formed ring. */
  lemma InsertedGrowsRing(f: Link, b: Link, f': Link, b': Link, nodes: seq<int>, node: int)
    requires Ring(f, b, nodes)
    requires ForwardInserted(f, f', nodes, node) && BackInserted(b, b', nodes, node)
    ensures Ring(f', b', nodes + [node])
  {
    ForwardGrows(f, f', nodes, node);
    BackGrows(b, b', nodes, node);
  }

  // ----- walking a list -----

  /** Addresses met in n steps along a link. */
  function Walk(link: Link, at: int, n: nat): seq<int>
    decreases n
  {
    if n == 0 then [] else [At(link, at)] + Walk(link, At(link, at), n - 1)
  }

  lemma {:induction false} WalkForwardFrom(flink: Link, nodes: seq<int>, i: nat)
    requires LinkedForward(flink, nodes) && i < |nodes|
    ensures Walk(flink, nodes[i], |nodes| - i) == nodes[i + 1..] + [nodes[0]]
    decreases |nodes| - i
  {
    assert At(flink, nodes[i]) == Next(nodes, i);
    if i + 1 < |nodes| {
      WalkForwardFrom(flink, nodes, i + 1);
      assert nodes[i + 1..] == [nodes[i + 1]] + nodes[i + 2..];
    }
  }

  /** Following the forward links from the head visits the entries in order and returns to the head. */
  lemma WalkForward(flink: Link, blink: Link, nodes: seq<int>)
    requires Ring(flink, blink, nodes)
    ensures Walk(flink, nodes[0], |nodes|) == nodes[1..] + [nodes[0]]
  {
    WalkForwardFrom(flink, nodes, 0);
  }

  function Reversed(s: seq<int>): seq<int> {
    if s == [] then [] else [s[|s| - 1]] + Reversed(s[..|s| - 1])
  }

  lemma {:induction false} WalkBackFrom(blink: Link, nodes: seq<int>, i: nat)
    requires LinkedBack(blink, nodes) && i < |nodes|
    ensures Walk(blink, nodes[i], i) == Reversed(nodes[..i])
  {
    if i > 0 {
      assert At(blink, nodes[i]) == Previous(nodes, i);
      WalkBackFrom(blink, nodes, i - 1);
      assert nodes[..i][..i - 1] == nodes[..i - 1];
    }
  }

  /** Following the back links from the head visits the entries in reverse order and returns to the head. */
  lemma WalkBack(flink: Link, blink: Link, nodes: seq<int>)
    requires Ring(flink, blink, nodes)
    ensures Walk(blink, nodes[0], |nodes|) == Reversed(nodes)
  {
    var n := |nodes|;
    assert At(blink, nodes[0]) == Previous(nodes, 0);
    WalkBackFrom(blink, nodes, n - 1);
    assert nodes[..n] == nodes;
  }
}
