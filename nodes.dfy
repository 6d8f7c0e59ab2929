/** Search nodes, the Manhattan heuristic, neighbour generation and the
    coordinate-membership test the search uses on its open and closed lists. */
module Nodes {
  import opened Grid

  /** A search node: its cell, cost from the start `g`, estimate to the end `h`,
      total `f`, and its parent as an index into the list of closed nodes. */
  datatype Node = Node(x: int, y: int, g: int, h: int, f: int, parent: Option<nat>)

  function At(nd: Node): Pos {
    Pos(nd.x, nd.y)
  }

  /** A node as built with the default arguments: both costs zero, the total
      their sum, and no parent. */
  function NewNode(x: int, y: int): (nd: Node)
    ensures nd.x == x && nd.y == y && nd.g == 0 && nd.h == 0 && nd.f == nd.g + nd.h && nd.parent.None?
  {
    Node(x, y, 0, 0, 0, None)
  }

  /** Manhattan distance between two cells. */
  function Heuristic(a: Pos, b: Pos): (d: nat)
    ensures d == 0 <==> a == b
    ensures d == 1 <==> Adjacent(a, b)
  {
    Abs(a.x - b.x) + Abs(a.y - b.y)
  }

  /** One step between adjacent cells changes the distance to any goal by exactly one. */
  lemma HeuristicStep(a: Pos, b: Pos, goal: Pos)
    requires Adjacent(a, b)
    ensures Heuristic(a, goal) == Heuristic(b, goal) + 1 || Heuristic(b, goal) == Heuristic(a, goal) + 1
  {
  }

  /** The move table, in the order the neighbours are tried. */
  const Movements: seq<(int, int)> := [(-1, 0), (1, 0), (0, -1), (0, 1)]

  /** Position in the move table of the step from `c` to `p`. */
  function MoveIndex(c: Pos, p: Pos): int {
    if p == Pos(c.x - 1, c.y) then 0
    else if p == Pos(c.x + 1, c.y) then 1
    else if p == Pos(c.x, c.y - 1) then 2
    else 3
  }

  /** The cell that move `i` of the table leads to from `c`. */
  function Step(c: Pos, i: nat): Pos
    requires i < |Movements|
  {
    Pos(c.x + Movements[i].0, c.y + Movements[i].1)
  }

  /** The move table lists exactly the four adjacent cells, each once. */
  lemma StepIsMove(c: Pos, i: nat)
    requires i < |Movements|
    ensures Adjacent(c, Step(c, i)) && MoveIndex(c, Step(c, i)) == i
  {
  }

  lemma MoveIsStep(c: Pos, p: Pos)
    requires Adjacent(c, p)
    ensures 0 <= MoveIndex(c, p) < |Movements| && p == Step(c, MoveIndex(c, p))
  {
  }

  /** `nd` is a freshly built node on an in-bounds cell next to `c`. */
  predicate FreshNeighbor(c: Pos, n: int, nd: Node) {
    nd == NewNode(nd.x, nd.y) && InBounds(At(nd), n) && Adjacent(c, At(nd))
  }

  /** The in-bounds neighbours of `c` reached by moves `i` to 3 of the table. */
  function NeighborsFrom(c: Pos, n: int, i: nat): (r: seq<Node>)
    requires i <= |Movements|
    decreases |Movements| - i
    ensures |r| <= |Movements| - i
    ensures forall k :: 0 <= k < |r| ==> FreshNeighbor(c, n, r[k]) && i <= MoveIndex(c, At(r[k]))
    ensures forall k, l :: 0 <= k < l < |r| ==> MoveIndex(c, At(r[k])) < MoveIndex(c, At(r[l]))
  {
    if i == |Movements| then []
    else
      var p := Step(c, i);
      StepIsMove(c, i);
      (if InBounds(p, n) then [NewNode(p.x, p.y)] else []) + NeighborsFrom(c, n, i + 1)
  }

  lemma {:induction false} NeighborsFromComplete(c: Pos, n: int, i: nat, p: Pos)
    requires i <= |Movements|
    requires InBounds(p, n) && Adjacent(c, p) && i <= MoveIndex(c, p)
    decreases |Movements| - i
    ensures Has(NeighborsFrom(c, n, i), p)
  {
    MoveIsStep(c, p);
    var q := Step(c, i);
    var head := if InBounds(q, n) then [NewNode(q.x, q.y)] else [];
    var rest := NeighborsFrom(c, n, i + 1);
    assert NeighborsFrom(c, n, i) == head + rest;
    if MoveIndex(c, p) == i {
      assert At((head + rest)[0]) == p;
    } else {
      NeighborsFromComplete(c, n, i + 1, p);
      HasAfter(head, rest, p);
    }
  }

  /** A cell present in `rest` is still present once a prefix is put in front. */
  lemma HasAfter(head: seq<Node>, rest: seq<Node>, p: Pos)
    requires Has(rest, p)
    ensures Has(head + rest, p)
  {
    var k :| 0 <= k < |rest| && At(rest[k]) == p;
    assert (head + rest)[|head| + k] == rest[k];
  }

  /** The cells next to a node that lie in the n-by-n grid, as fresh nodes,
      in the order x-1, x+1, y-1, y+1. */
  function GenerateNeighbors(nd: Node, n: int): (r: seq<Node>)
    ensures |r| <= 4
    ensures forall k :: 0 <= k < |r| ==> FreshNeighbor(At(nd), n, r[k])
    ensures forall k, l :: 0 <= k < l < |r| ==> MoveIndex(At(nd), At(r[k])) < MoveIndex(At(nd), At(r[l]))
  {
    NeighborsFrom(At(nd), n, 0)
  }

  /** Every in-bounds cell next to a node is among its generated neighbours. */
  lemma GenerateNeighborsComplete(nd: Node, n: int, p: Pos)
    requires InBounds(p, n) && Adjacent(At(nd), p)
    ensures Has(GenerateNeighbors(nd, n), p)
  {
    MoveIsStep(At(nd), p);
    NeighborsFromComplete(At(nd), n, 0, p);
  }

  /** Some node of `s` sits on cell `p`. */
  ghost predicate Has(s: seq<Node>, p: Pos) {
    exists i :: 0 <= i < |s| && At(s[i]) == p
  }

  /** The membership scan over a node list, comparing coordinates. */
  function ContainsCell(s: seq<Node>, p: Pos): (r: bool)
    ensures r <==> Has(s, p)
  {
    if s == [] then false
    else
      var r := At(s[0]) == p || ContainsCell(s[1..], p);
      assert Has(s[1..], p) ==> Has(s, p) by {
        if Has(s[1..], p) {
          var i :| 0 <= i < |s[1..]| && At(s[1..][i]) == p;
          assert At(s[i + 1]) == p;
        }
      }
      r
  }

  /** No two nodes of `s` sit on the same cell. */
  ghost predicate Distinct(s: seq<Node>) {
    forall i, j :: 0 <= i < j < |s| ==> At(s[i]) != At(s[j])
  }
}
