/** The A* run: an open list scanned for the lowest total cost, a closed list
    that doubles as the arena parent links index into, and neighbour
    expansion with the Manhattan heuristic. */
module AStar {
  import opened Grid
  import opened Nodes
  import opened Paths

  /** Index of the open node with the smallest `f`; among equals, the first,
      since the scan only moves on a strictly smaller value. */
  method LowestF(openSet: seq<Node>) returns (k: nat)
    requires |openSet| > 0
    ensures k < |openSet|
    ensures forall j :: 0 <= j < |openSet| ==> openSet[k].f <= openSet[j].f
    ensures forall j :: 0 <= j < k ==> openSet[k].f < openSet[j].f
  {
    k := 0;
    for i := 1 to |openSet|
      invariant k < i
      invariant forall j :: 0 <= j < i ==> openSet[k].f <= openSet[j].f
      invariant forall j :: 0 <= j < k ==> openSet[k].f < openSet[j].f
    {
      if openSet[i].f < openSet[k].f {
        k := i;
      }
    }
  }

  /** No cell is both closed and open. */
  ghost predicate Disjoint(closedSet: seq<Node>, openSet: seq<Node>) {
    forall i, j :: 0 <= i < |closedSet| && 0 <= j < |openSet| ==> At(closedSet[i]) != At(openSet[j])
  }

  /** `nd` was just discovered from the last closed node: linked to it, one
      step dearer, its estimate and total filled in, in bounds and unblocked. */
  ghost predicate Discovered(grid: array2<int>, endPos: Pos, closedSet: seq<Node>, nd: Node)
    reads grid
    requires |closedSet| > 0
  {
    var current := closedSet[|closedSet| - 1];
    nd.parent == Some(|closedSet| - 1) &&
    nd.g == current.g + 1 && nd.h == Heuristic(At(nd), endPos) && nd.f == nd.g + nd.h &&
    InBounds(At(nd), grid.Length0) && Adjacent(At(current), At(nd)) && !Blocked(grid, At(nd))
  }

  lemma HasGrow(s: seq<Node>, t: seq<Node>, p: Pos)
    requires Has(s, p) && |s| <= |t| && t[..|s|] == s
    ensures Has(t, p)
  {
    var i :| 0 <= i < |s| && At(s[i]) == p;
    assert t[i] == s[i];
  }

  lemma AppendUnseen(closedSet: seq<Node>, s: seq<Node>, nd: Node)
    requires Distinct(s) && Disjoint(closedSet, s) && !Has(s, At(nd)) && !Has(closedSet, At(nd))
    ensures Distinct(s + [nd]) && Disjoint(closedSet, s + [nd])
  {
    var t := s + [nd];
    forall i, j | 0 <= i < j < |t| ensures At(t[i]) != At(t[j]) {
      if j == |s| { assert At(s[i]) != At(nd); }
    }
    forall i, j | 0 <= i < |closedSet| && 0 <= j < |t| ensures At(closedSet[i]) != At(t[j]) {
      if j == |s| { assert At(closedSet[i]) != At(nd); }
    }
  }

  /** One generated neighbour of the last closed node: skipped when its cell is
      closed or blocked; otherwise it takes the last closed node as parent and
      its costs, and joins the open list unless its cell is already open. The
      program also re-links when the new cost beats the neighbour's recorded
      one, but the neighbour is always a fresh node with cost 0, so that test
      never passes, and a re-linked node that is already open is not added:
      open nodes are never improved. */
  method Visit(grid: array2<int>, endPos: Pos, closedSet: seq<Node>, openSet: seq<Node>, neighbor: Node)
    returns (next: seq<Node>)
    requires grid.Length0 == grid.Length1 && |closedSet| > 0
    requires FreshNeighbor(At(closedSet[|closedSet| - 1]), grid.Length0, neighbor)
    requires Distinct(openSet) && Disjoint(closedSet, openSet)
    ensures next == openSet || (|next| == |openSet| + 1 && next[..|openSet|] == openSet &&
      At(next[|openSet|]) == At(neighbor) && Discovered(grid, endPos, closedSet, next[|openSet|]))
    ensures Distinct(next) && Disjoint(closedSet, next)
    ensures Blocked(grid, At(neighbor)) || Has(closedSet, At(neighbor)) || Has(next, At(neighbor))
  {
    next := openSet;
    var ci := |closedSet| - 1;
    var current := closedSet[ci];
    if ContainsCell(closedSet, At(neighbor)) || grid[neighbor.x, neighbor.y] == Block {
      return;
    }
    var tentativeG := current.g + 1;
    var linked := neighbor;
    if !ContainsCell(openSet, At(neighbor)) || tentativeG < neighbor.g {
      linked := linked.(parent := Some(ci), g := tentativeG);
      linked := linked.(h := Heuristic(At(linked), endPos));
      linked := linked.(f := linked.g + linked.h);
      if !ContainsCell(openSet, At(linked)) {
        AppendUnseen(closedSet, openSet, linked);
        next := openSet + [linked];
        assert next[..|openSet|] == openSet;
        assert At(next[|openSet|]) == At(neighbor);
      }
    }
  }

  /** The nodes of `s` from index `from` on are in move-table order around `c`. */
  ghost predicate InMoveOrder(c: Pos, s: seq<Node>, from: nat) {
    forall j, l :: from <= j < l < |s| ==> MoveIndex(c, At(s[j])) < MoveIndex(c, At(s[l]))
  }

  /** The nodes of `s` from index `from` on all come before neighbours `i` onwards in the move table. */
  ghost predicate BeforeMoves(c: Pos, s: seq<Node>, from: nat, neighbors: seq<Node>, i: nat) {
    forall j, k :: from <= j < |s| && i <= k < |neighbors| ==> MoveIndex(c, At(s[j])) < MoveIndex(c, At(neighbors[k]))
  }

  /** Visiting neighbour `i` keeps the appended nodes in move-table order. */
  lemma OrderStep(c: Pos, before: seq<Node>, next: seq<Node>, from: nat, neighbors: seq<Node>, i: nat)
    requires from <= |before| && i < |neighbors|
    requires forall k, l :: 0 <= k < l < |neighbors| ==> MoveIndex(c, At(neighbors[k])) < MoveIndex(c, At(neighbors[l]))
    requires InMoveOrder(c, before, from) && BeforeMoves(c, before, from, neighbors, i)
    requires next == before || (|next| == |before| + 1 && next[..|before|] == before && At(next[|before|]) == At(neighbors[i]))
    ensures InMoveOrder(c, next, from) && BeforeMoves(c, next, from, neighbors, i + 1)
  {
    if next != before {
      assert forall j :: 0 <= j < |before| ==> next[j] == before[j];
    }
  }

  /** Every node of `s` from index `from` on was discovered from the last closed node. */
  ghost predicate AllDiscovered(grid: array2<int>, endPos: Pos, closedSet: seq<Node>, s: seq<Node>, from: nat)
    reads grid
    requires |closedSet| > 0
  {
    forall j :: from <= j < |s| ==> Discovered(grid, endPos, closedSet, s[j])
  }

  /** The cells of neighbours 0 to i-1 are blocked, closed or open. */
  ghost predicate SeenUpTo(grid: array2<int>, closedSet: seq<Node>, s: seq<Node>, neighbors: seq<Node>, i: nat)
    reads grid
    requires i <= |neighbors|
  {
    forall k :: 0 <= k < i ==>
      Blocked(grid, At(neighbors[k])) || Has(closedSet, At(neighbors[k])) || Has(s, At(neighbors[k]))
  }

  /** Visiting neighbour `i` keeps the old open list as a prefix, the appended
      nodes discovered, and the neighbours visited so far seen. */
  lemma VisitStep(grid: array2<int>, endPos: Pos, closedSet: seq<Node>, openSet: seq<Node>,
                  before: seq<Node>, next: seq<Node>, neighbors: seq<Node>, i: nat)
    requires |closedSet| > 0 && i < |neighbors|
    requires |openSet| <= |before| && before[..|openSet|] == openSet
    requires AllDiscovered(grid, endPos, closedSet, before, |openSet|)
    requires SeenUpTo(grid, closedSet, before, neighbors, i)
    requires next == before || (|next| == |before| + 1 && next[..|before|] == before &&
      At(next[|before|]) == At(neighbors[i]) && Discovered(grid, endPos, closedSet, next[|before|]))
    requires Blocked(grid, At(neighbors[i])) || Has(closedSet, At(neighbors[i])) || Has(next, At(neighbors[i]))
    ensures |openSet| <= |next| && next[..|openSet|] == openSet
    ensures AllDiscovered(grid, endPos, closedSet, next, |openSet|)
    ensures SeenUpTo(grid, closedSet, next, neighbors, i + 1)
  {
    if next != before {
      forall k | 0 <= k < i && Has(before, At(neighbors[k]))
        ensures Has(next, At(neighbors[k]))
      {
        HasGrow(before, next, At(neighbors[k]));
      }
      assert forall j :: 0 <= j < |before| ==> next[j] == before[j];
    }
  }

  /** Expansion of the last closed node: every generated neighbour is visited
      in order. Nodes already open are left exactly as they were, the new ones
      follow in the order their cells were generated (x-1, x+1, y-1, y+1), and
      every unblocked in-bounds cell next to the expanded node ends up closed
      or open. */
  method Expand(grid: array2<int>, endPos: Pos, closedSet: seq<Node>, openSet: seq<Node>) returns (next: seq<Node>)
    requires grid.Length0 == grid.Length1
    requires |closedSet| > 0 && InBounds(At(closedSet[|closedSet| - 1]), grid.Length0)
    requires Distinct(openSet) && Disjoint(closedSet, openSet)
    ensures |openSet| <= |next| && next[..|openSet|] == openSet
    ensures Distinct(next) && Disjoint(closedSet, next)
    ensures forall j :: |openSet| <= j < |next| ==> Discovered(grid, endPos, closedSet, next[j])
    ensures forall j, l :: |openSet| <= j < l < |next| ==>
      MoveIndex(At(closedSet[|closedSet| - 1]), At(next[j])) < MoveIndex(At(closedSet[|closedSet| - 1]), At(next[l]))
    ensures forall q :: InBounds(q, grid.Length0) && Adjacent(At(closedSet[|closedSet| - 1]), q) && !Blocked(grid, q) ==>
      Has(closedSet, q) || Has(next, q)
  {
    var current := closedSet[|closedSet| - 1];
    var neighbors := GenerateNeighbors(current, grid.Length0);
    next := openSet;
    for i := 0 to |neighbors|
      invariant |openSet| <= |next| && next[..|openSet|] == openSet
      invariant Distinct(next) && Disjoint(closedSet, next)
      invariant AllDiscovered(grid, endPos, closedSet, next, |openSet|)
      invariant InMoveOrder(At(current), next, |openSet|)
      invariant BeforeMoves(At(current), next, |openSet|, neighbors, i)
      invariant SeenUpTo(grid, closedSet, next, neighbors, i)
    {
      var before := next;
      next := Visit(grid, endPos, closedSet, next, neighbors[i]);
      OrderStep(At(current), before, next, |openSet|, neighbors, i);
      VisitStep(grid, endPos, closedSet, openSet, before, next, neighbors, i);
    }
    forall q | InBounds(q, grid.Length0) && Adjacent(At(current), q) && !Blocked(grid, q)
      ensures Has(closedSet, q) || Has(next, q)
    {
      GenerateNeighborsComplete(current, grid.Length0, q);
    }
  }

  /** Cells of the nodes of `s`. */
  ghost function Cells(s: seq<Node>): set<Pos> {
    set i | 0 <= i < |s| :: At(s[i])
  }

  lemma {:induction false} CellsCard(s: seq<Node>)
    requires Distinct(s)
    ensures |Cells(s)| == |s|
  {
    if |s| > 0 {
      var t := s[..|s| - 1];
      assert Cells(s) == Cells(t) + {At(s[|s| - 1])};
      assert At(s[|s| - 1]) !in Cells(t);
      CellsCard(t);
    }
  }

  /** A list of nodes on pairwise different cells of an n-by-n grid has at
      most n² entries: no cell can be closed twice, so the search runs at most
      n² rounds. */
  lemma DistinctBound(s: seq<Node>, n: nat)
    requires Distinct(s)
    requires forall i :: 0 <= i < |s| ==> InBounds(At(s[i]), n)
    ensures |s| <= n * n
  {
    CellsCard(s);
    assert Cells(s) <= Box(n);
    SubsetCard(Cells(s), Box(n));
    BoxCard(n);
  }

  /** Every open node is in bounds and linked to a closed node next to it. */
  ghost predicate FrontierOk(grid: array2<int>, closedSet: seq<Node>, openSet: seq<Node>)
    reads grid
  {
    forall j :: 0 <= j < |openSet| ==>
      InBounds(At(openSet[j]), grid.Length0) && Linked(grid, closedSet, openSet[j], |closedSet|)
  }

  /** Every unblocked in-bounds cell next to one of the first `upto` closed
      nodes is closed or open. */
  ghost predicate CoveredBelow(grid: array2<int>, closedSet: seq<Node>, openSet: seq<Node>, upto: int)
    reads grid
  {
    forall i, q :: 0 <= i < upto && i < |closedSet| && InBounds(q, grid.Length0) && Adjacent(At(closedSet[i]), q) && !Blocked(grid, q) ==>
      Has(closedSet, q) || Has(openSet, q)
  }

  /** No closed node sits on the end cell. */
  ghost predicate EndNotClosed(endPos: Pos, closedSet: seq<Node>, upto: int) {
    forall i :: 0 <= i < upto && i < |closedSet| ==> At(closedSet[i]) != endPos
  }

  /** What holds of the open and closed lists at the top of every round. */
  ghost predicate SearchInv(grid: array2<int>, startPos: Pos, endPos: Pos, closedSet: seq<Node>, openSet: seq<Node>)
    reads grid
  {
    (|closedSet| == 0 ==> openSet == [NewNode(startPos.x, startPos.y)]) &&
    (|closedSet| > 0 ==> ArenaOk(grid, startPos, closedSet) && FrontierOk(grid, closedSet, openSet)) &&
    Distinct(closedSet) && Distinct(openSet) && Disjoint(closedSet, openSet) &&
    EndNotClosed(endPos, closedSet, |closedSet|) &&
    CoveredBelow(grid, closedSet, openSet, |closedSet|)
  }

  /** The open list with entry `k` taken out. */
  function Without(openSet: seq<Node>, k: nat): (rest: seq<Node>)
    requires k < |openSet|
    ensures |rest| == |openSet| - 1
    ensures forall j :: 0 <= j < |rest| ==> rest[j] == openSet[if j < k then j else j + 1]
  {
    openSet[..k] + openSet[k + 1..]
  }

  /** Closing open node `k` keeps the arena well formed and every remaining
      open node linked. */
  lemma CloseKeepsArena(grid: array2<int>, startPos: Pos, closedSet: seq<Node>, openSet: seq<Node>, k: nat)
    requires InBounds(startPos, grid.Length0) && k < |openSet|
    requires |closedSet| == 0 ==> openSet == [NewNode(startPos.x, startPos.y)]
    requires |closedSet| > 0 ==> ArenaOk(grid, startPos, closedSet) && FrontierOk(grid, closedSet, openSet)
    ensures ArenaOk(grid, startPos, closedSet + [openSet[k]])
    ensures FrontierOk(grid, closedSet + [openSet[k]], Without(openSet, k))
  {
    var closed := closedSet + [openSet[k]];
    var rest := Without(openSet, k);
    assert forall i :: 0 <= i < |closedSet| ==> closed[i] == closedSet[i];
    if |closedSet| > 0 {
      assert Linked(grid, closedSet, openSet[k], |closedSet|);
      forall i | 0 < i < |closed| ensures Linked(grid, closed, closed[i], i) {
        if i < |closedSet| {
          assert Linked(grid, closedSet, closedSet[i], i);
        }
      }
      forall j | 0 <= j < |rest| ensures Linked(grid, closed, rest[j], |closed|) {
        var o := if j < k then j else j + 1;
        assert Linked(grid, closedSet, openSet[o], |closedSet|);
      }
    }
  }

  /** Closing open node `k` keeps cells unique within and across the lists. */
  lemma CloseKeepsDistinct(closedSet: seq<Node>, openSet: seq<Node>, k: nat)
    requires k < |openSet|
    requires Distinct(closedSet) && Distinct(openSet) && Disjoint(closedSet, openSet)
    ensures Distinct(closedSet + [openSet[k]]) && Distinct(Without(openSet, k))
    ensures Disjoint(closedSet + [openSet[k]], Without(openSet, k))
  {
    var closed := closedSet + [openSet[k]];
    var rest := Without(openSet, k);
    forall i, j | 0 <= i < j < |closed| ensures At(closed[i]) != At(closed[j]) {
      if j == |closedSet| {
        assert At(closedSet[i]) != At(openSet[k]);
      }
    }
    forall i, j | 0 <= i < |closed| && 0 <= j < |rest| ensures At(closed[i]) != At(rest[j]) {
      var o := if j < k then j else j + 1;
      if i == |closedSet| {
        assert At(openSet[k]) != At(openSet[o]);
      } else {
        assert At(closedSet[i]) != At(openSet[o]);
      }
    }
  }

  /** Closing open node `k` keeps the already closed nodes covered. */
  lemma CloseKeepsCovered(grid: array2<int>, closedSet: seq<Node>, openSet: seq<Node>, k: nat)
    requires k < |openSet|
    requires CoveredBelow(grid, closedSet, openSet, |closedSet|)
    ensures CoveredBelow(grid, closedSet + [openSet[k]], Without(openSet, k), |closedSet|)
  {
    var closed := closedSet + [openSet[k]];
    var rest := Without(openSet, k);
    forall i, q | 0 <= i < |closedSet| && InBounds(q, grid.Length0) && Adjacent(At(closed[i]), q) && !Blocked(grid, q)
      ensures Has(closed, q) || Has(rest, q)
    {
      assert closed[i] == closedSet[i];
      if Has(closedSet, q) {
        var c :| 0 <= c < |closedSet| && At(closedSet[c]) == q;
        assert At(closed[c]) == q;
      } else {
        var o :| 0 <= o < |openSet| && At(openSet[o]) == q;
        if o == k {
          assert At(closed[|closedSet|]) == q;
        } else {
          assert At(rest[if o < k then o else o - 1]) == q;
        }
      }
    }
  }

  /** After the last closed node (not the end) is expanded, the round's
      invariant holds again of the closed list and the grown open list. */
  lemma ExpandStep(grid: array2<int>, startPos: Pos, endPos: Pos, closedSet: seq<Node>, rest: seq<Node>, next: seq<Node>)
    requires |closedSet| > 0
    requires ArenaOk(grid, startPos, closedSet) && FrontierOk(grid, closedSet, rest)
    requires Distinct(closedSet) && Distinct(next) && Disjoint(closedSet, next)
    requires EndNotClosed(endPos, closedSet, |closedSet|)
    requires CoveredBelow(grid, closedSet, rest, |closedSet| - 1)
    requires |rest| <= |next| && next[..|rest|] == rest
    requires forall j :: |rest| <= j < |next| ==> Discovered(grid, endPos, closedSet, next[j])
    requires forall q :: InBounds(q, grid.Length0) && Adjacent(At(closedSet[|closedSet| - 1]), q) && !Blocked(grid, q) ==>
      Has(closedSet, q) || Has(next, q)
    ensures SearchInv(grid, startPos, endPos, closedSet, next)
  {
    forall j | 0 <= j < |next|
      ensures InBounds(At(next[j]), grid.Length0) && Linked(grid, closedSet, next[j], |closedSet|)
    {
      if j < |rest| {
        assert next[j] == rest[j];
      } else {
        assert Discovered(grid, endPos, closedSet, next[j]);
      }
    }
    forall i, q | 0 <= i < |closedSet| && InBounds(q, grid.Length0) && Adjacent(At(closedSet[i]), q) && !Blocked(grid, q)
      ensures Has(closedSet, q) || Has(next, q)
    {
      if i < |closedSet| - 1 && !Has(closedSet, q) {
        HasGrow(rest, next, q);
      }
    }
  }

  /** When the node just closed sits on the end cell, its parent chain is a
      walk from the start to the end; when start and end coincide it is the
      start node alone. */
  lemma Found(grid: array2<int>, startPos: Pos, endPos: Pos, closedSet: seq<Node>)
    requires ArenaOk(grid, startPos, closedSet) && At(closedSet[|closedSet| - 1]) == endPos
    requires EndNotClosed(endPos, closedSet, |closedSet| - 1)
    ensures ParentsEarlier(closedSet)
    ensures var path := PathTo(closedSet, |closedSet| - 1);
      IsWalk(grid, path) && path[0] == startPos && path[|path| - 1] == endPos &&
      (startPos == endPos ==> path == [startPos])
  {
    PathToWalk(grid, startPos, closedSet, |closedSet| - 1);
    if startPos == endPos {
      assert |closedSet| == 1;
    }
  }

  /** When the open list runs empty, the closed cells are closed under steps
      and hold the start but not the end, so no walk from the start reaches
      the end. */
  lemma Exhausted(grid: array2<int>, startPos: Pos, endPos: Pos, closedSet: seq<Node>)
    requires SearchInv(grid, startPos, endPos, closedSet, [])
    ensures forall p :: IsWalk(grid, p) && p[0] == startPos ==> p[|p| - 1] != endPos
  {
    forall i, q | 0 <= i < |closedSet| && InBounds(q, grid.Length0) && Adjacent(At(closedSet[i]), q) && !Blocked(grid, q)
      ensures Has(closedSet, q)
    {
      assert !Has([], q);
    }
    assert ClosedUnderSteps(grid, closedSet);
    forall p | IsWalk(grid, p) && p[0] == startPos
      ensures p[|p| - 1] != endPos
    {
      assert At(closedSet[0]) == p[0];
      WalkStaysInside(grid, closedSet, p, |p| - 1);
    }
  }

  /** The A* run from `startPos` towards `endPos` over an n-by-n map of cell
      codes. A returned path is a walk from the start to the end that never
      steps on a blocked cell; no path is returned only when no such walk
      exists; the number of rounds is at most n². */
  method Search(grid: array2<int>, startPos: Pos, endPos: Pos) returns (r: Option<seq<Pos>>, ghost rounds: nat)
    requires grid.Length0 == grid.Length1
    requires InBounds(startPos, grid.Length0)
    ensures 1 <= rounds <= grid.Length0 * grid.Length0
    ensures r.Some? ==> IsWalk(grid, r.value) && r.value[0] == startPos && r.value[|r.value| - 1] == endPos
    ensures r.None? ==> forall p :: IsWalk(grid, p) && p[0] == startPos ==> p[|p| - 1] != endPos
    ensures startPos == endPos ==> r == Some([startPos])
  {
    var n := grid.Length0;
    var openSet := [NewNode(startPos.x, startPos.y)];
    var closedSet: seq<Node> := [];
    rounds := 0;
    while |openSet| > 0
      invariant SearchInv(grid, startPos, endPos, closedSet, openSet)
      invariant rounds == |closedSet| <= n * n
      decreases n * n - |closedSet|
    {
      var k := LowestF(openSet);
      var current := openSet[k];
      CloseKeepsArena(grid, startPos, closedSet, openSet, k);
      CloseKeepsDistinct(closedSet, openSet, k);
      CloseKeepsCovered(grid, closedSet, openSet, k);
      openSet := Without(openSet, k);
      closedSet := closedSet + [current];
      rounds := rounds + 1;
      DistinctBound(closedSet, n);
      if current.x == endPos.x && current.y == endPos.y {
        Found(grid, startPos, endPos, closedSet);
        var path := Reconstruct(closedSet, |closedSet| - 1);
        return Some(path), rounds;
      }
      ghost var rest := openSet;
      openSet := Expand(grid, endPos, closedSet, openSet);
      ExpandStep(grid, startPos, endPos, closedSet, rest, openSet);
    }
    r := None;
    Exhausted(grid, startPos, endPos, closedSet);
  }
}
