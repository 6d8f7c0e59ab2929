/** Walks on the grid, the arena of closed nodes with its parent links, and the
    reconstruction of a path by following those links back to the start. */
module Paths {
  import opened Grid
  import opened Nodes

  /** A route the search may report: a non-empty sequence of in-bounds cells,
      each 4-adjacent to the one before, none after the first holding the
      block code. */
  ghost predicate IsWalk(grid: array2<int>, path: seq<Pos>)
    reads grid
  {
    |path| > 0 &&
    (forall i :: 0 <= i < |path| ==> InBounds(path[i], grid.Length0)) &&
    (forall i :: 0 < i < |path| ==> !Blocked(grid, path[i])) &&
    (forall i :: 0 < i < |path| ==> Adjacent(path[i - 1], path[i]))
  }

  /** The sequence read back to front. */
  function Reverse<T>(s: seq<T>): (r: seq<T>)
    ensures |r| == |s|
    ensures forall i :: 0 <= i < |s| ==> r[i] == s[|s| - 1 - i]
  {
    if s == [] then [] else [s[|s| - 1]] + Reverse(s[..|s| - 1])
  }

  /** Every parent link of the arena points to an earlier node. */
  ghost predicate ParentsEarlier(closed: seq<Node>) {
    forall i :: 0 <= i < |closed| && closed[i].parent.Some? ==> closed[i].parent.value < i
  }

  /** The cells from the root of node `i`'s parent chain down to node `i`. */
  function PathTo(closed: seq<Node>, i: nat): (path: seq<Pos>)
    requires i < |closed| && ParentsEarlier(closed)
    decreases i
    ensures |path| > 0 && path[|path| - 1] == At(closed[i])
  {
    match closed[i].parent
    case None => [At(closed[i])]
    case Some(p) => PathTo(closed, p) + [At(closed[i])]
  }

  /** `nd` was discovered from an in-arena node below `bound`, next to it, and
      does not hold the block code. */
  ghost predicate Linked(grid: array2<int>, closed: seq<Node>, nd: Node, bound: int)
    reads grid
  {
    nd.parent.Some? && nd.parent.value < bound <= |closed| &&
    Adjacent(At(closed[nd.parent.value]), At(nd)) && !Blocked(grid, At(nd))
  }

  /** The arena the search builds: the start node first and parentless, every
      later node linked to an earlier one, all of them in bounds. */
  ghost predicate ArenaOk(grid: array2<int>, start: Pos, closed: seq<Node>)
    reads grid
  {
    |closed| > 0 && At(closed[0]) == start && closed[0].parent.None? &&
    (forall i :: 0 <= i < |closed| ==> InBounds(At(closed[i]), grid.Length0)) &&
    (forall i :: 0 < i < |closed| ==> Linked(grid, closed, closed[i], i))
  }

  lemma ArenaParentsEarlier(grid: array2<int>, start: Pos, closed: seq<Node>)
    requires ArenaOk(grid, start, closed)
    ensures ParentsEarlier(closed)
  {
    forall i | 0 <= i < |closed| && closed[i].parent.Some?
      ensures closed[i].parent.value < i
    {
      assert i != 0;
      assert Linked(grid, closed, closed[i], i);
    }
  }

  /** Following parent links from any arena node gives a walk from the start to it. */
  lemma {:induction false} PathToWalk(grid: array2<int>, start: Pos, closed: seq<Node>, i: nat)
    requires ArenaOk(grid, start, closed) && i < |closed|
    decreases i
    ensures ParentsEarlier(closed)
    ensures IsWalk(grid, PathTo(closed, i))
    ensures PathTo(closed, i)[0] == start
  {
    ArenaParentsEarlier(grid, start, closed);
    match closed[i].parent
    case None =>
    case Some(p) =>
      assert Linked(grid, closed, closed[i], i);
      PathToWalk(grid, start, closed, p);
      var prefix := PathTo(closed, p);
      var path := prefix + [At(closed[i])];
      assert PathTo(closed, i) == path;
      assert forall k :: 0 <= k < |prefix| ==> path[k] == prefix[k];
  }

  /** Path reconstruction: collect the cells along the parent links from node
      `last` back to the root, then reverse them. */
  method Reconstruct(closed: seq<Node>, last: nat) returns (path: seq<Pos>)
    requires last < |closed| && ParentsEarlier(closed)
    ensures path == PathTo(closed, last)
  {
    var rev: seq<Pos> := [];
    var temp: Option<nat> := Some(last);
    while temp.Some?
      invariant temp.Some? ==> temp.value < |closed| && PathTo(closed, temp.value) + Reverse(rev) == PathTo(closed, last)
      invariant temp.None? ==> Reverse(rev) == PathTo(closed, last)
      decreases if temp.Some? then temp.value + 1 else 0
    {
      var t := temp.value;
      assert (rev + [At(closed[t])])[..|rev|] == rev;
      rev := rev + [At(closed[t])];
      temp := closed[t].parent;
    }
    path := Reverse(rev);
  }

  /** Every unblocked in-bounds cell next to an arena node is itself in the arena. */
  ghost predicate ClosedUnderSteps(grid: array2<int>, closed: seq<Node>)
    reads grid
  {
    forall i, q :: 0 <= i < |closed| && InBounds(q, grid.Length0) && Adjacent(At(closed[i]), q) && !Blocked(grid, q) ==>
      Has(closed, q)
  }

  /** A walk that starts inside an arena closed under steps never leaves it. */
  lemma {:induction false} WalkStaysInside(grid: array2<int>, closed: seq<Node>, p: seq<Pos>, k: nat)
    requires ClosedUnderSteps(grid, closed) && IsWalk(grid, p) && Has(closed, p[0]) && k < |p|
    decreases k
    ensures Has(closed, p[k])
  {
    if k > 0 {
      WalkStaysInside(grid, closed, p, k - 1);
      var i :| 0 <= i < |closed| && At(closed[i]) == p[k - 1];
      assert Adjacent(At(closed[i]), p[k]);
    }
  }

  /** One step from `a` toward `b`: along x while the columns differ, then along y. */
  function Toward(a: Pos, b: Pos): (c: Pos)
    requires a != b
    ensures Adjacent(a, c) && Heuristic(c, b) + 1 == Heuristic(a, b)
    ensures forall n :: InBounds(a, n) && InBounds(b, n) ==> InBounds(c, n)
  {
    if a.x < b.x then Pos(a.x + 1, a.y)
    else if a.x > b.x then Pos(a.x - 1, a.y)
    else if a.y < b.y then Pos(a.x, a.y + 1)
    else Pos(a.x, a.y - 1)
  }

  /** The walk from `a` to `b` that first fixes the column, then the row. */
  function Staircase(a: Pos, b: Pos): (path: seq<Pos>)
    decreases Heuristic(a, b)
    ensures |path| == Heuristic(a, b) + 1 && path[0] == a && path[|path| - 1] == b
  {
    if a == b then [a] else [a] + Staircase(Toward(a, b), b)
  }

  /** On a map without block codes, the staircase between two in-bounds cells
      is a walk of Manhattan length. */
  lemma {:induction false} StaircaseWalk(grid: array2<int>, a: Pos, b: Pos)
    requires InBounds(a, grid.Length0) && InBounds(b, grid.Length0)
    requires forall p :: !Blocked(grid, p)
    decreases Heuristic(a, b)
    ensures IsWalk(grid, Staircase(a, b))
  {
    if a != b {
      var c := Toward(a, b);
      StaircaseWalk(grid, c, b);
      var rest := Staircase(c, b);
      assert Staircase(a, b) == [a] + rest;
      assert forall i :: 0 < i < |rest| + 1 ==> ([a] + rest)[i] == rest[i - 1];
    }
  }
}
