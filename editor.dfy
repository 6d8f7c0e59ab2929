/** The editor's state: the cell-code map, the start and end cells and the
    list of painted blocks, with the edits the mouse handlers make to them. */
module Editor {
  import opened Grid
  import opened Arrays
  import opened Paths
  import AStar

  /** Values of the editor's `mode` (set by the toolbar buttons). */
  const StartMode: int := 0
  const EndMode: int := 1
  const BuildMode: int := 2

  class Board {
    var grid: array2<int>
    var startPos: Pos
    var endPos: Pos
    var blockList: seq<seq<int>>

    ghost predicate Valid()
      reads this
    {
      grid.Length0 == GridS && grid.Length1 == GridS &&
      InBounds(startPos, GridS) && InBounds(endPos, GridS)
    }

    /** Exactly one start cell, at `startPos`, and exactly one end cell, at `endPos`. */
    ghost predicate WellPlaced()
      reads this, grid
      requires Valid()
    {
      startPos != endPos &&
      forall i, j :: 0 <= i < GridS && 0 <= j < GridS ==>
        (grid[i, j] == StartCode <==> Pos(i, j) == startPos) &&
        (grid[i, j] == EndCode <==> Pos(i, j) == endPos)
    }

    /** The map holds only the codes the editor writes: never the block code. */
    ghost predicate EditorCodes()
      reads this, grid
      requires Valid()
    {
      forall i, j :: 0 <= i < GridS && 0 <= j < GridS ==>
        grid[i, j] == Void || grid[i, j] == StartCode || grid[i, j] == EndCode
    }

    /** The start-up placement, with the two random cells as parameters. The
        retry loop meant to keep them apart compares array identities, so it
        never retries: when both draws coincide the end code overwrites the
        start code and the map has no start cell. */
    constructor (s: Pos, e: Pos)
      requires InBounds(s, GridS) && InBounds(e, GridS)
      ensures Valid() && fresh(grid)
      ensures startPos == s && endPos == e && blockList == []
      ensures forall i, j :: 0 <= i < GridS && 0 <= j < GridS ==>
        grid[i, j] == if Pos(i, j) == e then EndCode else if Pos(i, j) == s then StartCode else Void
      ensures EditorCodes()
      ensures s != e ==> WellPlaced()
    {
      var m := CreateGrid(GridS);
      m[s.x, s.y] := StartCode;
      m[e.x, e.y] := EndCode;
      grid := m;
      startPos, endPos := s, e;
      blockList := [];
    }

    /** A click at pixel (mx, my). In start mode (end mode) an empty target cell
        receives the start (end) code, the old start (end) cell is emptied and
        the position moves; any other click changes nothing. The program's test
        that the target differs from the current position compares array
        identities and always passes; an occupied target is refused anyway. */
    method Click(mode: int, mx: nat, my: nat)
      requires Valid()
      requires mx < CanvasSize && my < CanvasSize
      modifies this`startPos, this`endPos, grid
      ensures Valid()
      ensures var t := CellOf(mx, my);
        var moveStart := mode == StartMode && old(grid[t.x, t.y]) == Void;
        var moveEnd := mode == EndMode && old(grid[t.x, t.y]) == Void;
        && startPos == (if moveStart then t else old(startPos))
        && endPos == (if moveEnd then t else old(endPos))
        && forall i, j :: 0 <= i < GridS && 0 <= j < GridS ==>
             grid[i, j] == if moveStart && Pos(i, j) == t then StartCode
                           else if moveStart && Pos(i, j) == old(startPos) then Void
                           else if moveEnd && Pos(i, j) == t then EndCode
                           else if moveEnd && Pos(i, j) == old(endPos) then Void
                           else old(grid[i, j])
      ensures old(WellPlaced()) ==> WellPlaced()
      ensures old(EditorCodes()) ==> EditorCodes()
    {
      var t := CellOf(mx, my);
      if mode == StartMode && grid[t.x, t.y] == Void {
        grid[startPos.x, startPos.y] := Void;
        grid[t.x, t.y] := StartCode;
        startPos := t;
        return;
      }
      if mode == EndMode && grid[t.x, t.y] == Void {
        grid[endPos.x, endPos.y] := Void;
        grid[t.x, t.y] := EndCode;
        endPos := t;
        return;
      }
    }

    /** Painting in build mode over pixel (mx, my): the cell joins `blockList`
        unless it is already listed or is the current start or end cell. */
    method Build(mx: nat, my: nat)
      requires Valid()
      modifies this`blockList
      ensures Valid()
      ensures var b := [CellOf(mx, my).x, CellOf(mx, my).y];
        blockList == if b !in old(blockList) && b != [startPos.x, startPos.y] && b != [endPos.x, endPos.y]
                     then old(blockList) + [b] else old(blockList)
      ensures NoDuplicates(old(blockList)) ==> NoDuplicates(blockList)
    {
      var t := CellOf(mx, my);
      var blockPos := [t.x, t.y];
      var listed := CheckArray(blockList, blockPos);
      if !listed {
        var atStart := AreArraysEqual(blockPos, [startPos.x, startPos.y]);
        if !atStart {
          var atEnd := AreArraysEqual(blockPos, [endPos.x, endPos.y]);
          if !atEnd {
            blockList := blockList + [blockPos];
          }
        }
      }
    }
  
    /** The run button: the search over the editor's map, start and end. The
        editor keeps painted blocks in `blockList` and never writes the block
        code into the map, so on any map it produced the search sees no
        obstacle and always reports a path. */
    method Run() returns (r: Option<seq<Pos>>)
      requires Valid() && EditorCodes()
      ensures r.Some?
      ensures IsWalk(grid, r.value) && r.value[0] == startPos && r.value[|r.value| - 1] == endPos
    {
      ghost var rounds;
      r, rounds := AStar.Search(grid, startPos, endPos);
      assert forall p :: !Blocked(grid, p);
      StaircaseWalk(grid, startPos, endPos);
    }
  }
}
