/** The grid the editor paints on and the search reads: cell codes, the fixed
    sizes, cell coordinates and the pixel-to-cell conversion. */
module Grid {

  datatype Option<+T> = None | Some(value: T)

  /** Canvas size in pixels, cells per side, and pixels per cell side. */
  const CanvasSize: nat := 512
  const GridS: nat := 16
  const SquareSize: nat := 32

  /** Cell codes stored in the map. A cell the editor never wrote (`undefined`
      in the program) behaves exactly like `Void` everywhere and is stored as it. */
  const Void: int := 0
  const Block: int := 1
  const StartCode: int := 2
  const EndCode: int := 3

  /** A cell coordinate: column `x`, row `y`. */
  datatype Pos = Pos(x: int, y: int)

  function Abs(v: int): (r: nat)
    ensures r == v || r == -v
  {
    if v < 0 then -v else v
  }

  predicate InBounds(p: Pos, n: int) {
    0 <= p.x < n && 0 <= p.y < n
  }

  /** 4-adjacency: the two cells differ by exactly one in exactly one axis. */
  predicate Adjacent(a: Pos, b: Pos) {
    (a.x == b.x && (a.y == b.y + 1 || a.y + 1 == b.y)) ||
    (a.y == b.y && (a.x == b.x + 1 || a.x + 1 == b.x))
  }

  /** A cell holds the block code. Cells outside the array are never blocked. */
  predicate Blocked(grid: array2<int>, p: Pos)
    reads grid
  {
    0 <= p.x < grid.Length0 && 0 <= p.y < grid.Length1 && grid[p.x, p.y] == Block
  }

  /** Snaps a pixel offset down to the nearest multiple of the cell size. */
  function RoundPos(position: nat): (r: nat)
    ensures r % SquareSize == 0
    ensures r <= position < r + SquareSize
  {
    position / SquareSize * SquareSize
  }

  /** The cell under a pixel position, as the mouse handlers compute it. */
  function CellOf(mx: nat, my: nat): (p: Pos)
    ensures p.x * SquareSize <= mx < (p.x + 1) * SquareSize
    ensures p.y * SquareSize <= my < (p.y + 1) * SquareSize
    ensures mx < CanvasSize && my < CanvasSize ==> InBounds(p, GridS)
  {
    Pos(RoundPos(mx) / SquareSize, RoundPos(my) / SquareSize)
  }

  /** A fresh n-by-n map with every cell not yet written. */
  method CreateGrid(n: nat) returns (a: array2<int>)
    ensures fresh(a)
    ensures a.Length0 == n && a.Length1 == n
    ensures forall i, j :: 0 <= i < n && 0 <= j < n ==> a[i, j] == Void
  {
    a := new int[n, n]((i, j) => Void);
  }

  /** Every cell of an n-by-n grid. */
  ghost function Box(n: nat): set<Pos> {
    set x: int, y: int | 0 <= x < n && 0 <= y < n :: Pos(x, y)
  }

  ghost function Column(x: int, n: nat): set<Pos> {
    set y: int | 0 <= y < n :: Pos(x, y)
  }

  ghost function Columns(k: nat, n: nat): set<Pos> {
    set x: int, y: int | 0 <= x < k && 0 <= y < n :: Pos(x, y)
  }

  lemma {:induction false} ColumnCard(x: int, n: nat)
    ensures |Column(x, n)| == n
  {
    if n == 0 {
      assert Column(x, n) == {};
    } else {
      assert Column(x, n) == Column(x, n - 1) + {Pos(x, n - 1)};
      ColumnCard(x, n - 1);
    }
  }

  lemma ColumnsSplit(k: nat, n: nat)
    requires k > 0
    ensures Columns(k, n) == Columns(k - 1, n) + Column(k - 1, n)
    ensures Columns(k - 1, n) !! Column(k - 1, n)
  {
  }

  lemma {:induction false} ColumnsCard(k: nat, n: nat)
    ensures |Columns(k, n)| == k * n
  {
    if k == 0 {
      assert Columns(k, n) == {};
    } else {
      ColumnsSplit(k, n);
      ColumnsCard(k - 1, n);
      ColumnCard(k - 1, n);
      assert (k - 1) * n + n == k * n;
    }
  }

  /** An n-by-n grid has n² cells. */
  lemma BoxCard(n: nat)
    ensures |Box(n)| == n * n
  {
    assert Box(n) == Columns(n, n);
    ColumnsCard(n, n);
  }

  lemma {:induction false} SubsetCard<T>(a: set<T>, b: set<T>)
    requires a <= b
    ensures |a| <= |b|
  {
    if a != {} {
      var e :| e in a;
      SubsetCard(a - {e}, b - {e});
    }
  }
}
