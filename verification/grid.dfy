/** Coordinates, rectangular grids of tile codes, and the eight-neighbourhood. */
module Grid {
  import opened Seqs

  /** A cell coordinate: row `i` in [0, height), column `j` in [0, width). */
  datatype Pos = Pos(row: int, col: int)

  /** `__is_valid`: the coordinate lies on a width x height board. */
  predicate InBounds(width: int, height: int, p: Pos) {
    0 <= p.row < height && 0 <= p.col < width
  }

  /** `q` is one of the eight cells around `p`. */
  predicate Adjacent(p: Pos, q: Pos) {
    p != q && -1 <= q.row - p.row <= 1 && -1 <= q.col - p.col <= 1
  }

  /** Position of `q` in the fixed scan order around `p`: Top, TopRight,
      Right, BottomRight, Bottom, BottomLeft, Left, TopLeft (8 when `q` is
      not adjacent). */
  function Rank(p: Pos, q: Pos): int {
    var dr := q.row - p.row;
    var dc := q.col - p.col;
    if dr == -1 && dc == 0 then 0
    else if dr == -1 && dc == 1 then 1
    else if dr == 0 && dc == 1 then 2
    else if dr == 1 && dc == 1 then 3
    else if dr == 1 && dc == 0 then 4
    else if dr == 1 && dc == -1 then 5
    else if dr == 0 && dc == -1 then 6
    else if dr == -1 && dc == -1 then 7
    else 8
  }

  /** The eight candidate neighbours of `p`, in scan order, bounds ignored. */
  function Around(p: Pos): seq<Pos> {
    var i, j := p.row, p.col;
    [Pos(i-1, j), Pos(i-1, j+1), Pos(i, j+1), Pos(i+1, j+1),
     Pos(i+1, j), Pos(i+1, j-1), Pos(i, j-1), Pos(i-1, j-1)]
  }

  /** The in-bounds candidates from index `k` of `Around(p)` on. */
  function KeepFrom(width: int, height: int, p: Pos, k: nat): (r: seq<Pos>)
    requires k <= 8
    ensures forall q :: q in r <==> InBounds(width, height, q) && Adjacent(p, q) && k <= Rank(p, q)
    ensures forall a, b :: 0 <= a < b < |r| ==> Rank(p, r[a]) < Rank(p, r[b])
    ensures forall a :: 0 <= a < |r| ==> k <= Rank(p, r[a])
    ensures |r| <= 8 - k
    decreases 8 - k
  {
    if k == 8 then []
    else
      var q := Around(p)[k];
      assert Adjacent(p, q) && Rank(p, q) == k;
      assert forall x :: Adjacent(p, x) && Rank(p, x) == k ==> x == q;
      (if InBounds(width, height, q) then [q] else []) + KeepFrom(width, height, p, k + 1)
  }

  /** `__get_valid_neighbours`: the on-board cells around `p`, in scan order. */
  function ValidNeighbours(width: int, height: int, p: Pos): (r: seq<Pos>)
    ensures forall q :: q in r <==> InBounds(width, height, q) && Adjacent(p, q)
    ensures forall a, b :: 0 <= a < b < |r| ==> Rank(p, r[a]) < Rank(p, r[b])
    ensures NoDup(r)
    ensures |r| <= 8
  {
    var r := KeepFrom(width, height, p, 0);
    assert forall q :: Adjacent(p, q) ==> 0 <= Rank(p, q) < 8;
    r
  }

  /** The mined cells among the on-board neighbours of `p`. */
  function NeighbourBombs(width: int, height: int, bombs: set<Pos>, p: Pos): set<Pos> {
    set q | q in bombs && InBounds(width, height, q) && Adjacent(p, q)
  }

  /** Every cell of the board, as a set. */
  function AllCells(width: int, height: int): (cells: set<Pos>)
    ensures forall q :: q in cells <==> InBounds(width, height, q)
  {
    set i, j | 0 <= i < height && 0 <= j < width :: Pos(i, j)
  }

  /** A height x width grid of tile codes, as Python's list of rows. */
  predicate IsGrid(g: seq<seq<int>>, width: int, height: int) {
    0 <= width && 0 <= height && |g| == height &&
    forall i :: 0 <= i < height ==> |g[i]| == width
  }

  /** On a height x width grid a coordinate passes `__is_valid` exactly
      when it names an existing cell: Python would also accept a negative
      index, counting from the end, and that is what the check rules out. */
  lemma InBoundsIndexes(g: seq<seq<int>>, width: int, height: int, p: Pos)
    requires IsGrid(g, width, height)
    ensures InBounds(width, height, p) <==> 0 <= p.row < |g| && 0 <= p.col < |g[p.row]|
  {
  }

  function At(g: seq<seq<int>>, width: int, height: int, p: Pos): int
    requires IsGrid(g, width, height) && InBounds(width, height, p)
  {
    g[p.row][p.col]
  }

  /** `grid[i][j] = v`. */
  function Put(g: seq<seq<int>>, width: int, height: int, p: Pos, v: int): (g': seq<seq<int>>)
    requires IsGrid(g, width, height) && InBounds(width, height, p)
    ensures IsGrid(g', width, height)
    ensures At(g', width, height, p) == v
    ensures forall q :: InBounds(width, height, q) && q != p ==> At(g', width, height, q) == At(g, width, height, q)
  {
    g[p.row := g[p.row][p.col := v]]
  }
}
