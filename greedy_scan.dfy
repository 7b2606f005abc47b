/**
 * The greedy rectangle search of one slice, on the slice's two masks:
 * which faces are exposed (`uncovered`) and the block type behind each
 * face. Rows run along the quad's V axis, columns along its U axis.
 * The imperative mesher is proved to emit exactly the rectangles Scan
 * describes; GreedyScanLemmas says what they are.
 */
module GreedyScan {
  import opened Voxel

  /** One slice's face masks: `exposed` is the `uncovered` mask, `types` the block type behind each face. */
  datatype Grid = Grid(rows: nat, cols: nat, exposed: seq<seq<bool>>, types: seq<seq<BlockType>>) {
    ghost predicate Valid() {
      && |exposed| == rows && |types| == rows
      && forall i :: 0 <= i < rows ==> |exposed[i]| == cols && |types[i]| == cols
    }

    predicate InMask(r: int, c: int) {
      0 <= r < rows && 0 <= c < cols
    }
  }

  /** A mask cell, (row, column). */
  type Cell = (int, int)

  /**
   * The test each growth step applies: the cell is inside the mask, its
   * face is exposed, it is not yet in a quad, and its block has type t.
   */
  predicate CellFree(g: Grid, used: set<Cell>, r: int, c: int, t: BlockType)
    requires g.Valid()
  {
    g.InMask(r, c) && g.exposed[r][c] && (r, c) !in used && g.types[r][c] == t
  }

  /** The U-growth test: every cell of the V-span rows r .. r+v-1 in column col is free. */
  predicate ColumnFree(g: Grid, used: set<Cell>, r: int, col: int, v: int, t: BlockType)
    requires g.Valid()
  {
    0 <= col < g.cols && forall i :: r <= i < r + v ==> CellFree(g, used, i, col, t)
  }

  /**
   * Growth along V from height v: add rows while the next cell of column c
   * is free, stopping at the first cell that is not.
   */
  function GrowV(g: Grid, used: set<Cell>, r: int, c: int, t: BlockType, v: int): (n: int)
    requires g.Valid() && g.InMask(r, c) && 1 <= v && r + v <= g.rows
    ensures v <= n && r + n <= g.rows
    ensures forall i :: r + v <= i < r + n ==> CellFree(g, used, i, c, t)
    ensures !CellFree(g, used, r + n, c, t)
    decreases g.rows - r - v
  {
    if CellFree(g, used, r + v, c, t) then GrowV(g, used, r, c, t, v + 1) else v
  }

  /**
   * Growth along U from width u: add columns while the whole V-span of the
   * next column is free, stopping at the first column that is not.
   */
  function GrowU(g: Grid, used: set<Cell>, r: int, c: int, v: int, t: BlockType, u: int): (n: int)
    requires g.Valid() && g.InMask(r, c) && 1 <= v && r + v <= g.rows
    requires 1 <= u && c + u <= g.cols
    ensures u <= n && c + n <= g.cols
    ensures forall j :: c + u <= j < c + n ==> ColumnFree(g, used, r, j, v, t)
    ensures !ColumnFree(g, used, r, c + n, v, t)
    decreases g.cols - c - u
  {
    if ColumnFree(g, used, r, c + u, v, t) then GrowU(g, used, r, c, v, t, u + 1) else u
  }

  /** A rectangle of mask cells with the material of its seed. */
  datatype Rect = Rect(row: int, col: int, sizeV: int, sizeU: int, blockType: BlockType)

  predicate InRect(q: Rect, i: int, j: int) {
    q.row <= i < q.row + q.sizeV && q.col <= j < q.col + q.sizeU
  }

  function RectCells(q: Rect): (cells: set<Cell>)
    ensures forall p :: p in cells <==> InRect(q, p.0, p.1)
  {
    set i, j | q.row <= i < q.row + q.sizeV && q.col <= j < q.col + q.sizeU :: (i, j)
  }

  /**
   * The rectangle grown from a free seed cell: first along V, then along U.
   * All its cells were free (exposed, not yet in a quad, of the seed's
   * type), it lies inside the mask, and both growths stopped at the first
   * failing cell or column.
   */
  function Seed(g: Grid, used: set<Cell>, r: int, c: int): (q: Rect)
    requires g.Valid() && g.InMask(r, c) && g.exposed[r][c] && (r, c) !in used
    ensures q.row == r && q.col == c && q.blockType == g.types[r][c]
    ensures 1 <= q.sizeV && r + q.sizeV <= g.rows
    ensures 1 <= q.sizeU && c + q.sizeU <= g.cols
    ensures forall i, j :: InRect(q, i, j) ==> CellFree(g, used, i, j, q.blockType)
    ensures !CellFree(g, used, r + q.sizeV, c, q.blockType)
    ensures !ColumnFree(g, used, r, c + q.sizeU, q.sizeV, q.blockType)
  {
    var t := g.types[r][c];
    var v := GrowV(g, used, r, c, t, 1);
    var u := GrowU(g, used, r, c, v, t, 1);
    GrownRectFree(g, used, Rect(r, c, v, u, t));
    Rect(r, c, v, u, t)
  }

  /** A rectangle whose first column and further columns passed the growth tests has only free cells. */
  lemma GrownRectFree(g: Grid, used: set<Cell>, q: Rect)
    requires g.Valid() && CellFree(g, used, q.row, q.col, q.blockType)
    requires forall i :: q.row + 1 <= i < q.row + q.sizeV ==> CellFree(g, used, i, q.col, q.blockType)
    requires forall j :: q.col + 1 <= j < q.col + q.sizeU ==> ColumnFree(g, used, q.row, j, q.sizeV, q.blockType)
    ensures forall i, j :: InRect(q, i, j) ==> CellFree(g, used, i, j, q.blockType)
  {
    forall i, j | InRect(q, i, j) ensures CellFree(g, used, i, j, q.blockType) {
      if j > q.col {
        assert ColumnFree(g, used, q.row, j, q.sizeV, q.blockType);
      }
    }
  }

  /**
   * The rectangles one slice emits, scanning the mask in row-major order
   * from (r, c) with the cells in `used` already in a quad.
   */
  function Scan(g: Grid, used: set<Cell>, r: int, c: int): seq<Rect>
    requires g.Valid() && 0 <= r <= g.rows && 0 <= c <= g.cols
    decreases g.rows - r, g.cols - c
  {
    if r == g.rows then []
    else if c == g.cols then Scan(g, used, r + 1, 0)
    else if (r, c) in used || !g.exposed[r][c] then Scan(g, used, r, c + 1)
    else
      var q := Seed(g, used, r, c);
      [q] + Scan(g, used + RectCells(q), r, c + 1)
  }

  /** The rectangles of one slice: a scan from the first cell with no cell in a quad. */
  function GridRects(g: Grid): seq<Rect>
    requires g.Valid()
  {
    Scan(g, {}, 0, 0)
  }

  /** The set of exposed cells of a slice, the cells the `uncovered` mask sets. */
  function ExposedCells(g: Grid): (cells: set<Cell>)
    requires g.Valid()
    ensures forall p :: p in cells <==> g.InMask(p.0, p.1) && g.exposed[p.0][p.1]
  {
    set i, j | 0 <= i < g.rows && 0 <= j < g.cols && g.exposed[i][j] :: (i, j)
  }

  /** The cells covered by a list of rectangles. */
  function CellsOf(rs: seq<Rect>): set<Cell>
    decreases |rs|
  {
    if rs == [] then {} else CellsOf(rs[..|rs| - 1]) + RectCells(rs[|rs| - 1])
  }

  /** Cell (i, j) comes before (r, c) in row-major order. */
  predicate Before(i: int, j: int, r: int, c: int) {
    i < r || (i == r && j < c)
  }

  /** A well-placed rectangle: non-empty, inside the mask, every cell exposed and of the rectangle's type. */
  ghost predicate RectOk(g: Grid, q: Rect)
    requires g.Valid()
  {
    && 1 <= q.sizeV && 0 <= q.row && q.row + q.sizeV <= g.rows
    && 1 <= q.sizeU && 0 <= q.col && q.col + q.sizeU <= g.cols
    && forall i, j :: InRect(q, i, j) ==> g.exposed[i][j] && g.types[i][j] == q.blockType
  }

  /** A scan at the end of a row continues at the start of the next one. */
  lemma ScanWraps(g: Grid, used: set<Cell>, r: int)
    requires g.Valid() && 0 <= r < g.rows
    ensures Scan(g, used, r, g.cols) == Scan(g, used, r + 1, 0)
  {
  }

  /** A scan passes over a face that is covered or already in a quad. */
  lemma ScanSkips(g: Grid, used: set<Cell>, r: int, c: int)
    requires g.Valid() && g.InMask(r, c) && ((r, c) in used || !g.exposed[r][c])
    ensures Scan(g, used, r, c) == Scan(g, used, r, c + 1)
  {
  }

  /** A scan at an uncovered face not yet in a quad emits the rectangle seeded there first. */
  lemma ScanSeeds(g: Grid, used: set<Cell>, r: int, c: int)
    requires g.Valid() && g.InMask(r, c) && (r, c) !in used && g.exposed[r][c]
    ensures Scan(g, used, r, c) == [Seed(g, used, r, c)] + Scan(g, used + RectCells(Seed(g, used, r, c)), r, c + 1)
  {
  }
}
