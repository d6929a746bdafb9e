/** The layout of the minefield and the adjacency counts stored in it.
    The field is a flat array; cell (x, y) of a grid with `columns` columns
    lives at index y * columns + x.  A cell holds `Mine` (-1) or the number
    of mines among its in-grid 8-neighbours. */
module Grid {

  const MaxColumns: int := 100
  const MaxRows: int := 100
  /** Size of the static arrays: the largest grid the game supports. */
  const MaxCells: int := MaxColumns * MaxRows
  /** Field value of a cell that holds a mine. */
  const Mine: int := -1

  predicate InGrid(columns: int, rows: int, x: int, y: int) {
    0 <= x < columns && 0 <= y < rows
  }

  lemma MulMono(a: int, b: int, c: int)
    requires a <= b && 0 <= c
    ensures a * c <= b * c
  {
    assert b * c - a * c == (b - a) * c;
  }

  /** Flat index of cell (x, y). */
  function Idx(columns: int, rows: int, x: int, y: int): (i: int)
    requires InGrid(columns, rows, x, y)
    ensures 0 <= i < columns * rows
  {
    MulMono(y + 1, rows, columns);
    y * columns + x
  }

  /** Distinct cells have distinct flat indices. */
  lemma IdxInjective(columns: int, rows: int, x: int, y: int, x': int, y': int)
    requires InGrid(columns, rows, x, y) && InGrid(columns, rows, x', y')
    ensures Idx(columns, rows, x, y) == Idx(columns, rows, x', y') <==> x == x' && y == y'
  {
    if y < y' {
      MulMono(y + 1, y', columns);
    } else if y' < y {
      MulMono(y' + 1, y, columns);
    }
  }

  /** (nx, ny) is one of the eight cells around (x, y). */
  predicate Near(x: int, y: int, nx: int, ny: int) {
    -1 <= nx - x <= 1 && -1 <= ny - y <= 1 && (nx != x || ny != y)
  }

  /** The nine neighbour slots are visited row by row (dy outer, dx inner),
      as the double loops over sy and sx do; slot 4 is the cell itself. */
  function SlotDy(k: int): int { if k < 3 then -1 else if k < 6 then 0 else 1 }
  function SlotDx(k: int): int { k - 3 * (SlotDy(k) + 1) - 1 }

  /** Slot (dy + 1) * 3 + dx + 1 has offset (dx, dy); slot 4 is the only
      one with offset (0, 0). */
  lemma SlotOffset(dx: int, dy: int)
    requires -1 <= dx <= 1 && -1 <= dy <= 1
    ensures SlotDx((dy + 1) * 3 + dx + 1) == dx && SlotDy((dy + 1) * 3 + dx + 1) == dy
    ensures (dy + 1) * 3 + dx + 1 == 4 <==> dx == 0 && dy == 0
  {
  }

  /** Slot k of (x, y) is another cell of the grid. */
  predicate SlotInGrid(columns: int, rows: int, x: int, y: int, k: int) {
    k != 4 && InGrid(columns, rows, x + SlotDx(k), y + SlotDy(k))
  }

  /** 1 when slot k of (x, y) is an in-grid cell holding a mine, else 0. */
  function MineAt(f: seq<int>, columns: int, rows: int, x: int, y: int, k: int): nat
    requires columns * rows <= |f|
  {
    if SlotInGrid(columns, rows, x, y, k)
       && f[Idx(columns, rows, x + SlotDx(k), y + SlotDy(k))] == Mine
    then 1 else 0
  }

  /** Mines among the first k neighbour slots of (x, y). */
  function MinesBefore(f: seq<int>, columns: int, rows: int, x: int, y: int, k: nat): nat
    requires columns * rows <= |f|
    decreases k
  {
    if k == 0 then 0
    else MinesBefore(f, columns, rows, x, y, k - 1) + MineAt(f, columns, rows, x, y, k - 1)
  }

  /** The number of neighbour slots, the cell's own included.  A function
      rather than a constant, so that the verifier unfolds MinesBefore over
      the nine slots only where a proof asks for it; CellsExact, whose proof
      steps through the slots one by one, writes the count out as 9. */
  function Slots(): nat { 9 }

  /** Number of mines among the in-grid 8-neighbours of (x, y). */
  function MinesAround(f: seq<int>, columns: int, rows: int, x: int, y: int): nat
    requires columns * rows <= |f|
  {
    MinesBefore(f, columns, rows, x, y, Slots())
  }

  /** In-grid neighbour cells among the first k slots of (x, y). */
  function CellsBefore(columns: int, rows: int, x: int, y: int, k: nat): nat
    decreases k
  {
    if k == 0 then 0
    else CellsBefore(columns, rows, x, y, k - 1)
         + (if SlotInGrid(columns, rows, x, y, k - 1) then 1 else 0)
  }

  /** The adjacency invariant: every in-grid cell that is not a mine holds
      the number of mines around it. */
  ghost predicate Consistent(f: seq<int>, columns: int, rows: int)
    requires columns * rows <= |f|
  {
    forall x, y {:trigger MinesAround(f, columns, rows, x, y)} ::
      InGrid(columns, rows, x, y) && f[Idx(columns, rows, x, y)] != Mine ==>
      f[Idx(columns, rows, x, y)] == MinesAround(f, columns, rows, x, y)
  }

  /** One step of the 3x3 scan at offset (sx, sy) adds 1 exactly when that
      neighbour is an in-grid mine. */
  lemma MinesStep(f: seq<int>, columns: int, rows: int, x: int, y: int, sx: int, sy: int)
    requires columns * rows <= |f|
    requires -1 <= sx <= 1 && -1 <= sy <= 1
    ensures MinesBefore(f, columns, rows, x, y, (sy + 1) * 3 + sx + 2)
         == MinesBefore(f, columns, rows, x, y, (sy + 1) * 3 + sx + 1)
            + (if !(sx == 0 && sy == 0) && InGrid(columns, rows, x + sx, y + sy)
                  && f[Idx(columns, rows, x + sx, y + sy)] == Mine then 1 else 0)
  {
    SlotOffset(sx, sy);
  }

  /** When no mine lies in the first k slots, slot j < k holds none. */
  lemma {:induction false} NoMineBefore(f: seq<int>, columns: int, rows: int, x: int, y: int, j: nat, k: nat)
    requires columns * rows <= |f|
    requires j < k && MinesBefore(f, columns, rows, x, y, k) == 0
    ensures MineAt(f, columns, rows, x, y, j) == 0
  {
    if j < k - 1 {
      NoMineBefore(f, columns, rows, x, y, j, k - 1);
    }
  }

  /** Around a cell whose count is 0, the in-grid cell of slot k is not a
      mine. */
  lemma NoMineAtSlot(f: seq<int>, columns: int, rows: int, x: int, y: int, k: nat)
    requires columns * rows <= |f|
    requires k < Slots() && SlotInGrid(columns, rows, x, y, k)
    requires MinesAround(f, columns, rows, x, y) == 0
    ensures f[Idx(columns, rows, x + SlotDx(k), y + SlotDy(k))] != Mine
  {
    NoMineBefore(f, columns, rows, x, y, k, Slots());
  }

  /** A cell near one whose count is 0 is not a mine. */
  lemma NoMineNearEmpty(f: seq<int>, columns: int, rows: int, x: int, y: int, nx: int, ny: int)
    requires columns * rows <= |f|
    requires Near(x, y, nx, ny) && InGrid(columns, rows, nx, ny)
    requires MinesAround(f, columns, rows, x, y) == 0
    ensures f[Idx(columns, rows, nx, ny)] != Mine
  {
    SlotOffset(nx - x, ny - y);
    NoMineAtSlot(f, columns, rows, x, y, (ny - y + 1) * 3 + nx - x + 1);
  }

  /** The count depends only on where the mines are. */
  lemma {:induction false} SameMinesBefore(f: seq<int>, g: seq<int>, columns: int, rows: int, x: int, y: int, k: nat)
    requires columns * rows <= |f| && columns * rows <= |g|
    requires forall i :: 0 <= i < columns * rows ==> (f[i] == Mine <==> g[i] == Mine)
    ensures MinesBefore(f, columns, rows, x, y, k) == MinesBefore(g, columns, rows, x, y, k)
  {
    if k > 0 {
      SameMinesBefore(f, g, columns, rows, x, y, k - 1);
    }
  }

  lemma SameMinesAround(f: seq<int>, g: seq<int>, columns: int, rows: int, x: int, y: int)
    requires columns * rows <= |f| && columns * rows <= |g|
    requires forall i :: 0 <= i < columns * rows ==> (f[i] == Mine <==> g[i] == Mine)
    ensures MinesAround(f, columns, rows, x, y) == MinesAround(g, columns, rows, x, y)
  {
    SameMinesBefore(f, g, columns, rows, x, y, Slots());
  }

  /** The cells scanned so far (rows above y, and row y left of x) that
      are not mines in g hold in g the count of mines around them in f. */
  ghost predicate CountedBefore(f: seq<int>, g: seq<int>, columns: int, rows: int, x: int, y: int)
    requires columns * rows <= |f| && columns * rows <= |g|
  {
    forall xx, yy {:trigger MinesAround(f, columns, rows, xx, yy)} ::
      InGrid(columns, rows, xx, yy) && (yy < y || (yy == y && xx < x))
      && g[Idx(columns, rows, xx, yy)] != Mine ==>
      g[Idx(columns, rows, xx, yy)] == MinesAround(f, columns, rows, xx, yy)
  }

  /** The state of the counting scan at (x, y) over the field `placed` as
      it was after mine placement: g has its mines where `placed` has them,
      is unchanged past the grid, and the scanned cells hold their counts. */
  ghost predicate Counting(placed: seq<int>, g: seq<int>, columns: int, rows: int, x: int, y: int)
    requires columns * rows <= |placed| == |g|
  {
    (forall i :: 0 <= i < |g| ==> (g[i] == Mine <==> placed[i] == Mine))
    && (forall i :: 0 <= i < |g| && columns * rows <= i ==> g[i] == placed[i])
    && CountedBefore(placed, g, columns, rows, x, y)
  }

  lemma CountingStart(placed: seq<int>, columns: int, rows: int)
    requires columns * rows <= |placed|
    ensures Counting(placed, placed, columns, rows, 0, 0)
  {
  }

  /** Writing the count of a cell that is not a mine extends the scan by
      one cell; the count can be taken on g as well as on `placed`. */
  lemma CountingStore(placed: seq<int>, g: seq<int>, columns: int, rows: int, x: int, y: int)
    requires columns * rows <= |placed| == |g|
    requires InGrid(columns, rows, x, y) && g[Idx(columns, rows, x, y)] != Mine
    requires Counting(placed, g, columns, rows, x, y)
    ensures MinesAround(g, columns, rows, x, y) == MinesAround(placed, columns, rows, x, y)
    ensures Counting(placed, g[Idx(columns, rows, x, y) := MinesAround(g, columns, rows, x, y)],
                     columns, rows, x + 1, y)
  {
    SameMinesAround(placed, g, columns, rows, x, y);
    var i := Idx(columns, rows, x, y);
    var h := g[i := MinesAround(placed, columns, rows, x, y)];
    forall xx, yy | InGrid(columns, rows, xx, yy) && (yy < y || (yy == y && xx < x + 1))
                    && h[Idx(columns, rows, xx, yy)] != Mine
      ensures h[Idx(columns, rows, xx, yy)] == MinesAround(placed, columns, rows, xx, yy)
    {
      IdxInjective(columns, rows, xx, yy, x, y);
    }
  }

  /** A mine is skipped. */
  lemma CountingSkip(placed: seq<int>, g: seq<int>, columns: int, rows: int, x: int, y: int)
    requires columns * rows <= |placed| == |g|
    requires InGrid(columns, rows, x, y) && g[Idx(columns, rows, x, y)] == Mine
    requires Counting(placed, g, columns, rows, x, y)
    ensures Counting(placed, g, columns, rows, x + 1, y)
  {
    forall xx, yy | InGrid(columns, rows, xx, yy) && (yy < y || (yy == y && xx < x + 1))
                    && g[Idx(columns, rows, xx, yy)] != Mine
      ensures g[Idx(columns, rows, xx, yy)] == MinesAround(placed, columns, rows, xx, yy)
    {
      IdxInjective(columns, rows, xx, yy, x, y);
    }
  }

  /** The end of a row is the start of the next. */
  lemma CountingRow(placed: seq<int>, g: seq<int>, columns: int, rows: int, y: int)
    requires columns * rows <= |placed| == |g|
    requires Counting(placed, g, columns, rows, columns, y)
    ensures Counting(placed, g, columns, rows, 0, y + 1)
  {
  }

  /** Once every cell is scanned, g satisfies the adjacency invariant. */
  lemma CountingDone(placed: seq<int>, g: seq<int>, columns: int, rows: int)
    requires columns * rows <= |placed| == |g|
    requires Counting(placed, g, columns, rows, 0, rows)
    ensures Consistent(g, columns, rows)
  {
    forall x, y | InGrid(columns, rows, x, y) && g[Idx(columns, rows, x, y)] != Mine
      ensures g[Idx(columns, rows, x, y)] == MinesAround(g, columns, rows, x, y)
    {
      SameMinesAround(placed, g, columns, rows, x, y);
      assert MinesAround(placed, columns, rows, x, y) == MinesAround(g, columns, rows, x, y);
    }
  }

  /** A field without mines counts 0 everywhere. */
  lemma {:induction false} NoMinesBefore(f: seq<int>, columns: int, rows: int, x: int, y: int, k: nat)
    requires columns * rows <= |f|
    requires forall i :: 0 <= i < columns * rows ==> f[i] != Mine
    ensures MinesBefore(f, columns, rows, x, y, k) == 0
  {
    if k > 0 {
      NoMinesBefore(f, columns, rows, x, y, k - 1);
    }
  }

  /** A grid of zeros satisfies the adjacency invariant. */
  lemma EmptyConsistent(f: seq<int>, columns: int, rows: int)
    requires columns * rows <= |f|
    requires forall i :: 0 <= i < columns * rows ==> f[i] == 0
    ensures Consistent(f, columns, rows)
  {
    forall x, y | InGrid(columns, rows, x, y)
      ensures MinesAround(f, columns, rows, x, y) == 0
    {
      NoMinesBefore(f, columns, rows, x, y, Slots());
    }
  }

  lemma {:induction false} MinesBeforeCells(f: seq<int>, columns: int, rows: int, x: int, y: int, k: nat)
    requires columns * rows <= |f|
    ensures MinesBefore(f, columns, rows, x, y, k) <= CellsBefore(columns, rows, x, y, k)
  {
    if k > 0 {
      MinesBeforeCells(f, columns, rows, x, y, k - 1);
    }
  }

  /** The in-grid neighbours of (x, y), one indicator per direction. */
  lemma CellsExact(columns: int, rows: int, x: int, y: int)
    requires InGrid(columns, rows, x, y)
    ensures CellsBefore(columns, rows, x, y, 9) ==
      (if 0 <= y - 1 && 0 <= x - 1 then 1 else 0) + (if 0 <= y - 1 then 1 else 0)
      + (if 0 <= y - 1 && x + 1 < columns then 1 else 0) + (if 0 <= x - 1 then 1 else 0)
      + (if x + 1 < columns then 1 else 0) + (if y + 1 < rows && 0 <= x - 1 then 1 else 0)
      + (if y + 1 < rows then 1 else 0) + (if y + 1 < rows && x + 1 < columns then 1 else 0)
  {
    assert CellsBefore(columns, rows, x, y, 1) == (if 0 <= y - 1 && 0 <= x - 1 then 1 else 0);
    assert CellsBefore(columns, rows, x, y, 2) == CellsBefore(columns, rows, x, y, 1) + (if 0 <= y - 1 then 1 else 0);
    assert CellsBefore(columns, rows, x, y, 3) == CellsBefore(columns, rows, x, y, 2) + (if 0 <= y - 1 && x + 1 < columns then 1 else 0);
    assert CellsBefore(columns, rows, x, y, 4) == CellsBefore(columns, rows, x, y, 3) + (if 0 <= x - 1 then 1 else 0);
    assert CellsBefore(columns, rows, x, y, 5) == CellsBefore(columns, rows, x, y, 4) + (if false then 1 else 0);
    assert CellsBefore(columns, rows, x, y, 6) == CellsBefore(columns, rows, x, y, 5) + (if x + 1 < columns then 1 else 0);
    assert CellsBefore(columns, rows, x, y, 7) == CellsBefore(columns, rows, x, y, 6) + (if y + 1 < rows && 0 <= x - 1 then 1 else 0);
    assert CellsBefore(columns, rows, x, y, 8) == CellsBefore(columns, rows, x, y, 7) + (if y + 1 < rows then 1 else 0);
    assert CellsBefore(columns, rows, x, y, 9) == CellsBefore(columns, rows, x, y, 8) + (if y + 1 < rows && x + 1 < columns then 1 else 0);
  }

  /** A cell has at most 8 neighbours in the grid, at most 5 on an edge
      and at most 3 in a corner. */
  lemma CellsAround(columns: int, rows: int, x: int, y: int)
    requires InGrid(columns, rows, x, y)
    ensures CellsBefore(columns, rows, x, y, Slots()) <= 8
    ensures (x == 0 || x == columns - 1 || y == 0 || y == rows - 1) ==>
              CellsBefore(columns, rows, x, y, Slots()) <= 5
    ensures (x == 0 || x == columns - 1) && (y == 0 || y == rows - 1) ==>
              CellsBefore(columns, rows, x, y, Slots()) <= 3
  {
    CellsExact(columns, rows, x, y);
  }

  /** The count of a cell is at most 8, at most 5 on an edge and at most 3
      in a corner. */
  lemma MinesAroundBound(f: seq<int>, columns: int, rows: int, x: int, y: int)
    requires columns * rows <= |f|
    requires InGrid(columns, rows, x, y)
    ensures MinesAround(f, columns, rows, x, y) <= 8
    ensures (x == 0 || x == columns - 1 || y == 0 || y == rows - 1) ==>
              MinesAround(f, columns, rows, x, y) <= 5
    ensures (x == 0 || x == columns - 1) && (y == 0 || y == rows - 1) ==>
              MinesAround(f, columns, rows, x, y) <= 3
  {
    MinesBeforeCells(f, columns, rows, x, y, Slots());
    CellsAround(columns, rows, x, y);
  }

  /** Under the adjacency invariant every in-grid value is a mine or 0..8. */
  lemma ConsistentValues(f: seq<int>, columns: int, rows: int, x: int, y: int)
    requires columns * rows <= |f|
    requires Consistent(f, columns, rows) && InGrid(columns, rows, x, y)
    ensures f[Idx(columns, rows, x, y)] == Mine || 0 <= f[Idx(columns, rows, x, y)] <= 8
  {
    MinesAroundBound(f, columns, rows, x, y);
  }
}
