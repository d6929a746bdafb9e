/** The minefield: two static arrays, `field` (a mine or an adjacency count
    per cell) and `state` (Open, Close or Flag per cell), and the counters
    the game keeps beside them.  Generation, the flood fill, win detection,
    the loss handler and the reveal and flag actions change them in place. */
module Minefield {
  import opened Grid
  import opened Placement
  import opened Screens

  datatype CellState = Open | Close | Flag

  /** Cells that are Open in `after` but were not in `before`. */
  function Opened(before: seq<CellState>, after: seq<CellState>): set<int>
    requires |before| == |after|
  {
    set i | 0 <= i < |after| && after[i] == Open && before[i] != Open
  }

  function NotOpen(s: seq<CellState>): set<int> {
    set i | 0 <= i < |s| && s[i] != Open
  }

  /** Flagged cells among the first `cells`. */
  function FlagCells(s: seq<CellState>, cells: int): set<int> {
    set i | 0 <= i < cells && i < |s| && s[i] == Flag
  }

  /** Cells holding a mine. */
  function MineCells(f: seq<int>): set<int> {
    set i | 0 <= i < |f| && f[i] == Mine
  }

  /** `after` differs from `before` only in cells that became Open. */
  predicate OnlyOpens(before: seq<CellState>, after: seq<CellState>) {
    |before| == |after| &&
    forall i :: 0 <= i < |after| && after[i] != before[i] ==> after[i] == Open
  }

  /** Every cell that differs between `before` and `after` is not a mine. */
  ghost predicate MinesKept(f: seq<int>, before: seq<CellState>, after: seq<CellState>)
    requires |f| == |before| == |after|
  {
    forall i :: 0 <= i < |after| && after[i] != before[i] ==> f[i] != Mine
  }

  /** Every in-grid neighbour of (x, y) is Open. */
  ghost predicate NeighboursOpen(s: seq<CellState>, columns: int, rows: int, x: int, y: int)
    requires columns * rows <= |s|
  {
    forall nx, ny :: InGrid(columns, rows, nx, ny) && Near(x, y, nx, ny) ==>
      s[Idx(columns, rows, nx, ny)] == Open
  }

  /** The flood fill is complete: every Open cell with count 0 has all its
      neighbours Open. */
  ghost predicate FloodClosed(f: seq<int>, s: seq<CellState>, columns: int, rows: int)
    requires columns * rows <= |f| && columns * rows <= |s|
  {
    forall x, y {:trigger NeighboursOpen(s, columns, rows, x, y)} ::
      InGrid(columns, rows, x, y) && s[Idx(columns, rows, x, y)] == Open
      && f[Idx(columns, rows, x, y)] == 0 ==>
      NeighboursOpen(s, columns, rows, x, y)
  }

  /** The in-grid neighbours in the first k slots of (x, y) are Open. */
  ghost predicate SlotsOpen(s: seq<CellState>, columns: int, rows: int, x: int, y: int, k: int)
    requires columns * rows <= |s|
  {
    forall j :: 0 <= j < k && SlotInGrid(columns, rows, x, y, j) ==>
      s[Idx(columns, rows, x + SlotDx(j), y + SlotDy(j))] == Open
  }

  /** The fill is complete for the cells a pass has scanned so far: rows
      above y, and row y left of x. */
  ghost predicate ScannedClosed(f: seq<int>, s: seq<CellState>, columns: int, rows: int, x: int, y: int)
    requires columns * rows <= |f| && columns * rows <= |s|
  {
    forall xx, yy {:trigger NeighboursOpen(s, columns, rows, xx, yy)} ::
      InGrid(columns, rows, xx, yy) && (yy < y || (yy == y && xx < x))
      && s[Idx(columns, rows, xx, yy)] == Open && f[Idx(columns, rows, xx, yy)] == 0 ==>
      NeighboursOpen(s, columns, rows, xx, yy)
  }

  /** The win condition: every cell that is not a mine is Open. */
  ghost predicate Won(f: seq<int>, s: seq<CellState>, cells: int)
    requires cells <= |f| && cells <= |s|
  {
    forall i :: 0 <= i < cells && f[i] != Mine ==> s[i] == Open
  }

  lemma OnlyOpensTrans(a: seq<CellState>, b: seq<CellState>, c: seq<CellState>)
    requires OnlyOpens(a, b) && OnlyOpens(b, c)
    ensures OnlyOpens(a, c)
  {
  }

  lemma MinesKeptTrans(f: seq<int>, a: seq<CellState>, b: seq<CellState>, c: seq<CellState>)
    requires |f| == |a| == |b| == |c|
    requires MinesKept(f, a, b) && MinesKept(f, b, c)
    ensures MinesKept(f, a, c)
  {
  }

  /** What two steps open is what either step opens, and they are disjoint. */
  lemma OpenedCompose(a: seq<CellState>, b: seq<CellState>, c: seq<CellState>)
    requires OnlyOpens(a, b) && OnlyOpens(b, c)
    ensures Opened(a, c) == Opened(a, b) + Opened(b, c)
    ensures |Opened(a, c)| == |Opened(a, b)| + |Opened(b, c)|
  {
    assert Opened(a, c) == Opened(a, b) + Opened(b, c);
    assert Opened(a, b) * Opened(b, c) == {};
  }

  /** Opening one more cell that is not Open adds exactly that cell. */
  lemma OpenOne(a: seq<CellState>, s: seq<CellState>, n: int)
    requires OnlyOpens(a, s) && 0 <= n < |s| && s[n] != Open
    ensures OnlyOpens(a, s[n := Open])
    ensures Opened(a, s[n := Open]) == Opened(a, s) + {n} && n !in Opened(a, s)
    ensures |Opened(a, s[n := Open])| == |Opened(a, s)| + 1
  {
    assert Opened(a, s[n := Open]) == Opened(a, s) + {n};
  }

  /** If nothing was opened, nothing changed. */
  lemma NothingOpened(a: seq<CellState>, b: seq<CellState>)
    requires OnlyOpens(a, b) && Opened(a, b) == {}
    ensures a == b
  {
    forall i | 0 <= i < |a| ensures a[i] == b[i] {
      assert i !in Opened(a, b);
    }
  }

  /** Each opened cell leaves the set of cells that are not Open. */
  lemma NotOpenShrinks(a: seq<CellState>, b: seq<CellState>)
    requires OnlyOpens(a, b)
    ensures |NotOpen(b)| + |Opened(a, b)| == |NotOpen(a)|
  {
    assert NotOpen(a) == NotOpen(b) + Opened(a, b);
    assert NotOpen(b) * Opened(a, b) == {};
  }

  /** Opening cells never adds a flag. */
  lemma FlagsShrink(a: seq<CellState>, b: seq<CellState>, cells: int)
    requires OnlyOpens(a, b)
    ensures FlagCells(b, cells) <= FlagCells(a, cells)
    ensures |FlagCells(b, cells)| <= |FlagCells(a, cells)|
  {
    var fa, fb := FlagCells(a, cells), FlagCells(b, cells);
    assert fa == fb + (fa - fb);
  }

  /** The state of the scan around (x, y) after its first k slots: cells
      only became Open, none of them a mine, `changed` tells whether any
      did, `gained` is how many, and the in-grid neighbours in the scanned
      slots are Open. */
  ghost predicate Opening(f: seq<int>, before: seq<CellState>, s: seq<CellState>,
                          columns: int, rows: int, x: int, y: int, k: int,
                          changed: bool, gained: int)
    requires columns * rows <= |s| && |f| == |before| == |s|
  {
    OnlyOpens(before, s) && MinesKept(f, before, s)
    && (changed <==> Opened(before, s) != {}) && gained == |Opened(before, s)|
    && SlotsOpen(s, columns, rows, x, y, k)
  }

  lemma OpeningStart(f: seq<int>, s: seq<CellState>, columns: int, rows: int, x: int, y: int)
    requires columns * rows <= |s| && |f| == |s|
    ensures Opening(f, s, s, columns, rows, x, y, 0, false, 0)
  {
    assert Opened(s, s) == {};
  }

  /** Scanning the neighbour at offset (sx, sy) when it is outside the grid,
      the cell itself, or already Open: nothing changes. */
  lemma SlotSkip(f: seq<int>, before: seq<CellState>, s: seq<CellState>,
                 columns: int, rows: int, x: int, y: int, sx: int, sy: int,
                 changed: bool, gained: int)
    requires columns * rows <= |s| && |f| == |before| == |s|
    requires -1 <= sx <= 1 && -1 <= sy <= 1
    requires Opening(f, before, s, columns, rows, x, y, (sy + 1) * 3 + sx + 1, changed, gained)
    requires (sx == 0 && sy == 0) || !InGrid(columns, rows, x + sx, y + sy)
             || s[Idx(columns, rows, x + sx, y + sy)] == Open
    ensures Opening(f, before, s, columns, rows, x, y, (sy + 1) * 3 + sx + 2, changed, gained)
  {
    SlotOffset(sx, sy);
  }

  /** Opening the in-grid neighbour at offset (sx, sy), which is not Open,
      during the scan around (x, y), whose count is 0. */
  lemma OpenSlot(f: seq<int>, before: seq<CellState>, s: seq<CellState>,
                 columns: int, rows: int, x: int, y: int, sx: int, sy: int,
                 changed: bool, gained: int, n: int)
    requires columns * rows <= |s| && |f| == |before| == |s|
    requires -1 <= sx <= 1 && -1 <= sy <= 1 && !(sx == 0 && sy == 0)
    requires Opening(f, before, s, columns, rows, x, y, (sy + 1) * 3 + sx + 1, changed, gained)
    requires InGrid(columns, rows, x + sx, y + sy) && n == Idx(columns, rows, x + sx, y + sy)
    requires s[n] != Open && MinesAround(f, columns, rows, x, y) == 0
    ensures Opening(f, before, s[n := Open], columns, rows, x, y, (sy + 1) * 3 + sx + 2, true, gained + 1)
  {
    var k := (sy + 1) * 3 + sx + 1;
    assert SlotDx(k) == sx && SlotDy(k) == sy;
    NoMineAtSlot(f, columns, rows, x, y, k);
    SlotsOpenStep(s, columns, rows, x, y, k, n);
    MinesKeptStep(f, before, s, n);
    OpenOne(before, s, n);
  }

  /** Opening the cell of slot k extends the Open slots by one. */
  lemma SlotsOpenStep(s: seq<CellState>, columns: int, rows: int, x: int, y: int, k: int, n: int)
    requires columns * rows <= |s| && 0 <= n < |s|
    requires SlotsOpen(s, columns, rows, x, y, k)
    requires SlotInGrid(columns, rows, x, y, k)
    requires n == Idx(columns, rows, x + SlotDx(k), y + SlotDy(k))
    ensures SlotsOpen(s[n := Open], columns, rows, x, y, k + 1)
  {
    var t := s[n := Open];
    forall j | 0 <= j < k + 1 && SlotInGrid(columns, rows, x, y, j)
      ensures t[Idx(columns, rows, x + SlotDx(j), y + SlotDy(j))] == Open
    {
      if j < k {
        assert s[Idx(columns, rows, x + SlotDx(j), y + SlotDy(j))] == Open;
      }
    }
  }

  /** Opening a cell that is not a mine keeps every change off the mines. */
  lemma MinesKeptStep(f: seq<int>, before: seq<CellState>, s: seq<CellState>, n: int)
    requires |f| == |before| == |s| && 0 <= n < |s| && f[n] != Mine
    requires MinesKept(f, before, s)
    ensures MinesKept(f, before, s[n := Open])
  {
  }

  /** The state of a fill pass at (x, y): cells only became Open, none
      of them a mine, `run` tells whether any did, `gained` is how many,
      and if none did, the fill is complete for the scanned cells. */
  ghost predicate Filling(f: seq<int>, before: seq<CellState>, s: seq<CellState>,
                          columns: int, rows: int, x: int, y: int, run: bool, gained: int)
    requires columns * rows <= |s| && |f| == |before| == |s|
  {
    OnlyOpens(before, s) && MinesKept(f, before, s)
    && (run <==> Opened(before, s) != {}) && gained == |Opened(before, s)|
    && (!run ==> ScannedClosed(f, s, columns, rows, x, y))
  }

  lemma FillingStart(f: seq<int>, s: seq<CellState>, columns: int, rows: int)
    requires columns * rows <= |s| && |f| == |s|
    ensures Filling(f, s, s, columns, rows, 0, 0, false, 0)
  {
    assert Opened(s, s) == {};
  }

  /** A cell that is not an Open 0 is passed over. */
  lemma FillingSkip(f: seq<int>, before: seq<CellState>, s: seq<CellState>,
                    columns: int, rows: int, x: int, y: int, run: bool, gained: int)
    requires columns * rows <= |s| && |f| == |before| == |s| && InGrid(columns, rows, x, y)
    requires Filling(f, before, s, columns, rows, x, y, run, gained)
    requires s[Idx(columns, rows, x, y)] != Open || f[Idx(columns, rows, x, y)] != 0
    ensures Filling(f, before, s, columns, rows, x + 1, y, run, gained)
  {
    if !run {
      forall xx, yy | InGrid(columns, rows, xx, yy) && (yy < y || (yy == y && xx < x + 1))
                      && s[Idx(columns, rows, xx, yy)] == Open && f[Idx(columns, rows, xx, yy)] == 0
        ensures NeighboursOpen(s, columns, rows, xx, yy)
      {
        IdxInjective(columns, rows, xx, yy, x, y);
      }
    }
  }

  /** An Open 0 at (x, y) opened its neighbours, going from `mid` to `s`;
      `more` tells whether anything changed. */
  lemma FillingOpen(f: seq<int>, before: seq<CellState>, mid: seq<CellState>, s: seq<CellState>,
                    columns: int, rows: int, x: int, y: int, run: bool, gained: int, more: bool)
    requires columns * rows <= |s| && |f| == |before| == |mid| == |s| && InGrid(columns, rows, x, y)
    requires Filling(f, before, mid, columns, rows, x, y, run, gained)
    requires OnlyOpens(mid, s) && MinesKept(f, mid, s) && (more <==> Opened(mid, s) != {})
    requires NeighboursOpen(s, columns, rows, x, y)
    ensures Filling(f, before, s, columns, rows, x + 1, y, run || more,
                    gained + |Opened(mid, s)|)
  {
    MinesKeptTrans(f, before, mid, s);
    OpenedCompose(before, mid, s);
    OnlyOpensTrans(before, mid, s);
    if !more {
      NothingOpened(mid, s);
    }
    if !(run || more) {
      forall xx, yy | InGrid(columns, rows, xx, yy) && (yy < y || (yy == y && xx < x + 1))
                      && s[Idx(columns, rows, xx, yy)] == Open && f[Idx(columns, rows, xx, yy)] == 0
        ensures NeighboursOpen(s, columns, rows, xx, yy)
      {
        IdxInjective(columns, rows, xx, yy, x, y);
      }
    }
  }

  lemma FillingRow(f: seq<int>, before: seq<CellState>, s: seq<CellState>,
                   columns: int, rows: int, y: int, run: bool, gained: int)
    requires columns * rows <= |s| && |f| == |before| == |s|
    requires Filling(f, before, s, columns, rows, columns, y, run, gained)
    ensures Filling(f, before, s, columns, rows, 0, y + 1, run, gained)
  {
  }

  /** After the last row, a pass that opened nothing leaves the fill
      complete. */
  lemma FillingDone(f: seq<int>, before: seq<CellState>, s: seq<CellState>,
                    columns: int, rows: int, run: bool, gained: int)
    requires columns * rows <= |s| && |f| == |before| == |s|
    requires Filling(f, before, s, columns, rows, 0, rows, run, gained)
    ensures !run ==> FloodClosed(f, s, columns, rows)
  {
  }

  /** What a pass has done so far at (x, y): every scanned cell that was an
      Open 0 when the pass began has all its neighbours Open. */
  ghost predicate PassScanned(f: seq<int>, before: seq<CellState>, s: seq<CellState>,
                              columns: int, rows: int, x: int, y: int)
    requires columns * rows <= |f| && columns * rows <= |before| && columns * rows <= |s|
  {
    forall xx, yy {:trigger NeighboursOpen(s, columns, rows, xx, yy)} ::
      InGrid(columns, rows, xx, yy) && (yy < y || (yy == y && xx < x))
      && before[Idx(columns, rows, xx, yy)] == Open && f[Idx(columns, rows, xx, yy)] == 0 ==>
      NeighboursOpen(s, columns, rows, xx, yy)
  }

  /** A cell that is not an Open 0 now was not one when the pass began. */
  lemma PassSkip(f: seq<int>, before: seq<CellState>, s: seq<CellState>,
                 columns: int, rows: int, x: int, y: int)
    requires columns * rows <= |f| && columns * rows <= |before| && InGrid(columns, rows, x, y)
    requires OnlyOpens(before, s) && PassScanned(f, before, s, columns, rows, x, y)
    requires s[Idx(columns, rows, x, y)] != Open || f[Idx(columns, rows, x, y)] != 0
    ensures PassScanned(f, before, s, columns, rows, x + 1, y)
  {
    forall xx, yy | InGrid(columns, rows, xx, yy) && (yy < y || (yy == y && xx < x + 1))
                    && before[Idx(columns, rows, xx, yy)] == Open && f[Idx(columns, rows, xx, yy)] == 0
      ensures NeighboursOpen(s, columns, rows, xx, yy)
    {
      IdxInjective(columns, rows, xx, yy, x, y);
    }
  }

  /** The scan around (x, y) opened its neighbours; what was Open stays
      Open, so the cells scanned before keep theirs. */
  lemma PassOpen(f: seq<int>, before: seq<CellState>, mid: seq<CellState>, s: seq<CellState>,
                 columns: int, rows: int, x: int, y: int)
    requires columns * rows <= |f| && columns * rows <= |before| && columns * rows <= |mid|
    requires InGrid(columns, rows, x, y)
    requires PassScanned(f, before, mid, columns, rows, x, y)
    requires OnlyOpens(mid, s) && NeighboursOpen(s, columns, rows, x, y)
    ensures PassScanned(f, before, s, columns, rows, x + 1, y)
  {
    forall xx, yy | InGrid(columns, rows, xx, yy) && (yy < y || (yy == y && xx < x + 1))
                    && before[Idx(columns, rows, xx, yy)] == Open && f[Idx(columns, rows, xx, yy)] == 0
      ensures NeighboursOpen(s, columns, rows, xx, yy)
    {
      if xx != x || yy != y {
        assert NeighboursOpen(mid, columns, rows, xx, yy);
      }
    }
  }

  lemma PassRow(f: seq<int>, before: seq<CellState>, s: seq<CellState>,
                columns: int, rows: int, y: int)
    requires columns * rows <= |f| && columns * rows <= |before| && columns * rows <= |s|
    requires PassScanned(f, before, s, columns, rows, columns, y)
    ensures PassScanned(f, before, s, columns, rows, 0, y + 1)
  {
  }

  lemma SlotsOpenAll(s: seq<CellState>, columns: int, rows: int, x: int, y: int)
    requires columns * rows <= |s|
    requires SlotsOpen(s, columns, rows, x, y, Slots())
    ensures NeighboursOpen(s, columns, rows, x, y)
  {
    forall nx, ny | InGrid(columns, rows, nx, ny) && Near(x, y, nx, ny)
      ensures s[Idx(columns, rows, nx, ny)] == Open
    {
      SlotOffset(nx - x, ny - y);
      assert SlotInGrid(columns, rows, x, y, (ny - y + 1) * 3 + nx - x + 1);
    }
  }

  /** Flagging a closed cell of the grid adds exactly that cell to the
      flags. */
  lemma FlagOne(s: seq<CellState>, i: int, cells: int)
    requires 0 <= i < cells <= |s| && s[i] == Close
    ensures FlagCells(s[i := Flag], cells) == FlagCells(s, cells) + {i}
    ensures |FlagCells(s[i := Flag], cells)| == |FlagCells(s, cells)| + 1
  {
    assert FlagCells(s[i := Flag], cells) == FlagCells(s, cells) + {i};
  }

  /** Closing a flagged cell of the grid removes exactly that cell from the
      flags. */
  lemma UnflagOne(s: seq<CellState>, i: int, cells: int)
    requires 0 <= i < cells <= |s| && s[i] == Flag
    ensures FlagCells(s[i := Close], cells) == FlagCells(s, cells) - {i}
    ensures |FlagCells(s[i := Close], cells)| == |FlagCells(s, cells)| - 1
  {
    assert FlagCells(s[i := Close], cells) == FlagCells(s, cells) - {i};
  }

  /** The fill stays complete when cells only become Open and none of the
      newly Open cells has count 0. */
  lemma ClosedKept(f: seq<int>, a: seq<CellState>, b: seq<CellState>, columns: int, rows: int)
    requires columns * rows <= |f| == |a| == |b|
    requires forall i :: 0 <= i < |a| && a[i] == Open ==> b[i] == Open
    requires forall i :: 0 <= i < |a| && b[i] == Open && a[i] != Open ==> f[i] != 0
    requires FloodClosed(f, a, columns, rows)
    ensures FloodClosed(f, b, columns, rows)
  {
    forall x, y | InGrid(columns, rows, x, y) && b[Idx(columns, rows, x, y)] == Open
                  && f[Idx(columns, rows, x, y)] == 0
      ensures NeighboursOpen(b, columns, rows, x, y)
    {
      assert NeighboursOpen(a, columns, rows, x, y);
    }
  }

  /** A chain of grid cells, each one next to the one before, and each but
      the last with count 0: the way the fill spreads. */
  ghost predicate ZeroPath(f: seq<int>, columns: int, rows: int, p: seq<(int, int)>)
    requires columns * rows <= |f|
  {
    |p| >= 1
    && (forall k :: 0 <= k < |p| ==> InGrid(columns, rows, p[k].0, p[k].1))
    && (forall k :: 0 <= k < |p| - 1 ==>
          f[Idx(columns, rows, p[k].0, p[k].1)] == 0
          && Near(p[k].0, p[k].1, p[k + 1].0, p[k + 1].1))
  }

  /** (x, y) is reached through empty cells from a cell that is Open in s. */
  ghost predicate Reachable(f: seq<int>, s: seq<CellState>, columns: int, rows: int, x: int, y: int)
    requires columns * rows <= |f| && columns * rows <= |s|
  {
    exists p: seq<(int, int)> :: ZeroPath(f, columns, rows, p)
      && s[Idx(columns, rows, p[0].0, p[0].1)] == Open && p[|p| - 1] == (x, y)
  }

  /** (x, y) is reached through empty cells from (x0, y0). */
  ghost predicate Connected(f: seq<int>, columns: int, rows: int, x0: int, y0: int, x: int, y: int)
    requires columns * rows <= |f|
  {
    exists p: seq<(int, int)> :: ZeroPath(f, columns, rows, p) && p[0] == (x0, y0) && p[|p| - 1] == (x, y)
  }

  /** Every cell that differs between `before` and `s` is an in-grid
      neighbour of (x, y). */
  ghost predicate OpensNear(before: seq<CellState>, s: seq<CellState>, columns: int, rows: int, x: int, y: int)
    requires columns * rows <= |before| == |s|
  {
    (forall i :: 0 <= i < |s| && columns * rows <= i ==> s[i] == before[i])
    && forall nx, ny ::
         (InGrid(columns, rows, nx, ny)
          && s[Idx(columns, rows, nx, ny)] != before[Idx(columns, rows, nx, ny)]) ==>
         Near(x, y, nx, ny)
  }

  /** Every cell that differs between `before` and `s` is a grid cell
      reached through empty cells from a cell Open in `before`. */
  ghost predicate Grown(f: seq<int>, before: seq<CellState>, s: seq<CellState>, columns: int, rows: int)
    requires columns * rows <= |f| && columns * rows <= |before| == |s|
  {
    (forall i :: 0 <= i < |s| && columns * rows <= i ==> s[i] == before[i])
    && forall x, y ::
         (InGrid(columns, rows, x, y)
          && s[Idx(columns, rows, x, y)] != before[Idx(columns, rows, x, y)]) ==>
         Reachable(f, before, columns, rows, x, y)
  }

  /** A path to the start of another path goes on along it. */
  lemma PathJoin(f: seq<int>, columns: int, rows: int, q: seq<(int, int)>, p: seq<(int, int)>)
    requires columns * rows <= |f|
    requires ZeroPath(f, columns, rows, q) && ZeroPath(f, columns, rows, p)
    requires |p| >= 2 && q[|q| - 1] == p[0]
    ensures ZeroPath(f, columns, rows, q + p[1..])
    ensures (q + p[1..])[0] == q[0] && (q + p[1..])[|q| + |p| - 2] == p[|p| - 1]
  {
    var r := q + p[1..];
    forall k | 0 <= k < |r| - 1
      ensures f[Idx(columns, rows, r[k].0, r[k].1)] == 0 && Near(r[k].0, r[k].1, r[k + 1].0, r[k + 1].1)
    {
      if k >= |q| - 1 {
        assert r[k] == p[k - |q| + 1] && r[k + 1] == p[k - |q| + 2];
      }
    }
  }

  /** When the fill is complete, everything a path reaches from an Open
      cell is Open. */
  lemma {:induction false} ReachedOpen(f: seq<int>, s: seq<CellState>, columns: int, rows: int, p: seq<(int, int)>)
    requires columns * rows <= |f| && columns * rows <= |s|
    requires FloodClosed(f, s, columns, rows)
    requires ZeroPath(f, columns, rows, p) && s[Idx(columns, rows, p[0].0, p[0].1)] == Open
    ensures s[Idx(columns, rows, p[|p| - 1].0, p[|p| - 1].1)] == Open
    decreases |p|
  {
    if |p| > 1 {
      var q := p[..|p| - 1];
      assert ZeroPath(f, columns, rows, q);
      ReachedOpen(f, s, columns, rows, q);
      var c := p[|p| - 2];
      assert NeighboursOpen(s, columns, rows, c.0, c.1);
    }
  }

  /** Opening a neighbour of (x, y) keeps every change next to (x, y). */
  lemma NearStep(before: seq<CellState>, s: seq<CellState>, columns: int, rows: int,
                 x: int, y: int, nx: int, ny: int)
    requires columns * rows <= |before| == |s|
    requires OpensNear(before, s, columns, rows, x, y)
    requires InGrid(columns, rows, nx, ny) && Near(x, y, nx, ny)
    ensures OpensNear(before, s[Idx(columns, rows, nx, ny) := Open], columns, rows, x, y)
  {
    var n := Idx(columns, rows, nx, ny);
    forall a, b | InGrid(columns, rows, a, b)
      && s[n := Open][Idx(columns, rows, a, b)] != before[Idx(columns, rows, a, b)]
      ensures Near(x, y, a, b)
    {
      IdxInjective(columns, rows, a, b, nx, ny);
    }
  }

  /** One slot of the scan around (x, y) changes at most the neighbour at
      offset (sx, sy). */
  lemma NearScan(before: seq<CellState>, s: seq<CellState>, t: seq<CellState>,
                 columns: int, rows: int, x: int, y: int, sx: int, sy: int)
    requires columns * rows <= |before| == |s|
    requires -1 <= sx <= 1 && -1 <= sy <= 1
    requires OpensNear(before, s, columns, rows, x, y)
    requires t ==
      if !(sx == 0 && sy == 0) && InGrid(columns, rows, x + sx, y + sy)
         && s[Idx(columns, rows, x + sx, y + sy)] != Open
      then s[Idx(columns, rows, x + sx, y + sy) := Open]
      else s
    ensures OpensNear(before, t, columns, rows, x, y)
  {
    if t != s {
      NearStep(before, s, columns, rows, x, y, x + sx, y + sy);
    }
  }

  /** What the scan around an Open empty cell opens is reached from it. */
  lemma NearGrown(f: seq<int>, before: seq<CellState>, s: seq<CellState>,
                  columns: int, rows: int, x: int, y: int)
    requires columns * rows <= |f| && columns * rows <= |before| == |s|
    requires InGrid(columns, rows, x, y) && OpensNear(before, s, columns, rows, x, y)
    requires before[Idx(columns, rows, x, y)] == Open && f[Idx(columns, rows, x, y)] == 0
    ensures Grown(f, before, s, columns, rows)
  {
    forall a, b | InGrid(columns, rows, a, b)
      && s[Idx(columns, rows, a, b)] != before[Idx(columns, rows, a, b)]
      ensures Reachable(f, before, columns, rows, a, b)
    {
      assert ZeroPath(f, columns, rows, [(x, y), (a, b)]);
    }
  }

  /** Growth composes: what a second step opens is reached from what the
      first step left Open, hence from what was Open at the start. */
  lemma GrownTrans(f: seq<int>, a: seq<CellState>, b: seq<CellState>, c: seq<CellState>,
                   columns: int, rows: int)
    requires columns * rows <= |f| && columns * rows <= |a| == |b| == |c|
    requires OnlyOpens(a, b) && OnlyOpens(b, c)
    requires Grown(f, a, b, columns, rows) && Grown(f, b, c, columns, rows)
    ensures Grown(f, a, c, columns, rows)
  {
    forall x, y | InGrid(columns, rows, x, y)
      && c[Idx(columns, rows, x, y)] != a[Idx(columns, rows, x, y)]
      ensures Reachable(f, a, columns, rows, x, y)
    {
      var i := Idx(columns, rows, x, y);
      if b[i] == a[i] {
        var p: seq<(int, int)> :| ZeroPath(f, columns, rows, p)
          && b[Idx(columns, rows, p[0].0, p[0].1)] == Open && p[|p| - 1] == (x, y);
        var j := Idx(columns, rows, p[0].0, p[0].1);
        if a[j] != Open {
          assert b[j] != a[j];
          var q: seq<(int, int)> :| ZeroPath(f, columns, rows, q)
            && a[Idx(columns, rows, q[0].0, q[0].1)] == Open && q[|q| - 1] == p[0];
          PathJoin(f, columns, rows, q, p);
        }
      }
    }
  }

  /** The cells a complete fill leaves Open are those Open before and those
      reached from them through empty cells. */
  lemma FillResult(f: seq<int>, before: seq<CellState>, s: seq<CellState>, columns: int, rows: int)
    requires columns * rows <= |f| && columns * rows <= |before| == |s|
    requires OnlyOpens(before, s) && Grown(f, before, s, columns, rows)
    requires FloodClosed(f, s, columns, rows)
    ensures forall x, y :: InGrid(columns, rows, x, y) ==>
      (s[Idx(columns, rows, x, y)] == Open <==>
        before[Idx(columns, rows, x, y)] == Open || Reachable(f, before, columns, rows, x, y))
  {
    forall x, y | InGrid(columns, rows, x, y) && Reachable(f, before, columns, rows, x, y)
      ensures s[Idx(columns, rows, x, y)] == Open
    {
      var p: seq<(int, int)> :| ZeroPath(f, columns, rows, p)
        && before[Idx(columns, rows, p[0].0, p[0].1)] == Open && p[|p| - 1] == (x, y);
      ReachedOpen(f, s, columns, rows, p);
    }
  }

  /** Opening the closed cell (x, y) of a completely filled board and
      filling from there opens exactly the cells connected to (x, y)
      through empty cells. */
  lemma ClickRegion(f: seq<int>, s: seq<CellState>, columns: int, rows: int, x: int, y: int)
    requires columns * rows <= |f| && columns * rows <= |s|
    requires FloodClosed(f, s, columns, rows) && InGrid(columns, rows, x, y)
    ensures var m := s[Idx(columns, rows, x, y) := Open];
      forall a, b :: InGrid(columns, rows, a, b) ==>
        (m[Idx(columns, rows, a, b)] == Open || Reachable(f, m, columns, rows, a, b) <==>
          s[Idx(columns, rows, a, b)] == Open || Connected(f, columns, rows, x, y, a, b))
  {
    var i := Idx(columns, rows, x, y);
    var m := s[i := Open];
    forall a, b | InGrid(columns, rows, a, b)
      ensures m[Idx(columns, rows, a, b)] == Open || Reachable(f, m, columns, rows, a, b) <==>
              s[Idx(columns, rows, a, b)] == Open || Connected(f, columns, rows, x, y, a, b)
    {
      if m[Idx(columns, rows, a, b)] == Open && s[Idx(columns, rows, a, b)] != Open {
        IdxInjective(columns, rows, a, b, x, y);
        assert ZeroPath(f, columns, rows, [(x, y)]);
      }
      if Reachable(f, m, columns, rows, a, b) && s[Idx(columns, rows, a, b)] != Open {
        var p: seq<(int, int)> :| ZeroPath(f, columns, rows, p)
          && m[Idx(columns, rows, p[0].0, p[0].1)] == Open && p[|p| - 1] == (a, b);
        IdxInjective(columns, rows, p[0].0, p[0].1, x, y);
        if s[Idx(columns, rows, p[0].0, p[0].1)] == Open {
          ReachedOpen(f, s, columns, rows, p);
        }
      }
    }
  }

  /** The statuses after the empty cell (x, y) is clicked: a grid cell is
      Open exactly when it was Open before or is connected to (x, y) through
      empty cells (the cell's empty region and the numbered cells bordering
      it); cells past the grid do not change. */
  ghost predicate ClickOpened(f: seq<int>, before: seq<CellState>, s: seq<CellState>,
                              columns: int, rows: int, x: int, y: int)
    requires columns * rows <= |f| && columns * rows <= |before| == |s|
  {
    (forall i :: 0 <= i < |s| && columns * rows <= i ==> s[i] == before[i])
    && forall a, b :: InGrid(columns, rows, a, b) ==>
         (s[Idx(columns, rows, a, b)] == Open <==>
           before[Idx(columns, rows, a, b)] == Open || Connected(f, columns, rows, x, y, a, b))
  }

  /** Opening the closed cell (x, y) of a completely filled board and then
      running the fill to completion gives the statuses ClickOpened names. */
  lemma ClickResult(f: seq<int>, before: seq<CellState>, s: seq<CellState>,
                    columns: int, rows: int, x: int, y: int)
    requires columns * rows <= |f| && columns * rows <= |before| == |s|
    requires FloodClosed(f, before, columns, rows) && InGrid(columns, rows, x, y)
    requires OnlyOpens(before[Idx(columns, rows, x, y) := Open], s)
    requires Grown(f, before[Idx(columns, rows, x, y) := Open], s, columns, rows)
    requires FloodClosed(f, s, columns, rows)
    ensures ClickOpened(f, before, s, columns, rows, x, y)
  {
    var m := before[Idx(columns, rows, x, y) := Open];
    FillResult(f, m, s, columns, rows);
    ClickRegion(f, before, columns, rows, x, y);
  }

  /** The game's global state: the grid size chosen by the difficulty menu,
      the two static arrays, the mine count, the score and the screen. */
  class Board {
    var columns: int
    var rows: int
    /** Per cell: Mine or the number of mines around it. */
    const field: array<int>
    /** Per cell: Open, Close or Flag. */
    const state: array<CellState>
    var bombs: int
    var score: int
    var screen: Screen

    /** The grid fits the static arrays. */
    ghost predicate Sized()
      reads this`columns, this`rows
    {
      1 <= columns <= MaxColumns && 1 <= rows <= MaxRows && columns * rows <= MaxCells
      && field.Length == MaxCells && state.Length == MaxCells
    }

    /** Grid and array sizes, and the adjacency invariant. */
    ghost predicate Shaped()
      reads this`columns, this`rows, field
    {
      Sized() && Consistent(field[..], columns, rows)
    }

    /** The invariant every action keeps: the flood fill is complete and no
        more cells are flagged than there are mines. */
    ghost predicate Valid()
      reads this`columns, this`rows, this`bombs, field, state
    {
      Shaped()
      && FloodClosed(field[..], state[..], columns, rows)
      && |FlagCells(state[..], columns * rows)| <= bombs
    }

    /** The state before any game: the largest grid, every field value 0
        and every status OPEN (the zero value of the status enumeration),
        no mines, on the main menu. */
    constructor ()
      ensures Valid() && screen == Menu && score == 0 && bombs == 0
      ensures columns == MaxColumns && rows == MaxRows
      ensures forall i :: 0 <= i < MaxCells ==> field[i] == 0 && state[i] == Open
      ensures fresh(field) && fresh(state)
    {
      columns, rows := MaxColumns, MaxRows;
      field := new int[MaxCells](_ => 0);
      state := new CellState[MaxCells](_ => Open);
      bombs, score := 0, 0;
      screen := Menu;
      new;
      EmptyConsistent(field[..], columns, rows);
      assert FlagCells(state[..], columns * rows) == {};
    }

    /** Every cell of both arrays, not only those of the grid, gets value 0
        and status Close. */
    method ResetCells()
      requires Sized()
      modifies field, state
      ensures forall i :: 0 <= i < MaxCells ==> field[i] == 0 && state[i] == Close
    {
      var i := 0;
      while i < MaxCells
        invariant 0 <= i <= MaxCells
        invariant forall j :: 0 <= j < i ==> field[j] == 0 && state[j] == Close
      {
        field[i] := 0;
        state[i] := Close;
        i := i + 1;
      }
    }

    /** Draws a cell with random_number(0, cells - 1) from the next roll,
        and again while the drawn cell is already a mine.  Returns the first
        drawn cell that is not a mine and the number of rolls used so far;
        every draw before it hit a mine. */
    method DrawFree(cells: int, rolls: seq<nat>, k0: nat, ghost cands: seq<int>,
                    ghost mines: set<int>, ghost free: nat)
      returns (c: int, k: nat)
      requires 1 <= cells <= MaxCells == field.Length
      requires |cands| == |rolls|
      requires forall j :: 0 <= j < |rolls| ==> cands[j] == RandomNumber(0, cells - 1, rolls[j])
      requires k0 <= free < |rolls| && cands[free] !in mines
      requires forall j :: 0 <= j < MaxCells ==> (field[j] == Mine <==> j in mines)
      ensures k0 < k <= |rolls| && 0 <= c < cells && c == cands[k - 1] && c !in mines
      ensures forall j :: k0 <= j < k - 1 ==> cands[j] in mines
    {
      c := RandomNumber(0, cells - 1, rolls[k0]);
      k := k0 + 1;
      while field[c] == Mine
        invariant k0 < k <= free + 1 && c == cands[k - 1] && 0 <= c < cells
        invariant forall j :: k0 <= j < k - 1 ==> cands[j] in mines
        decreases free + 1 - k
      {
        c := RandomNumber(0, cells - 1, rolls[k]);
        k := k + 1;
      }
    }

    /** Sets the mine count from the grid size and places that many mines,
        each on a cell drawn by DrawFree. */
    method PlaceMines(rolls: seq<nat>)
      requires Sized() && Enough(rolls, columns * rows)
      requires forall i :: 0 <= i < MaxCells ==> field[i] == 0
      modifies field, this`bombs
      ensures bombs == BombCount(columns * rows)
      ensures forall i :: 0 <= i < MaxCells ==>
        field[i] == (if i in Mines(rolls, columns * rows) then Mine else 0)
    {
      var cells := columns * rows;
      bombs := BombCount(cells);
      ghost var cands := Candidates(rolls, cells);
      ghost var mines: set<int> := {};
      DrawnStart(cands, bombs);
      var k := 0;
      var i := 0;
      while i < bombs
        invariant 0 <= i <= bombs == BombCount(cells) <= |Elems(cands)|
        invariant Drawn(cands, bombs, k, mines) && |mines| == i
        invariant forall j :: 0 <= j < MaxCells ==> field[j] == (if j in mines then Mine else 0)
        decreases bombs - i
      {
        ghost var free := FreeAhead(cands, bombs, k, mines);
        var c, k' := DrawFree(cells, rolls, k, cands, mines, free);
        DrawRun(cands, bombs, k, k', mines);
        field[c] := Mine;
        mines := mines + {c};
        k, i := k', i + 1;
      }
      DrawnAll(cands, bombs, k, mines);
    }

    /** Writes into every grid cell that is not a mine the number of mines
        around it, scanning row by row.  Mines stay where they are; cells
        past the grid are untouched. */
    method FillCounts()
      requires Sized()
      modifies field
      ensures Consistent(field[..], columns, rows)
      ensures forall i :: 0 <= i < MaxCells ==> (field[i] == Mine <==> old(field[i]) == Mine)
      ensures forall i :: columns * rows <= i < MaxCells ==> field[i] == old(field[i])
    {
      ghost var placed := field[..];
      CountingStart(placed, columns, rows);
      var y := 0;
      while y < rows
        invariant 0 <= y <= rows
        invariant Counting(placed, field[..], columns, rows, 0, y)
      {
        var x := 0;
        while x < columns
          invariant 0 <= x <= columns
          invariant Counting(placed, field[..], columns, rows, x, y)
        {
          var i := Idx(columns, rows, x, y);
          if field[i] != Mine {
            CountingStore(placed, field[..], columns, rows, x, y);
            var n := CountMinesAround(x, y);
            field[i] := n;
          } else {
            CountingSkip(placed, field[..], columns, rows, x, y);
          }
          x := x + 1;
        }
        CountingRow(placed, field[..], columns, rows, y);
        y := y + 1;
      }
      CountingDone(placed, field[..], columns, rows);
    }

    /** init_field: a new game on the current grid size.  Every cell is
        closed, exactly BombCount(cells) distinct cells (the ones the rolls
        pick) are mines, and every other cell of the grid holds its count. */
    method InitField(rolls: seq<nat>)
      requires Sized() && Enough(rolls, columns * rows)
      modifies field, state, this`bombs
      ensures Valid()
      ensures bombs == BombCount(columns * rows) && |MineCells(field[..])| == bombs
      ensures MineCells(field[..]) == Mines(rolls, columns * rows)
      ensures forall i :: 0 <= i < MaxCells ==> state[i] == Close
      ensures forall i :: columns * rows <= i < MaxCells ==> field[i] == 0
    {
      ResetCells();
      PlaceMines(rolls);
      FillCounts();
      MinesPlaced(rolls, columns * rows);
      assert MineCells(field[..]) == Mines(rolls, columns * rows);
      assert FlagCells(state[..], columns * rows) == {};
    }

    /** The number of flagged cells in the grid. */
    method CountFlags() returns (n: int)
      requires Sized()
      ensures n == |FlagCells(state[..], columns * rows)|
    {
      n := 0;
      var i := 0;
      while i < columns * rows
        invariant 0 <= i <= columns * rows
        invariant n == |FlagCells(state[..], i)|
      {
        assert FlagCells(state[..], i + 1)
            == FlagCells(state[..], i) + (if state[i] == Flag then {i} else {});
        if state[i] == Flag {
          n := n + 1;
        }
        i := i + 1;
      }
    }

    /** Whether every cell of the grid that is not a mine is Open. */
    method CheckWin() returns (won: bool)
      requires Sized()
      ensures won <==> Won(field[..], state[..], columns * rows)
    {
      var cells := columns * rows;
      var i := 0;
      while i < cells
        invariant 0 <= i <= cells
        invariant forall j :: 0 <= j < i && field[j] != Mine ==> state[j] == Open
      {
        if field[i] == Mine {
        } else if state[i] != Open {
          return false;
        }
        i := i + 1;
      }
      return true;
    }

    /** The game is lost: every mine of the grid is opened and the screen
        switches to Lose; no other cell changes. */
    method ProcessLose()
      requires Valid()
      modifies state, this`screen
      ensures Valid() && screen == Lose
      ensures forall i :: 0 <= i < MaxCells ==>
        state[i] == (if i < columns * rows && field[i] == Mine then Open else old(state[i]))
    {
      var i := 0;
      while i < columns * rows
        invariant 0 <= i <= columns * rows
        invariant forall j :: 0 <= j < MaxCells ==>
          state[j] == (if j < i && field[j] == Mine then Open else old(state[j]))
      {
        if field[i] == Mine {
          state[i] := Open;
        }
        i := i + 1;
      }
      screen := Lose;
      assert OnlyOpens(old(state[..]), state[..]);
      FlagsShrink(old(state[..]), state[..], columns * rows);
      ClosedKept(field[..], old(state[..]), state[..], columns, rows);
    }

    /** The number of mines around (x, y), counted over the 3x3 block as the
        game does. */
    method CountMinesAround(x: int, y: int) returns (n: int)
      requires columns * rows <= field.Length
      requires InGrid(columns, rows, x, y)
      ensures n == MinesAround(field[..], columns, rows, x, y)
    {
      ghost var f := field[..];
      ghost var k := 0;
      n := 0;
      var sy := -1;
      while sy <= 1
        invariant -1 <= sy <= 2 && k == (sy + 1) * 3
        invariant n == MinesBefore(f, columns, rows, x, y, k)
      {
        var sx := -1;
        while sx <= 1
          invariant -1 <= sx <= 2 && k == (sy + 1) * 3 + sx + 1
          invariant n == MinesBefore(f, columns, rows, x, y, k)
        {
          MinesStep(f, columns, rows, x, y, sx, sy);
          if !(sx == 0 && sy == 0) && 0 <= x + sx < columns && 0 <= y + sy < rows {
            if field[Idx(columns, rows, x + sx, y + sy)] == Mine {
              n := n + 1;
            }
          }
          sx, k := sx + 1, k + 1;
        }
        sy := sy + 1;
      }
    }

    /** Opens every in-grid neighbour of the empty cell (x, y) that is not
        Open (a flagged one too), adding 1 to the score for each. */
    method OpenAround(x: int, y: int) returns (changed: bool)
      requires Shaped() && InGrid(columns, rows, x, y)
      requires field[Idx(columns, rows, x, y)] == 0
      modifies state, this`score
      ensures Shaped()
      ensures OnlyOpens(old(state[..]), state[..])
      ensures changed <==> Opened(old(state[..]), state[..]) != {}
      ensures score == old(score) + |Opened(old(state[..]), state[..])|
      ensures MinesKept(field[..], old(state[..]), state[..])
      ensures NeighboursOpen(state[..], columns, rows, x, y)
      ensures OpensNear(old(state[..]), state[..], columns, rows, x, y)
    {
      ghost var before := state[..];
      ghost var f := field[..];
      assert MinesAround(f, columns, rows, x, y) == 0;
      OpeningStart(f, before, columns, rows, x, y);
      changed := false;
      var sy := -1;
      while sy <= 1
        invariant -1 <= sy <= 2
        invariant Opening(f, before, state[..], columns, rows, x, y, (sy + 1) * 3,
                          changed, score - old(score))
        invariant OpensNear(before, state[..], columns, rows, x, y)
      {
        var sx := -1;
        while sx <= 1
          invariant -1 <= sx <= 2
          invariant Opening(f, before, state[..], columns, rows, x, y, (sy + 1) * 3 + sx + 1,
                            changed, score - old(score))
          invariant OpensNear(before, state[..], columns, rows, x, y)
        {
          ghost var s := state[..];
          changed := OpenNeighbour(x, y, sx, sy, f, before, old(score), changed);
          NearScan(before, s, state[..], columns, rows, x, y, sx, sy);
          sx := sx + 1;
        }
        sy := sy + 1;
      }
      SlotsOpenAll(state[..], columns, rows, x, y);
    }

    /** One step of the scan around the empty cell (x, y): the neighbour at
        offset (sx, sy), when it is in the grid and not Open, is opened and
        scores a point. */
    method OpenNeighbour(x: int, y: int, sx: int, sy: int, ghost f: seq<int>,
                         ghost before: seq<CellState>, ghost score0: int, changed: bool)
      returns (changed': bool)
      requires columns * rows <= state.Length && f == field[..] && |before| == state.Length == |f|
      requires InGrid(columns, rows, x, y) && MinesAround(f, columns, rows, x, y) == 0
      requires -1 <= sx <= 1 && -1 <= sy <= 1
      requires Opening(f, before, state[..], columns, rows, x, y, (sy + 1) * 3 + sx + 1,
                       changed, score - score0)
      modifies state, this`score
      ensures Opening(f, before, state[..], columns, rows, x, y, (sy + 1) * 3 + sx + 2,
                      changed', score - score0)
      ensures state[..] ==
        if !(sx == 0 && sy == 0) && InGrid(columns, rows, x + sx, y + sy)
           && old(state[Idx(columns, rows, x + sx, y + sy)]) != Open
        then old(state[..])[Idx(columns, rows, x + sx, y + sy) := Open]
        else old(state[..])
    {
      ghost var s := state[..];
      ghost var gained := score - score0;
      changed' := changed;
      if !(sx == 0 && sy == 0) && 0 <= x + sx < columns && 0 <= y + sy < rows
         && state[Idx(columns, rows, x + sx, y + sy)] != Open
      {
        var n := Idx(columns, rows, x + sx, y + sy);
        OpenSlot(f, before, s, columns, rows, x, y, sx, sy, changed, gained, n);
        state[n] := Open;
        assert state[..] == s[n := Open];
        changed' := true;
        score := score + 1;
      } else {
        SlotSkip(f, before, s, columns, rows, x, y, sx, sy, changed, gained);
      }
    }

    /** One pass of the fill over the grid, row by row: every Open cell
        with count 0 opens its neighbours.  `run` tells whether anything
        was opened; a pass that opens nothing leaves the fill complete. */
    method FillPass() returns (run: bool)
      requires Shaped()
      modifies state, this`score
      ensures Shaped()
      ensures OnlyOpens(old(state[..]), state[..])
      ensures run <==> Opened(old(state[..]), state[..]) != {}
      ensures score == old(score) + |Opened(old(state[..]), state[..])|
      ensures MinesKept(field[..], old(state[..]), state[..])
      ensures !run ==> FloodClosed(field[..], state[..], columns, rows)
      ensures Grown(field[..], old(state[..]), state[..], columns, rows)
      ensures forall x, y ::
        (InGrid(columns, rows, x, y) && old(state[..])[Idx(columns, rows, x, y)] == Open
         && field[Idx(columns, rows, x, y)] == 0) ==>
        NeighboursOpen(state[..], columns, rows, x, y)
    {
      ghost var before := state[..];
      FillingStart(field[..], before, columns, rows);
      run := false;
      var y := 0;
      while y < rows
        invariant 0 <= y <= rows
        invariant Filling(field[..], before, state[..], columns, rows, 0, y, run, score - old(score))
        invariant Grown(field[..], before, state[..], columns, rows)
        invariant PassScanned(field[..], before, state[..], columns, rows, 0, y)
      {
        var x := 0;
        while x < columns
          invariant 0 <= x <= columns
          invariant Filling(field[..], before, state[..], columns, rows, x, y, run, score - old(score))
          invariant Grown(field[..], before, state[..], columns, rows)
          invariant PassScanned(field[..], before, state[..], columns, rows, x, y)
        {
          var i := Idx(columns, rows, x, y);
          if state[i] == Open && field[i] == 0 {
            ghost var mid := state[..];
            ghost var gained := score - old(score);
            var changed := OpenAround(x, y);
            FillingOpen(field[..], before, mid, state[..], columns, rows, x, y, run, gained, changed);
            NearGrown(field[..], mid, state[..], columns, rows, x, y);
            GrownTrans(field[..], before, mid, state[..], columns, rows);
            PassOpen(field[..], before, mid, state[..], columns, rows, x, y);
            run := run || changed;
          } else {
            FillingSkip(field[..], before, state[..], columns, rows, x, y, run, score - old(score));
            PassSkip(field[..], before, state[..], columns, rows, x, y);
          }
          x := x + 1;
        }
        FillingRow(field[..], before, state[..], columns, rows, y, run, score - old(score));
        PassRow(field[..], before, state[..], columns, rows, y);
        y := y + 1;
      }
      FillingDone(field[..], before, state[..], columns, rows, run, score - old(score));
    }

    /** open_empty_cells: repeat passes until one opens nothing.  Only
        cells that were not Open change, all to Open; no mine is opened;
        the score grows by the number of cells opened; afterwards every
        Open cell with count 0 has all its neighbours Open. */
    method OpenEmptyCells()
      requires Shaped()
      modifies state, this`score
      ensures Shaped()
      ensures OnlyOpens(old(state[..]), state[..])
      ensures score == old(score) + |Opened(old(state[..]), state[..])|
      ensures MinesKept(field[..], old(state[..]), state[..])
      ensures FloodClosed(field[..], state[..], columns, rows)
      ensures Grown(field[..], old(state[..]), state[..], columns, rows)
      ensures forall x, y :: InGrid(columns, rows, x, y) ==>
        (state[..][Idx(columns, rows, x, y)] == Open <==>
          old(state[..])[Idx(columns, rows, x, y)] == Open
          || Reachable(field[..], old(state[..]), columns, rows, x, y))
    {
      var run := true;
      while run
        invariant Shaped()
        invariant OnlyOpens(old(state[..]), state[..])
        invariant score == old(score) + |Opened(old(state[..]), state[..])|
        invariant MinesKept(field[..], old(state[..]), state[..])
        invariant !run ==> FloodClosed(field[..], state[..], columns, rows)
        invariant Grown(field[..], old(state[..]), state[..], columns, rows)
        decreases |NotOpen(state[..])|, run
      {
        ghost var mid := state[..];
        run := FillPass();
        MinesKeptTrans(field[..], old(state[..]), mid, state[..]);
        OpenedCompose(old(state[..]), mid, state[..]);
        OnlyOpensTrans(old(state[..]), mid, state[..]);
        NotOpenShrinks(mid, state[..]);
        GrownTrans(field[..], old(state[..]), mid, state[..], columns, rows);
      }
      FillResult(field[..], old(state[..]), state[..], columns, rows);
    }

    /** Left-click release on cell (x, y) while playing, as render_field
        handles it: a closed cell is opened.  An empty cell (count 0) starts
        the flood fill, whose newly opened cells score a point each (the
        clicked cell itself scores nothing); a numbered cell scores one
        point; a mine loses the game.  Otherwise the game is won once every
        cell that is not a mine is Open.  Open and flagged cells, and any
        click outside a game, change nothing. */
    method Reveal(x: int, y: int)
      requires Valid() && InGrid(columns, rows, x, y)
      modifies state, this`score, this`screen
      ensures Valid()
      ensures var i := Idx(columns, rows, x, y);
        if old(screen) != Game || old(state[i]) != Close then
          state[..] == old(state[..]) && score == old(score) && screen == old(screen)
        else if field[i] == Mine then
          screen == Lose && score == old(score)
          && forall j :: 0 <= j < MaxCells ==>
               state[j] == (if j < columns * rows && field[j] == Mine then Open else old(state[j]))
        else
          state[i] == Open && OnlyOpens(old(state[..]), state[..])
          && MinesKept(field[..], old(state[..]), state[..])
          && (field[i] != 0 ==> state[..] == old(state[..])[i := Open] && score == old(score) + 1)
          && (field[i] == 0 ==> score == old(score) + |Opened(old(state[..]), state[..])| - 1)
          && (field[i] == 0 ==> ClickOpened(field[..], old(state[..]), state[..], columns, rows, x, y))
          && screen == (if Won(field[..], state[..], columns * rows) then Win else Game)
    {
      var i := Idx(columns, rows, x, y);
      if screen != Game || state[i] != Close {
        return;
      }
      OpenCell(x, y);
      if field[i] == Mine {
        ProcessLose();
      } else {
        var won := CheckWin();
        if won {
          screen := Win;
        }
      }
    }

    /** Opens the closed grid cell (x, y); an empty one starts the flood
        fill, which opens exactly the cells connected to it through empty
        cells.  The cell scores a point when it holds a number, the fill's
        newly opened cells a point each. */
    method OpenCell(x: int, y: int)
      requires Valid() && InGrid(columns, rows, x, y)
      requires state[Idx(columns, rows, x, y)] == Close
      modifies state, this`score
      ensures Valid() && OnlyOpens(old(state[..]), state[..])
      ensures var i := Idx(columns, rows, x, y); state[i] == Open
      ensures var i := Idx(columns, rows, x, y);
        field[i] != 0 ==> state[..] == old(state[..])[i := Open]
      ensures var i := Idx(columns, rows, x, y);
        field[i] != 0 ==> score == old(score) + (if field[i] == Mine then 0 else 1)
      ensures var i := Idx(columns, rows, x, y);
        field[i] == 0 ==> MinesKept(field[..], old(state[..]), state[..])
      ensures var i := Idx(columns, rows, x, y);
        field[i] == 0 ==> score == old(score) + |Opened(old(state[..]), state[..])| - 1
      ensures var i := Idx(columns, rows, x, y);
        field[i] == 0 ==> ClickOpened(field[..], old(state[..]), state[..], columns, rows, x, y)
    {
      var i := Idx(columns, rows, x, y);
      ghost var before := state[..];
      state[i] := Open;
      OpenOne(before, before, i);
      ghost var mid := state[..];
      if field[i] == 0 {
        OpenEmptyCells();
        OpenedCompose(before, mid, state[..]);
        OnlyOpensTrans(before, mid, state[..]);
        MinesKeptTrans(field[..], before, mid, state[..]);
        ClickResult(field[..], before, state[..], columns, rows, x, y);
      } else {
        if field[i] != Mine {
          score := score + 1;
        }
        ClosedKept(field[..], before, state[..], columns, rows);
      }
      FlagsShrink(before, state[..], columns * rows);
    }

    /** Right-click release on cell (x, y) while playing, as render_field
        handles it: an Open cell does not change; a closed cell is flagged
        while fewer cells are flagged than there are mines, and otherwise
        set (or left) Close; a flagged cell is closed again. */
    method ToggleFlag(x: int, y: int)
      requires Valid() && InGrid(columns, rows, x, y)
      modifies state
      ensures Valid()
      ensures var i := Idx(columns, rows, x, y);
        state[..] ==
          if old(screen) != Game || old(state[i]) == Open then old(state[..])
          else if old(state[i]) == Close && |FlagCells(old(state[..]), columns * rows)| < bombs
          then old(state[..])[i := Flag]
          else old(state[..])[i := Close]
    {
      var i := Idx(columns, rows, x, y);
      if screen != Game || state[i] == Open {
        return;
      }
      ghost var before := state[..];
      var n := CountFlags();
      if state[i] == Close && n < bombs {
        state[i] := Flag;
        FlagOne(before, i, columns * rows);
      } else {
        if state[i] == Flag {
          UnflagOne(before, i, columns * rows);
        } else {
          assert before[i := Close] == before;
        }
        state[i] := Close;
      }
      ClosedKept(field[..], before, state[..], columns, rows);
    }

    /** A button released on the current screen.  The screen follows Step;
        a preset on the difficulty menu sets the grid size; a preset, or
        "Play again" after a game, resets the score and generates a new
        field from the rolls.  Any other button leaves the field, the
        statuses, the mine count and the score as they were. */
    method Press(b: Button, rolls: seq<nat>)
      requires Valid()
      requires Regenerates(screen, b) ==>
        Enough(rolls, NextColumns(screen, b, columns) * NextRows(screen, b, rows))
      modifies this`columns, this`rows, this`score, this`screen, this`bombs, field, state
      ensures Valid()
      ensures screen == Step(old(screen), b)
      ensures columns == NextColumns(old(screen), b, old(columns))
      ensures rows == NextRows(old(screen), b, old(rows))
      ensures Regenerates(old(screen), b) ==>
        score == 0 && bombs == BombCount(columns * rows)
        && MineCells(field[..]) == Mines(rolls, columns * rows)
        && forall i :: 0 <= i < MaxCells ==> state[i] == Close
      ensures !Regenerates(old(screen), b) ==>
        field[..] == old(field[..]) && state[..] == old(state[..])
        && score == old(score) && bombs == old(bombs)
    {
      var next := Step(screen, b);
      if Regenerates(screen, b) {
        columns, rows := NextColumns(screen, b, columns), NextRows(screen, b, rows);
        score := 0;
        InitField(rolls);
      }
      screen := next;
    }
  }
}
